/**
 The `lazy` module of whorl: `Lazy<T>`, a cell initialised at most once, used
 to build the single global runtime on first access. The `std::sync::Once`
 guarding it is modelled by its three states; the raw storage by an `Option`.
 */
module LazyCell {
  import opened Wrappers

  /** The states of a `std::sync::Once`: not yet run, its closure panicked, or done. */
  datatype OnceState = Incomplete | Poisoned | Complete

  /** `Lazy<T>`: the `Once` and the slot it guards. */
  datatype Lazy<T> = Lazy(once: OnceState, cell: Option<T>)

  /** The slot holds a value exactly when the `Once` has completed. */
  predicate Consistent<T>(l: Lazy<T>)
  {
    l.once == Complete <==> l.cell.Some?
  }

  /** What one call of the user's factory would do. */
  datatype Factory<T> = Returns(value: T) | Panics

  /** The outcome of one `get_or_init` call: the cell afterwards, the value the
      returned reference points at (None when the call panics), and whether the
      factory was invoked by this call. */
  datatype Access<T> = Access(after: Lazy<T>, got: Option<T>, ran: bool)

  /** `Lazy::new`: an uninitialised cell, so the first `get_or_init` on it
      runs its factory whatever that factory does. */
  function New<T(!new)>(): (l: Lazy<T>)
    ensures Consistent(l) && !IsInitialized(l)
    ensures forall f: Factory<T> :: GetOrInit(l, f).ran
  {
    Lazy(Incomplete, None)
  }

  /** `Lazy::is_initialized`: the `Once` has completed, which on a consistent
      cell is exactly when a value is stored. */
  function IsInitialized<T>(l: Lazy<T>): (b: bool)
    ensures Consistent(l) ==> (b <==> l.cell.Some?)
  {
    l.once == Complete
  }

  /** `Lazy::get_or_init`: runs the factory only when the `Once` has never run;
      a panicking factory poisons the `Once`, and every call on a poisoned
      `Once` panics as well. */
  function GetOrInit<T>(l: Lazy<T>, factory: Factory<T>): (a: Access<T>)
    requires Consistent(l)
    ensures Consistent(a.after)
    ensures a.ran <==> l.once == Incomplete
    ensures IsInitialized(l) ==> a.after == l && a.got == l.cell
    ensures a.got.Some? <==> IsInitialized(a.after)
    ensures a.got.Some? ==> a.got == a.after.cell
    ensures a.got.None? <==> l.once == Poisoned || (a.ran && factory.Panics?)
    ensures a.ran && factory.Returns? ==> a.got == Some(factory.value)
    ensures a.ran && factory.Panics? ==> a.after == Lazy(Poisoned, None)
    ensures l.once == Poisoned ==> a.after == l
  {
    match l.once
    case Complete => Access(l, l.cell, false)
    case Poisoned => Access(l, None, false)
    case Incomplete =>
      match factory
      case Returns(v) => Access(Lazy(Complete, Some(v)), Some(v), true)
      case Panics => Access(Lazy(Poisoned, None), None, true)
  }

  /** A series of `get_or_init` calls on one cell, each offering its own factory. */
  function GetOrInitAll<T>(l: Lazy<T>, factories: seq<Factory<T>>): (r: seq<Access<T>>)
    requires Consistent(l)
    ensures |r| == |factories|
    ensures forall i | 0 <= i < |r| :: Consistent(r[i].after)
    ensures forall i | 0 <= i < |r| :: r[i].got.Some? <==> IsInitialized(r[i].after)
    ensures forall i | 0 <= i < |r| :: r[i].got.Some? ==> r[i].got == r[i].after.cell
    decreases |factories|
  {
    if factories == [] then []
    else
      var a := GetOrInit(l, factories[0]);
      [a] + GetOrInitAll(a.after, factories[1..])
  }

  /** How many calls of a series invoked their factory. */
  function FactoryRuns<T>(r: seq<Access<T>>): nat
  {
    if r == [] then 0 else (if r[0].ran then 1 else 0) + FactoryRuns(r[1..])
  }

  /** The cell after a series of calls. */
  function Final<T>(l: Lazy<T>, r: seq<Access<T>>): Lazy<T>
  {
    if r == [] then l else r[|r| - 1].after
  }

  /** Over any series of calls the factory runs at most once, and not at all
      when the cell was already initialised or poisoned. */
  lemma {:induction false} FactoryRunsAtMostOnce<T>(l: Lazy<T>, factories: seq<Factory<T>>)
    requires Consistent(l)
    ensures FactoryRuns(GetOrInitAll(l, factories)) <= (if l.once == Incomplete then 1 else 0)
    decreases |factories|
  {
    if factories != [] {
      var a := GetOrInit(l, factories[0]);
      var rest := GetOrInitAll(a.after, factories[1..]);
      assert GetOrInitAll(l, factories) == [a] + rest;
      assert ([a] + rest)[1..] == rest;
      FactoryRunsAtMostOnce(a.after, factories[1..]);
    }
  }

  /** From a new cell, a non-empty series of calls runs exactly one factory:
      the first call's, whether it returns or panics. */
  lemma {:induction false} FactoryRunsExactlyOnceFromNew<T(!new)>(factories: seq<Factory<T>>)
    requires factories != []
    ensures FactoryRuns(GetOrInitAll(New<T>(), factories)) == 1
    ensures GetOrInitAll(New<T>(), factories)[0].ran
  {
    var a := GetOrInit(New<T>(), factories[0]);
    var rest := GetOrInitAll(a.after, factories[1..]);
    assert GetOrInitAll(New<T>(), factories) == [a] + rest;
    assert ([a] + rest)[1..] == rest;
    FactoryRunsAtMostOnce(New<T>(), factories);
  }

  /** Once some call of a series has returned a value, every later call returns
      that same value: the stored value never changes. */
  lemma {:induction false} LaterCallsSeeSameValue<T>(l: Lazy<T>, factories: seq<Factory<T>>, i: nat, j: nat)
    requires Consistent(l)
    requires i <= j < |factories|
    requires GetOrInitAll(l, factories)[i].got.Some?
    ensures GetOrInitAll(l, factories)[j].got == GetOrInitAll(l, factories)[i].got
    decreases |factories|
  {
    var a := GetOrInit(l, factories[0]);
    var rest := GetOrInitAll(a.after, factories[1..]);
    assert GetOrInitAll(l, factories) == [a] + rest;
    if i == 0 {
      if j > 0 {
        FirstValueIsKept(a.after, factories[1..], j - 1);
      }
    } else {
      LaterCallsSeeSameValue(a.after, factories[1..], i - 1, j - 1);
    }
  }

  /** Calls on an initialised cell return its stored value and leave it unchanged. */
  lemma {:induction false} FirstValueIsKept<T>(l: Lazy<T>, factories: seq<Factory<T>>, j: nat)
    requires Consistent(l) && IsInitialized(l)
    requires j < |factories|
    ensures GetOrInitAll(l, factories)[j].got == l.cell
    ensures GetOrInitAll(l, factories)[j].after == l
    decreases |factories|
  {
    var a := GetOrInit(l, factories[0]);
    assert a.after == l;
    if j > 0 {
      FirstValueIsKept(l, factories[1..], j - 1);
    }
  }

  /** Calls on a poisoned cell all panic, never run their factory and leave
      the cell as it is. */
  lemma {:induction false} PoisonedCellStaysPoisoned<T>(l: Lazy<T>, factories: seq<Factory<T>>, j: nat)
    requires Consistent(l) && l.once == Poisoned
    requires j < |factories|
    ensures GetOrInitAll(l, factories)[j].got.None?
    ensures !GetOrInitAll(l, factories)[j].ran
    ensures GetOrInitAll(l, factories)[j].after == l
    decreases |factories|
  {
    var a := GetOrInit(l, factories[0]);
    assert a.after == l;
    if j > 0 {
      PoisonedCellStaysPoisoned(l, factories[1..], j - 1);
    }
  }

  /** Once a call of a series has panicked, every later call panics too,
      without running its factory: the cell stays poisoned. */
  lemma {:induction false} PanicPoisonsForever<T>(l: Lazy<T>, factories: seq<Factory<T>>, i: nat, j: nat)
    requires Consistent(l)
    requires i < j < |factories|
    requires GetOrInitAll(l, factories)[i].got.None?
    ensures GetOrInitAll(l, factories)[j].got.None?
    ensures !GetOrInitAll(l, factories)[j].ran
    ensures GetOrInitAll(l, factories)[j].after.once == Poisoned
    decreases |factories|
  {
    var a := GetOrInit(l, factories[0]);
    var rest := GetOrInitAll(a.after, factories[1..]);
    assert GetOrInitAll(l, factories) == [a] + rest;
    if i == 0 {
      assert a.after.once == Poisoned;
      PoisonedCellStaysPoisoned(a.after, factories[1..], j - 1);
    } else {
      PanicPoisonsForever(a.after, factories[1..], i - 1, j - 1);
    }
  }

  /** `Drop for Lazy`: the stored value is destroyed only when the cell was
      initialised; an uninitialised or poisoned cell drops nothing. */
  function Drop<T>(l: Lazy<T>): (destroyed: Option<T>)
    requires Consistent(l)
    ensures destroyed.Some? <==> IsInitialized(l)
    ensures destroyed.Some? ==> destroyed == l.cell
  {
    if IsInitialized(l) then l.cell else None
  }

  /** A fresh cell that went through any series of calls drops exactly the
      value the first successful call stored, or nothing when no call succeeded. */
  lemma {:induction false} DropDestroysFirstStoredValue<T(!new)>(factories: seq<Factory<T>>)
    ensures var r := GetOrInitAll(New<T>(), factories);
      && (Drop(Final(New<T>(), r)).Some? <==> exists i | 0 <= i < |r| :: r[i].got.Some?)
      && (forall i | 0 <= i < |r| && r[i].got.Some? :: Drop(Final(New<T>(), r)) == r[i].got)
  {
    var r := GetOrInitAll(New<T>(), factories);
    if r != [] {
      var last := |r| - 1;
      assert Final(New<T>(), r) == r[last].after;
      forall i | 0 <= i < |r| && r[i].got.Some?
        ensures Drop(Final(New<T>(), r)) == r[i].got
      {
        LaterCallsSeeSameValue(New<T>(), factories, i, last);
      }
      if Drop(r[last].after).Some? {
        NoValueWithoutSuccess(New<T>(), factories);
      }
    }
  }

  /** A cell that starts uninitialised ends initialised only if some call of
      the series returned a value. */
  lemma {:induction false} NoValueWithoutSuccess<T>(l: Lazy<T>, factories: seq<Factory<T>>)
    requires Consistent(l) && !IsInitialized(l)
    requires factories != []
    requires IsInitialized(GetOrInitAll(l, factories)[|factories| - 1].after)
    ensures exists i | 0 <= i < |factories| :: GetOrInitAll(l, factories)[i].got.Some?
    decreases |factories|
  {
    var a := GetOrInit(l, factories[0]);
    var rest := GetOrInitAll(a.after, factories[1..]);
    assert GetOrInitAll(l, factories) == [a] + rest;
    if a.got.Some? {
      assert GetOrInitAll(l, factories)[0].got.Some?;
    } else {
      assert |factories| > 1;
      NoValueWithoutSuccess(a.after, factories[1..]);
      var i :| 0 <= i < |rest| && rest[i].got.Some?;
      assert GetOrInitAll(l, factories)[i + 1].got.Some?;
    }
  }
}
