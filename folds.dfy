/**
  The two accumulations the scraper's loops and comprehensions perform over
  a sequence of outcomes, each either a value or a raised exception: a list
  built in order, and a dict filled key by key. Both stop at the first
  exception, which then escapes.
 */
module Folds {
  import opened Wrappers

  /** Every outcome is a value. */
  predicate AllSucceed<T, E>(outcomes: seq<Result<T, E>>) {
    forall k :: 0 <= k < |outcomes| ==> outcomes[k].Success?
  }

  /** `outcomes[k]` is the first exception. */
  predicate FirstFailure<T, E>(outcomes: seq<Result<T, E>>, k: int) {
    0 <= k < |outcomes| && outcomes[k].Failure? && forall j :: 0 <= j < k ==> outcomes[j].Success?
  }

  // ---------------------------------------------------------------------
  // A list appended to in order
  // ---------------------------------------------------------------------

  /** `for x in ...: output.append(x)`, ending at the first exception. */
  function Collect<T, E>(outcomes: seq<Result<T, E>>): Result<seq<T>, E>
    decreases |outcomes|
  {
    if outcomes == [] then Success([])
    else
      var n := |outcomes| - 1;
      match Collect(outcomes[..n])
      case Failure(e) => Failure(e)
      case Success(items) =>
        match outcomes[n]
        case Failure(e) => Failure(e)
        case Success(x) => Success(items + [x])
  }

  /** One more value extends the list built so far. */
  lemma CollectStep<T, E>(outcomes: seq<Result<T, E>>, k: int, items: seq<T>)
    requires 0 <= k < |outcomes| && Collect(outcomes[..k]) == Success(items) && outcomes[k].Success?
    ensures Collect(outcomes[..k + 1]) == Success(items + [outcomes[k].value])
  {
    assert outcomes[..k + 1][..k] == outcomes[..k];
  }

  /** The list is built exactly when every outcome is a value, and then holds those values in order. */
  lemma {:induction false} CollectSpec<T, E>(outcomes: seq<Result<T, E>>)
    ensures Collect(outcomes).Success? <==> AllSucceed(outcomes)
    ensures Collect(outcomes).Success? ==>
      && |Collect(outcomes).value| == |outcomes|
      && forall k :: 0 <= k < |outcomes| ==> Collect(outcomes).value[k] == outcomes[k].value
    decreases |outcomes|
  {
    if outcomes != [] {
      var n := |outcomes| - 1;
      var init := outcomes[..n];
      assert forall k :: 0 <= k < n ==> init[k] == outcomes[k];
      CollectSpec(init);
    }
  }

  /** The exception that escapes is the first one. */
  lemma {:induction false} CollectFirstFailure<T, E>(outcomes: seq<Result<T, E>>, k: int)
    requires FirstFailure(outcomes, k)
    ensures Collect(outcomes) == Failure(outcomes[k].error)
    decreases |outcomes|
  {
    var n := |outcomes| - 1;
    var init := outcomes[..n];
    assert forall j :: 0 <= j < n ==> init[j] == outcomes[j];
    if k == n {
      CollectSpec(init);
    } else {
      assert FirstFailure(init, k);
      CollectFirstFailure(init, k);
    }
  }

  // ---------------------------------------------------------------------
  // A dict assigned key by key
  // ---------------------------------------------------------------------

  /** `data[key] = value` for each outcome in order, ending at the first exception. */
  function Assemble<V, E>(entries: seq<Result<(string, V), E>>): Result<map<string, V>, E>
    decreases |entries|
  {
    if entries == [] then Success(map[])
    else
      var n := |entries| - 1;
      match Assemble(entries[..n])
      case Failure(e) => Failure(e)
      case Success(m) =>
        match entries[n]
        case Failure(e) => Failure(e)
        case Success((key, value)) => Success(m[key := value])
  }

  /** One more entry extends the dict built so far. */
  lemma AssembleStep<V, E>(entries: seq<Result<(string, V), E>>, i: int, m: map<string, V>)
    requires 0 <= i < |entries| && Assemble(entries[..i]) == Success(m) && entries[i].Success?
    ensures Assemble(entries[..i + 1]) == Success(m[entries[i].value.0 := entries[i].value.1])
  {
    assert entries[..i + 1][..i] == entries[..i];
  }

  /** No entry after entry `i` has its key. */
  predicate LastWithKey<V, E>(entries: seq<Result<(string, V), E>>, i: int)
    requires AllSucceed(entries) && 0 <= i < |entries|
  {
    forall j :: i < j < |entries| ==> entries[j].value.0 != entries[i].value.0
  }

  /** The dict is built exactly when every entry is a value. */
  lemma {:induction false} AssembleOk<V, E>(entries: seq<Result<(string, V), E>>)
    ensures Assemble(entries).Success? <==> AllSucceed(entries)
    decreases |entries|
  {
    if entries != [] {
      var n := |entries| - 1;
      var init := entries[..n];
      assert forall k :: 0 <= k < n ==> init[k] == entries[k];
      AssembleOk(init);
    }
  }

  /** The exception that escapes is the first one. */
  lemma {:induction false} AssembleFirstFailure<V, E>(entries: seq<Result<(string, V), E>>, k: int)
    requires FirstFailure(entries, k)
    ensures Assemble(entries) == Failure(entries[k].error)
    decreases |entries|
  {
    var n := |entries| - 1;
    var init := entries[..n];
    assert forall j :: 0 <= j < n ==> init[j] == entries[j];
    if k == n {
      AssembleOk(init);
    } else {
      assert FirstFailure(init, k);
      AssembleFirstFailure(init, k);
    }
  }

  /** The keys are exactly the entries' keys. */
  lemma {:induction false} AssembleKeys<V, E>(entries: seq<Result<(string, V), E>>)
    requires AllSucceed(entries)
    ensures Assemble(entries).Success?
    ensures Assemble(entries).value.Keys == set k | 0 <= k < |entries| :: entries[k].value.0
    decreases |entries|
  {
    AssembleOk(entries);
    if entries != [] {
      var n := |entries| - 1;
      var init := entries[..n];
      assert forall k :: 0 <= k < n ==> init[k] == entries[k];
      AssembleKeys(init);
      assert (set k | 0 <= k < |entries| :: entries[k].value.0)
          == (set k | 0 <= k < n :: init[k].value.0) + {entries[n].value.0};
    }
  }

  /** Under a key that occurs more than once, the last entry's value is kept. */
  lemma {:induction false} AssembleLastWins<V, E>(entries: seq<Result<(string, V), E>>)
    requires AllSucceed(entries)
    ensures Assemble(entries).Success?
    ensures forall i :: 0 <= i < |entries| && LastWithKey(entries, i) ==>
      && entries[i].value.0 in Assemble(entries).value
      && Assemble(entries).value[entries[i].value.0] == entries[i].value.1
    decreases |entries|
  {
    AssembleOk(entries);
    if entries != [] {
      var n := |entries| - 1;
      var init := entries[..n];
      assert forall k :: 0 <= k < n ==> init[k] == entries[k];
      AssembleLastWins(init);
      var before := Assemble(init).value;
      var m := Assemble(entries).value;
      assert m == before[entries[n].value.0 := entries[n].value.1];
      forall i | 0 <= i < n && LastWithKey(entries, i)
        ensures entries[i].value.0 in m && m[entries[i].value.0] == entries[i].value.1
      {
        assert LastWithKey(init, i);
      }
    }
  }

  /** Every value in the dict is the value of an entry with that key. */
  lemma {:induction false} AssembleFrom<V, E>(entries: seq<Result<(string, V), E>>)
    requires AllSucceed(entries)
    ensures Assemble(entries).Success?
    ensures forall key :: key in Assemble(entries).value ==>
      exists i :: 0 <= i < |entries| && entries[i] == Success((key, Assemble(entries).value[key]))
    decreases |entries|
  {
    AssembleOk(entries);
    if entries != [] {
      var n := |entries| - 1;
      var init := entries[..n];
      assert forall k :: 0 <= k < n ==> init[k] == entries[k];
      AssembleFrom(init);
      var before := Assemble(init).value;
      var m := Assemble(entries).value;
      assert m == before[entries[n].value.0 := entries[n].value.1];
      forall key | key in m
        ensures exists i :: 0 <= i < |entries| && entries[i] == Success((key, m[key]))
      {
        if key == entries[n].value.0 {
          assert entries[n] == Success((key, m[key]));
        } else {
          var i :| 0 <= i < n && init[i] == Success((key, before[key]));
          assert entries[i] == Success((key, m[key]));
        }
      }
    }
  }
}
