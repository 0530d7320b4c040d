/** Validation of solutions: a batching (which picker collects which
    orders) against the two capacities, and the routes the pickers walk. */
module SolutionChecker {
  import opened Common

  // ---------------------------------------------------------------------
  // Batching
  // ---------------------------------------------------------------------

  datatype BatchMessage =
    | TooManyOrders(picker: int, count: nat, max: int)
    | TooMuchVolume(picker: int, volume: int, max: int)
    | AssignedTwice(order: int)
    | ValidSolution

  /** Python's `s[i]`: a negative index counts from the end. */
  function PyIndex(s: seq<int>, i: int): (v: int)
    requires -|s| <= i < |s|
    ensures exists k :: 0 <= k < |s| && v == s[k] && (k == i || k == |s| + i)
  {
    if i < 0 then s[|s| + i] else s[i]
  }

  /** Every order of the batch can be looked up in `vol`. */
  predicate InRange(vol: seq<int>, orders: seq<int>)
  {
    forall k :: 0 <= k < |orders| ==> -|vol| <= orders[k] < |vol|
  }

  /** The volume a picker carries: the sum of the volumes of its orders,
      counted with multiplicity. */
  function BatchVolume(vol: seq<int>, orders: seq<int>): int
    requires InRange(vol, orders)
  {
    if orders == [] then 0
    else BatchVolume(vol, orders[..|orders| - 1]) + PyIndex(vol, orders[|orders| - 1])
  }

  /** One message for each order of `orders` that is already in `seen` or
      occurred earlier in `orders`, in order. */
  function DuplicatesAfter(seen: set<int>, orders: seq<int>): seq<BatchMessage>
  {
    if orders == [] then []
    else
      var init, o := orders[..|orders| - 1], orders[|orders| - 1];
      DuplicatesAfter(seen, init) + (if o in seen + Elems(init) then [AssignedTwice(o)] else [])
  }

  /** The capacity messages of one picker. */
  function CapacityMessages(p: int, orders: seq<int>, vol: seq<int>, maxNbOrders: int, maxVol: int)
    : seq<BatchMessage>
    requires InRange(vol, orders)
  {
    (if |orders| > maxNbOrders then [TooManyOrders(p, |orders|, maxNbOrders)] else []) +
    (if BatchVolume(vol, orders) > maxVol then [TooMuchVolume(p, BatchVolume(vol, orders), maxVol)] else [])
  }

  /** The messages one picker adds, given the orders seen before it. */
  function PickerMessages(p: int, orders: seq<int>, vol: seq<int>, maxNbOrders: int, maxVol: int, seen: set<int>)
    : seq<BatchMessage>
    requires InRange(vol, orders)
  {
    CapacityMessages(p, orders, vol, maxNbOrders, maxVol) + DuplicatesAfter(seen, orders)
  }

  function BatchVerdict(errors: seq<BatchMessage>): (bool, seq<BatchMessage>)
  {
    if errors == [] then (true, [ValidSolution]) else (false, errors)
  }

  /** What `check_batching_solution` answers as written: the verdict is
      returned from inside the loop, so only the first picker is judged,
      and no picker at all gives no answer. */
  function BatchingAsWritten(batches: seq<(int, seq<int>)>, vol: seq<int>, maxNbOrders: int, maxVol: int)
    : Option<(bool, seq<BatchMessage>)>
    requires |batches| > 0 ==> InRange(vol, batches[0].1)
  {
    if batches == [] then None
    else Some(BatchVerdict(PickerMessages(batches[0].0, batches[0].1, vol, maxNbOrders, maxVol, {})))
  }

  predicate AllInRange(vol: seq<int>, batches: seq<(int, seq<int>)>)
  {
    forall i :: 0 <= i < |batches| ==> InRange(vol, batches[i].1)
  }

  /** All orders of all pickers, picker after picker. */
  function AllOrders(batches: seq<(int, seq<int>)>): seq<int>
  {
    if batches == [] then [] else AllOrders(batches[..|batches| - 1]) + batches[|batches| - 1].1
  }

  /** The messages of every picker, each checked against the orders of the
      pickers before it. */
  function BatchingMessages(batches: seq<(int, seq<int>)>, vol: seq<int>, maxNbOrders: int, maxVol: int)
    : seq<BatchMessage>
    requires AllInRange(vol, batches)
  {
    if batches == [] then []
    else
      var init, last := batches[..|batches| - 1], batches[|batches| - 1];
      BatchingMessages(init, vol, maxNbOrders, maxVol) +
      PickerMessages(last.0, last.1, vol, maxNbOrders, maxVol, Elems(AllOrders(init)))
  }

  /** The evidently intended verdict: every picker judged, the verdict given
      after the loop. */
  function BatchingIntended(batches: seq<(int, seq<int>)>, vol: seq<int>, maxNbOrders: int, maxVol: int)
    : (bool, seq<BatchMessage>)
    requires AllInRange(vol, batches)
  {
    BatchVerdict(BatchingMessages(batches, vol, maxNbOrders, maxVol))
  }

  /** One picker within both capacities. */
  predicate WithinCapacity(orders: seq<int>, vol: seq<int>, maxNbOrders: int, maxVol: int)
    requires InRange(vol, orders)
  {
    |orders| <= maxNbOrders && BatchVolume(vol, orders) <= maxVol
  }

  predicate AllWithinCapacity(batches: seq<(int, seq<int>)>, vol: seq<int>, maxNbOrders: int, maxVol: int)
    requires AllInRange(vol, batches)
  {
    forall i :: 0 <= i < |batches| ==> WithinCapacity(batches[i].1, vol, maxNbOrders, maxVol)
  }

  /** A sound batching: every picker within both capacities and no order
      assigned twice, to one picker or to two. */
  predicate SoundBatching(batches: seq<(int, seq<int>)>, vol: seq<int>, maxNbOrders: int, maxVol: int)
    requires AllInRange(vol, batches)
  {
    AllWithinCapacity(batches, vol, maxNbOrders, maxVol) && NoDuplicates(AllOrders(batches))
  }

  /** No duplicate message exactly when the orders are distinct and none
      was seen before. */
  lemma {:induction false} DuplicatesAfterEmpty(seen: set<int>, orders: seq<int>)
    ensures DuplicatesAfter(seen, orders) == [] <==>
            NoDuplicates(orders) && forall k :: 0 <= k < |orders| ==> orders[k] !in seen
  {
    if orders != [] {
      var init, o := orders[..|orders| - 1], orders[|orders| - 1];
      DuplicatesAfterEmpty(seen, init);
      assert orders == init + [o];
      if NoDuplicates(orders) && forall k :: 0 <= k < |orders| ==> orders[k] !in seen {
        assert forall k :: 0 <= k < |init| ==> init[k] == orders[k];
        assert NoDuplicates(init);
        assert forall k :: 0 <= k < |init| ==> init[k] == orders[k] && orders[k] != orders[|orders| - 1];
        assert o !in Elems(init);
      }
      if DuplicatesAfter(seen, orders) == [] {
        assert DuplicatesAfter(seen, init) == [] && o !in seen + Elems(init);
        forall i, j | 0 <= i < j < |orders|
          ensures orders[i] != orders[j]
        {
          if j == |orders| - 1 {
            assert orders[i] == init[i] && init[i] in Elems(init);
          } else {
            assert orders[i] == init[i] && orders[j] == init[j];
          }
        }
        forall k | 0 <= k < |orders|
          ensures orders[k] !in seen
        {
          if k < |init| {
            assert orders[k] == init[k];
          }
        }
      }
    }
  }

  /** Each repeated order costs one message: the messages and the distinct
      new orders together number the orders. */
  lemma {:induction false} DuplicatesAfterCount(seen: set<int>, orders: seq<int>)
    ensures |DuplicatesAfter(seen, orders)| + |Elems(orders) - seen| == |orders|
  {
    if orders == [] {
      assert Elems(orders) == {};
    } else {
      var init, o := orders[..|orders| - 1], orders[|orders| - 1];
      DuplicatesAfterCount(seen, init);
      ElemsSnoc(orders);
      var novel := Elems(init) - seen;
      if o in seen + Elems(init) {
        assert Elems(orders) - seen == novel;
      } else {
        assert Elems(orders) - seen == novel + {o};
      }
    }
  }

  /** A list without repeats joined to another is without repeats exactly
      when the other is too and the two share nothing. */
  lemma NoDuplicatesAppend(a: seq<int>, b: seq<int>)
    ensures NoDuplicates(a + b) <==>
            NoDuplicates(a) && NoDuplicates(b) && forall k :: 0 <= k < |b| ==> b[k] !in Elems(a)
  {
    var c := a + b;
    if NoDuplicates(c) {
      forall i, j | 0 <= i < j < |a|
        ensures a[i] != a[j]
      {
        assert a[i] == c[i] && a[j] == c[j];
      }
      forall i, j | 0 <= i < j < |b|
        ensures b[i] != b[j]
      {
        assert b[i] == c[|a| + i] && b[j] == c[|a| + j];
      }
      forall k | 0 <= k < |b|
        ensures b[k] !in Elems(a)
      {
        forall i | 0 <= i < |a|
          ensures a[i] != b[k]
        {
          assert a[i] == c[i] && b[k] == c[|a| + k];
        }
      }
    }
    if NoDuplicates(a) && NoDuplicates(b) && forall k :: 0 <= k < |b| ==> b[k] !in Elems(a) {
      forall i, j | 0 <= i < j < |c|
        ensures c[i] != c[j]
      {
        if j < |a| {
          assert c[i] == a[i] && c[j] == a[j];
        } else if i < |a| {
          assert c[j] == b[j - |a|] && c[i] == a[i] && a[i] in Elems(a);
          assert b[j - |a|] !in Elems(a);
        } else {
          assert c[i] == b[i - |a|] && c[j] == b[j - |a|];
        }
      }
    }
  }

  /** The intended check accepts a batching exactly when it is sound, and
      then says only that it is valid. */
  lemma {:induction false} BatchingIntendedIsSoundness(
    batches: seq<(int, seq<int>)>, vol: seq<int>, maxNbOrders: int, maxVol: int)
    requires AllInRange(vol, batches)
    ensures BatchingIntended(batches, vol, maxNbOrders, maxVol).0 <==> SoundBatching(batches, vol, maxNbOrders, maxVol)
    ensures BatchingIntended(batches, vol, maxNbOrders, maxVol).0 ==>
            BatchingIntended(batches, vol, maxNbOrders, maxVol).1 == [ValidSolution]
  {
    if batches != [] {
      var init, last := batches[..|batches| - 1], batches[|batches| - 1];
      AllInRangeSnoc(vol, batches);
      BatchingIntendedIsSoundness(init, vol, maxNbOrders, maxVol);
      DuplicatesAfterEmpty(Elems(AllOrders(init)), last.1);
      NoDuplicatesAppend(AllOrders(init), last.1);
      var m := BatchingMessages(init, vol, maxNbOrders, maxVol);
      var c := CapacityMessages(last.0, last.1, vol, maxNbOrders, maxVol);
      var d := DuplicatesAfter(Elems(AllOrders(init)), last.1);
      assert BatchingMessages(batches, vol, maxNbOrders, maxVol) == m + (c + d);
      assert m + (c + d) == [] <==> m == [] && c == [] && d == [];
      assert c == [] <==> WithinCapacity(last.1, vol, maxNbOrders, maxVol);
    }
  }

  /** The orders of the pickers before the last all lie in range and keep
      within capacity exactly when all pickers but the last do. */
  lemma AllInRangeSnoc(vol: seq<int>, batches: seq<(int, seq<int>)>)
    requires batches != [] && AllInRange(vol, batches)
    ensures AllInRange(vol, batches[..|batches| - 1])
    ensures forall maxNbOrders, maxVol ::
              AllWithinCapacity(batches, vol, maxNbOrders, maxVol) <==>
              AllWithinCapacity(batches[..|batches| - 1], vol, maxNbOrders, maxVol) &&
              WithinCapacity(batches[|batches| - 1].1, vol, maxNbOrders, maxVol)
  {
    var init := batches[..|batches| - 1];
    assert forall i :: 0 <= i < |init| ==> init[i] == batches[i];
  }

  /** With a single picker, the check as written and the intended one agree. */
  lemma AsWrittenAgreesOnOnePicker(batches: seq<(int, seq<int>)>, vol: seq<int>, maxNbOrders: int, maxVol: int)
    requires |batches| == 1 && InRange(vol, batches[0].1)
    ensures AllInRange(vol, batches)
    ensures BatchingAsWritten(batches, vol, maxNbOrders, maxVol) ==
            Some(BatchingIntended(batches, vol, maxNbOrders, maxVol))
  {
    assert batches[..0] == [];
    assert AllOrders(batches[..0]) == [];
    assert Elems<int>([]) == {};
    assert BatchingMessages(batches[..0], vol, maxNbOrders, maxVol) == [];
    assert BatchingMessages(batches, vol, maxNbOrders, maxVol) ==
           PickerMessages(batches[0].0, batches[0].1, vol, maxNbOrders, maxVol, {});
  }

  /** Two pickers sharing order 0, within both capacities. */
  function SharedOrderBatches(): seq<(int, seq<int>)>
  {
    [(0, [0]), (1, [0])]
  }

  /** The check as written accepts two pickers sharing order 0. */
  lemma AsWrittenAcceptsSharedOrder()
    ensures BatchingAsWritten(SharedOrderBatches(), [1], 1, 1) == Some((true, [ValidSolution]))
  {
    assert [0][..0] == [];
    assert BatchVolume([1], [0]) == 1;
    assert DuplicatesAfter({}, [0]) == [];
    assert CapacityMessages(0, [0], [1], 1, 1) == [];
  }

  /** The intended check rejects the same batching, naming order 0. */
  lemma IntendedRejectsSharedOrder()
    ensures BatchingIntended(SharedOrderBatches(), [1], 1, 1) == (false, [AssignedTwice(0)])
  {
    var batches := SharedOrderBatches();
    var first := batches[..1];
    assert first == [(0, [0])];
    assert first[..0] == [];
    assert [0][..0] == [];
    assert BatchVolume([1], [0]) == 1;
    assert AllOrders(first) == [0];
    assert Elems([0]) == {0};
    assert DuplicatesAfter({}, [0]) == [];
    assert DuplicatesAfter({0}, [0]) == [AssignedTwice(0)];
    assert CapacityMessages(0, [0], [1], 1, 1) == [];
    assert CapacityMessages(1, [0], [1], 1, 1) == [];
    assert AllOrders(first[..0]) == [];
    assert Elems<int>([]) == {};
    assert BatchingMessages(first[..0], [1], 1, 1) == [];
    assert PickerMessages(0, [0], [1], 1, 1, {}) == [];
    assert BatchingMessages(first, [1], 1, 1) == [];
    assert BatchingMessages(batches, [1], 1, 1) == [AssignedTwice(0)];
  }

  /** The total volume of the orders of one batch, each order's volume
      looked up in `vol` by its (possibly negative) index. */
  method SumVolumes(vol: seq<int>, orders: seq<int>) returns (total: int)
    requires InRange(vol, orders)
    ensures total == BatchVolume(vol, orders)
  {
    total := 0;
    for k := 0 to |orders|
      invariant total == BatchVolume(vol, orders[..k])
    {
      assert orders[..k + 1][..k] == orders[..k];
      total := total + PyIndex(vol, orders[k]);
    }
    assert orders[..|orders|] == orders;
  }

  /** Each order against those assigned so far, adding it to them. */
  method MarkAssigned(orders: seq<int>, seen0: set<int>, errors0: seq<BatchMessage>)
    returns (seen: set<int>, errors: seq<BatchMessage>)
    ensures seen == seen0 + Elems(orders)
    ensures errors == errors0 + DuplicatesAfter(seen0, orders)
  {
    seen, errors := seen0, errors0;
    for k := 0 to |orders|
      invariant seen == seen0 + Elems(orders[..k])
      invariant errors == errors0 + DuplicatesAfter(seen0, orders[..k])
    {
      var o := orders[k];
      assert orders[..k + 1][..k] == orders[..k];
      assert Elems(orders[..k + 1]) == Elems(orders[..k]) + {o};
      if o in seen {
        errors := errors + [AssignedTwice(o)];
      }
      seen := seen + {o};
    }
    assert orders[..|orders|] == orders;
  }

  /** The loop body for one picker: both capacities, then each order against
      those assigned so far. */
  method CheckPicker(p: int, orders: seq<int>, vol: seq<int>, maxNbOrders: int, maxVol: int,
                     seen0: set<int>, errors0: seq<BatchMessage>)
    returns (seen: set<int>, errors: seq<BatchMessage>)
    requires InRange(vol, orders)
    ensures seen == seen0 + Elems(orders)
    ensures errors == errors0 + PickerMessages(p, orders, vol, maxNbOrders, maxVol, seen0)
  {
    errors := errors0;
    if |orders| > maxNbOrders {
      errors := errors + [TooManyOrders(p, |orders|, maxNbOrders)];
    }
    var totalVol := SumVolumes(vol, orders);
    if totalVol > maxVol {
      errors := errors + [TooMuchVolume(p, totalVol, maxVol)];
    }
    assert errors == errors0 + CapacityMessages(p, orders, vol, maxNbOrders, maxVol);
    seen, errors := MarkAssigned(orders, seen0, errors);
  }

  /** `check_batching_solution` as written. */
  method CheckBatchingSolution(batches: seq<(int, seq<int>)>, vol: seq<int>, maxNbOrders: int, maxVol: int)
    returns (r: Option<(bool, seq<BatchMessage>)>)
    requires |batches| > 0 ==> InRange(vol, batches[0].1)
    ensures r == BatchingAsWritten(batches, vol, maxNbOrders, maxVol)
    ensures r.None? <==> batches == []
    ensures r.Some? ==>
              (r.value.0 <==> |batches[0].1| <= maxNbOrders && BatchVolume(vol, batches[0].1) <= maxVol &&
                              NoDuplicates(batches[0].1))
    ensures r.Some? && r.value.0 ==> r.value.1 == [ValidSolution]
  {
    var errors: seq<BatchMessage> := [];
    var seen: set<int> := {};
    for i := 0 to |batches|
      invariant i == 0 && errors == [] && seen == {}
    {
      var (p, orders) := batches[i];
      seen, errors := CheckPicker(p, orders, vol, maxNbOrders, maxVol, seen, errors);
      DuplicatesAfterEmpty({}, orders);
      assert errors == PickerMessages(p, orders, vol, maxNbOrders, maxVol, {});
      if errors == [] {
        return Some((true, [ValidSolution]));
      } else {
        return Some((false, errors));
      }
    }
    return None;
  }

  /** The evidently intended `check_batching_solution`: the verdict after
      the loop, so every picker is judged. */
  method CheckBatchingSolutionIntended(batches: seq<(int, seq<int>)>, vol: seq<int>, maxNbOrders: int, maxVol: int)
    returns (valid: bool, messages: seq<BatchMessage>)
    requires AllInRange(vol, batches)
    ensures (valid, messages) == BatchingIntended(batches, vol, maxNbOrders, maxVol)
    ensures valid <==> SoundBatching(batches, vol, maxNbOrders, maxVol)
    ensures valid ==> messages == [ValidSolution]
  {
    BatchingIntendedIsSoundness(batches, vol, maxNbOrders, maxVol);
    var errors: seq<BatchMessage> := [];
    var seen: set<int> := {};
    for i := 0 to |batches|
      invariant AllInRange(vol, batches[..i])
      invariant errors == BatchingMessages(batches[..i], vol, maxNbOrders, maxVol)
      invariant seen == Elems(AllOrders(batches[..i]))
    {
      var (p, orders) := batches[i];
      assert batches[..i + 1][..i] == batches[..i];
      assert AllInRange(vol, batches[..i + 1]) by {
        assert forall j :: 0 <= j < i + 1 ==> batches[..i + 1][j] == batches[j];
      }
      assert AllOrders(batches[..i + 1]) == AllOrders(batches[..i]) + orders;
      assert Elems(AllOrders(batches[..i]) + orders) == Elems(AllOrders(batches[..i])) + Elems(orders);
      seen, errors := CheckPicker(p, orders, vol, maxNbOrders, maxVol, seen, errors);
    }
    assert batches[..|batches|] == batches;
    if errors == [] {
      return true, [ValidSolution];
    }
    return false, errors;
  }

  // ---------------------------------------------------------------------
  // Picking routes
  // ---------------------------------------------------------------------

  /** A move from one location to another. */
  type Arc = (int, int)

  datatype PickingMessage =
    | DepartNotOnce(picker: int)
    | ArriveNotOnce(picker: int, last: int)
    | Subtour(picker: int, at: int)
    | DisconnectedArcs(picker: int)
    | SolutionValid

  /** The number of arcs leaving `v`. */
  function CountFrom(arcs: seq<Arc>, v: int): nat
  {
    if arcs == [] then 0
    else CountFrom(arcs[..|arcs| - 1], v) + (if arcs[|arcs| - 1].0 == v then 1 else 0)
  }

  /** The number of arcs entering `v`. */
  function CountTo(arcs: seq<Arc>, v: int): nat
  {
    if arcs == [] then 0
    else CountTo(arcs[..|arcs| - 1], v) + (if arcs[|arcs| - 1].1 == v then 1 else 0)
  }

  /** The location each arc leaves, in order. */
  function Sources(arcs: seq<Arc>): (s: seq<int>)
    ensures |s| == |arcs| && forall k :: 0 <= k < |arcs| ==> s[k] == arcs[k].0
  {
    seq(|arcs|, k requires 0 <= k < |arcs| => arcs[k].0)
  }

  /** The location each arc enters, in order. */
  function Targets(arcs: seq<Arc>): (t: seq<int>)
    ensures |t| == |arcs| && forall k :: 0 <= k < |arcs| ==> t[k] == arcs[k].1
  {
    seq(|arcs|, k requires 0 <= k < |arcs| => arcs[k].1)
  }

  /** `{i: j for i, j in arcs}`: each origin mapped to the target of the
      last arc leaving it. The keys are the origins and every value is the
      target of some arc. */
  function Successors(arcs: seq<Arc>): (next: map<int, int>)
    ensures next.Keys == Elems(Sources(arcs))
  {
    if arcs == [] then map[]
    else
      var init, a := arcs[..|arcs| - 1], arcs[|arcs| - 1];
      assert Sources(arcs) == Sources(init) + [a.0];
      Successors(init)[a.0 := a.1]
  }

  /** Every successor is a location some arc enters. */
  lemma {:induction false} SuccessorsWithinTargets(arcs: seq<Arc>)
    ensures forall v :: v in Successors(arcs) ==> Successors(arcs)[v] in Elems(Targets(arcs))
  {
    if arcs != [] {
      var init, a := arcs[..|arcs| - 1], arcs[|arcs| - 1];
      SuccessorsWithinTargets(init);
      assert Targets(arcs) == Targets(init) + [a.1];
    }
  }

  /** The last arc leaving a location decides its successor. */
  lemma {:induction false} LastArcDecides(arcs: seq<Arc>, k: nat)
    requires k < |arcs|
    requires forall l :: k < l < |arcs| ==> arcs[l].0 != arcs[k].0
    ensures arcs[k].0 in Successors(arcs) && Successors(arcs)[arcs[k].0] == arcs[k].1
  {
    var init := arcs[..|arcs| - 1];
    if k < |arcs| - 1 {
      assert forall l :: k < l < |init| ==> init[l] == arcs[l];
      LastArcDecides(init, k);
      assert init[k] == arcs[k];
    }
  }

  /** The walk from `current` along `next`: stops where no arc leaves, or at
      the first location entered a second time (the subtour), and answers the
      locations visited with that location, if any. */
  function Walk(next: map<int, int>, current: int, visited: set<int>): (r: (set<int>, Option<int>))
    ensures visited <= r.0
    ensures r.1.Some? ==> r.1.value in r.0
    decreases next.Keys - visited, if current in next then 1 else 0
  {
    if current !in next then (visited, None)
    else
      var c := next[current];
      if c in visited then (visited, Some(c))
      else
        assert c !in next.Keys ==> next.Keys - (visited + {c}) == next.Keys - visited;
        Walk(next, c, visited + {c})
  }

  /** The walk only adds locations that some arc of `next` enters. */
  lemma {:induction false} WalkWithinTargets(next: map<int, int>, current: int, visited: set<int>, targets: set<int>)
    requires forall v :: v in next ==> next[v] in targets
    ensures Walk(next, current, visited).0 <= visited + targets
    decreases next.Keys - visited, if current in next then 1 else 0
  {
    if current in next && next[current] !in visited {
      var c := next[current];
      assert c !in next.Keys ==> next.Keys - (visited + {c}) == next.Keys - visited;
      WalkWithinTargets(next, c, visited + {c}, targets);
    }
  }

  /** The subtour walk of `check_picking_solution`. */
  method FollowSuccessors(next: map<int, int>) returns (visited: set<int>, subtour: Option<int>)
    ensures (visited, subtour) == Walk(next, 0, {0})
  {
    var current := 0;
    visited := {0};
    subtour := None;
    while current in next
      invariant Walk(next, current, visited) == Walk(next, 0, {0})
      invariant subtour == None
      decreases next.Keys - visited, if current in next then 1 else 0
    {
      ghost var c := next[current];
      assert c !in next.Keys ==> next.Keys - (visited + {c}) == next.Keys - visited;
      current := next[current];
      if current in visited {
        subtour := Some(current);
        break;
      }
      visited := visited + {current};
    }
  }

  /** The messages for one picker's non-empty route. */
  function RouteMessages(p: int, arcs: seq<Arc>, nbLocations: int): seq<PickingMessage>
  {
    CountMessages(p, arcs, nbLocations) + WalkMessages(p, arcs)
  }

  /** The departure and arrival messages of one route. */
  function CountMessages(p: int, arcs: seq<Arc>, nbLocations: int): seq<PickingMessage>
  {
    (if CountFrom(arcs, 0) != 1 then [DepartNotOnce(p)] else []) +
    (if CountTo(arcs, nbLocations - 1) != 1 then [ArriveNotOnce(p, nbLocations - 1)] else [])
  }

  /** The subtour and disconnection messages of one route. */
  function WalkMessages(p: int, arcs: seq<Arc>): seq<PickingMessage>
  {
    var walk := Walk(Successors(arcs), 0, {0});
    (if walk.1.Some? then [Subtour(p, walk.1.value)] else []) +
    (if |walk.0| - 1 != |arcs| then [DisconnectedArcs(p)] else [])
  }

  /** The messages of all pickers; a picker with no arcs is skipped. */
  function PickingMessages(travel: seq<(int, seq<Arc>)>, nbLocations: int): seq<PickingMessage>
  {
    if travel == [] then []
    else
      var init, last := travel[..|travel| - 1], travel[|travel| - 1];
      PickingMessages(init, nbLocations) +
      (if last.1 == [] then [] else RouteMessages(last.0, last.1, nbLocations))
  }

  /** What `check_picking_solution` answers. */
  function PickingVerdict(travel: seq<(int, seq<Arc>)>, nbLocations: int): (bool, seq<PickingMessage>)
  {
    var errors := PickingMessages(travel, nbLocations);
    if errors == [] then (true, [SolutionValid]) else (false, errors)
  }

  /** The solution is accepted exactly when no picker's non-empty route draws
      a message, and then the only message says it is valid. */
  lemma {:induction false} PickingVerdictMeaning(travel: seq<(int, seq<Arc>)>, nbLocations: int)
    ensures PickingVerdict(travel, nbLocations).0 <==>
            forall i :: 0 <= i < |travel| && travel[i].1 != [] ==> RouteMessages(travel[i].0, travel[i].1, nbLocations) == []
    ensures PickingVerdict(travel, nbLocations).0 ==> PickingVerdict(travel, nbLocations).1 == [SolutionValid]
    ensures !PickingVerdict(travel, nbLocations).0 ==> PickingVerdict(travel, nbLocations).1 != []
  {
    if travel != [] {
      var init, last := travel[..|travel| - 1], travel[|travel| - 1];
      PickingVerdictMeaning(init, nbLocations);
      var extra := if last.1 == [] then [] else RouteMessages(last.0, last.1, nbLocations);
      assert PickingMessages(travel, nbLocations) == PickingMessages(init, nbLocations) + extra;
      assert forall i :: 0 <= i < |init| ==> init[i] == travel[i];
    }
  }

  /** A solution in which no picker moves is valid. */
  lemma NoMovesIsValid(travel: seq<(int, seq<Arc>)>, nbLocations: int)
    requires forall i :: 0 <= i < |travel| ==> travel[i].1 == []
    ensures PickingVerdict(travel, nbLocations) == (true, [SolutionValid])
  {
    PickingVerdictMeaning(travel, nbLocations);
  }

  /** The sequence of arcs that walks along `path`. */
  function PathArcs(path: seq<int>): (arcs: seq<Arc>)
    requires |path| >= 1
    ensures |arcs| == |path| - 1 && forall k :: 0 <= k < |arcs| ==> arcs[k] == (path[k], path[k + 1])
  {
    seq(|path| - 1, k requires 0 <= k < |path| - 1 => (path[k], path[k + 1]))
  }

  /** No arc leaves `v`: the count is zero. */
  lemma {:induction false} CountFromNone(arcs: seq<Arc>, v: int)
    requires forall k :: 0 <= k < |arcs| ==> arcs[k].0 != v
    ensures CountFrom(arcs, v) == 0
  {
    if arcs != [] {
      CountFromNone(arcs[..|arcs| - 1], v);
    }
  }

  /** No arc enters `v`: the count is zero. */
  lemma {:induction false} CountToNone(arcs: seq<Arc>, v: int)
    requires forall k :: 0 <= k < |arcs| ==> arcs[k].1 != v
    ensures CountTo(arcs, v) == 0
  {
    if arcs != [] {
      CountToNone(arcs[..|arcs| - 1], v);
    }
  }

  /** Exactly one arc leaves `v`: the count is one. */
  lemma {:induction false} CountFromOne(arcs: seq<Arc>, v: int, j: nat)
    requires j < |arcs| && arcs[j].0 == v
    requires forall k :: 0 <= k < |arcs| && k != j ==> arcs[k].0 != v
    ensures CountFrom(arcs, v) == 1
  {
    var init := arcs[..|arcs| - 1];
    if j == |arcs| - 1 {
      CountFromNone(init, v);
    } else {
      CountFromOne(init, v, j);
    }
  }

  /** Exactly one arc enters `v`: the count is one. */
  lemma {:induction false} CountToOne(arcs: seq<Arc>, v: int, j: nat)
    requires j < |arcs| && arcs[j].1 == v
    requires forall k :: 0 <= k < |arcs| && k != j ==> arcs[k].1 != v
    ensures CountTo(arcs, v) == 1
  {
    var init := arcs[..|arcs| - 1];
    if j == |arcs| - 1 {
      CountToNone(init, v);
    } else {
      CountToOne(init, v, j);
    }
  }

  /** `next` leads along `path`: each location but the last is mapped to
      the one after it, and no arc leaves the last. */
  predicate Chain(next: map<int, int>, path: seq<int>)
  {
    |path| >= 1 && path[|path| - 1] !in next &&
    forall k :: 0 <= k < |path| - 1 ==> path[k] in next && next[path[k]] == path[k + 1]
  }

  /** Along a chain without repeated locations, the walk from `path[i]`,
      having visited the locations up to it, visits the rest of the chain
      and stops at its end without a subtour. */
  lemma {:induction false} WalkAlongChain(next: map<int, int>, path: seq<int>, i: nat)
    requires Chain(next, path) && i < |path| && NoDuplicates(path)
    ensures Walk(next, path[i], Elems(path[..i + 1])) == (Elems(path), None)
    decreases |path| - i
  {
    var pre := path[..i + 1];
    if i == |path| - 1 {
      assert pre == path;
    } else {
      assert next[path[i]] == path[i + 1];
      assert path[i + 1] !in Elems(pre) by {
        forall k | 0 <= k < |pre|
          ensures pre[k] != path[i + 1]
        {
          assert pre[k] == path[k];
        }
      }
      assert path[..i + 2] == pre + [path[i + 1]];
      assert Elems(path[..i + 2]) == Elems(pre) + {path[i + 1]};
      WalkAlongChain(next, path, i + 1);
    }
  }

  /** The arcs along a path without repeated locations lead along it. */
  lemma PathArcsChain(path: seq<int>)
    requires |path| >= 1 && NoDuplicates(path)
    ensures Chain(Successors(PathArcs(path)), path)
  {
    var arcs := PathArcs(path);
    var last := path[|path| - 1];
    assert last !in Elems(Sources(arcs)) by {
      forall k | 0 <= k < |arcs|
        ensures Sources(arcs)[k] != last
      {
        assert Sources(arcs)[k] == path[k];
      }
    }
    forall k | 0 <= k < |path| - 1
      ensures path[k] in Successors(arcs) && Successors(arcs)[path[k]] == path[k + 1]
    {
      assert forall l :: k < l < |arcs| ==> arcs[l].0 == path[l] != path[k];
      LastArcDecides(arcs, k);
    }
  }

  /** `arcs` walks along `path`, from location 0 through the last location,
      without repeating a location, the arcs given in any order: the solver
      lists a route's arcs by origin, not in the order they are walked. */
  ghost predicate RouteAlong(arcs: seq<Arc>, path: seq<int>, nbLocations: int)
  {
    |path| >= 2 && path[0] == 0 && NoDuplicates(path) && nbLocations - 1 in path[1..] &&
    multiset(arcs) == multiset(PathArcs(path))
  }

  /** Along a path from location 0 without repeats that passes the last
      location, exactly one arc leaves 0 and exactly one enters the last
      location. */
  lemma PathCountsAccepted(p: int, path: seq<int>, nbLocations: int)
    requires |path| >= 2 && path[0] == 0 && nbLocations - 1 in path[1..] && NoDuplicates(path)
    ensures CountMessages(p, PathArcs(path), nbLocations) == []
  {
    var arcs := PathArcs(path);
    forall k | 0 <= k < |arcs| && k != 0
      ensures arcs[k].0 != 0
    {
      assert arcs[k].0 == path[k] && path[0] == 0;
    }
    CountFromOne(arcs, 0, 0);
    var i :| 0 <= i < |path| - 1 && path[1..][i] == nbLocations - 1;
    assert arcs[i].1 == path[i + 1] == nbLocations - 1;
    forall k | 0 <= k < |arcs| && k != i
      ensures arcs[k].1 != nbLocations - 1
    {
      assert arcs[k].1 == path[k + 1];
    }
    CountToOne(arcs, nbLocations - 1, i);
  }

  /** Along a path from location 0 without repeats, the walk visits the
      whole path, one location more than there are arcs, with no subtour. */
  lemma PathWalkAccepted(p: int, path: seq<int>)
    requires |path| >= 2 && path[0] == 0 && NoDuplicates(path)
    ensures WalkMessages(p, PathArcs(path)) == []
  {
    var arcs := PathArcs(path);
    assert path[..1] == [0];
    assert Elems(path[..1]) == {0};
    PathArcsChain(path);
    var next := Successors(arcs);
    WalkAlongChain(next, path, 0);
    ElemsCardinality(path);
    assert Walk(next, 0, {0}) == (Elems(path), None);
  }

  /** The arcs along a path without repeats leave distinct locations. */
  lemma PathArcsDistinctSources(path: seq<int>)
    requires |path| >= 1 && NoDuplicates(path)
    ensures NoDuplicates(Sources(PathArcs(path)))
  {
    var arcs := PathArcs(path);
    forall i, j | 0 <= i < j < |arcs|
      ensures Sources(arcs)[i] != Sources(arcs)[j]
    {
      assert Sources(arcs)[i] == path[i] && Sources(arcs)[j] == path[j];
    }
  }

  /** The concatenation of two lists of arcs has the departures from `v` of
      both. */
  lemma {:induction false} CountFromAppend(a: seq<Arc>, b: seq<Arc>, v: int)
    ensures CountFrom(a + b, v) == CountFrom(a, v) + CountFrom(b, v)
  {
    if b == [] {
      assert a + b == a;
    } else {
      assert (a + b)[..|a + b| - 1] == a + b[..|b| - 1];
      CountFromAppend(a, b[..|b| - 1], v);
    }
  }

  /** The concatenation of two lists of arcs has the arrivals at `v` of
      both. */
  lemma {:induction false} CountToAppend(a: seq<Arc>, b: seq<Arc>, v: int)
    ensures CountTo(a + b, v) == CountTo(a, v) + CountTo(b, v)
  {
    if b == [] {
      assert a + b == a;
    } else {
      assert (a + b)[..|a + b| - 1] == a + b[..|b| - 1];
      CountToAppend(a, b[..|b| - 1], v);
    }
  }

  /** An arc of `b` splits it into the arcs before and after one of its
      copies, and taking that copy out removes it from the multiset. */
  lemma SplitAt(b: seq<Arc>, x: Arc) returns (pre: seq<Arc>, post: seq<Arc>)
    requires x in b
    ensures b == pre + [x] + post
    ensures multiset(pre + post) == multiset(b) - multiset{x}
  {
    var j :| 0 <= j < |b| && b[j] == x;
    pre, post := b[..j], b[j + 1..];
    assert b == pre + [x] + post;
  }

  /** Taking an arc out of a list removes its departure, if it leaves
      `v`. */
  lemma CountFromRemove(pre: seq<Arc>, x: Arc, post: seq<Arc>, v: int)
    ensures CountFrom(pre + [x] + post, v) == CountFrom(pre + post, v) + (if x.0 == v then 1 else 0)
  {
    assert pre + [x] + post == pre + ([x] + post);
    CountFromAppend(pre, [x] + post, v);
    CountFromAppend([x], post, v);
    CountFromAppend(pre, post, v);
    assert [x][..0] == [];
  }

  /** Taking an arc out of a list removes its arrival, if it enters `v`. */
  lemma CountToRemove(pre: seq<Arc>, x: Arc, post: seq<Arc>, v: int)
    ensures CountTo(pre + [x] + post, v) == CountTo(pre + post, v) + (if x.1 == v then 1 else 0)
  {
    assert pre + [x] + post == pre + ([x] + post);
    CountToAppend(pre, [x] + post, v);
    CountToAppend([x], post, v);
    CountToAppend(pre, post, v);
    assert [x][..0] == [];
  }

  /** The departures from a location depend only on which arcs there are,
      not on their order. */
  lemma {:induction false} CountFromPermutation(a: seq<Arc>, b: seq<Arc>, v: int)
    requires multiset(a) == multiset(b)
    ensures CountFrom(a, v) == CountFrom(b, v)
    decreases |a|
  {
    assert |a| == |multiset(a)| == |multiset(b)| == |b|;
    if a != [] {
      var init, x := a[..|a| - 1], a[|a| - 1];
      assert a == init + [x];
      assert x in multiset(b);
      var pre, post := SplitAt(b, x);
      assert multiset(init) == multiset(a) - multiset{x};
      CountFromPermutation(init, pre + post, v);
      CountFromRemove(pre, x, post, v);
    }
  }

  /** The arrivals at a location depend only on which arcs there are, not
      on their order. */
  lemma {:induction false} CountToPermutation(a: seq<Arc>, b: seq<Arc>, v: int)
    requires multiset(a) == multiset(b)
    ensures CountTo(a, v) == CountTo(b, v)
    decreases |a|
  {
    assert |a| == |multiset(a)| == |multiset(b)| == |b|;
    if a != [] {
      var init, x := a[..|a| - 1], a[|a| - 1];
      assert a == init + [x];
      assert x in multiset(b);
      var pre, post := SplitAt(b, x);
      assert multiset(init) == multiset(a) - multiset{x};
      CountToPermutation(init, pre + post, v);
      CountToRemove(pre, x, post, v);
    }
  }

  /** When no two arcs leave the same location, each arc decides its
      origin's successor. */
  lemma DistinctSourcesDecide(arcs: seq<Arc>, k: nat)
    requires k < |arcs| && NoDuplicates(Sources(arcs))
    ensures arcs[k].0 in Successors(arcs) && Successors(arcs)[arcs[k].0] == arcs[k].1
  {
    forall l | k < l < |arcs|
      ensures arcs[l].0 != arcs[k].0
    {
      assert Sources(arcs)[k] != Sources(arcs)[l];
    }
    LastArcDecides(arcs, k);
  }

  /** A reordering of arcs that leave distinct locations holds the same arcs
      and leaves distinct locations too. */
  lemma PermutedSourcesDistinct(a: seq<Arc>, b: seq<Arc>)
    requires multiset(a) == multiset(b) && NoDuplicates(Sources(b))
    ensures Elems(a) == Elems(b)
    ensures NoDuplicates(Sources(a))
  {
    assert NoDuplicates(b) by {
      forall i, j | 0 <= i < j < |b|
        ensures b[i] != b[j]
      {
        assert Sources(b)[i] != Sources(b)[j];
      }
    }
    PermutationKeepsDistinct(a, b);
    forall i, j | 0 <= i < j < |a|
      ensures Sources(a)[i] != Sources(a)[j]
    {
      assert a[i] in Elems(b) && a[j] in Elems(b);
      var k :| 0 <= k < |b| && b[k] == a[i];
      var l :| 0 <= l < |b| && b[l] == a[j];
    }
  }

  /** Lists holding the same arcs leave the same locations. */
  lemma SameArcsSameSources(a: seq<Arc>, b: seq<Arc>)
    requires Elems(a) == Elems(b)
    ensures Elems(Sources(a)) == Elems(Sources(b))
  {
    forall v | v in Elems(Sources(a))
      ensures v in Elems(Sources(b))
    {
      var i :| 0 <= i < |a| && Sources(a)[i] == v;
      assert a[i] in Elems(b);
      var k :| 0 <= k < |b| && b[k] == a[i];
      assert Sources(b)[k] == v;
    }
    forall v | v in Elems(Sources(b))
      ensures v in Elems(Sources(a))
    {
      var k :| 0 <= k < |b| && Sources(b)[k] == v;
      assert b[k] in Elems(a);
      var i :| 0 <= i < |a| && a[i] == b[k];
      assert Sources(a)[i] == v;
    }
  }

  /** Reordering arcs that leave distinct locations changes neither which
      locations they leave nor the successor map. */
  lemma SuccessorsPermutation(a: seq<Arc>, b: seq<Arc>)
    requires multiset(a) == multiset(b) && NoDuplicates(Sources(b))
    ensures NoDuplicates(Sources(a))
    ensures Successors(a) == Successors(b)
  {
    PermutedSourcesDistinct(a, b);
    SameArcsSameSources(a, b);
    forall v | v in Successors(a)
      ensures Successors(a)[v] == Successors(b)[v]
    {
      var i :| 0 <= i < |a| && Sources(a)[i] == v;
      assert a[i] in Elems(b);
      var k :| 0 <= k < |b| && b[k] == a[i];
      DistinctSourcesDecide(a, i);
      DistinctSourcesDecide(b, k);
    }
  }

  /** Reordering the arcs of a route whose arcs leave distinct locations
      changes none of its messages. */
  lemma RoutePermutationSameMessages(p: int, a: seq<Arc>, b: seq<Arc>, nbLocations: int)
    requires multiset(a) == multiset(b) && NoDuplicates(Sources(b))
    ensures RouteMessages(p, a, nbLocations) == RouteMessages(p, b, nbLocations)
  {
    CountFromPermutation(a, b, 0);
    CountToPermutation(a, b, nbLocations - 1);
    SuccessorsPermutation(a, b);
    assert |a| == |multiset(a)| == |multiset(b)| == |b|;
  }

  /** A route whose arcs, in any order, walk along a path from location 0
      through the last location without repeating a location is accepted. */
  lemma SimplePathAccepted(p: int, arcs: seq<Arc>, path: seq<int>, nbLocations: int)
    requires RouteAlong(arcs, path, nbLocations)
    ensures RouteMessages(p, arcs, nbLocations) == []
  {
    PathCountsAccepted(p, path, nbLocations);
    PathWalkAccepted(p, path);
    PathArcsDistinctSources(path);
    RoutePermutationSameMessages(p, arcs, PathArcs(path), nbLocations);
  }

  /** The route 0 -> 2 -> 1 -> 3 over four locations, its arcs listed by
      origin as the solver writes them, is accepted. */
  lemma AcceptsArcsListedByOrigin()
    ensures RouteMessages(0, [(0, 2), (1, 3), (2, 1)], 4) == []
  {
    var path := [0, 2, 1, 3];
    var arcs: seq<Arc> := [(0, 2), (1, 3), (2, 1)];
    assert PathArcs(path) == [(0, 2), (2, 1), (1, 3)];
    assert multiset(arcs) == multiset(PathArcs(path));
    assert path[1..][2] == 3;
    SimplePathAccepted(0, arcs, path, 4);
  }

  /** An accepted route enters every location at most once, never enters
      location 0, and its walk visits location 0 and every location an arc
      enters: no arc is left off the walk. */
  lemma AcceptedRouteUsesEveryArc(p: int, arcs: seq<Arc>, nbLocations: int)
    requires RouteMessages(p, arcs, nbLocations) == []
    ensures NoDuplicates(Targets(arcs))
    ensures 0 !in Targets(arcs)
    ensures Walk(Successors(arcs), 0, {0}).0 == {0} + Elems(Targets(arcs))
  {
    var next := Successors(arcs);
    var visited := Walk(next, 0, {0}).0;
    var t := Elems(Targets(arcs));
    SuccessorsWithinTargets(arcs);
    WalkWithinTargets(next, 0, {0}, t);
    assert visited <= {0} + t;
    assert |visited| == |arcs| + 1;
    ElemsCardinality(Targets(arcs));
    assert |{0} + t| <= 1 + |t|;
    SubsetSameSize(visited, {0} + t);
  }

  /** The locations the walk from `current` adds, in the order it adds
      them. */
  function WalkSeq(next: map<int, int>, current: int, visited: set<int>): seq<int>
    decreases next.Keys - visited, if current in next then 1 else 0
  {
    if current !in next then []
    else
      var c := next[current];
      if c in visited then []
      else
        assert c !in next.Keys ==> next.Keys - (visited + {c}) == next.Keys - visited;
        [c] + WalkSeq(next, c, visited + {c})
  }

  /** The walk adds each location once, only locations not yet visited,
      each the successor of the one before, and ends with exactly the
      locations visited before and those it added. */
  lemma {:induction false} WalkSeqFacts(next: map<int, int>, current: int, visited: set<int>)
    ensures Walk(next, current, visited).0 == visited + Elems(WalkSeq(next, current, visited))
    ensures Elems(WalkSeq(next, current, visited)) !! visited
    ensures NoDuplicates(WalkSeq(next, current, visited))
    ensures var s := WalkSeq(next, current, visited);
            forall k :: 0 <= k < |s| ==> ([current] + s)[k] in next && next[([current] + s)[k]] == s[k]
    decreases next.Keys - visited, if current in next then 1 else 0
  {
    var s := WalkSeq(next, current, visited);
    if current !in next || next[current] in visited {
      assert s == [];
      assert Elems(s) == {};
    } else {
      var c := next[current];
      assert c !in next.Keys ==> next.Keys - (visited + {c}) == next.Keys - visited;
      var rest := WalkSeq(next, c, visited + {c});
      WalkSeqFacts(next, c, visited + {c});
      assert s == [c] + rest;
      assert Elems(s) == {c} + Elems(rest);
      forall i, j | 0 <= i < j < |s|
        ensures s[i] != s[j]
      {
        assert s[j] == rest[j - 1];
        if i > 0 {
          assert s[i] == rest[i - 1];
        } else {
          assert rest[j - 1] in Elems(rest);
        }
      }
      forall k | 0 <= k < |s|
        ensures ([current] + s)[k] in next && next[([current] + s)[k]] == s[k]
      {
        if k > 0 {
          assert ([current] + s)[k] == ([c] + rest)[k - 1];
          assert s[k] == rest[k - 1];
        }
      }
    }
  }

  /** The path the walk of a route follows: location 0, then the locations
      the walk adds. */
  function RoutePath(arcs: seq<Arc>): (path: seq<int>)
    ensures |path| >= 1 && path[0] == 0
  {
    [0] + WalkSeq(Successors(arcs), 0, {0})
  }

  /** Every origin is mapped to the target of one of the arcs leaving it. */
  lemma {:induction false} SuccessorIsArc(arcs: seq<Arc>, v: int)
    requires v in Successors(arcs)
    ensures (v, Successors(arcs)[v]) in Elems(arcs)
  {
    var init, a := arcs[..|arcs| - 1], arcs[|arcs| - 1];
    if v != a.0 {
      SuccessorIsArc(init, v);
      assert init[..] == arcs[..|arcs| - 1];
      var k :| 0 <= k < |init| && init[k] == (v, Successors(init)[v]);
      assert arcs[k] == init[k];
    } else {
      assert arcs[|arcs| - 1] == (v, Successors(arcs)[v]);
    }
  }

  /** The path the walk follows repeats no location, holds exactly the
      locations the walk visits, and each of its steps is an arc of the
      route. */
  lemma RoutePathFacts(arcs: seq<Arc>)
    ensures NoDuplicates(RoutePath(arcs))
    ensures Elems(RoutePath(arcs)) == Walk(Successors(arcs), 0, {0}).0
    ensures forall k :: 0 <= k < |RoutePath(arcs)| - 1 ==> PathArcs(RoutePath(arcs))[k] in Elems(arcs)
  {
    var next := Successors(arcs);
    var s := WalkSeq(next, 0, {0});
    var path := RoutePath(arcs);
    WalkSeqFacts(next, 0, {0});
    forall i, j | 0 <= i < j < |path|
      ensures path[i] != path[j]
    {
      assert path[j] == s[j - 1] && s[j - 1] in Elems(s);
      if i > 0 {
        assert path[i] == s[i - 1];
      }
    }
    assert Elems(path) == {0} + Elems(s);
    forall k | 0 <= k < |path| - 1
      ensures PathArcs(path)[k] in Elems(arcs)
    {
      assert path[k] == ([0] + s)[k] && path[k + 1] == s[k];
      SuccessorIsArc(arcs, path[k]);
    }
  }

  /** When the arcs along a path without repeats are arcs of the route and
      as many as the route's, the route is a reordering of them. */
  lemma AlongIsPermutation(arcs: seq<Arc>, path: seq<int>)
    requires |path| == |arcs| + 1 && NoDuplicates(path)
    requires forall k :: 0 <= k < |path| - 1 ==> PathArcs(path)[k] in Elems(arcs)
    ensures multiset(arcs) == multiset(PathArcs(path))
  {
    var along := PathArcs(path);
    PathArcsDistinctSources(path);
    assert NoDuplicates(along) by {
      forall i, j | 0 <= i < j < |along|
        ensures along[i] != along[j]
      {
        assert Sources(along)[i] != Sources(along)[j];
      }
    }
    assert Elems(along) <= Elems(arcs);
    ElemsCardinality(along);
    ElemsCardinality(arcs);
    SubsetSameSize(Elems(along), Elems(arcs));
    SamePermutation(arcs, along);
  }

  /** A location some arc of a reordering of the arcs along `path` enters
      lies on `path` after its start. */
  lemma ArrivalOnPath(arcs: seq<Arc>, path: seq<int>, v: int)
    requires |path| >= 1 && multiset(arcs) == multiset(PathArcs(path))
    requires CountTo(arcs, v) == 1
    ensures v in path[1..]
  {
    if forall k :: 0 <= k < |arcs| ==> arcs[k].1 != v {
      CountToNone(arcs, v);
    }
    var k :| 0 <= k < |arcs| && arcs[k].1 == v;
    assert arcs[k] in multiset(PathArcs(path));
    var i :| 0 <= i < |path| - 1 && PathArcs(path)[i] == arcs[k];
    assert path[1..][i] == path[i + 1] == v;
  }

  /** An accepted route is a reordering of the arcs along the path its walk
      follows: a path from location 0 through the last location that
      repeats no location. */
  lemma AcceptedRouteIsAlongPath(p: int, arcs: seq<Arc>, nbLocations: int)
    requires RouteMessages(p, arcs, nbLocations) == []
    ensures RouteAlong(arcs, RoutePath(arcs), nbLocations)
  {
    var path := RoutePath(arcs);
    RoutePathFacts(arcs);
    assert |Walk(Successors(arcs), 0, {0}).0| == |arcs| + 1;
    ElemsCardinality(path);
    AlongIsPermutation(arcs, path);
    ArrivalOnPath(arcs, path, nbLocations - 1);
  }

  /** A route is accepted exactly when its arcs, in some order, walk along a
      path from location 0 through the last location without repeating a
      location. */
  lemma AcceptedIffAlongPath(p: int, arcs: seq<Arc>, nbLocations: int)
    ensures RouteMessages(p, arcs, nbLocations) == [] <==>
            exists path :: RouteAlong(arcs, path, nbLocations)
  {
    if RouteMessages(p, arcs, nbLocations) == [] {
      AcceptedRouteIsAlongPath(p, arcs, nbLocations);
    }
    if exists path :: RouteAlong(arcs, path, nbLocations) {
      var path :| RouteAlong(arcs, path, nbLocations);
      SimplePathAccepted(p, arcs, path, nbLocations);
    }
  }

  /** The route 0 -> 5 -> 3 over six locations is accepted although it ends
      at location 3 and not at the last location, 5: the walk is never
      required to finish where the single arrival is. */
  lemma AcceptsRouteEndingElsewhere()
    ensures RouteMessages(0, [(0, 5), (5, 3)], 6) == []
  {
    var arcs: seq<Arc> := [(0, 5), (5, 3)];
    assert arcs[..1] == [(0, 5)];
    assert arcs[..1][..0] == [];
    var next := Successors(arcs);
    assert next == map[0 := 5, 5 := 3];
    assert {0} + {5} == {0, 5} && {0, 5} + {3} == {0, 5, 3};
    assert Walk(next, 3, {0, 5, 3}) == ({0, 5, 3}, None);
    assert Walk(next, 5, {0, 5}) == ({0, 5, 3}, None);
    assert Walk(next, 0, {0}) == ({0, 5, 3}, None);
    assert |{0, 5, 3}| == 3;
    assert CountFrom(arcs, 0) == 1;
    assert CountTo(arcs, 5) == 1;
  }

  /** Counts the arcs of a route that leave location `v`. */
  method CountDepartures(arcs: seq<Arc>, v: int) returns (n: nat)
    ensures n == CountFrom(arcs, v)
  {
    n := 0;
    for k := 0 to |arcs|
      invariant n == CountFrom(arcs[..k], v)
    {
      assert arcs[..k + 1][..k] == arcs[..k];
      if arcs[k].0 == v {
        n := n + 1;
      }
    }
    assert arcs[..|arcs|] == arcs;
  }

  /** Counts the arcs of a route that enter location `v`. */
  method CountArrivals(arcs: seq<Arc>, v: int) returns (n: nat)
    ensures n == CountTo(arcs, v)
  {
    n := 0;
    for k := 0 to |arcs|
      invariant n == CountTo(arcs[..k], v)
    {
      assert arcs[..k + 1][..k] == arcs[..k];
      if arcs[k].1 == v {
        n := n + 1;
      }
    }
    assert arcs[..|arcs|] == arcs;
  }

  /** Maps each origin of a route to the target of the last arc leaving
      it. */
  method BuildSuccessors(arcs: seq<Arc>) returns (next: map<int, int>)
    ensures next == Successors(arcs)
  {
    next := map[];
    for k := 0 to |arcs|
      invariant next == Successors(arcs[..k])
    {
      assert arcs[..k + 1][..k] == arcs[..k];
      next := next[arcs[k].0 := arcs[k].1];
    }
    assert arcs[..|arcs|] == arcs;
  }

  /** The per-picker body of `check_picking_solution`. */
  method CheckRoute(p: int, arcs: seq<Arc>, nbLocations: int, errors0: seq<PickingMessage>)
    returns (errors: seq<PickingMessage>)
    ensures errors == errors0 + RouteMessages(p, arcs, nbLocations)
  {
    var last := nbLocations - 1;
    errors := errors0;
    var departures := CountDepartures(arcs, 0);
    if departures != 1 {
      errors := errors + [DepartNotOnce(p)];
    }
    var arrivals := CountArrivals(arcs, last);
    if arrivals != 1 {
      errors := errors + [ArriveNotOnce(p, last)];
    }
    assert errors == errors0 + CountMessages(p, arcs, nbLocations);
    errors := CheckWalk(p, arcs, errors);
    AppendAssoc(errors0, CountMessages(p, arcs, nbLocations), WalkMessages(p, arcs));
  }

  /** The subtour and disconnection checks of one route. */
  method CheckWalk(p: int, arcs: seq<Arc>, errors0: seq<PickingMessage>) returns (errors: seq<PickingMessage>)
    ensures errors == errors0 + WalkMessages(p, arcs)
  {
    errors := errors0;
    var next := BuildSuccessors(arcs);
    var visited, subtour := FollowSuccessors(next);
    if subtour.Some? {
      errors := errors + [Subtour(p, subtour.value)];
    }
    if |visited| - 1 != |arcs| {
      errors := errors + [DisconnectedArcs(p)];
    }
  }

  method CheckPickingSolution(travel: seq<(int, seq<Arc>)>, nbLocations: int)
    returns (valid: bool, messages: seq<PickingMessage>)
    ensures (valid, messages) == PickingVerdict(travel, nbLocations)
    ensures valid <==>
            forall i :: 0 <= i < |travel| && travel[i].1 != [] ==> RouteMessages(travel[i].0, travel[i].1, nbLocations) == []
    ensures valid ==> messages == [SolutionValid]
  {
    PickingVerdictMeaning(travel, nbLocations);
    var errors: seq<PickingMessage> := [];
    for i := 0 to |travel|
      invariant errors == PickingMessages(travel[..i], nbLocations)
    {
      var (p, arcs) := travel[i];
      assert travel[..i + 1][..i] == travel[..i];
      if arcs == [] {
        continue;
      }
      errors := CheckRoute(p, arcs, nbLocations, errors);
    }
    assert travel[..|travel|] == travel;
    if errors == [] {
      return true, [SolutionValid];
    }
    return false, errors;
  }
}
