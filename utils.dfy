/** Derived data built from the loaded instance: the instance sizes, the
    bounds on the number of pickers, the location/order incidence table, the
    sparse pairwise shared-location counts ("affinity") and the sorted
    location list of every picker of a batch assignment. */
module Utils {

  /** An order as the loader produces it: every field present. */
  datatype Order = Order(
    id: int,
    volume: int,
    nbLocations: int,
    locationsList: seq<int>,
    locationsSet: set<int>)

  /** A key of the incidence table or of the affinity table: a pair of ints. */
  type Pair = (int, int)

  // ---------------------------------------------------------------------
  // Instance sizes and picker bounds
  // ---------------------------------------------------------------------

  /** The number of locations is the number of rows of the distance matrix,
      the number of orders the length of the order list. */
  function LocationsAndOrdersCounts<R, O>(adjMatrix: seq<R>, orders: seq<O>): (r: (nat, nat))
    ensures r.0 == |adjMatrix| && r.1 == |orders|
  {
    (|adjMatrix|, |orders|)
  }

  /** Python's built-in `sum` over a list of integers. */
  function Sum(s: seq<int>): int
  {
    if s == [] then 0 else Sum(s[..|s| - 1]) + s[|s| - 1]
  }

  /** The ceiling of `a / b` for a positive divisor: the least `q` with
      `q * b >= a`. */
  function CeilDiv(a: int, b: int): (q: int)
    requires b > 0
    ensures q * b >= a
    ensures (q - 1) * b < a
  {
    var q := (a + b - 1) / b;
    assert q * b + (a + b - 1) % b == a + b - 1;
    q
  }

  /** Lower and upper bound on the number of pickers. The lower bound is the
      larger of the two capacity ceilings, the upper bound one picker per
      order. */
  function MaxPickersBounds(nbOrders: int, maxNbOrders: int, maxVol: int, vol: seq<int>): (r: (int, int))
    requires maxNbOrders > 0 && maxVol > 0
    ensures r.1 == nbOrders
    ensures r.0 * maxNbOrders >= nbOrders
    ensures r.0 * maxVol >= Sum(vol)
    ensures (r.0 - 1) * maxNbOrders < nbOrders || (r.0 - 1) * maxVol < Sum(vol)
  {
    var byCount := CeilDiv(nbOrders, maxNbOrders);
    var totalVol := Sum(vol);
    var byVolume := CeilDiv(totalVol, maxVol);
    var lower := if byCount >= byVolume then byCount else byVolume;
    (lower, nbOrders)
  }

  /** The lower bound is the least number of pickers whose combined capacity
      covers both the order count and the total volume. */
  lemma LowerBoundIsLeast(nbOrders: int, maxNbOrders: int, maxVol: int, vol: seq<int>, k: int)
    requires maxNbOrders > 0 && maxVol > 0
    requires k * maxNbOrders >= nbOrders && k * maxVol >= Sum(vol)
    ensures MaxPickersBounds(nbOrders, maxNbOrders, maxVol, vol).0 <= k
  {
    var lower := MaxPickersBounds(nbOrders, maxNbOrders, maxVol, vol).0;
    if k <= lower - 1 {
      MulMonotone(k, lower - 1, maxNbOrders);
      MulMonotone(k, lower - 1, maxVol);
    }
  }

  /** Multiplying by a non-negative factor keeps the order. */
  lemma MulMonotone(a: int, b: int, c: int)
    requires a <= b && c >= 0
    ensures a * c <= b * c
  {
    var d := b - a;
    assert b * c == a * c + d * c;
  }

  // ---------------------------------------------------------------------
  // Incidence table
  // ---------------------------------------------------------------------

  /** `m` is the incidence table of `orders` over the first `nbLocations`
      locations: exactly the keys (location, order index), with value 1 when
      the location is in that order's location set and 0 otherwise. */
  ghost predicate IsIncidence(m: map<Pair, int>, nbLocations: int, orders: seq<Order>)
  {
    (forall k :: k in m <==> 0 <= k.0 < nbLocations && 0 <= k.1 < |orders|) &&
    (forall loc, o :: 0 <= loc < nbLocations && 0 <= o < |orders| ==>
       m[(loc, o)] == if loc in orders[o].locationsSet then 1 else 0)
  }

  /** The table filled so far: every location below `loc`, and location
      `loc` for the orders below `o`. */
  ghost predicate IncidenceUpTo(m: map<Pair, int>, loc: int, o: int, orders: seq<Order>)
  {
    (forall k :: k in m <==>
       (0 <= k.0 < loc && 0 <= k.1 < |orders|) || (k.0 == loc && 0 <= k.1 < o)) &&
    (forall k :: k in m ==>
       0 <= k.1 < |orders| && m[k] == if k.0 in orders[k.1].locationsSet then 1 else 0)
  }

  method IfLocInOrder(nbLocations: int, orders: seq<Order>) returns (m: map<Pair, int>)
    ensures IsIncidence(m, nbLocations, orders)
  {
    m := map[];
    var loc := 0;
    while loc < nbLocations
      invariant 0 <= loc && (loc <= nbLocations || loc == 0)
      invariant IncidenceUpTo(m, loc, 0, orders)
    {
      var o := 0;
      while o < |orders|
        invariant 0 <= o <= |orders|
        invariant IncidenceUpTo(m, loc, o, orders)
      {
        var visited := orders[o].locationsSet;
        m := m[(loc, o) := if loc in visited then 1 else 0];
        o := o + 1;
      }
      loc := loc + 1;
    }
  }

  // ---------------------------------------------------------------------
  // Affinity: pairwise shared-location counts
  // ---------------------------------------------------------------------

  /** Every key (location, order) below the given bounds is present, as in
      the full incidence table. The affinity loops read a subset of these
      keys: the second order's key only when the first order visits the
      location, and none when there are fewer than two orders. */
  ghost predicate HasKeys(ifLoc: map<Pair, int>, nbOrders: int, nbLocations: int)
  {
    forall loc, o :: 0 <= loc < nbLocations && 0 <= o < nbOrders ==> (loc, o) in ifLoc
  }

  /** The value of a sparse table at `k`, zero when the key is absent (the
      default of Python's `defaultdict(int)` and of `dict.get(k, 0)`). */
  function Get(m: map<Pair, int>, k: Pair): int
  {
    if k in m then m[k] else 0
  }

  /** How many locations below `n` have incidence 1 for both `o` and `o2`. */
  function SharedCount(ifLoc: map<Pair, int>, o: int, o2: int, n: int): (c: nat)
    ensures c <= if n < 0 then 0 else n
    decreases n
  {
    if n <= 0 then 0
    else SharedCount(ifLoc, o, o2, n - 1)
         + (if Get(ifLoc, (n - 1, o)) == 1 && Get(ifLoc, (n - 1, o2)) == 1 then 1 else 0)
  }

  /** The locations below `n` at which both orders have incidence 1. */
  ghost function SharedSet(ifLoc: map<Pair, int>, o: int, o2: int, n: int): set<int>
  {
    set loc | 0 <= loc < n && Get(ifLoc, (loc, o)) == 1 && Get(ifLoc, (loc, o2)) == 1
  }

  lemma {:induction false} SharedCountIsCardinality(ifLoc: map<Pair, int>, o: int, o2: int, n: int)
    ensures SharedCount(ifLoc, o, o2, n) == |SharedSet(ifLoc, o, o2, n)|
    decreases n
  {
    if n <= 0 {
      assert SharedSet(ifLoc, o, o2, n) == {};
    } else {
      SharedCountIsCardinality(ifLoc, o, o2, n - 1);
      var before := SharedSet(ifLoc, o, o2, n - 1);
      assert n - 1 !in before;
      if Get(ifLoc, (n - 1, o)) == 1 && Get(ifLoc, (n - 1, o2)) == 1 {
        assert SharedSet(ifLoc, o, o2, n) == before + {n - 1};
      } else {
        assert SharedSet(ifLoc, o, o2, n) == before;
      }
    }
  }

  /** `r` is the sparse affinity table: a key (o, o2) with o < o2 < nbOrders
      is stored exactly when the two orders share a location, and then holds
      the number of shared locations; nothing else is stored. */
  ghost predicate IsAffinity(r: map<Pair, int>, ifLoc: map<Pair, int>, nbOrders: int, nbLocations: int)
  {
    AffinityUpTo(r, ifLoc, nbOrders, nbLocations, nbOrders, nbOrders)
  }

  /** Pair (a, b) has been visited by the affinity loops once they reach
      pair (o, o2): `a` is below `o`, or it is `o` and `b` is below `o2`
      (and always a < b < nbOrders). */
  predicate Done(a: int, b: int, nbOrders: int, o: int, o2: int)
  {
    0 <= a < b < nbOrders && (a < o || (a == o && b < o2))
  }

  /** The affinity table restricted to the pairs already visited. */
  ghost predicate AffinityUpTo(r: map<Pair, int>, ifLoc: map<Pair, int>, nbOrders: int, nbLocations: int,
                               o: int, o2: int)
  {
    (forall a, b :: (a, b) in r <==> Done(a, b, nbOrders, o, o2) && SharedCount(ifLoc, a, b, nbLocations) > 0) &&
    (forall a, b :: (a, b) in r ==> r[(a, b)] == SharedCount(ifLoc, a, b, nbLocations))
  }

  /** The table after counting pair (o, o2): unchanged when the two orders
      share nothing, otherwise extended by that pair and its count. */
  ghost function AfterPair(before: map<Pair, int>, ifLoc: map<Pair, int>, nbLocations: int, o: int, o2: int)
    : map<Pair, int>
  {
    var c := SharedCount(ifLoc, o, o2, nbLocations);
    if c == 0 then before else before[(o, o2) := c]
  }

  /** Counting pair (o, o2) extends the visited pairs by that pair. */
  lemma AffinityStep(before: map<Pair, int>, ifLoc: map<Pair, int>,
                     nbOrders: int, nbLocations: int, o: int, o2: int)
    requires 0 <= o < o2 < nbOrders
    requires AffinityUpTo(before, ifLoc, nbOrders, nbLocations, o, o2)
    ensures AffinityUpTo(AfterPair(before, ifLoc, nbLocations, o, o2), ifLoc, nbOrders, nbLocations, o, o2 + 1)
  {
    var r := AfterPair(before, ifLoc, nbLocations, o, o2);
    forall a, b | (a, b) != (o, o2)
      ensures (a, b) in r <==> (a, b) in before
      ensures (a, b) in r ==> r[(a, b)] == before[(a, b)]
      ensures Done(a, b, nbOrders, o, o2 + 1) <==> Done(a, b, nbOrders, o, o2)
    {
    }
    assert !Done(o, o2, nbOrders, o, o2) && Done(o, o2, nbOrders, o, o2 + 1);
  }

  /** Finishing the pairs of order `o` is starting those of order `o + 1`. */
  lemma AffinityNextOrder(r: map<Pair, int>, ifLoc: map<Pair, int>, nbOrders: int, nbLocations: int,
                          o: int, o2: int)
    requires 0 <= o && o + 1 <= o2 && nbOrders <= o2 && (o2 <= nbOrders || o2 == o + 1)
    requires AffinityUpTo(r, ifLoc, nbOrders, nbLocations, o, o2)
    ensures AffinityUpTo(r, ifLoc, nbOrders, nbLocations, o + 1, o + 2)
  {
  }

  /** The innermost loop of the affinity computation: one increment of
      entry (o, o2) per location both orders have. */
  method CountSharedLocations(r0: map<Pair, int>, ifLoc: map<Pair, int>, nbLocations: int, o: int, o2: int)
    returns (r: map<Pair, int>)
    requires forall loc :: 0 <= loc < nbLocations ==> (loc, o) in ifLoc && (loc, o2) in ifLoc
    requires (o, o2) !in r0
    ensures r == AfterPair(r0, ifLoc, nbLocations, o, o2)
  {
    r := r0;
    var loc := 0;
    while loc < nbLocations
      invariant 0 <= loc && (loc <= nbLocations || loc == 0)
      invariant r == AfterPair(r0, ifLoc, loc, o, o2)
    {
      assert ifLoc[(loc, o)] == Get(ifLoc, (loc, o)) && ifLoc[(loc, o2)] == Get(ifLoc, (loc, o2));
      if ifLoc[(loc, o)] == 1 && ifLoc[(loc, o2)] == 1 {
        r := r[(o, o2) := Get(r, (o, o2)) + 1];
      }
      loc := loc + 1;
    }
  }

  method CommonElements(ifLoc: map<Pair, int>, nbOrders: int, nbLocations: int) returns (r: map<Pair, int>)
    requires HasKeys(ifLoc, nbOrders, nbLocations)
    ensures IsAffinity(r, ifLoc, nbOrders, nbLocations)
    ensures forall k :: k in r ==> 1 <= r[k] <= nbLocations
    ensures forall o, o2 :: 0 <= o < o2 < nbOrders ==>
              Get(r, (o, o2)) == SharedCount(ifLoc, o, o2, nbLocations)
  {
    r := map[];
    var o := 0;
    while o < nbOrders
      invariant 0 <= o && (o <= nbOrders || o == 0)
      invariant AffinityUpTo(r, ifLoc, nbOrders, nbLocations, o, o + 1)
    {
      var o2 := o + 1;
      while o2 < nbOrders
        invariant o + 1 <= o2 && (o2 <= nbOrders || o2 == o + 1)
        invariant AffinityUpTo(r, ifLoc, nbOrders, nbLocations, o, o2)
      {
        ghost var before := r;
        assert (o, o2) !in before;
        r := CountSharedLocations(r, ifLoc, nbLocations, o, o2);
        AffinityStep(before, ifLoc, nbOrders, nbLocations, o, o2);
        o2 := o2 + 1;
      }
      AffinityNextOrder(r, ifLoc, nbOrders, nbLocations, o, o2);
      o := o + 1;
    }
    AffinityFinished(r, ifLoc, nbOrders, nbLocations, o);
  }

  lemma AffinityFinished(r: map<Pair, int>, ifLoc: map<Pair, int>, nbOrders: int, nbLocations: int, o: int)
    requires 0 <= o && nbOrders <= o
    requires AffinityUpTo(r, ifLoc, nbOrders, nbLocations, o, o + 1)
    ensures IsAffinity(r, ifLoc, nbOrders, nbLocations)
    ensures forall k :: k in r ==> 1 <= r[k] <= nbLocations
    ensures forall o, o2 :: 0 <= o < o2 < nbOrders ==>
              Get(r, (o, o2)) == SharedCount(ifLoc, o, o2, nbLocations)
  {
    forall a, b
      ensures Done(a, b, nbOrders, o, o + 1) <==> Done(a, b, nbOrders, nbOrders, nbOrders)
    {
    }
    forall k | k in r
      ensures 1 <= r[k] <= nbLocations
    {
      var a, b := k.0, k.1;
      assert (a, b) == k;
      assert r[(a, b)] == SharedCount(ifLoc, a, b, nbLocations) > 0;
    }
  }

  /** Over an incidence table, the affinity of two orders is the number of
      locations below `nbLocations` that both orders' location sets contain;
      locations outside that range are ignored. */
  lemma AffinityIsSharedLocations(ifLoc: map<Pair, int>, r: map<Pair, int>, nbLocations: int,
                                  orders: seq<Order>, o: int, o2: int)
    requires IsIncidence(ifLoc, nbLocations, orders)
    requires IsAffinity(r, ifLoc, |orders|, nbLocations)
    requires 0 <= o < o2 < |orders|
    ensures Get(r, (o, o2)) ==
            |set loc | loc in orders[o].locationsSet * orders[o2].locationsSet && 0 <= loc < nbLocations|
  {
    SharedCountIsCardinality(ifLoc, o, o2, nbLocations);
    var shared := set loc | loc in orders[o].locationsSet * orders[o2].locationsSet && 0 <= loc < nbLocations;
    assert SharedSet(ifLoc, o, o2, nbLocations) == shared by {
      forall loc
        ensures loc in SharedSet(ifLoc, o, o2, nbLocations) <==> loc in shared
      {
        if 0 <= loc < nbLocations {
          assert ifLoc[(loc, o)] == if loc in orders[o].locationsSet then 1 else 0;
          assert ifLoc[(loc, o2)] == if loc in orders[o2].locationsSet then 1 else 0;
        }
      }
    }
    if (o, o2) !in r {
      assert SharedCount(ifLoc, o, o2, nbLocations) == 0;
    }
  }

  // ---------------------------------------------------------------------
  // Per-picker location lists
  // ---------------------------------------------------------------------

  predicate StrictlyAscending(s: seq<int>)
  {
    forall i, j :: 0 <= i < j < |s| ==> s[i] < s[j]
  }

  /** Python's `sorted` applied to the elements of `s` that lie in
      `[lo, hi)`: the ascending list of exactly those elements. */
  function SortedWithin(s: set<int>, lo: int, hi: int): (r: seq<int>)
    ensures forall x :: x in r <==> x in s && lo <= x < hi
    ensures forall i :: 0 <= i < |r| ==> lo <= r[i] < hi
    ensures StrictlyAscending(r)
    ensures s == {} ==> r == []
    decreases hi - lo
  {
    if lo >= hi then []
    else (if lo in s then [lo] else []) + SortedWithin(s, lo + 1, hi)
  }

  /** Some order of `orders` has incidence 1 at `loc` (a key missing from
      the table counts as 0). */
  ghost predicate Needed(ifLoc: map<Pair, int>, orders: seq<int>, loc: int)
  {
    exists j :: 0 <= j < |orders| && Get(ifLoc, (loc, orders[j])) == 1
  }

  /** `r` lists, for every picker of `batches` in the same order, the
      ascending list of the locations below `nbLocations` that some order of
      that picker's batch needs. */
  ghost predicate IsPickerLocations(r: seq<(int, seq<int>)>, batches: seq<(int, seq<int>)>,
                                    ifLoc: map<Pair, int>, nbLocations: int)
  {
    |r| == |batches| &&
    forall i :: 0 <= i < |batches| ==>
      r[i].0 == batches[i].0 && StrictlyAscending(r[i].1) &&
      forall loc :: loc in r[i].1 <==> 0 <= loc < nbLocations && Needed(ifLoc, batches[i].1, loc)
  }

  method GetPickerLocationsFromIfLoc(batches: seq<(int, seq<int>)>, ifLoc: map<Pair, int>, nbLocations: int)
    returns (r: seq<(int, seq<int>)>)
    ensures IsPickerLocations(r, batches, ifLoc, nbLocations)
    ensures forall i :: 0 <= i < |batches| && batches[i].1 == [] ==> r[i].1 == []
  {
    r := [];
    var i := 0;
    while i < |batches|
      invariant 0 <= i <= |batches|
      invariant IsPickerLocations(r, batches[..i], ifLoc, nbLocations)
      invariant forall j :: 0 <= j < i && batches[j].1 == [] ==> r[j].1 == []
    {
      var (picker, orders) := batches[i];
      var locations: set<int> := {};
      var loc := 0;
      while loc < nbLocations
        invariant 0 <= loc && (loc <= nbLocations || loc == 0)
        invariant forall x :: x in locations <==> 0 <= x < loc && Needed(ifLoc, orders, x)
        invariant orders == [] ==> locations == {}
      {
        var k := 0;
        while k < |orders|
          invariant 0 <= k <= |orders|
          invariant forall x :: x in locations <==> 0 <= x < loc && Needed(ifLoc, orders, x)
          invariant forall j :: 0 <= j < k ==> Get(ifLoc, (loc, orders[j])) != 1
        {
          if Get(ifLoc, (loc, orders[k])) == 1 {
            locations := locations + {loc};
            break;
          }
          k := k + 1;
        }
        loc := loc + 1;
      }
      r := r + [(picker, SortedWithin(locations, 0, nbLocations))];
      assert batches[..i + 1] == batches[..i] + [batches[i]];
      i := i + 1;
    }
    assert batches[..i] == batches;
  }

  /** Over an incidence table, a picker's list holds exactly the in-range
      locations of the location sets of the orders of its batch; order ids
      that are not order indices contribute nothing. */
  lemma PickerLocationsAreUnionOfOrders(r: seq<(int, seq<int>)>, batches: seq<(int, seq<int>)>,
                                        ifLoc: map<Pair, int>, nbLocations: int, orders: seq<Order>,
                                        i: int, loc: int)
    requires IsIncidence(ifLoc, nbLocations, orders)
    requires IsPickerLocations(r, batches, ifLoc, nbLocations)
    requires 0 <= i < |batches|
    ensures loc in r[i].1 <==>
            0 <= loc < nbLocations &&
            exists o :: o in batches[i].1 && 0 <= o < |orders| && loc in orders[o].locationsSet
  {
    if loc in r[i].1 {
      var j :| 0 <= j < |batches[i].1| && Get(ifLoc, (loc, batches[i].1[j])) == 1;
      assert (loc, batches[i].1[j]) in ifLoc;
    }
    if 0 <= loc < nbLocations &&
       exists o :: o in batches[i].1 && 0 <= o < |orders| && loc in orders[o].locationsSet {
      var o :| o in batches[i].1 && 0 <= o < |orders| && loc in orders[o].locationsSet;
      var j :| 0 <= j < |batches[i].1| && batches[i].1[j] == o;
      assert Get(ifLoc, (loc, batches[i].1[j])) == 1;
    }
  }
}
