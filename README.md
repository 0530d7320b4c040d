# Warehouse order picking: instance and solution checkers, derived data

This project models the core of a warehouse order-picking optimiser: the
helpers that derive data from a loaded instance (`src/utils.py`), the checks
that validate an instance before modelling (`src/checker/instance_checker.py`)
and the checks that validate a solution afterwards
(`src/checker/solution_checker.py`).

An instance has three parts:
- a distance matrix between locations. A picker's route departs from
  location 0 and arrives at the last location, `nb_locations - 1`, the depot
  where routes end;
- a list of orders, each with an id, a volume, a declared number of locations,
  a location list and a location set;
- two capacities per picker: the maximum number of orders and the maximum
  volume.

A solution has two parts:
- a batching, mapping each picker to the orders it collects;
- a route per picker, given as arcs between locations.

Files:
- `common.dfy`: an `Option` type, the element set of a sequence, distinctness,
  facts about reorderings (multisets) of lists without repeats, and `Gather`.
  `Gather` concatenates what a loop gathers item by item.
- `utils.dfy`: module `Utils`. It covers the instance sizes, the picker bounds,
  the location/order incidence table and the sparse pairwise shared-location
  counts ("affinity"). It also covers the sorted location list of every picker.
- `instance_checker.dfy`: module `InstanceChecker`. It holds the distance-matrix,
  order-list and constraint checks.
- `solution_checker.dfy`: module `SolutionChecker`. It holds the batching check
  and the route check.

How each check is modelled:
- Each check that loops in Python is a `method` with the same loops.
- The method is proved equal to a specification function of its inputs.
- Lemmas about that function state what the verdict means: for example,
  accepted exactly when the matrix is non-empty and square, with no negative
  entry and a zero diagonal, each defect named, in row-major order.
- Diagnostic strings become datatype constructors that carry the same data as
  the text: picker, order, row, column and count.

Python dictionaries are modelled two ways:
- A dictionary the code iterates over becomes a sequence of (key, value) pairs,
  which keeps the iteration order.
- A dictionary the code only looks up becomes a `map`. A `defaultdict(int)`
  lookup or a `dict.get(k, 0)` becomes `Get`, which answers 0 for an absent key.

Two checks return from inside their loop, as written. Both are modelled as
written and next to their corrected versions (see Findings):
- `check_orders` decides as soon as it meets the first order with all five
  keys.
- `check_batching_solution` decides after the first picker.

When a check's loop ends without reaching its `return`, the Python function
returns `None`. The model says so with `Option`, although a check is meant to
always answer a verdict and messages.

## Model

| member | source | states |
|---|---|---|
| Utils.LocationsAndOrdersCounts | src/utils.py:5-8 | The location count is the number of matrix rows. The order count is the length of the order list. |
| Utils.CeilDiv | src/utils.py:22-26 | For a positive divisor, `ceil(a / b)` is the least `q` with `q * b >= a`. |
| Utils.MaxPickersBounds | src/utils.py:10-32 | The upper bound is the number of orders (one picker per order). The lower bound's capacity covers both the order count and the total volume. One picker fewer would break at least one of the two. |
| Utils.LowerBoundIsLeast | src/utils.py:22-28 | Any picker count whose capacity covers both the order count and the total volume is at least the lower bound. |
| Utils.IfLocInOrder | src/utils.py:34-43 | The table has exactly the keys (location, order index) for locations below `nb_locations` and every order. The value is 1 when the location is in that order's location set, else 0. |
| Utils.SharedCount | src/utils.py:49-51 | The number of locations both orders share never exceeds the number of locations scanned. |
| Utils.SharedCountIsCardinality | src/utils.py:49-51 | The count of locations both orders have is the size of the set of those locations. |
| Utils.CountSharedLocations | src/utils.py:49-51 | After the innermost loop, the table is unchanged if the two orders share nothing. Otherwise it maps the pair to the number of shared locations. |
| Utils.AffinityStep | src/utils.py:48-51 | Counting one pair keeps the loop invariant: the stored pairs are exactly the visited pairs that share a location, with their counts. |
| Utils.AffinityNextOrder | src/utils.py:47-48 | Finishing the pairs of one order is starting those of the next order. |
| Utils.CommonElements | src/utils.py:45-52 | A pair `o < o2` is stored exactly when the two orders share a location, and it holds the number of shared locations. Every stored value is between 1 and `nb_locations`. A lookup with default 0 gives the count for every pair. |
| Utils.AffinityFinished | src/utils.py:45-52 | When both loops end, the invariant gives the complete affinity table. |
| Utils.AffinityIsSharedLocations | src/utils.py:34-52 | Over an incidence table, the affinity of two orders is the size of the intersection of their location sets, restricted to `0..nb_locations-1`. |
| Utils.SortedWithin | src/utils.py:66 | `sorted(locations)` holds exactly the set's elements in range, strictly ascending; an empty set gives an empty list. |
| Utils.GetPickerLocationsFromIfLoc | src/utils.py:54-68 | Each picker keeps its place and is paired with a strictly ascending list. The list holds exactly the locations below `nb_locations` that some order of the batch has with incidence 1. A picker with no orders gets an empty list. |
| Utils.PickerLocationsAreUnionOfOrders | src/utils.py:54-68 | Over an incidence table, a picker's list is the union of its orders' location sets, restricted to in-range locations. Order ids that are not order indices contribute nothing. |
| InstanceChecker.RowErrorsSound | src/checker/instance_checker.py:29-31 | Every row message names a row among those scanned whose length is wrong, with that length and the expected one. Rows are named in strictly increasing order. |
| InstanceChecker.RowErrorsComplete | src/checker/instance_checker.py:29-34 | Every row of the wrong length is named. There is no row message exactly when every row has `n` entries. |
| InstanceChecker.RowValueErrorsSound | src/checker/instance_checker.py:38-43 | The entry messages of a row name real defects of that row, in column order. |
| InstanceChecker.RowNegativesNamed | src/checker/instance_checker.py:38-41 | Every negative entry of a row is named. |
| InstanceChecker.RowDiagonalNamed | src/checker/instance_checker.py:42-43 | A non-zero diagonal entry is named. |
| InstanceChecker.RowValueErrorsComplete | src/checker/instance_checker.py:38-43 | Every defect of a row is named. |
| InstanceChecker.ValueErrorsSound | src/checker/instance_checker.py:37-43 | Every entry message names a negative entry or a non-zero diagonal entry, in row-major order. |
| InstanceChecker.ValueErrorsComplete | src/checker/instance_checker.py:37-43 | Every negative entry and every non-zero diagonal entry is named. |
| InstanceChecker.ValueErrorsPrefix | src/checker/instance_checker.py:37-43 | The messages of the first rows are a prefix of the messages of more rows; messages are only appended. |
| InstanceChecker.RowValueErrorsPrefix | src/checker/instance_checker.py:38-43 | The same prefix property within one row. |
| InstanceChecker.NegativeDiagonalReportedTwice | src/checker/instance_checker.py:40-43 | A negative diagonal entry gives two consecutive messages, "negative" then "diagonal not zero". |
| InstanceChecker.MatrixVerdictIsValidity | src/checker/instance_checker.py:3-47 | The matrix is accepted exactly when it is non-empty and square, with no negative entry and a zero diagonal. It is then accepted with the single "valid" message; a rejection always carries a message. |
| InstanceChecker.CheckRowLengths | src/checker/instance_checker.py:29-31 | The first loop gathers exactly the row messages. |
| InstanceChecker.CheckRowValues | src/checker/instance_checker.py:38-43 | The inner value loop appends exactly the entry messages of row `i`. |
| InstanceChecker.CheckValues | src/checker/instance_checker.py:37-43 | The value loops gather exactly the entry messages, row by row. |
| InstanceChecker.CheckDistanceMatrix | src/checker/instance_checker.py:3-47 | The answer is the specified verdict. It is valid exactly for a usable matrix, and then carries only the "valid" message. An empty matrix gives "file is empty". A non-square matrix gives exactly the row messages. |
| InstanceChecker.CheckOrders | src/checker/instance_checker.py:49-82 | As written: the answer is the specified verdict, and an empty list gives "no orders loaded". It answers nothing (`None`) exactly when the list is non-empty and no order has all five keys. |
| InstanceChecker.SkipIncomplete | src/checker/instance_checker.py:64-70 | Incomplete orders each add one missing-keys message and are skipped. |
| InstanceChecker.FirstCompleteOrderDecides | src/checker/instance_checker.py:64-82 | The first complete order, at position `k`, decides; later orders are never read. Acceptance happens exactly when `k` is 0 and that order is consistent. Otherwise the messages are the missing-keys messages of the first `k` orders, then that order's consistency messages. |
| InstanceChecker.NoVerdictIffAllIncomplete | src/checker/instance_checker.py:49-82 | No verdict exactly when the list is non-empty and every order lacks a key. |
| InstanceChecker.NoVerdictFrom | src/checker/instance_checker.py:64-70 | From position `i` on, the loop falls off its end exactly when no later order is complete. |
| InstanceChecker.ConsistencyMessagesMeaning | src/checker/instance_checker.py:73-77 | Assume the location set is built from the list. Then the duplicate message appears exactly when the list repeats a location. The count message appears exactly when the declared count differs from the list length. |
| InstanceChecker.OrderMessagesEmpty | src/checker/instance_checker.py:66-77 | An order draws no message exactly when it has all five keys, its declared count is its list length, and its set is as large as its list. |
| InstanceChecker.AllOrderMessagesEmpty | src/checker/instance_checker.py:64-77 | The orders gather no message exactly when each of them is good. |
| InstanceChecker.OrdersIntendedIsValidity | src/checker/instance_checker.py:49-82 | Corrected check: it accepts exactly a non-empty list of good orders, and then says only that they are valid. |
| InstanceChecker.AsWrittenIgnoresLaterOrders | src/checker/instance_checker.py:79-82 | Input: a consistent order followed by an order with no keys. As written it is accepted. The corrected check rejects it and names the second order's five missing keys. |
| InstanceChecker.CheckOneOrder | src/checker/instance_checker.py:64-77 | One pass of the loop appends exactly that order's messages: its missing keys, or else its consistency messages. |
| InstanceChecker.CollectOrderMessages | src/checker/instance_checker.py:64-77 | The corrected loop gathers every order's messages, in order. |
| InstanceChecker.CheckOrdersIntended | src/checker/instance_checker.py:49-82 | Corrected check: the verdict is given after the loop. It is valid exactly for a non-empty list of good orders, and then carries only the "valid" message. |
| InstanceChecker.CheckConstraints | src/checker/instance_checker.py:84-103 | An empty list gives "file is empty". The list is valid exactly when both capacities are integers. Each "not an integer" message appears exactly when its value is not an integer, with the order-count message first. A rejection always carries a message. |
| SolutionChecker.PyIndex | src/checker/solution_checker.py:25 | `vol[o]` reads index `o`, or `len(vol) + o` for a negative `o`. |
| SolutionChecker.DuplicatesAfterEmpty | src/checker/solution_checker.py:30-33 | No "assigned to multiple pickers" message exactly when the picker's orders are distinct and none was assigned before. |
| SolutionChecker.DuplicatesAfterCount | src/checker/solution_checker.py:30-33 | One message per repeat: the number of messages plus the number of new distinct orders is the number of orders. |
| SolutionChecker.BatchingIntendedIsSoundness | src/checker/solution_checker.py:19-38 | Corrected check: a batching is accepted exactly when every picker is within both capacities and no order is assigned twice. It is then accepted with the single "valid" message. |
| SolutionChecker.AsWrittenAgreesOnOnePicker | src/checker/solution_checker.py:19-38 | With a single picker, the check as written and the corrected check agree. |
| SolutionChecker.AsWrittenAcceptsSharedOrder | src/checker/solution_checker.py:35-38 | As written, order 0 given to pickers 0 and 1 (volume 1, capacities 1 and 1) is accepted. |
| SolutionChecker.IntendedRejectsSharedOrder | src/checker/solution_checker.py:29-33 | The corrected check rejects that input with exactly one "order 0 assigned to multiple pickers" message. |
| SolutionChecker.SumVolumes | src/checker/solution_checker.py:25 | The loop computes the picker's total volume. |
| SolutionChecker.MarkAssigned | src/checker/solution_checker.py:30-33 | Every order joins the assigned set. One message is appended per order already assigned. |
| SolutionChecker.CheckPicker | src/checker/solution_checker.py:20-33 | One picker adds its capacity messages, then its duplicate messages, and its orders to the assigned set. |
| SolutionChecker.CheckBatchingSolution | src/checker/solution_checker.py:3-38 | As written: no pickers gives no answer (`None`). Otherwise only the first picker is judged: it is valid exactly when that picker is within both capacities and lists no order twice. |
| SolutionChecker.CheckBatchingSolutionIntended | src/checker/solution_checker.py:3-38 | Corrected check: the answer is valid exactly for a sound batching, and then carries only the "valid" message. |
| SolutionChecker.Successors | src/checker/solution_checker.py:65 | The successor map's keys are exactly the arcs' sources. |
| SolutionChecker.LastArcDecides | src/checker/solution_checker.py:65 | When several arcs leave the same location, the last one wins. |
| SolutionChecker.SuccessorsWithinTargets | src/checker/solution_checker.py:65 | Every successor is the target of some arc. |
| SolutionChecker.Walk | src/checker/solution_checker.py:66-74 | The walk only adds to the visited set. A subtour is reported at a location already visited. |
| SolutionChecker.WalkWithinTargets | src/checker/solution_checker.py:66-74 | The walk visits only the start and arc targets. |
| SolutionChecker.FollowSuccessors | src/checker/solution_checker.py:66-74 | The `while` loop with `break` computes the walk from 0. |
| SolutionChecker.PickingVerdictMeaning | src/checker/solution_checker.py:51-82 | The solution is accepted exactly when no non-empty route draws a message. It is then accepted with the single "valid" message; a rejection always carries a message. |
| SolutionChecker.NoMovesIsValid | src/checker/solution_checker.py:54-56 | If no picker has an arc, the solution is valid. |
| SolutionChecker.CountFromNone | src/checker/solution_checker.py:57 | No arc leaves `v`, so the departure count is 0. |
| SolutionChecker.CountToNone | src/checker/solution_checker.py:59 | No arc enters `v`, so the arrival count is 0. |
| SolutionChecker.CountFromOne | src/checker/solution_checker.py:57 | Exactly one arc leaves `v`, so the departure count is 1. |
| SolutionChecker.CountToOne | src/checker/solution_checker.py:59 | Exactly one arc enters `v`, so the arrival count is 1. |
| SolutionChecker.WalkAlongChain | src/checker/solution_checker.py:66-74 | Along a repetition-free chain of successors, the walk visits the whole path and finds no subtour. |
| SolutionChecker.PathArcsChain | src/checker/solution_checker.py:65 | The successor map of a simple path's arcs follows the path. |
| SolutionChecker.PathCountsAccepted | src/checker/solution_checker.py:57-60 | A repetition-free path from 0 that passes the last location departs 0 once and arrives at the last location once. |
| SolutionChecker.PathWalkAccepted | src/checker/solution_checker.py:64-78 | A repetition-free path from 0 draws no subtour or disconnection message. |
| SolutionChecker.CountFromPermutation | src/checker/solution_checker.py:57 | The departure count depends only on the multiset of arcs, not on their order. |
| SolutionChecker.CountToPermutation | src/checker/solution_checker.py:59 | The arrival count depends only on the multiset of arcs, not on their order. |
| SolutionChecker.SuccessorsPermutation | src/checker/solution_checker.py:65 | Reordering arcs whose sources are distinct leaves the successor map unchanged, and the sources stay distinct. |
| SolutionChecker.RoutePermutationSameMessages | src/checker/solution_checker.py:57-78 | Reordering the arcs of a route whose sources are distinct changes none of its messages. |
| SolutionChecker.SimplePathAccepted | src/checker/solution_checker.py:54-78 | A route whose arcs, in any order, walk a repetition-free path from 0 through the last location is accepted. |
| SolutionChecker.AcceptsArcsListedByOrigin | src/checker/solution_checker.py:54-78 | The route 0→2→1→3 with four locations, its arcs listed by origin as `[(0,2),(1,3),(2,1)]`, is accepted. |
| SolutionChecker.AcceptedRouteUsesEveryArc | src/checker/solution_checker.py:57-78 | An accepted route has distinct arc targets, none of them 0, and the walk from 0 visits exactly 0 and every target. |
| SolutionChecker.WalkSeqFacts | src/checker/solution_checker.py:66-74 | The locations the walk adds, in order, are new, distinct, each the successor of the one before, and with the start they make up the visited set. |
| SolutionChecker.RoutePathFacts | src/checker/solution_checker.py:65-74 | The path the walk follows from 0 repeats no location, holds exactly the visited set, and each of its steps is an arc of the route. |
| SolutionChecker.AcceptedRouteIsAlongPath | src/checker/solution_checker.py:57-78 | An accepted route is a reordering of the arcs along the path its walk follows, a repetition-free path from 0 through the last location. |
| SolutionChecker.AcceptedIffAlongPath | src/checker/solution_checker.py:54-78 | A route is accepted if and only if its arcs, in some order, walk a repetition-free path from 0 through the last location. |
| SolutionChecker.AcceptsRouteEndingElsewhere | src/checker/solution_checker.py:52-78 | The route 0→5→3 with six locations is accepted. It arrives once at location 5 but ends at 3. |
| SolutionChecker.CountDepartures | src/checker/solution_checker.py:57 | The counting loop computes the number of arcs leaving `v`. |
| SolutionChecker.CountArrivals | src/checker/solution_checker.py:59 | The counting loop computes the number of arcs entering `v`. |
| SolutionChecker.BuildSuccessors | src/checker/solution_checker.py:65 | The dictionary comprehension computes the successor map. |
| SolutionChecker.CheckWalk | src/checker/solution_checker.py:64-78 | It appends exactly the subtour and disconnection messages of a route. |
| SolutionChecker.CheckRoute | src/checker/solution_checker.py:57-78 | It appends exactly the departure, arrival, subtour and disconnection messages of a route, in that order. |
| SolutionChecker.CheckPickingSolution | src/checker/solution_checker.py:40-82 | The answer is the specified verdict. It is valid exactly when no non-empty route draws a message, and then carries only the "valid" message. |

## Left out

- `solver_models.py`, `data_loader.py`, `main.py`, `mainPOIP.py` and
  `src/main.py` are not part of this model. They cover model building, the
  solver, file loading and the command line.
- File reading and the solver are left out. The checks take already-loaded
  values as parameters.
- Message texts are not modelled as strings. Each message is a constructor
  carrying the numbers the text interpolates.
- Distances are `real`. IEEE floating point, NaN and infinities are not
  modelled; the check only compares entries with 0.
- Utils.CeilDiv: computes the exact integer ceiling, not Python's `ceil` of a
  float division. They differ only for integers beyond 2^53.
- Utils.MaxPickersBounds: requires positive capacities. Python raises
  `ZeroDivisionError` for a zero capacity, and that path is not modelled.
  Python also accepts a negative capacity and returns a bound computed from
  the ceiling of a negative quotient (`ceil(n / -3)`). The model excludes
  negative capacities, so it says nothing about that result, which no
  longer covers the capacity.
- Utils.CommonElements: requires every key (location, order) to be present,
  which is more than Python reads. The `and` short-circuits, so the key of the
  second order is read only when the first order visits the location, and
  nothing is read when there are fewer than two orders. Every caller passes
  the full table built by `if_loc_in_order`. The `KeyError` that reading a
  missing key would raise is not modelled.
- InstanceChecker.CheckConstraints: requires a list that is not of length one.
  Python raises `IndexError` there, and that path is not modelled.
  `isinstance(x, int)` is modelled as a two-way choice, so a `bool`, which
  Python counts as an `int`, must be given as `IntValue`.
- Order records are modelled by which of the five keys are present. Extra keys
  and values of the wrong type are not modelled.
- SolutionChecker.CheckBatchingSolution: requires the first picker's order
  indices to be within Python's index range for `vol` (negative indices
  included). Those are the only volumes the check reads, because it returns
  after the first picker. Python raises `IndexError` for an index out of
  range there, and that path is not modelled.
- SolutionChecker.CheckBatchingSolutionIntended: requires every picker's order
  indices to be within Python's index range for `vol`, because the corrected
  check reads the volumes of all pickers. The `IndexError` path is not
  modelled.
- Dictionaries that are iterated are sequences of pairs. Key uniqueness is not
  required of them, so the model also covers inputs a dict cannot hold.
- The route check does not require a route to end at the last location. It
  only counts one arrival there (`AcceptsRouteEndingElsewhere`), so the
  characterisation of accepted routes (`AcceptedIffAlongPath`) asks for a path
  through the last location, not one ending there. This is recorded as the
  source's behaviour, not as a defect.

## Findings

| source | as written | input that shows it | evidently intended | confidence | as-written member | corrected member |
|---|---|---|---|---|---|---|
| src/checker/solution_checker.py:35-38 | The verdict `return` sits inside the `for` loop over pickers. Only the first picker is judged, and an empty batching returns `None`. | batches `{0: [0], 1: [0]}`, volumes `[1]`, capacities 1 and 1: accepted although order 0 is assigned twice | Judge every picker, then give the verdict after the loop | not executed | SolutionChecker.CheckBatchingSolution, SolutionChecker.AsWrittenAcceptsSharedOrder | SolutionChecker.CheckBatchingSolutionIntended, SolutionChecker.BatchingIntendedIsSoundness, SolutionChecker.IntendedRejectsSharedOrder |
| src/checker/instance_checker.py:79-82 | The verdict `return` sits inside the `for` loop over orders. The first complete order decides, later orders are never checked, and a list of only incomplete orders returns `None`. | a consistent order (id 7, one location) followed by an order with no keys: accepted | Check every order, then give the verdict after the loop | not executed | InstanceChecker.CheckOrders, InstanceChecker.AsWrittenIgnoresLaterOrders | InstanceChecker.CheckOrdersIntended, InstanceChecker.OrdersIntendedIsValidity |
