/** Validation of the raw inputs before any modelling: the distance matrix,
    the order list and the two capacity constraints. Each check answers a
    verdict and an ordered list of diagnostics; `check_orders` can also fall
    off its end and answer nothing. */
module InstanceChecker {
  import opened Common

  // ---------------------------------------------------------------------
  // Distance matrix
  // ---------------------------------------------------------------------

  datatype MatrixMessage =
    | MatrixFileEmpty
    | RowLength(row: nat, length: nat, expected: nat)
    | NegativeDistance(i: nat, j: nat)
    | DiagonalNotZero(i: nat, j: nat)
    | MatrixValid

  /** Every row has as many entries as there are rows. */
  predicate IsSquare(m: seq<seq<real>>)
  {
    forall i :: 0 <= i < |m| ==> |m[i]| == |m|
  }

  /** A usable distance matrix: non-empty, square, no negative entry and a
      zero diagonal. */
  predicate ValidMatrix(m: seq<seq<real>>)
  {
    |m| > 0 && IsSquare(m) &&
    forall i, j :: 0 <= i < |m| && 0 <= j < |m| ==> m[i][j] >= 0.0 && (i == j ==> m[i][j] == 0.0)
  }

  /** One message per row among the first `k` whose length is not the row
      count, in row order. */
  function RowErrors(m: seq<seq<real>>, k: nat): seq<MatrixMessage>
    requires k <= |m|
  {
    if k == 0 then []
    else RowErrors(m, k - 1) + (if |m[k - 1]| != |m| then [RowLength(k - 1, |m[k - 1]|, |m|)] else [])
  }

  /** The messages of entry (i, j): negative, then non-zero diagonal. */
  function CellErrors(m: seq<seq<real>>, i: nat, j: nat): seq<MatrixMessage>
    requires i < |m| && j < |m[i]|
  {
    (if m[i][j] < 0.0 then [NegativeDistance(i, j)] else []) +
    (if i == j && m[i][j] != 0.0 then [DiagonalNotZero(i, j)] else [])
  }

  /** The messages of entries (i, 0) .. (i, j - 1). */
  function RowValueErrors(m: seq<seq<real>>, i: nat, j: nat): seq<MatrixMessage>
    requires i < |m| && j <= |m[i]|
  {
    if j == 0 then [] else RowValueErrors(m, i, j - 1) + CellErrors(m, i, j - 1)
  }

  /** The messages of rows 0 .. i - 1, row-major (each row in full; rows
      all have `|m|` entries once the matrix is square). */
  function ValueErrors(m: seq<seq<real>>, i: nat): seq<MatrixMessage>
    requires i <= |m|
  {
    if i == 0 then [] else ValueErrors(m, i - 1) + RowValueErrors(m, i - 1, |m[i - 1]|)
  }

  /** What `check_distance_matrix` answers. */
  function MatrixVerdict(m: seq<seq<real>>): (bool, seq<MatrixMessage>)
  {
    if |m| == 0 then (false, [MatrixFileEmpty])
    else if RowErrors(m, |m|) != [] then (false, RowErrors(m, |m|))
    else if ValueErrors(m, |m|) != [] then (false, ValueErrors(m, |m|))
    else (true, [MatrixValid])
  }

  /** A row message stands for a row of the wrong length. */
  predicate IsRowDefect(m: seq<seq<real>>, x: MatrixMessage)
  {
    x.RowLength? && x.row < |m| && |m[x.row]| != |m| && x == RowLength(x.row, |m[x.row]|, |m|)
  }

  /** The row a row message names; -1 for the others. */
  function RowOf(x: MatrixMessage): int
  {
    if x.RowLength? then x.row else -1
  }

  /** The row messages name only rows of the wrong length, each once, in
      increasing row order. */
  lemma {:induction false} RowErrorsSound(m: seq<seq<real>>, k: nat)
    requires k <= |m|
    ensures forall a :: 0 <= a < |RowErrors(m, k)| ==>
              IsRowDefect(m, RowErrors(m, k)[a]) && RowErrors(m, k)[a].row < k
    ensures forall a, b :: 0 <= a < b < |RowErrors(m, k)| ==> RowOf(RowErrors(m, k)[a]) < RowOf(RowErrors(m, k)[b])
  {
    if k > 0 {
      RowErrorsSound(m, k - 1);
      var e := RowErrors(m, k - 1);
      if |m[k - 1]| != |m| {
        var r := e + [RowLength(k - 1, |m[k - 1]|, |m|)];
        assert RowErrors(m, k) == r;
        assert forall a :: 0 <= a < |e| ==> r[a] == e[a];
      }
    }
  }

  /** Every row of the wrong length among the first `k` is named, so there
      is no row message exactly when those rows all have the right length. */
  lemma {:induction false} RowErrorsComplete(m: seq<seq<real>>, k: nat)
    requires k <= |m|
    ensures forall i :: 0 <= i < k && |m[i]| != |m| ==> RowLength(i, |m[i]|, |m|) in RowErrors(m, k)
    ensures RowErrors(m, k) == [] <==> forall i :: 0 <= i < k ==> |m[i]| == |m|
  {
    if k > 0 {
      RowErrorsComplete(m, k - 1);
      var e := RowErrors(m, k - 1);
      var t := if |m[k - 1]| != |m| then [RowLength(k - 1, |m[k - 1]|, |m|)] else [];
      assert RowErrors(m, k) == e + t;
      forall i | 0 <= i < k && |m[i]| != |m|
        ensures RowLength(i, |m[i]|, |m|) in e + t
      {
        if i < k - 1 {
          assert RowLength(i, |m[i]|, |m|) in e;
        } else {
          assert RowLength(i, |m[i]|, |m|) in t;
        }
      }
      if e + t == [] {
        assert e == [];
      }
    }
  }

  /** The entry an entry message names; (-1, -1) for the others. */
  function Cell(x: MatrixMessage): (int, int)
  {
    match x
    case NegativeDistance(i, j) => (i as int, j as int)
    case DiagonalNotZero(i, j) => (i as int, j as int)
    case _ => (-1, -1)
  }

  /** `x` names an entry no earlier in row-major order than `y` does. */
  predicate NotBefore(x: MatrixMessage, y: MatrixMessage)
  {
    Cell(x).0 > Cell(y).0 || (Cell(x).0 == Cell(y).0 && Cell(x).1 >= Cell(y).1)
  }

  /** A value message stands for a real defect of the entry it names. */
  predicate IsValueDefect(m: seq<seq<real>>, x: MatrixMessage)
  {
    match x
    case NegativeDistance(i, j) => i < |m| && j < |m[i]| && m[i][j] < 0.0
    case DiagonalNotZero(i, j) => i < |m| && i == j && i < |m[i]| && m[i][i] != 0.0
    case _ => false
  }

  /** The entry messages of row `i` up to column `j` name only defects of
      that row below column `j`, in column order. */
  lemma {:induction false} RowValueErrorsSound(m: seq<seq<real>>, i: nat, j: nat)
    requires i < |m| && j <= |m[i]|
    ensures forall a :: 0 <= a < |RowValueErrors(m, i, j)| ==>
              IsValueDefect(m, RowValueErrors(m, i, j)[a]) &&
              Cell(RowValueErrors(m, i, j)[a]).0 == i && Cell(RowValueErrors(m, i, j)[a]).1 < j
    ensures forall a, b :: 0 <= a < b < |RowValueErrors(m, i, j)| ==>
              NotBefore(RowValueErrors(m, i, j)[b], RowValueErrors(m, i, j)[a])
  {
    if j > 0 {
      RowValueErrorsSound(m, i, j - 1);
      var e, c := RowValueErrors(m, i, j - 1), CellErrors(m, i, j - 1);
      assert RowValueErrors(m, i, j) == e + c;
      assert forall a :: 0 <= a < |c| ==> IsValueDefect(m, c[a]) && Cell(c[a]) == (i, j - 1);
    }
  }

  /** Every negative entry of row `i` below column `j` is named. */
  lemma {:induction false} RowNegativesNamed(m: seq<seq<real>>, i: nat, j: nat)
    requires i < |m| && j <= |m[i]|
    ensures forall c :: 0 <= c < j && m[i][c] < 0.0 ==> NegativeDistance(i, c) in RowValueErrors(m, i, j)
  {
    if j > 0 {
      RowNegativesNamed(m, i, j - 1);
      var e, t := RowValueErrors(m, i, j - 1), CellErrors(m, i, j - 1);
      assert RowValueErrors(m, i, j) == e + t;
      forall c | 0 <= c < j && m[i][c] < 0.0
        ensures NegativeDistance(i, c) in e + t
      {
        if c < j - 1 {
          assert NegativeDistance(i, c) in e;
        } else {
          assert t[0] == NegativeDistance(i, c);
        }
      }
    }
  }

  /** A non-zero diagonal entry of row `i` below column `j` is named. */
  lemma {:induction false} RowDiagonalNamed(m: seq<seq<real>>, i: nat, j: nat)
    requires i < |m| && j <= |m[i]|
    ensures i < j && m[i][i] != 0.0 ==> DiagonalNotZero(i, i) in RowValueErrors(m, i, j)
  {
    if i < j && m[i][i] != 0.0 {
      var e, t := RowValueErrors(m, i, j - 1), CellErrors(m, i, j - 1);
      assert RowValueErrors(m, i, j) == e + t;
      if i < j - 1 {
        RowDiagonalNamed(m, i, j - 1);
        assert DiagonalNotZero(i, i) in e;
      } else {
        assert t[|t| - 1] == DiagonalNotZero(i, i);
      }
    }
  }

  /** Every defect of row `i` below column `j` is named. */
  lemma RowValueErrorsComplete(m: seq<seq<real>>, i: nat, j: nat)
    requires i < |m| && j <= |m[i]|
    ensures forall c :: 0 <= c < j && m[i][c] < 0.0 ==> NegativeDistance(i, c) in RowValueErrors(m, i, j)
    ensures i < j && m[i][i] != 0.0 ==> DiagonalNotZero(i, i) in RowValueErrors(m, i, j)
  {
    RowNegativesNamed(m, i, j);
    RowDiagonalNamed(m, i, j);
  }

  /** The entry messages of the first `k` rows name only defects of those
      rows, in row-major order. */
  lemma {:induction false} ValueErrorsSound(m: seq<seq<real>>, k: nat)
    requires k <= |m|
    ensures forall a :: 0 <= a < |ValueErrors(m, k)| ==>
              IsValueDefect(m, ValueErrors(m, k)[a]) && Cell(ValueErrors(m, k)[a]).0 < k
    ensures forall a, b :: 0 <= a < b < |ValueErrors(m, k)| ==>
              NotBefore(ValueErrors(m, k)[b], ValueErrors(m, k)[a])
  {
    if k > 0 {
      ValueErrorsSound(m, k - 1);
      RowValueErrorsSound(m, k - 1, |m[k - 1]|);
      var e, r := ValueErrors(m, k - 1), RowValueErrors(m, k - 1, |m[k - 1]|);
      assert ValueErrors(m, k) == e + r;
      forall a, b | 0 <= a < b < |e + r|
        ensures NotBefore((e + r)[b], (e + r)[a])
      {
        if b >= |e| && a < |e| {
          assert (e + r)[a] == e[a] && (e + r)[b] == r[b - |e|];
        }
      }
    }
  }

  /** Every defect in the first `k` rows is named. */
  lemma {:induction false} ValueErrorsComplete(m: seq<seq<real>>, k: nat)
    requires k <= |m|
    ensures forall i, j :: 0 <= i < k && 0 <= j < |m[i]| && m[i][j] < 0.0 ==>
              NegativeDistance(i, j) in ValueErrors(m, k)
    ensures forall i :: 0 <= i < k && i < |m[i]| && m[i][i] != 0.0 ==> DiagonalNotZero(i, i) in ValueErrors(m, k)
  {
    if k > 0 {
      ValueErrorsComplete(m, k - 1);
      RowValueErrorsComplete(m, k - 1, |m[k - 1]|);
      var e, r := ValueErrors(m, k - 1), RowValueErrors(m, k - 1, |m[k - 1]|);
      assert ValueErrors(m, k) == e + r;
      forall x | x in e
        ensures x in e + r
      {
      }
    }
  }

  /** Rows before `k` contribute a prefix of the entry messages. */
  lemma {:induction false} ValueErrorsPrefix(m: seq<seq<real>>, k: nat, n: nat)
    requires k <= n <= |m|
    ensures ValueErrors(m, k) <= ValueErrors(m, n)
    decreases n - k
  {
    if k < n {
      ValueErrorsPrefix(m, k, n - 1);
      var a, b, c := ValueErrors(m, k), ValueErrors(m, n - 1), ValueErrors(m, n);
      assert c == b + RowValueErrors(m, n - 1, |m[n - 1]|);
      assert c[..|b|] == b;
      assert c[..|a|] == b[..|a|];
    }
  }

  /** Columns before `k` contribute a prefix of the row's entry messages. */
  lemma {:induction false} RowValueErrorsPrefix(m: seq<seq<real>>, i: nat, k: nat, n: nat)
    requires i < |m| && k <= n <= |m[i]|
    ensures RowValueErrors(m, i, k) <= RowValueErrors(m, i, n)
    decreases n - k
  {
    if k < n {
      RowValueErrorsPrefix(m, i, k, n - 1);
      var a, b, c := RowValueErrors(m, i, k), RowValueErrors(m, i, n - 1), RowValueErrors(m, i, n);
      assert c == b + CellErrors(m, i, n - 1);
      assert c[..|b|] == b;
      assert c[..|a|] == b[..|a|];
    }
  }

  /** A negative diagonal entry is reported twice, by two consecutive
      messages: first as negative, then as a non-zero diagonal. */
  lemma NegativeDiagonalReportedTwice(m: seq<seq<real>>, i: nat)
    requires i < |m| && i < |m[i]| && m[i][i] < 0.0
    ensures exists p :: 0 <= p && p + 1 < |ValueErrors(m, |m|)| &&
              ValueErrors(m, |m|)[p] == NegativeDistance(i, i) &&
              ValueErrors(m, |m|)[p + 1] == DiagonalNotZero(i, i)
  {
    var full := ValueErrors(m, |m|);
    var before := ValueErrors(m, i);
    var row := RowValueErrors(m, i, |m[i]|);
    var inRow := RowValueErrors(m, i, i);
    var cell := CellErrors(m, i, i);
    assert cell == [NegativeDistance(i, i), DiagonalNotZero(i, i)];
    RowValueErrorsPrefix(m, i, i + 1, |m[i]|);
    assert RowValueErrors(m, i, i + 1) == inRow + cell;
    assert row[|inRow|] == cell[0] && row[|inRow| + 1] == cell[1];
    ValueErrorsPrefix(m, i + 1, |m|);
    assert ValueErrors(m, i + 1) == before + row;
    var p := |before| + |inRow|;
    assert full[p] == ValueErrors(m, i + 1)[p];
    assert full[p + 1] == ValueErrors(m, i + 1)[p + 1];
  }

  /** The matrix is accepted, with exactly the one "valid" message, if and
      only if it is a usable distance matrix. */
  lemma MatrixVerdictIsValidity(m: seq<seq<real>>)
    ensures MatrixVerdict(m).0 <==> ValidMatrix(m)
    ensures MatrixVerdict(m).0 ==> MatrixVerdict(m).1 == [MatrixValid]
    ensures !MatrixVerdict(m).0 ==> MatrixVerdict(m).1 != []
  {
    if |m| > 0 {
      RowErrorsComplete(m, |m|);
      if IsSquare(m) {
        ValueErrorsSound(m, |m|);
        ValueErrorsComplete(m, |m|);
        if ValueErrors(m, |m|) != [] {
          var x := ValueErrors(m, |m|)[0];
          assert IsValueDefect(m, x);
        }
        if !ValidMatrix(m) {
          var i, j :| 0 <= i < |m| && 0 <= j < |m| && !(m[i][j] >= 0.0 && (i == j ==> m[i][j] == 0.0));
          assert |m[i]| == |m|;
          if m[i][j] < 0.0 {
            assert NegativeDistance(i, j) in ValueErrors(m, |m|);
          } else {
            assert DiagonalNotZero(i, i) in ValueErrors(m, |m|);
          }
        }
      }
    }
  }

  /** The inner loop of the value checks: row `i`, column by column. */
  method CheckRowValues(matrix: seq<seq<real>>, i: nat, errors0: seq<MatrixMessage>)
    returns (errors: seq<MatrixMessage>)
    requires i < |matrix| && |matrix[i]| == |matrix|
    ensures errors == errors0 + RowValueErrors(matrix, i, |matrix|)
  {
    errors := errors0;
    var row := matrix[i];
    for j := 0 to |matrix|
      invariant errors == errors0 + RowValueErrors(matrix, i, j)
    {
      var val := row[j];
      ghost var atCell := errors;
      if val < 0.0 {
        errors := errors + [NegativeDistance(i, j)];
      }
      if i == j && val != 0.0 {
        errors := errors + [DiagonalNotZero(i, j)];
      }
      assert errors == atCell + CellErrors(matrix, i, j);
    }
  }

  /** The first loop of the check: one message per row of the wrong length. */
  method CheckRowLengths(matrix: seq<seq<real>>) returns (errors: seq<MatrixMessage>)
    ensures errors == RowErrors(matrix, |matrix|)
  {
    errors := [];
    var n := |matrix|;
    for i := 0 to n
      invariant errors == RowErrors(matrix, i)
    {
      var row := matrix[i];
      if |row| != n {
        errors := errors + [RowLength(i, |row|, n)];
      }
    }
  }

  /** The second loop of the check, on a square matrix: the entry messages
      in row-major order. */
  method CheckValues(matrix: seq<seq<real>>) returns (errors: seq<MatrixMessage>)
    requires forall i :: 0 <= i < |matrix| ==> |matrix[i]| == |matrix|
    ensures errors == ValueErrors(matrix, |matrix|)
  {
    errors := [];
    for i := 0 to |matrix|
      invariant errors == ValueErrors(matrix, i)
    {
      errors := CheckRowValues(matrix, i, errors);
    }
  }

  method CheckDistanceMatrix(matrix: seq<seq<real>>) returns (valid: bool, messages: seq<MatrixMessage>)
    ensures (valid, messages) == MatrixVerdict(matrix)
    ensures valid <==> ValidMatrix(matrix)
    ensures valid ==> messages == [MatrixValid]
    ensures |matrix| == 0 ==> messages == [MatrixFileEmpty]
    ensures |matrix| > 0 && !IsSquare(matrix) ==> messages == RowErrors(matrix, |matrix|)
  {
    if |matrix| == 0 {
      MatrixVerdictIsValidity(matrix);
      return false, [MatrixFileEmpty];
    }
    var errors := CheckRowLengths(matrix);
    if errors != [] {
      MatrixVerdictIsValidity(matrix);
      return false, errors;
    }
    RowErrorsComplete(matrix, |matrix|);
    errors := CheckValues(matrix);
    MatrixVerdictIsValidity(matrix);
    if errors != [] {
      return false, errors;
    }
    return true, [MatrixValid];
  }

  // ---------------------------------------------------------------------
  // Orders
  // ---------------------------------------------------------------------

  /** The five keys an order record must carry. */
  datatype Key = Id | Volume | NbLocations | LocationsList | LocationsSet

  /** An order as a dictionary that may lack any of its keys. */
  datatype OrderRecord = OrderRecord(
    id: Option<int>,
    volume: Option<int>,
    nbLocations: Option<int>,
    locationsList: Option<seq<int>>,
    locationsSet: Option<set<int>>)

  datatype OrderMessage =
    | NoOrdersLoaded
    | MissingKeys(order: int, missing: set<Key>)
    | NbLocationsMismatch(order: int)
    | DuplicateLocations(order: int)
    | OrdersValid

  /** The required keys the record lacks. */
  function Missing(o: OrderRecord): set<Key>
  {
    (if o.id.None? then {Id} else {}) +
    (if o.volume.None? then {Volume} else {}) +
    (if o.nbLocations.None? then {NbLocations} else {}) +
    (if o.locationsList.None? then {LocationsList} else {}) +
    (if o.locationsSet.None? then {LocationsSet} else {})
  }

  predicate Complete(o: OrderRecord)
  {
    o.id.Some? && o.volume.Some? && o.nbLocations.Some? && o.locationsList.Some? && o.locationsSet.Some?
  }

  /** The name an incomplete order is reported under: its id when it has
      one, otherwise its position. */
  function Label(o: OrderRecord, idx: int): int
  {
    if o.id.Some? then o.id.value else idx
  }

  /** The consistency messages of a complete order. */
  function ConsistencyErrors(o: OrderRecord): seq<OrderMessage>
    requires Complete(o)
  {
    (if |o.locationsList.value| != o.nbLocations.value then [NbLocationsMismatch(o.id.value)] else []) +
    (if |o.locationsList.value| != |o.locationsSet.value| then [DuplicateLocations(o.id.value)] else [])
  }

  /** The verdict reached from position `idx` on, with `errors` gathered so
      far: incomplete orders add a message and are skipped, the first
      complete order decides. */
  function OrdersVerdictFrom(orders: seq<OrderRecord>, idx: nat, errors: seq<OrderMessage>)
    : Option<(bool, seq<OrderMessage>)>
    requires idx <= |orders|
    decreases |orders| - idx
  {
    if idx == |orders| then None
    else if !Complete(orders[idx]) then
      OrdersVerdictFrom(orders, idx + 1, errors + [MissingKeys(Label(orders[idx], idx), Missing(orders[idx]))])
    else
      var e := errors + ConsistencyErrors(orders[idx]);
      Some(if e == [] then (true, [OrdersValid]) else (false, e))
  }

  /** What `check_orders` answers. */
  function OrdersVerdict(orders: seq<OrderRecord>): Option<(bool, seq<OrderMessage>)>
  {
    if |orders| == 0 then Some((false, [NoOrdersLoaded])) else OrdersVerdictFrom(orders, 0, [])
  }

  method CheckOrders(orders: seq<OrderRecord>) returns (r: Option<(bool, seq<OrderMessage>)>)
    ensures r == OrdersVerdict(orders)
    ensures |orders| == 0 ==> r == Some((false, [NoOrdersLoaded]))
    ensures r.None? <==> |orders| > 0 && forall i :: 0 <= i < |orders| ==> !Complete(orders[i])
  {
    NoVerdictIffAllIncomplete(orders);
    var errors: seq<OrderMessage> := [];
    if |orders| == 0 {
      return Some((false, [NoOrdersLoaded]));
    }
    for idx := 0 to |orders|
      invariant OrdersVerdictFrom(orders, idx, errors) == OrdersVerdict(orders)
    {
      var order := orders[idx];
      var missing := Missing(order);
      if missing != {} {
        errors := errors + [MissingKeys(Label(order, idx), missing)];
        continue;
      }
      assert Complete(order);
      ghost var before := errors;
      if |order.locationsList.value| != order.nbLocations.value {
        errors := errors + [NbLocationsMismatch(order.id.value)];
      }
      if |order.locationsList.value| != |order.locationsSet.value| {
        errors := errors + [DuplicateLocations(order.id.value)];
      }
      assert errors == before + ConsistencyErrors(order);
      if errors == [] {
        return Some((true, [OrdersValid]));
      } else {
        return Some((false, errors));
      }
    }
    return None;
  }

  /** One missing-keys message per order before position `k`. */
  function MissingMessages(orders: seq<OrderRecord>, k: nat): seq<OrderMessage>
    requires k <= |orders|
  {
    seq(k, i requires 0 <= i < k => MissingKeys(Label(orders[i], i), Missing(orders[i])))
  }

  lemma {:induction false} SkipIncomplete(orders: seq<OrderRecord>, i: nat, k: nat)
    requires i <= k <= |orders|
    requires forall j :: 0 <= j < k ==> !Complete(orders[j])
    ensures OrdersVerdictFrom(orders, i, MissingMessages(orders, i)) ==
            OrdersVerdictFrom(orders, k, MissingMessages(orders, k))
    decreases k - i
  {
    if i < k {
      assert MissingMessages(orders, i) + [MissingKeys(Label(orders[i], i), Missing(orders[i]))]
             == MissingMessages(orders, i + 1);
      SkipIncomplete(orders, i + 1, k);
    }
  }

  /** The verdict is decided by the first complete order, at position `k`:
      later orders are never looked at; the orders before it each add a
      missing-keys message, so the answer is positive only when `k` is 0 and
      that order is consistent. */
  lemma FirstCompleteOrderDecides(orders: seq<OrderRecord>, k: nat)
    requires k < |orders| && Complete(orders[k])
    requires forall j :: 0 <= j < k ==> !Complete(orders[j])
    ensures OrdersVerdict(orders) == OrdersVerdict(orders[..k + 1])
    ensures OrdersVerdict(orders).Some?
    ensures OrdersVerdict(orders).value.0 <==> k == 0 && ConsistencyErrors(orders[k]) == []
    ensures OrdersVerdict(orders).value.1 ==
            if OrdersVerdict(orders).value.0 then [OrdersValid]
            else MissingMessages(orders, k) + ConsistencyErrors(orders[k])
  {
    var prefix := orders[..k + 1];
    assert MissingMessages(orders, 0) == [] == MissingMessages(prefix, 0);
    SkipIncomplete(orders, 0, k);
    SkipIncomplete(prefix, 0, k);
    assert MissingMessages(prefix, k) == MissingMessages(orders, k);
    assert prefix[k] == orders[k];
    if k > 0 {
      assert MissingMessages(orders, k)[0] in MissingMessages(orders, k);
    }
  }

  /** `check_orders` answers nothing exactly when the list is non-empty and
      no order in it has all five keys. */
  lemma NoVerdictIffAllIncomplete(orders: seq<OrderRecord>)
    ensures OrdersVerdict(orders).None? <==>
            |orders| > 0 && forall i :: 0 <= i < |orders| ==> !Complete(orders[i])
  {
    if |orders| > 0 {
      NoVerdictFrom(orders, 0, []);
    }
  }

  lemma {:induction false} NoVerdictFrom(orders: seq<OrderRecord>, i: nat, errors: seq<OrderMessage>)
    requires i <= |orders|
    ensures OrdersVerdictFrom(orders, i, errors).None? <==>
            forall j :: i <= j < |orders| ==> !Complete(orders[j])
    decreases |orders| - i
  {
    if i < |orders| && !Complete(orders[i]) {
      NoVerdictFrom(orders, i + 1, errors + [MissingKeys(Label(orders[i], i), Missing(orders[i]))]);
    }
  }

  /** For an order whose location set is built from its location list (as
      the loader does), the duplicate message appears exactly when the list
      repeats a location; the count message exactly when the declared count
      is not the list's length. */
  lemma ConsistencyMessagesMeaning(o: OrderRecord)
    requires Complete(o) && o.locationsSet.value == Elems(o.locationsList.value)
    ensures DuplicateLocations(o.id.value) in ConsistencyErrors(o) <==> !NoDuplicates(o.locationsList.value)
    ensures NbLocationsMismatch(o.id.value) in ConsistencyErrors(o) <==>
            |o.locationsList.value| != o.nbLocations.value
    ensures ConsistencyErrors(o) == [] <==>
            NoDuplicates(o.locationsList.value) && |o.locationsList.value| == o.nbLocations.value
  {
    ElemsCardinality(o.locationsList.value);
  }

  /** The messages of one order: its missing keys, or else its consistency
      messages. */
  function OrderMessages(o: OrderRecord, idx: int): seq<OrderMessage>
  {
    if !Complete(o) then [MissingKeys(Label(o, idx), Missing(o))] else ConsistencyErrors(o)
  }

  /** The evidently intended verdict of `check_orders`: every order judged,
      the verdict given after the loop. */
  function OrdersIntended(orders: seq<OrderRecord>): (bool, seq<OrderMessage>)
  {
    if |orders| == 0 then (false, [NoOrdersLoaded])
    else if Gather(OrderMessages, orders, |orders|) == [] then (true, [OrdersValid])
    else (false, Gather(OrderMessages, orders, |orders|))
  }

  /** The order carries all five keys, its declared count is the length of
      its location list, and its location set is as large as that list. */
  predicate GoodOrder(o: OrderRecord)
  {
    Complete(o) && |o.locationsList.value| == o.nbLocations.value &&
    |o.locationsList.value| == |o.locationsSet.value|
  }

  /** A non-empty list of good orders. */
  predicate ValidOrders(orders: seq<OrderRecord>)
  {
    |orders| > 0 && forall i :: 0 <= i < |orders| ==> GoodOrder(orders[i])
  }

  lemma OrderMessagesEmpty(o: OrderRecord, idx: int)
    ensures OrderMessages(o, idx) == [] <==> GoodOrder(o)
  {
  }

  /** The orders before position `k` produce no message exactly when they
      are all good. */
  lemma AllOrderMessagesEmpty(orders: seq<OrderRecord>, k: nat)
    requires k <= |orders|
    ensures Gather(OrderMessages, orders, k) == [] <==> forall i :: 0 <= i < k ==> GoodOrder(orders[i])
  {
    GatherEmpty(OrderMessages, orders, k);
    forall i | 0 <= i < k
      ensures OrderMessages(orders[i], i) == [] <==> GoodOrder(orders[i])
    {
      OrderMessagesEmpty(orders[i], i);
    }
  }

  /** The intended check accepts exactly a non-empty list of complete,
      consistent orders, and then says only that they are valid. */
  lemma OrdersIntendedIsValidity(orders: seq<OrderRecord>)
    ensures OrdersIntended(orders).0 <==> ValidOrders(orders)
    ensures OrdersIntended(orders).0 ==> OrdersIntended(orders).1 == [OrdersValid]
  {
    AllOrderMessagesEmpty(orders, |orders|);
  }

  /** A consistent order followed by one with no keys at all. */
  function FirstGoodThenEmptyOrders(): seq<OrderRecord>
  {
    [OrderRecord(Some(7), Some(1), Some(1), Some([3]), Some({3})), OrderRecord(None, None, None, None, None)]
  }

  /** As written, the consistent first order decides and the second, which
      lacks every key, is never looked at; the intended check names it. */
  lemma AsWrittenIgnoresLaterOrders()
    ensures OrdersVerdict(FirstGoodThenEmptyOrders()) == Some((true, [OrdersValid]))
    ensures OrdersIntended(FirstGoodThenEmptyOrders()) ==
            (false, [MissingKeys(1, {Id, Volume, NbLocations, LocationsList, LocationsSet})])
  {
    var orders := FirstGoodThenEmptyOrders();
    assert ConsistencyErrors(orders[0]) == [];
    assert Missing(orders[1]) == {Id, Volume, NbLocations, LocationsList, LocationsSet};
    assert Gather(OrderMessages, orders, 1) == [];
    assert Label(orders[1], 1) == 1;
    assert OrderMessages(orders[1], 1) == [MissingKeys(1, {Id, Volume, NbLocations, LocationsList, LocationsSet})];
    assert Gather(OrderMessages, orders, 2) == [] + OrderMessages(orders[1], 1);
    assert Gather(OrderMessages, orders, 2) == [MissingKeys(1, {Id, Volume, NbLocations, LocationsList, LocationsSet})];
    assert OrdersIntended(orders) == (false, Gather(OrderMessages, orders, 2));
  }

  /** One pass of the intended loop: the order's missing keys, or else its
      consistency messages, appended to `errors0`. */
  method CheckOneOrder(order: OrderRecord, idx: int, errors0: seq<OrderMessage>) returns (errors: seq<OrderMessage>)
    ensures errors == errors0 + OrderMessages(order, idx)
  {
    var missing := Missing(order);
    if missing != {} {
      return errors0 + [MissingKeys(Label(order, idx), missing)];
    }
    errors := errors0;
    if |order.locationsList.value| != order.nbLocations.value {
      errors := errors + [NbLocationsMismatch(order.id.value)];
    }
    if |order.locationsList.value| != |order.locationsSet.value| {
      errors := errors + [DuplicateLocations(order.id.value)];
    }
    AppendAssoc(errors0, if |order.locationsList.value| != order.nbLocations.value then [NbLocationsMismatch(order.id.value)] else [],
                if |order.locationsList.value| != |order.locationsSet.value| then [DuplicateLocations(order.id.value)] else []);
  }

  /** The loop of the intended check: every order's messages, in order. */
  method CollectOrderMessages(orders: seq<OrderRecord>) returns (errors: seq<OrderMessage>)
    ensures errors == Gather(OrderMessages, orders, |orders|)
  {
    errors := [];
    for idx := 0 to |orders|
      invariant errors == Gather(OrderMessages, orders, idx)
    {
      errors := CheckOneOrder(orders[idx], idx, errors);
    }
  }

  /** The evidently intended `check_orders`: the verdict after the loop. */
  method CheckOrdersIntended(orders: seq<OrderRecord>) returns (valid: bool, messages: seq<OrderMessage>)
    ensures (valid, messages) == OrdersIntended(orders)
    ensures valid <==> ValidOrders(orders)
    ensures valid ==> messages == [OrdersValid]
  {
    if |orders| == 0 {
      OrdersIntendedIsValidity(orders);
      return false, [NoOrdersLoaded];
    }
    var errors := CollectOrderMessages(orders);
    OrdersIntendedIsValidity(orders);
    if errors == [] {
      return true, [OrdersValid];
    }
    return false, errors;
  }

  // ---------------------------------------------------------------------
  // Constraints
  // ---------------------------------------------------------------------

  /** A loaded constraint value: an integer, or anything Python's
      `isinstance(x, int)` rejects. */
  datatype Scalar = IntValue(n: int) | OtherValue

  datatype ConstraintsMessage =
    | ConstraintsFileEmpty
    | MaxOrdersNotInteger
    | MaxVolumeNotInteger
    | ConstraintsValid

  method CheckConstraints(constraints: seq<Scalar>) returns (valid: bool, messages: seq<ConstraintsMessage>)
    requires |constraints| != 1
    ensures |constraints| == 0 ==> !valid && messages == [ConstraintsFileEmpty]
    ensures |constraints| >= 2 ==>
              (valid <==> constraints[0].IntValue? && constraints[1].IntValue?)
    ensures valid ==> messages == [ConstraintsValid]
    ensures |constraints| >= 2 && !valid ==>
              (MaxOrdersNotInteger in messages <==> !constraints[0].IntValue?) &&
              (MaxVolumeNotInteger in messages <==> !constraints[1].IntValue?) &&
              (forall a, b :: 0 <= a < b < |messages| ==>
                 messages[a] == MaxOrdersNotInteger && messages[b] == MaxVolumeNotInteger)
    ensures messages != []
  {
    var errors: seq<ConstraintsMessage> := [];
    if |constraints| == 0 {
      errors := errors + [ConstraintsFileEmpty];
      return false, errors;
    }
    if !constraints[0].IntValue? {
      errors := errors + [MaxOrdersNotInteger];
    }
    if !constraints[1].IntValue? {
      errors := errors + [MaxVolumeNotInteger];
    }
    if |errors| != 0 {
      return false, errors;
    } else {
      return true, [ConstraintsValid];
    }
  }
}
