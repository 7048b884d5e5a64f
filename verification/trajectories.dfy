/**
 Trajectory preparation (src/process_data.py): `filter_and_classify` keeps
 the vehicles that never move backwards and labels each row bus or car, and
 `iqr_filter` drops the rows of one column that fall outside a window built
 from two quantiles (the quantile values themselves are inputs here).
 */
module Trajectories {
  import opened Wrappers
  import TextOrder

  /**
   The `id` column: an integer in the recorded highD tables, a vehicle name
   in a SUMO recording.
   */
  datatype VehicleId = Number(n: int) | Name(s: string)

  /**
   The order `groupby("id")` sorts the ids in, as pandas' sort for mixed
   keys does: numbers numerically, names by code point, and every number
   before every name.
   */
  predicate IdLess(a: VehicleId, b: VehicleId) {
    match (a, b)
    case (Number(x), Number(y)) => x < y
    case (Name(x), Name(y)) => TextOrder.Less(x, y)
    case (Number(_), Name(_)) => true
    case (Name(_), Number(_)) => false
  }

  predicate IdLe(a: VehicleId, b: VehicleId) {
    a == b || IdLess(a, b)
  }

  lemma IdLessIrreflexive(a: VehicleId)
    ensures !IdLess(a, a)
  {
    if a.Name? {
      TextOrder.LessIrreflexive(a.s);
    }
  }

  lemma IdLessTransitive(a: VehicleId, b: VehicleId, c: VehicleId)
    requires IdLess(a, b) && IdLess(b, c)
    ensures IdLess(a, c)
  {
    if a.Name? && b.Name? && c.Name? {
      TextOrder.LessTransitive(a.s, b.s, c.s);
    }
  }

  /** Distinct ids are always ordered one way or the other. */
  lemma IdLessTotal(a: VehicleId, b: VehicleId)
    requires a != b
    ensures IdLess(a, b) || IdLess(b, a)
  {
    if a.Name? && b.Name? {
      TextOrder.LessTotal(a.s, b.s);
    }
  }

  /** One row of a tracks table; `other` holds the columns this code does not read. */
  datatype Row = Row(id: VehicleId, xVelocity: real, width: real, other: map<string, real>)

  datatype VehicleType = Car | Bus

  /** A row together with the `vehicleType` column added to it. */
  datatype Labelled = Labelled(row: Row, vehicleType: VehicleType)

  /** `pd.concat([])` raises "No objects to concatenate". */
  datatype FrameError = NoObjectsToConcatenate

  /** `filter_and_classify`'s default `length_threshold`. */
  const DefaultLengthThreshold: real := 6.0

  // ---------------------------------------------------------------------------
  // Grouping by vehicle id
  // ---------------------------------------------------------------------------

  /** The rows of vehicle `id`, in their original order. */
  function WithId(rows: seq<Row>, id: VehicleId): (r: seq<Row>)
    ensures |r| <= |rows|
    ensures (exists i :: 0 <= i < |rows| && rows[i].id == id) ==> |r| > 0
    ensures forall i :: 0 <= i < |r| ==> r[i].id == id && r[i] in rows
    decreases |rows|
  {
    if |rows| == 0 then []
    else if rows[0].id == id then [rows[0]] + WithId(rows[1..], id)
    else
      assert (exists i :: 0 <= i < |rows| && rows[i].id == id) ==> exists i :: 0 <= i < |rows[1..]| && rows[1..][i].id == id by {
        if exists i :: 0 <= i < |rows| && rows[i].id == id {
          var i :| 0 <= i < |rows| && rows[i].id == id;
          assert rows[1..][i - 1].id == id;
        }
      }
      WithId(rows[1..], id)
  }

  /** The rows of every other vehicle, in their original order. */
  function WithoutId(rows: seq<Row>, id: VehicleId): (r: seq<Row>)
    ensures |r| <= |rows|
    ensures (exists i :: 0 <= i < |rows| && rows[i].id == id) ==> |r| < |rows|
    ensures forall i :: 0 <= i < |r| ==> r[i].id != id && r[i] in rows
    decreases |rows|
  {
    if |rows| == 0 then []
    else if rows[0].id == id then WithoutId(rows[1..], id)
    else
      assert (exists i :: 0 <= i < |rows| && rows[i].id == id) ==> exists i :: 0 <= i < |rows[1..]| && rows[1..][i].id == id by {
        if exists i :: 0 <= i < |rows| && rows[i].id == id {
          var i :| 0 <= i < |rows| && rows[i].id == id;
          assert rows[1..][i - 1].id == id;
        }
      }
      [rows[0]] + WithoutId(rows[1..], id)
  }

  /** The smallest vehicle id present. */
  function MinId(rows: seq<Row>): (m: VehicleId)
    requires |rows| > 0
    ensures exists i :: 0 <= i < |rows| && rows[i].id == m
    decreases |rows|
  {
    if |rows| == 1 then rows[0].id
    else
      var rest := MinId(rows[1..]);
      assert exists i :: 0 <= i < |rows| && rows[i].id == rest by {
        var i :| 0 <= i < |rows[1..]| && rows[1..][i].id == rest;
        assert rows[i + 1].id == rest;
      }
      if IdLe(rows[0].id, rest) then rows[0].id else rest
  }

  /** The id `MinId` picks sorts at or before every id of the table. */
  lemma {:induction false} MinIdLeast(rows: seq<Row>)
    requires |rows| > 0
    ensures forall i :: 0 <= i < |rows| ==> IdLe(MinId(rows), rows[i].id)
    decreases |rows|
  {
    if |rows| > 1 {
      var first := rows[0].id;
      var rest := MinId(rows[1..]);
      MinIdLeast(rows[1..]);
      if IdLe(first, rest) {
        forall i | 1 <= i < |rows| ensures IdLe(first, rows[i].id) {
          assert rows[i] == rows[1..][i - 1];
          if first != rest && rest != rows[i].id {
            IdLessTransitive(first, rest, rows[i].id);
          }
        }
      } else {
        IdLessTotal(first, rest);
        forall i | 1 <= i < |rows| ensures IdLe(rest, rows[i].id) {
          assert rows[i] == rows[1..][i - 1];
        }
      }
    }
  }

  /** `all(group["xVelocity"] >= 0)`. */
  predicate AllForward(group: seq<Row>) {
    forall i :: 0 <= i < |group| ==> group[i].xVelocity >= 0.0
  }

  /** Vehicle `id` never has a negative x-velocity. */
  predicate Forward(rows: seq<Row>, id: VehicleId) {
    AllForward(WithId(rows, id))
  }

  /**
   `[group for _, group in pd_f.groupby("id") if all(group["xVelocity"] >= 0)]`:
   `groupby` visits the ids in ascending order, and each group holds that
   vehicle's rows in their original order.
   */
  function ForwardGroups(rows: seq<Row>): (groups: seq<seq<Row>>)
    ensures forall k :: 0 <= k < |groups| ==> |groups[k]| > 0
    decreases |rows|
  {
    if |rows| == 0 then []
    else
      var m := MinId(rows);
      var group := WithId(rows, m);
      assert rows[0] in rows;
      (if AllForward(group) then [group] else []) + ForwardGroups(WithoutId(rows, m))
  }

  /** `pd.concat(groups)`. */
  function Concat(groups: seq<seq<Row>>): (r: Result<seq<Row>, FrameError>)
    ensures r.Failure? <==> |groups| == 0
  {
    if |groups| == 0 then Failure(NoObjectsToConcatenate) else Success(Flatten(groups))
  }

  function Flatten(groups: seq<seq<Row>>): seq<Row>
    decreases |groups|
  {
    if |groups| == 0 then [] else groups[0] + Flatten(groups[1..])
  }

  /** `"bus" if width > length_threshold else "car"`. */
  function Classify(width: real, threshold: real): VehicleType {
    if width > threshold then Bus else Car
  }

  /** `filter_and_classify(pd_f, length_threshold)`. */
  function FilterAndClassify(rows: seq<Row>, threshold: real): Result<seq<Labelled>, FrameError> {
    match Concat(ForwardGroups(rows))
    case Failure(e) => Failure(e)
    case Success(kept) => Success(seq(|kept|, i requires 0 <= i < |kept| => Labelled(kept[i], Classify(kept[i].width, threshold))))
  }

  /** The rows `filter_and_classify` keeps, before labelling. */
  function ForwardRows(rows: seq<Row>): seq<Row> {
    Flatten(ForwardGroups(rows))
  }

  function Unlabel(out: seq<Labelled>): (rows: seq<Row>)
    ensures |rows| == |out|
    ensures forall i :: 0 <= i < |out| ==> rows[i] == out[i].row
  {
    seq(|out|, i requires 0 <= i < |out| => out[i].row)
  }

  // ---------------------------------------------------------------------------
  // Properties
  // ---------------------------------------------------------------------------

  lemma {:induction false} WithIdAppend(a: seq<Row>, b: seq<Row>, id: VehicleId)
    ensures WithId(a + b, id) == WithId(a, id) + WithId(b, id)
    decreases |a|
  {
    if |a| > 0 {
      assert (a + b)[1..] == a[1..] + b;
      WithIdAppend(a[1..], b, id);
    } else {
      assert a + b == b;
    }
  }

  lemma {:induction false} WithIdOfGroup(rows: seq<Row>, m: VehicleId, id: VehicleId)
    ensures WithId(WithId(rows, m), id) == if id == m then WithId(rows, m) else []
    decreases |rows|
  {
    if |rows| > 0 {
      WithIdOfGroup(rows[1..], m, id);
      if rows[0].id == m {
        assert ([rows[0]] + WithId(rows[1..], m))[1..] == WithId(rows[1..], m);
      }
    }
  }

  lemma {:induction false} WithIdOfRest(rows: seq<Row>, m: VehicleId, id: VehicleId)
    ensures WithId(WithoutId(rows, m), id) == if id == m then [] else WithId(rows, id)
    decreases |rows|
  {
    if |rows| > 0 {
      WithIdOfRest(rows[1..], m, id);
      if rows[0].id != m {
        assert ([rows[0]] + WithoutId(rows[1..], m))[1..] == WithoutId(rows[1..], m);
      }
    }
  }

  /** A row is among the rows of its own vehicle exactly when it is among all rows. */
  lemma {:induction false} InWithId(rows: seq<Row>, r: Row)
    ensures r in WithId(rows, r.id) <==> r in rows
    decreases |rows|
  {
    if |rows| > 0 {
      InWithId(rows[1..], r);
      assert rows == [rows[0]] + rows[1..];
    }
  }

  /** `Forward` is the test `filter_and_classify` applies to a group: every row with that id has `xVelocity >= 0`. */
  lemma ForwardIff(rows: seq<Row>, id: VehicleId)
    ensures Forward(rows, id) <==> forall i :: 0 <= i < |rows| && rows[i].id == id ==> rows[i].xVelocity >= 0.0
  {
    var group := WithId(rows, id);
    forall i | 0 <= i < |rows| && rows[i].id == id
      ensures rows[i] in group
    {
      InWithId(rows, rows[i]);
    }
    forall k | 0 <= k < |group|
      ensures exists i :: 0 <= i < |rows| && rows[i].id == id && rows[i] == group[k]
    {
      assert group[k] in rows;
    }
  }

  /** The kept rows are the first vehicle's rows, if it qualifies, then the kept rows of the others. */
  lemma ForwardRowsUnfold(rows: seq<Row>)
    requires |rows| > 0
    ensures var m := MinId(rows);
      ForwardRows(rows) == (if Forward(rows, m) then WithId(rows, m) else []) + ForwardRows(WithoutId(rows, m))
  {
    var m := MinId(rows);
    var gs := ForwardGroups(WithoutId(rows, m));
    if Forward(rows, m) {
      assert ([WithId(rows, m)] + gs)[1..] == gs;
    } else {
      assert [] + gs == gs;
    }
  }

  /** No row is invented. */
  lemma {:induction false} ForwardRowsFromInput(rows: seq<Row>)
    ensures forall r :: r in ForwardRows(rows) ==> r in rows
    decreases |rows|
  {
    if |rows| > 0 {
      var m := MinId(rows);
      ForwardRowsUnfold(rows);
      ForwardRowsFromInput(WithoutId(rows, m));
    }
  }

  predicate IdsAscending(rows: seq<Row>) {
    forall i, j :: 0 <= i < j < |rows| ==> IdLe(rows[i].id, rows[j].id)
  }

  lemma AscendingAppend(head: seq<Row>, tail: seq<Row>, m: VehicleId)
    requires forall i :: 0 <= i < |head| ==> head[i].id == m
    requires forall i :: 0 <= i < |tail| ==> IdLess(m, tail[i].id)
    requires IdsAscending(tail)
    ensures IdsAscending(head + tail)
  {
    var out := head + tail;
    forall i, j | 0 <= i < j < |out| ensures IdLe(out[i].id, out[j].id) {
      if j >= |head| {
        assert out[j] == tail[j - |head|];
        if i >= |head| {
          assert out[i] == tail[i - |head|];
        }
      }
    }
  }

  /** The kept rows come grouped by vehicle, in ascending id order. */
  lemma {:induction false} ForwardRowsAscending(rows: seq<Row>)
    ensures IdsAscending(ForwardRows(rows))
    decreases |rows|
  {
    if |rows| > 0 {
      var m := MinId(rows);
      var rest := WithoutId(rows, m);
      var head := if Forward(rows, m) then WithId(rows, m) else [];
      var tail := ForwardRows(rest);
      ForwardRowsUnfold(rows);
      ForwardRowsAscending(rest);
      ForwardRowsFromInput(rest);
      MinIdLeast(rows);
      forall i | 0 <= i < |tail| ensures IdLess(m, tail[i].id) {
        assert tail[i] in rest;
        var k :| 0 <= k < |rest| && rest[k] == tail[i];
        assert rest[k] in rows;
        var j :| 0 <= j < |rows| && rows[j] == rest[k];
      }
      AscendingAppend(head, tail, m);
    }
  }

  /**
   Per vehicle: a forward vehicle keeps all its rows in their original
   order, and every other vehicle keeps none.
   */
  lemma {:induction false} ForwardRowsPerVehicle(rows: seq<Row>, id: VehicleId)
    ensures WithId(ForwardRows(rows), id) == if Forward(rows, id) then WithId(rows, id) else []
    decreases |rows|
  {
    if |rows| > 0 {
      var m := MinId(rows);
      var rest := WithoutId(rows, m);
      var head := if Forward(rows, m) then WithId(rows, m) else [];
      var tail := ForwardRows(rest);
      ForwardRowsUnfold(rows);
      ForwardRowsPerVehicle(rest, id);
      WithIdAppend(head, tail, id);
      WithIdOfGroup(rows, m, id);
      WithIdOfRest(rows, m, id);
      if id != m {
        assert WithId(head, id) == [];
        assert [] + WithId(tail, id) == WithId(tail, id);
      } else {
        assert WithId(tail, id) == [];
        assert WithId(head, id) + [] == WithId(head, id);
      }
    }
  }

  /** A row is kept exactly when every row of its vehicle has a non-negative x-velocity. */
  lemma ForwardRowsMembership(rows: seq<Row>, r: Row)
    ensures r in ForwardRows(rows) <==> r in rows && Forward(rows, r.id)
  {
    ForwardRowsPerVehicle(rows, r.id);
    InWithId(ForwardRows(rows), r);
    InWithId(rows, r);
  }

  /**
   `filter_and_classify`: it raises exactly when no vehicle qualifies;
   otherwise its rows are the kept rows, each labelled bus exactly when its
   width exceeds the threshold.
   */
  lemma FilterAndClassifySpec(rows: seq<Row>, threshold: real)
    ensures FilterAndClassify(rows, threshold).Failure?
        <==> forall i :: 0 <= i < |rows| ==> !Forward(rows, rows[i].id)
    ensures FilterAndClassify(rows, threshold).Success? ==>
      var out := FilterAndClassify(rows, threshold).value;
      && Unlabel(out) == ForwardRows(rows)
      && forall k :: 0 <= k < |out| ==> (out[k].vehicleType == Bus <==> out[k].row.width > threshold)
  {
    var groups := ForwardGroups(rows);
    FlattenEmpty(groups);
    if |groups| == 0 {
      forall i | 0 <= i < |rows| ensures !Forward(rows, rows[i].id) {
        ForwardRowsMembership(rows, rows[i]);
      }
    } else {
      var r := ForwardRows(rows)[0];
      ForwardRowsMembership(rows, r);
      var i :| 0 <= i < |rows| && rows[i] == r;
    }
  }

  /**
   Called without a threshold, `filter_and_classify` labels a kept row bus
   only when it is strictly wider than 6: a width of exactly 6 is a car.
   */
  lemma DefaultThresholdLabels(rows: seq<Row>)
    ensures FilterAndClassify(rows, DefaultLengthThreshold).Success? ==>
      var out := FilterAndClassify(rows, DefaultLengthThreshold).value;
      && Unlabel(out) == ForwardRows(rows)
      && forall k :: 0 <= k < |out| ==>
           && (out[k].row.width > 6.0 ==> out[k].vehicleType == Bus)
           && (out[k].row.width <= 6.0 ==> out[k].vehicleType == Car)
  {
    FilterAndClassifySpec(rows, DefaultLengthThreshold);
  }

  lemma FlattenEmpty(groups: seq<seq<Row>>)
    requires forall k :: 0 <= k < |groups| ==> |groups[k]| > 0
    ensures |Flatten(groups)| == 0 <==> |groups| == 0
  {
  }

  // ---------------------------------------------------------------------------
  // `iqr_filter`
  // ---------------------------------------------------------------------------

  /** `Q1 - 1.5 * IQR <= v <= Q3 + 1.5 * IQR` where `IQR = Q3 - Q1`. */
  predicate InWindow(v: real, q1: real, q3: real) {
    var iqr := q3 - q1;
    q1 - 1.5 * iqr <= v <= q3 + 1.5 * iqr
  }

  /**
   `iqr_filter(data, column)` with the 5% and 95% quantiles of the column
   given as `q1` and `q3`; `column` reads the filtered column of a row.
   */
  function IqrFilter<T>(data: seq<T>, column: T -> real, q1: real, q3: real): (r: seq<T>)
    ensures |r| <= |data|
    ensures forall i :: 0 <= i < |r| ==> InWindow(column(r[i]), q1, q3)
    decreases |data|
  {
    if |data| == 0 then []
    else if InWindow(column(data[0]), q1, q3) then [data[0]] + IqrFilter(data[1..], column, q1, q3)
    else IqrFilter(data[1..], column, q1, q3)
  }

  /** Each row is kept as often as it occurs when inside the window, and dropped otherwise. */
  lemma {:induction false} IqrFilterCounts<T>(data: seq<T>, column: T -> real, q1: real, q3: real)
    ensures forall x :: multiset(IqrFilter(data, column, q1, q3))[x]
                     == if InWindow(column(x), q1, q3) then multiset(data)[x] else 0
    decreases |data|
  {
    if |data| > 0 {
      IqrFilterCounts(data[1..], column, q1, q3);
      assert data == [data[0]] + data[1..];
    }
  }

  /** The filter keeps the rows' relative order: filtering a concatenation filters each part. */
  lemma {:induction false} IqrFilterAppend<T>(a: seq<T>, b: seq<T>, column: T -> real, q1: real, q3: real)
    ensures IqrFilter(a + b, column, q1, q3) == IqrFilter(a, column, q1, q3) + IqrFilter(b, column, q1, q3)
    decreases |a|
  {
    if |a| == 0 {
      assert a + b == b;
    } else {
      assert (a + b)[1..] == a[1..] + b;
      IqrFilterAppend(a[1..], b, column, q1, q3);
    }
  }

  /** With `q1 <= q3`, no row whose value lies between the two quantiles is dropped. */
  lemma IqrFilterKeepsCentre<T>(data: seq<T>, column: T -> real, q1: real, q3: real, x: T)
    requires q1 <= q3 && x in data && q1 <= column(x) <= q3
    ensures x in IqrFilter(data, column, q1, q3)
  {
    IqrFilterCounts(data, column, q1, q3);
    assert x in multiset(data);
  }
}
