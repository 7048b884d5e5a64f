/**
 The control structure of `cal_kl_divergence` (src/process_data.py): one
 entry per (vehicle type, variable) pair whose cache key is present in both
 caches, in vehicle-type-major order; an entry is infinite when the two KDE
 supports do not overlap. The entropy of overlapping curves is a parameter.
 */
module Divergence {
  import opened Wrappers

  /** One entry of the divergence list: a number, `float("inf")`, or `nan`. */
  datatype Kl = Finite(value: real) | Infinite | Undefined

  /** The `kde_x`, `kde_y` part of a cache entry (the histogram fields are not read). */
  datatype KdeCurve = KdeCurve(xs: seq<real>, ys: seq<real>)

  /**
   `min()`/`max()` of an empty array raises, and so does `np.interp` when a
   curve's x and y arrays differ in length; the key names the pair.
   */
  datatype KlError = EmptyReduction(key: string) | LengthMismatch(key: string)

  /**
   The uninterpreted `entropy` of the two curves interpolated and normalised
   over the common range [lo, hi]. It may itself be `inf` (the second
   density underflows to 0 where the first is positive) or `nan` (a
   normalising sum is 0).
   */
  type Measure = (KdeCurve, KdeCurve, real, real) -> Kl

  /** `f"{vtype}_{variable}"`. */
  function CacheKey(vtype: string, variable: string): string {
    vtype + "_" + variable
  }

  function Min(xs: seq<real>): (m: real)
    requires |xs| > 0
    ensures m in xs
    ensures forall i :: 0 <= i < |xs| ==> m <= xs[i]
  {
    if |xs| == 1 then xs[0]
    else
      var rest := Min(xs[1..]);
      if xs[0] <= rest then xs[0] else rest
  }

  function Max(xs: seq<real>): (m: real)
    requires |xs| > 0
    ensures m in xs
    ensures forall i :: 0 <= i < |xs| ==> xs[i] <= m
  {
    if |xs| == 1 then xs[0]
    else
      var rest := Max(xs[1..]);
      if xs[0] >= rest then xs[0] else rest
  }

  /** `min_range = max(a_kde_x.min(), b_kde_x.min())`. */
  function Low(a: KdeCurve, b: KdeCurve): (lo: real)
    requires |a.xs| > 0 && |b.xs| > 0
    ensures lo == Min(a.xs) || lo == Min(b.xs)
    ensures Min(a.xs) <= lo && Min(b.xs) <= lo
  {
    if Min(a.xs) >= Min(b.xs) then Min(a.xs) else Min(b.xs)
  }

  /** `max_range = min(a_kde_x.max(), b_kde_x.max())`. */
  function High(a: KdeCurve, b: KdeCurve): (hi: real)
    requires |a.xs| > 0 && |b.xs| > 0
    ensures hi == Max(a.xs) || hi == Max(b.xs)
    ensures hi <= Max(a.xs) && hi <= Max(b.xs)
  {
    if Max(a.xs) <= Max(b.xs) then Max(a.xs) else Max(b.xs)
  }

  /** The guard `min_range < max_range`. */
  predicate Overlap(a: KdeCurve, b: KdeCurve)
    requires |a.xs| > 0 && |b.xs| > 0
  {
    Low(a, b) < High(a, b)
  }

  /** `x` lies between the smallest and the largest sample point of `c`. */
  predicate Spans(c: KdeCurve, x: real)
    requires |c.xs| > 0
  {
    Min(c.xs) <= x <= Max(c.xs)
  }

  /** The guard holds exactly when two distinct points lie inside both sampled ranges. */
  lemma OverlapIff(a: KdeCurve, b: KdeCurve)
    requires |a.xs| > 0 && |b.xs| > 0
    ensures Overlap(a, b) <==> exists x, y :: x < y && Spans(a, x) && Spans(b, x) && Spans(a, y) && Spans(b, y)
  {
    if Overlap(a, b) {
      assert Spans(a, Low(a, b)) && Spans(b, Low(a, b)) && Spans(a, High(a, b)) && Spans(b, High(a, b));
    }
  }

  /** `np.interp(common_x, c.xs, c.ys)` raises on this curve. */
  predicate Ragged(c: KdeCurve) {
    |c.xs| != |c.ys|
  }

  /**
   The body of the inner loop for one key present in both caches (lines
   31-57): an empty sample array raises, disjoint ranges give `inf`, and
   overlapping ones raise when either curve cannot be interpolated and give
   the entropy over the common range, whatever it is, otherwise.
   */
  function Entry(key: string, a: KdeCurve, b: KdeCurve, measure: Measure): (r: Result<Kl, KlError>)
    ensures r.Failure? <==> |a.xs| == 0 || |b.xs| == 0 || (Overlap(a, b) && (Ragged(a) || Ragged(b)))
    ensures r.Failure? && (|a.xs| == 0 || |b.xs| == 0) ==> r.error == EmptyReduction(key)
    ensures r.Failure? && |a.xs| > 0 && |b.xs| > 0 ==> r.error == LengthMismatch(key)
    ensures r.Success? && !Overlap(a, b) ==> r.value == Infinite
    ensures r.Success? && Overlap(a, b) ==>
      Min(a.xs) <= Low(a, b) < High(a, b) <= Max(a.xs) && r.value == measure(a, b, Low(a, b), High(a, b))
  {
    if |a.xs| == 0 || |b.xs| == 0 then Failure(EmptyReduction(key))
    else if !Overlap(a, b) then Success(Infinite)
    else if Ragged(a) || Ragged(b) then Failure(LengthMismatch(key))
    else Success(measure(a, b, Low(a, b), High(a, b)))
  }

  /** The (vehicle type, variable) pairs in the order the two nested loops visit them. */
  function Pairs(vehicleTypes: seq<string>, variables: seq<string>): seq<(string, string)>
    decreases |vehicleTypes|
  {
    if |vehicleTypes| == 0 then []
    else PairsFor(vehicleTypes[0], variables) + Pairs(vehicleTypes[1..], variables)
  }

  function PairsFor(vtype: string, variables: seq<string>): seq<(string, string)>
    decreases |variables|
  {
    if |variables| == 0 then [] else [(vtype, variables[0])] + PairsFor(vtype, variables[1..])
  }

  predicate Present(p: (string, string), a: map<string, KdeCurve>, b: map<string, KdeCurve>) {
    CacheKey(p.0, p.1) in a && CacheKey(p.0, p.1) in b
  }

  /** `r` with `prefix` put in front of its list, or `r`'s error. */
  function Prepend(prefix: seq<Kl>, r: Result<seq<Kl>, KlError>): Result<seq<Kl>, KlError> {
    match r
    case Success(xs) => Success(prefix + xs)
    case Failure(e) => Failure(e)
  }

  /** Reference definition: walk the pairs in order, skip absent keys, stop at the first error. */
  function KlOver(pairs: seq<(string, string)>, a: map<string, KdeCurve>, b: map<string, KdeCurve>, measure: Measure)
    : Result<seq<Kl>, KlError>
    decreases |pairs|
  {
    if |pairs| == 0 then Success([])
    else if !Present(pairs[0], a, b) then KlOver(pairs[1..], a, b, measure)
    else
      var key := CacheKey(pairs[0].0, pairs[0].1);
      match Entry(key, a[key], b[key], measure)
      case Failure(e) => Failure(e)
      case Success(kl) => Prepend([kl], KlOver(pairs[1..], a, b, measure))
  }

  lemma PrependNothing(r: Result<seq<Kl>, KlError>)
    ensures Prepend([], r) == r
  {
    if r.Success? {
      assert [] + r.value == r.value;
    }
  }

  lemma PrependAssociative(p: seq<Kl>, q: seq<Kl>, r: Result<seq<Kl>, KlError>)
    ensures Prepend(p, Prepend(q, r)) == Prepend(p + q, r)
  {
    if r.Success? {
      assert p + (q + r.value) == (p + q) + r.value;
    }
  }

  /** `cal_kl_divergence(a_cache, b_cache, variables, vehicle_types)` on the two `hist_kde_data` maps. */
  method CalKlDivergence(a: map<string, KdeCurve>, b: map<string, KdeCurve>, variables: seq<string>,
                         vehicleTypes: seq<string>, measure: Measure)
    returns (r: Result<seq<Kl>, KlError>)
    ensures r == KlOver(Pairs(vehicleTypes, variables), a, b, measure)
  {
    var klList: seq<Kl> := [];
    var i := 0;
    PrependNothing(KlOver(Pairs(vehicleTypes, variables), a, b, measure));
    assert vehicleTypes[0..] == vehicleTypes;
    while i < |vehicleTypes|
      invariant 0 <= i <= |vehicleTypes|
      invariant KlOver(Pairs(vehicleTypes, variables), a, b, measure)
             == Prepend(klList, KlOver(Pairs(vehicleTypes[i..], variables), a, b, measure))
    {
      var vtype := vehicleTypes[i];
      assert vehicleTypes[i..][1..] == vehicleTypes[i + 1..];
      assert variables[0..] == variables;
      var j := 0;
      while j < |variables|
        invariant 0 <= j <= |variables|
        invariant KlOver(Pairs(vehicleTypes, variables), a, b, measure)
               == Prepend(klList, KlOver(PairsFor(vtype, variables[j..]) + Pairs(vehicleTypes[i + 1..], variables), a, b, measure))
      {
        var variable := variables[j];
        var key := CacheKey(vtype, variable);
        var rest := PairsFor(vtype, variables[j + 1..]) + Pairs(vehicleTypes[i + 1..], variables);
        assert variables[j..][1..] == variables[j + 1..];
        assert PairsFor(vtype, variables[j..]) + Pairs(vehicleTypes[i + 1..], variables) == [(vtype, variable)] + rest;
        assert ([(vtype, variable)] + rest)[1..] == rest;
        if key in a && key in b {
          var entry := Entry(key, a[key], b[key], measure);
          if entry.Failure? {
            assert KlOver([(vtype, variable)] + rest, a, b, measure) == Failure(entry.error);
            return Failure(entry.error);
          }
          PrependAssociative(klList, [entry.value], KlOver(rest, a, b, measure));
          klList := klList + [entry.value];
        }
        j := j + 1;
      }
      assert variables[|variables|..] == [];
      assert PairsFor(vtype, []) + Pairs(vehicleTypes[i + 1..], variables) == Pairs(vehicleTypes[i + 1..], variables);
      i := i + 1;
    }
    assert vehicleTypes[|vehicleTypes|..] == [];
    assert klList + [] == klList;
    r := Success(klList);
  }

  /** The pairs whose key both caches hold, in visiting order: only pairs with a missing key are skipped. */
  function PresentPairs(pairs: seq<(string, string)>, a: map<string, KdeCurve>, b: map<string, KdeCurve>)
    : (r: seq<(string, string)>)
    ensures |r| <= |pairs|
    ensures forall i :: 0 <= i < |r| ==> Present(r[i], a, b)
    ensures forall p :: p in r <==> p in pairs && Present(p, a, b)
    decreases |pairs|
  {
    if |pairs| == 0 then []
    else
      assert pairs == [pairs[0]] + pairs[1..];
      if Present(pairs[0], a, b) then [pairs[0]] + PresentPairs(pairs[1..], a, b)
      else PresentPairs(pairs[1..], a, b)
  }

  /** Filtering commutes with concatenation, so walk order is kept. */
  lemma {:induction false} PresentPairsAppend(p: seq<(string, string)>, q: seq<(string, string)>,
                                              a: map<string, KdeCurve>, b: map<string, KdeCurve>)
    ensures PresentPairs(p + q, a, b) == PresentPairs(p, a, b) + PresentPairs(q, a, b)
    decreases |p|
  {
    if |p| == 0 {
      assert p + q == q;
    } else {
      assert (p + q)[1..] == p[1..] + q;
      PresentPairsAppend(p[1..], q, a, b);
    }
  }

  /**
   A present pair whose curve on either side is empty, or whose ranges
   overlap while one of its curves cannot be interpolated.
   */
  predicate Degenerate(p: (string, string), a: map<string, KdeCurve>, b: map<string, KdeCurve>) {
    && Present(p, a, b)
    && var x := a[CacheKey(p.0, p.1)];
       var y := b[CacheKey(p.0, p.1)];
       |x.xs| == 0 || |y.xs| == 0 || (Overlap(x, y) && (Ragged(x) || Ragged(y)))
  }

  /**
   A successful list has exactly one entry per present pair, in order, each
   being that pair's entry; absent keys contribute nothing.
   */
  lemma {:induction false} KlOverEntries(pairs: seq<(string, string)>, a: map<string, KdeCurve>,
                                         b: map<string, KdeCurve>, measure: Measure)
    requires KlOver(pairs, a, b, measure).Success?
    ensures var xs := KlOver(pairs, a, b, measure).value;
      var present := PresentPairs(pairs, a, b);
      && |xs| == |present|
      && forall i :: 0 <= i < |xs| ==>
           var key := CacheKey(present[i].0, present[i].1);
           Entry(key, a[key], b[key], measure) == Success(xs[i])
    decreases |pairs|
  {
    if |pairs| > 0 {
      KlOverEntries(pairs[1..], a, b, measure);
    }
  }

  /**
   The walk fails exactly when some present pair has an empty curve, or
   overlapping ranges with a curve that cannot be interpolated.
   */
  lemma {:induction false} KlOverFailsIff(pairs: seq<(string, string)>, a: map<string, KdeCurve>,
                                          b: map<string, KdeCurve>, measure: Measure)
    ensures KlOver(pairs, a, b, measure).Failure?
        <==> exists i :: 0 <= i < |pairs| && Degenerate(pairs[i], a, b)
    decreases |pairs|
  {
    if |pairs| > 0 {
      KlOverFailsIff(pairs[1..], a, b, measure);
      if exists i :: 0 <= i < |pairs[1..]| && Degenerate(pairs[1..][i], a, b) {
        var i :| 0 <= i < |pairs[1..]| && Degenerate(pairs[1..][i], a, b);
        assert Degenerate(pairs[i + 1], a, b);
      }
      if exists i :: 0 <= i < |pairs| && Degenerate(pairs[i], a, b) {
        var i :| 0 <= i < |pairs| && Degenerate(pairs[i], a, b);
        if i > 0 {
          assert Degenerate(pairs[1..][i - 1], a, b);
        }
      }
    }
  }

  /**
   Entry `i` belongs to the `i`-th present pair: `inf` when its two ranges do
   not overlap, and otherwise the entropy over their common range.
   */
  lemma KlEntryAt(pairs: seq<(string, string)>, a: map<string, KdeCurve>, b: map<string, KdeCurve>,
                  measure: Measure, i: nat)
    requires KlOver(pairs, a, b, measure).Success?
    requires i < |KlOver(pairs, a, b, measure).value|
    ensures i < |PresentPairs(pairs, a, b)|
    ensures var p := PresentPairs(pairs, a, b)[i];
      var key := CacheKey(p.0, p.1);
      var kl := KlOver(pairs, a, b, measure).value[i];
      && |a[key].xs| > 0 && |b[key].xs| > 0
      && (!Overlap(a[key], b[key]) ==> kl == Infinite)
      && (Overlap(a[key], b[key]) ==> kl == measure(a[key], b[key], Low(a[key], b[key]), High(a[key], b[key])))
  {
    KlOverEntries(pairs, a, b, measure);
  }

  /** Pair (i, j) is visited at step i * |variables| + j. */
  predicate VisitedAt(vehicleTypes: seq<string>, variables: seq<string>, i: nat, j: nat)
    requires i < |vehicleTypes| && j < |variables|
  {
    && i * |variables| + j < |Pairs(vehicleTypes, variables)|
    && Pairs(vehicleTypes, variables)[i * |variables| + j] == (vehicleTypes[i], variables[j])
  }

  /** The nested loops visit every (vehicle type, variable) pair once, vehicle type first. */
  lemma PairsOrder(vehicleTypes: seq<string>, variables: seq<string>)
    ensures |Pairs(vehicleTypes, variables)| == |vehicleTypes| * |variables|
    ensures forall i: nat, j: nat :: i < |vehicleTypes| && j < |variables| ==> VisitedAt(vehicleTypes, variables, i, j)
  {
    PairsLength(vehicleTypes, variables);
    forall i: nat, j: nat | i < |vehicleTypes| && j < |variables|
      ensures VisitedAt(vehicleTypes, variables, i, j)
    {
      PairVisited(vehicleTypes, variables, i, j);
    }
  }

  lemma PairVisited(vehicleTypes: seq<string>, variables: seq<string>, i: nat, j: nat)
    requires i < |vehicleTypes| && j < |variables|
    ensures VisitedAt(vehicleTypes, variables, i, j)
  {
    var k := i * |variables| + j;
    PairsAt(vehicleTypes, variables, i, j, k);
  }

  lemma {:induction false} PairsLength(vehicleTypes: seq<string>, variables: seq<string>)
    ensures |Pairs(vehicleTypes, variables)| == |vehicleTypes| * |variables|
    decreases |vehicleTypes|
  {
    if |vehicleTypes| > 0 {
      PairsForOrder(vehicleTypes[0], variables);
      PairsLength(vehicleTypes[1..], variables);
      RowMajorStep(|vehicleTypes| - 1, 0, |variables|);
    }
  }

  lemma {:induction false} PairsAt(vehicleTypes: seq<string>, variables: seq<string>, i: nat, j: nat, k: nat)
    requires i < |vehicleTypes| && j < |variables| && k == i * |variables| + j
    ensures k < |Pairs(vehicleTypes, variables)|
    ensures Pairs(vehicleTypes, variables)[k] == (vehicleTypes[i], variables[j])
    decreases i
  {
    var n := |variables|;
    var head := PairsFor(vehicleTypes[0], variables);
    var tail := Pairs(vehicleTypes[1..], variables);
    PairsForOrder(vehicleTypes[0], variables);
    assert Pairs(vehicleTypes, variables) == head + tail;
    if i == 0 {
      assert k == j;
    } else {
      RowMajorStep(i - 1, j, n);
      PairsAt(vehicleTypes[1..], variables, i - 1, j, k - n);
      assert vehicleTypes[1..][i - 1] == vehicleTypes[i];
    }
  }

  lemma RowMajorStep(i: nat, j: nat, n: nat)
    ensures (i + 1) * n + j == n + (i * n + j)
  {
  }

  lemma {:induction false} PairsForOrder(vtype: string, variables: seq<string>)
    ensures |PairsFor(vtype, variables)| == |variables|
    ensures forall j :: 0 <= j < |variables| ==> PairsFor(vtype, variables)[j] == (vtype, variables[j])
    decreases |variables|
  {
    if |variables| > 0 {
      PairsForOrder(vtype, variables[1..]);
    }
  }

  /** The divergence list never has more than |vehicle_types| * |variables| entries. */
  lemma KlLengthBound(a: map<string, KdeCurve>, b: map<string, KdeCurve>, variables: seq<string>,
                      vehicleTypes: seq<string>, measure: Measure)
    requires KlOver(Pairs(vehicleTypes, variables), a, b, measure).Success?
    ensures |KlOver(Pairs(vehicleTypes, variables), a, b, measure).value| <= |vehicleTypes| * |variables|
  {
    KlOverEntries(Pairs(vehicleTypes, variables), a, b, measure);
    PairsLength(vehicleTypes, variables);
  }
}
