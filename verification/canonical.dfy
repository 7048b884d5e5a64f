/**
 Candidate identity for the scheduler (src/util.py): `round_dic_data`
 rounds every value of a parameter dictionary, and `params_to_tuple` turns a
 dictionary into its sorted item tuple, the key of the issued-parameter set.

 A Python dictionary is modelled as the sequence of its items in insertion
 order; `DistinctKeys` is the invariant every real dictionary satisfies and
 `ToMap` is the order-insensitive value that dictionary equality compares.
 */
module Canonical {
  import TextOrder

  type Item = (string, real)
  type Dict = seq<Item>

  /** `round_dic_data`'s default `decimal_precision`. */
  const DefaultPrecision: nat := 4

  // ---------------------------------------------------------------------------
  // Rounding one value
  // ---------------------------------------------------------------------------

  function Pow10(n: nat): (r: nat)
    ensures r >= 1
  {
    if n == 0 then 1 else 10 * Pow10(n - 1)
  }

  /** `k` is an integer nearest to `s`; an exact tie is resolved towards the even one. */
  predicate NearestHalfEven(s: real, k: int) {
    var gap := s - k as real;
    (-0.5 < gap < 0.5) || ((gap == 0.5 || gap == -0.5) && k % 2 == 0)
  }

  /** The number of grid points per unit at `digits` decimal places. */
  function Scale(digits: nat): (s: real)
    ensures s >= 1.0
  {
    Pow10(digits) as real
  }

  /** `r` is a whole number of grid steps of size 1/scale. */
  predicate OnGrid(r: real, scale: real) {
    r * scale == (r * scale).Floor as real
  }

  /**
   `r` is `x` rounded to the grid of multiples of 1/scale the way Python's
   `round` does it: `r` is on the grid, and its number of steps is the whole
   number nearest to `x * scale`, with ties going to the even one.
   */
  predicate RoundsTo(x: real, scale: real, r: real) {
    OnGrid(r, scale) && NearestHalfEven(x * scale, (r * scale).Floor)
  }

  /** Rounding to the grid of multiples of 1/scale. */
  function RoundAt(x: real, scale: real): (r: real)
    requires scale > 0.0
    ensures RoundsTo(x, scale, r)
  {
    var s := x * scale;
    var n := s.Floor;
    var gap := s - n as real;
    var k := if gap < 0.5 then n else if gap > 0.5 then n + 1 else if n % 2 == 0 then n else n + 1;
    assert NearestHalfEven(s, k);
    GridPoint(x, scale, k);
    k as real / scale
  }

  /** `round(x, digits)`: rounding to `digits` decimal places. */
  function Round(x: real, digits: nat): (r: real)
    ensures RoundsTo(x, Scale(digits), r)
  {
    RoundAt(x, Scale(digits))
  }

  lemma GridPoint(x: real, scale: real, k: int)
    requires scale > 0.0 && NearestHalfEven(x * scale, k)
    ensures RoundsTo(x, scale, k as real / scale)
  {
    ScaleBack(k, scale);
  }

  lemma ScaleBack(k: int, scale: real)
    requires scale > 0.0
    ensures (k as real / scale) * scale == k as real
    ensures ((k as real / scale) * scale).Floor == k
  {
  }

  lemma ScaleCancel(a: real, b: real, scale: real)
    requires scale > 0.0 && a * scale == b * scale
    ensures a == b
  {
  }

  /** Two integers can be nearest-half-even to the same real only if they are equal. */
  lemma NearestHalfEvenUnique(s: real, k1: int, k2: int)
    requires NearestHalfEven(s, k1) && NearestHalfEven(s, k2)
    ensures k1 == k2
  {
  }

  /** The rounding relation is a function: `round` has exactly one answer. */
  lemma RoundsToUnique(x: real, scale: real, r1: real, r2: real)
    requires scale > 0.0
    requires RoundsTo(x, scale, r1) && RoundsTo(x, scale, r2)
    ensures r1 == r2
  {
    NearestHalfEvenUnique(x * scale, (r1 * scale).Floor, (r2 * scale).Floor);
    ScaleCancel(r1, r2, scale);
  }

  /** A grid point rounds to itself. */
  lemma RoundsToSelf(r: real, scale: real)
    requires OnGrid(r, scale)
    ensures RoundsTo(r, scale, r)
  {
  }

  /** Rounding an already rounded value changes nothing. */
  lemma RoundIdempotent(x: real, digits: nat)
    ensures Round(Round(x, digits), digits) == Round(x, digits)
  {
    var scale := Scale(digits);
    var r := RoundAt(x, scale);
    RoundsToSelf(r, scale);
    RoundsToUnique(r, scale, RoundAt(r, scale), r);
  }

  // ---------------------------------------------------------------------------
  // Dictionaries and `round_dic_data`
  // ---------------------------------------------------------------------------

  /** Every Python dictionary has pairwise distinct keys. */
  predicate DistinctKeys(d: Dict) {
    forall i, j :: 0 <= i < j < |d| ==> d[i].0 != d[j].0
  }

  /** The dictionary as a mapping from key to value, which is what `==` on dictionaries compares. */
  function ToMap(d: Dict): map<string, real> {
    if |d| == 0 then map[] else ToMap(d[1..])[d[0].0 := d[0].1]
  }

  /** `round_dic_data(d, digits)`: every value rounded, keys and their order kept. */
  function RoundDict(d: Dict, digits: nat): (r: Dict)
    ensures |r| == |d|
    ensures forall i :: 0 <= i < |d| ==> r[i].0 == d[i].0 && RoundsTo(d[i].1, Scale(digits), r[i].1)
  {
    seq(|d|, i requires 0 <= i < |d| => (d[i].0, Round(d[i].1, digits)))
  }

  /** As a mapping, the rounded dictionary has the same keys, each holding its rounded value. */
  lemma {:induction false} RoundDictMap(d: Dict, digits: nat)
    ensures ToMap(RoundDict(d, digits)).Keys == ToMap(d).Keys
    ensures forall k :: k in ToMap(d) ==> ToMap(RoundDict(d, digits))[k] == Round(ToMap(d)[k], digits)
    decreases |d|
  {
    if |d| > 0 {
      assert RoundDict(d, digits)[1..] == RoundDict(d[1..], digits);
      RoundDictMap(d[1..], digits);
    }
  }

  /** Rounding keeps a dictionary a dictionary. */
  lemma RoundDictDistinctKeys(d: Dict, digits: nat)
    requires DistinctKeys(d)
    ensures DistinctKeys(RoundDict(d, digits))
  {
  }

  /** Rounding a dictionary twice is the same as rounding it once. */
  lemma RoundDictIdempotent(d: Dict, digits: nat)
    ensures RoundDict(RoundDict(d, digits), digits) == RoundDict(d, digits)
  {
    var once := RoundDict(d, digits);
    forall i | 0 <= i < |d|
      ensures RoundDict(once, digits)[i] == once[i]
    {
      RoundIdempotent(d[i].1, digits);
    }
  }

  /** Every value of `d` is on the grid of `digits` decimals. */
  predicate RoundedDict(d: Dict, digits: nat) {
    forall i :: 0 <= i < |d| ==> OnGrid(d[i].1, Scale(digits))
  }

  /** The dictionaries `round_dic_data` leaves unchanged are exactly those already on the grid. */
  lemma RoundDictFixes(d: Dict, digits: nat)
    ensures RoundDict(d, digits) == d <==> RoundedDict(d, digits)
  {
    var scale := Scale(digits);
    if RoundedDict(d, digits) {
      forall i | 0 <= i < |d|
        ensures RoundDict(d, digits)[i] == d[i]
      {
        RoundsToSelf(d[i].1, scale);
        RoundsToUnique(d[i].1, scale, Round(d[i].1, digits), d[i].1);
      }
    }
  }

  /** The items of a dictionary are exactly its key/value pairs. */
  lemma {:induction false} ToMapItems(d: Dict)
    requires DistinctKeys(d)
    ensures forall x :: x in d <==> x.0 in ToMap(d) && ToMap(d)[x.0] == x.1
    ensures forall k :: k in ToMap(d) ==> (k, ToMap(d)[k]) in d
    decreases |d|
  {
    if |d| > 0 {
      ToMapItems(d[1..]);
      assert d == [d[0]] + d[1..];
      forall x | x in d[1..]
        ensures x.0 != d[0].0
      {
        var j :| 0 <= j < |d[1..]| && d[1..][j] == x;
        assert d[j + 1] == x;
      }
    }
  }

  /** In a dictionary every item occurs once. */
  lemma {:induction false} DistinctKeysNoRepeats(d: Dict)
    requires DistinctKeys(d)
    ensures forall x :: multiset(d)[x] == if x in d then 1 else 0
    decreases |d|
  {
    if |d| > 0 {
      DistinctKeysNoRepeats(d[1..]);
      assert d == [d[0]] + d[1..];
      assert d[0] !in d[1..];
    }
  }

  /** Two dictionaries are equal exactly when one's items are a rearrangement of the other's. */
  lemma DictEqualIff(a: Dict, b: Dict)
    requires DistinctKeys(a) && DistinctKeys(b)
    ensures ToMap(a) == ToMap(b) <==> multiset(a) == multiset(b)
  {
    ToMapItems(a);
    ToMapItems(b);
    DistinctKeysNoRepeats(a);
    DistinctKeysNoRepeats(b);
    if ToMap(a) == ToMap(b) {
      assert forall x :: multiset(a)[x] == multiset(b)[x];
    }
    if multiset(a) == multiset(b) {
      assert forall x :: x in a <==> x in b by {
        forall x ensures x in a <==> x in b {
          assert x in a <==> x in multiset(a);
          assert x in b <==> x in multiset(b);
        }
      }
      assert ToMap(a).Keys == ToMap(b).Keys;
    }
  }

  // ---------------------------------------------------------------------------
  // `params_to_tuple`: sorted items
  // ---------------------------------------------------------------------------

  /** Python's `<=` on `(key, value)` tuples: by key, then by value. */
  predicate ItemLe(a: Item, b: Item) {
    TextOrder.Less(a.0, b.0) || (a.0 == b.0 && a.1 <= b.1)
  }

  lemma ItemLeTotal(a: Item, b: Item)
    ensures ItemLe(a, b) || ItemLe(b, a)
  {
    if a.0 != b.0 {
      TextOrder.LessTotal(a.0, b.0);
    }
  }

  lemma ItemLeAntisymmetric(a: Item, b: Item)
    requires ItemLe(a, b) && ItemLe(b, a)
    ensures a == b
  {
    if TextOrder.Less(a.0, b.0) {
      TextOrder.LessAsymmetric(a.0, b.0);
    } else if TextOrder.Less(b.0, a.0) {
      TextOrder.LessAsymmetric(b.0, a.0);
    }
  }

  lemma ItemLeTransitive(a: Item, b: Item, c: Item)
    requires ItemLe(a, b) && ItemLe(b, c)
    ensures ItemLe(a, c)
  {
    if TextOrder.Less(a.0, b.0) && TextOrder.Less(b.0, c.0) {
      TextOrder.LessTransitive(a.0, b.0, c.0);
    }
  }

  predicate Sorted(s: seq<Item>) {
    forall i, j :: 0 <= i < j < |s| ==> ItemLe(s[i], s[j])
  }

  /** One step of insertion sort: `x` goes before the first item it does not exceed. */
  function Insert(x: Item, s: seq<Item>): seq<Item>
    decreases |s|
  {
    if |s| == 0 then [x]
    else if ItemLe(x, s[0]) then [x] + s
    else [s[0]] + Insert(x, s[1..])
  }

  /** Inserting adds exactly `x` and nothing else. */
  lemma {:induction false} InsertCounts(x: Item, s: seq<Item>)
    ensures multiset(Insert(x, s)) == multiset(s) + multiset{x}
    decreases |s|
  {
    if |s| > 0 {
      assert s == [s[0]] + s[1..];
      if !ItemLe(x, s[0]) {
        InsertCounts(x, s[1..]);
      }
    }
  }

  /** Inserting into a sorted list keeps it sorted. */
  lemma {:induction false} InsertSorts(x: Item, s: seq<Item>)
    requires Sorted(s)
    ensures Sorted(Insert(x, s))
    decreases |s|
  {
    if |s| > 0 {
      if ItemLe(x, s[0]) {
        forall j | 0 < j < |s| ensures ItemLe(x, s[j]) {
          ItemLeTransitive(x, s[0], s[j]);
        }
        InsertSorted(x, s);
      } else {
        SortedTail(s);
        InsertSorts(x, s[1..]);
        InsertCounts(x, s[1..]);
        InsertBelow(x, s);
        InsertSorted(s[0], Insert(x, s[1..]));
      }
    }
  }

  /** When `x` goes after the head, the head stays below everything inserted behind it. */
  lemma InsertBelow(x: Item, s: seq<Item>)
    requires Sorted(s) && |s| > 0 && !ItemLe(x, s[0])
    requires multiset(Insert(x, s[1..])) == multiset(s[1..]) + multiset{x}
    ensures forall k :: 0 <= k < |Insert(x, s[1..])| ==> ItemLe(s[0], Insert(x, s[1..])[k])
  {
    var t := Insert(x, s[1..]);
    forall k | 0 <= k < |t| ensures ItemLe(s[0], t[k]) {
      assert t[k] in multiset(t);
      if t[k] == x {
        ItemLeTotal(x, s[0]);
      } else {
        assert t[k] in multiset(s[1..]);
        var j :| 0 <= j < |s[1..]| && s[1..][j] == t[k];
        assert s[j + 1] == t[k];
      }
    }
  }

  lemma InsertSorted(y: Item, t: seq<Item>)
    requires Sorted(t)
    requires forall k :: 0 <= k < |t| ==> ItemLe(y, t[k])
    ensures Sorted([y] + t)
  {
    var r := [y] + t;
    forall i, j | 0 <= i < j < |r| ensures ItemLe(r[i], r[j]) {
      if i > 0 {
        assert r[i] == t[i - 1] && r[j] == t[j - 1];
      } else {
        assert r[j] == t[j - 1];
      }
    }
  }

  /**
   `params_to_tuple(d)`: the items of `d` in ascending tuple order, the
   identity under which the scheduler recognises a candidate it has issued.
   */
  function Fingerprint(d: Dict): seq<Item>
    decreases |d|
  {
    if |d| == 0 then [] else Insert(d[0], Fingerprint(d[1..]))
  }

  /** The fingerprint is a sorted rearrangement of the dictionary's items. */
  lemma {:induction false} FingerprintSorts(d: Dict)
    ensures Sorted(Fingerprint(d))
    ensures multiset(Fingerprint(d)) == multiset(d)
    decreases |d|
  {
    if |d| > 0 {
      FingerprintSorts(d[1..]);
      InsertCounts(d[0], Fingerprint(d[1..]));
      InsertSorts(d[0], Fingerprint(d[1..]));
      assert d == [d[0]] + d[1..];
    }
  }

  /** A sorted arrangement of a collection of items is unique. */
  lemma {:induction false} SortedUnique(a: seq<Item>, b: seq<Item>)
    requires Sorted(a) && Sorted(b) && multiset(a) == multiset(b)
    ensures a == b
    decreases |a|
  {
    if |a| == 0 {
      assert |multiset(b)| == 0;
    } else {
      assert |multiset(b)| > 0;
      SortedHeads(a, b);
      MultisetTail(a);
      MultisetTail(b);
      SortedTail(a);
      SortedTail(b);
      SortedUnique(a[1..], b[1..]);
      assert a == [a[0]] + a[1..] && b == [b[0]] + b[1..];
    }
  }

  /** Two sorted arrangements of the same nonempty collection start alike. */
  lemma SortedHeads(a: seq<Item>, b: seq<Item>)
    requires Sorted(a) && Sorted(b) && multiset(a) == multiset(b) && |a| > 0 && |b| > 0
    ensures a[0] == b[0]
  {
    assert a[0] in multiset(b) && b[0] in multiset(a);
    var i :| 0 <= i < |b| && b[i] == a[0];
    var j :| 0 <= j < |a| && a[j] == b[0];
    assert ItemLe(b[0], a[0]) && ItemLe(a[0], b[0]);
    ItemLeAntisymmetric(a[0], b[0]);
  }

  lemma MultisetTail(a: seq<Item>)
    requires |a| > 0
    ensures multiset(a[1..]) == multiset(a) - multiset{a[0]}
  {
    assert a == [a[0]] + a[1..];
  }

  lemma SortedTail(a: seq<Item>)
    requires Sorted(a) && |a| > 0
    ensures Sorted(a[1..])
  {
    var t := a[1..];
    forall i, j | 0 <= i < j < |t| ensures ItemLe(t[i], t[j]) {
      assert t[i] == a[i + 1] && t[j] == a[j + 1];
    }
  }

  /**
   Fingerprints agree exactly when the item lists are rearrangements of each
   other: insertion order does not matter, and nothing else is forgotten.
   */
  lemma FingerprintEqualIff(a: Dict, b: Dict)
    ensures Fingerprint(a) == Fingerprint(b) <==> multiset(a) == multiset(b)
  {
    FingerprintSorts(a);
    FingerprintSorts(b);
    if multiset(a) == multiset(b) {
      SortedUnique(Fingerprint(a), Fingerprint(b));
    }
  }

  /** For dictionaries, equal fingerprints means equal dictionaries, and conversely. */
  lemma FingerprintIdentity(a: Dict, b: Dict)
    requires DistinctKeys(a) && DistinctKeys(b)
    ensures Fingerprint(a) == Fingerprint(b) <==> ToMap(a) == ToMap(b)
  {
    FingerprintEqualIff(a, b);
    DictEqualIff(a, b);
  }

  /** An item found at two positions is counted at least twice. */
  lemma RepeatedItemCount(s: seq<Item>, i: nat, j: nat)
    requires i < j < |s| && s[i] == s[j]
    ensures multiset(s)[s[i]] >= 2
  {
    assert s == s[..j] + s[j..];
    assert s[i] in s[..j] && s[j] in s[j..];
    assert multiset(s) == multiset(s[..j]) + multiset(s[j..]);
  }

  /** The fingerprint of a dictionary holds its items with keys in strictly ascending order. */
  lemma FingerprintKeysAscending(d: Dict)
    requires DistinctKeys(d)
    ensures |Fingerprint(d)| == |d|
    ensures forall x :: x in Fingerprint(d) <==> x.0 in ToMap(d) && ToMap(d)[x.0] == x.1
    ensures forall i, j :: 0 <= i < j < |Fingerprint(d)| ==> TextOrder.Less(Fingerprint(d)[i].0, Fingerprint(d)[j].0)
  {
    var f := Fingerprint(d);
    FingerprintSorts(d);
    assert |f| == |multiset(f)| == |multiset(d)| == |d|;
    ToMapItems(d);
    FingerprintItems(d);
    forall i, j | 0 <= i < j < |f|
      ensures TextOrder.Less(f[i].0, f[j].0)
    {
      FingerprintNoRepeatedKey(d, i, j);
    }
  }

  lemma FingerprintItems(d: Dict)
    ensures forall x :: x in Fingerprint(d) <==> x in d
  {
    var f := Fingerprint(d);
    FingerprintSorts(d);
    forall x ensures x in f <==> x in d {
      assert x in f <==> x in multiset(f);
      assert x in d <==> x in multiset(d);
    }
  }

  lemma FingerprintNoRepeatedKey(d: Dict, i: nat, j: nat)
    requires DistinctKeys(d)
    requires i < j < |Fingerprint(d)|
    ensures TextOrder.Less(Fingerprint(d)[i].0, Fingerprint(d)[j].0)
  {
    var f := Fingerprint(d);
    FingerprintSorts(d);
    if f[i].0 == f[j].0 {
      ToMapItems(d);
      FingerprintItems(d);
      assert f[i] in d && f[j] in d;
      assert f[i] == f[j];
      RepeatedItemCount(f, i, j);
      DistinctKeysNoRepeats(d);
      assert false;
    }
  }
}
