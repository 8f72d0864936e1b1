/**
 * The statistics the tracker derives from its entries: the per-age map of
 * counts, the three most common ages, the age-group and voice-chat counts,
 * the ascending per-age breakdown that is also saved as the summary file,
 * and the recent-entries log view.
 */
module Stats {
  import opened Wrappers
  import opened Text
  import opened Backup

  function Min(a: int, b: int): int { if a < b then a else b }

  predicate Distinct(xs: seq<int>) {
    forall i, j :: 0 <= i < j < |xs| ==> xs[i] != xs[j]
  }

  // ---------------------------------------------------------------------
  // Counting entries

  /** Some entry has age `a`. */
  ghost predicate Occurs(s: seq<Entry>, a: int) {
    exists i :: 0 <= i < |s| && s[i].age == a
  }

  /** The number of entries of age `a`. */
  function AgeCount(s: seq<Entry>, a: int): nat {
    if s == [] then 0 else AgeCount(s[..|s| - 1], a) + (if s[|s| - 1].age == a then 1 else 0)
  }

  /** The number of entries of age `a` whose voice-chat flag is `vc`. */
  function AgeVcCount(s: seq<Entry>, a: int, vc: bool): nat {
    if s == [] then 0
    else AgeVcCount(s[..|s| - 1], a, vc) + (if s[|s| - 1].age == a && s[|s| - 1].vc == vc then 1 else 0)
  }

  /** The number of entries satisfying `p`: Python's `sum(1 for e in entries if p(e))`. */
  function CountWhere(s: seq<Entry>, p: Entry -> bool): (n: nat)
    ensures n <= |s|
    ensures n == 0 <==> forall i :: 0 <= i < |s| ==> !p(s[i])
  {
    if s == [] then 0 else CountWhere(s[..|s| - 1], p) + (if p(s[|s| - 1]) then 1 else 0)
  }

  predicate IsYoung(e: Entry) { 6 <= e.age <= 12 }
  predicate IsTeen(e: Entry) { 13 <= e.age <= 17 }
  predicate IsAdult(e: Entry) { e.age >= 18 }
  predicate IsUnderSix(e: Entry) { e.age < 6 }
  predicate UsesVc(e: Entry) { e.vc }
  predicate NoVc(e: Entry) { !e.vc }

  lemma {:induction false} AgeCountSplit(s: seq<Entry>, a: int)
    ensures AgeCount(s, a) == AgeVcCount(s, a, true) + AgeVcCount(s, a, false)
    ensures AgeCount(s, a) > 0 <==> Occurs(s, a)
  {
    if s != [] {
      var p := s[..|s| - 1];
      AgeCountSplit(p, a);
      if Occurs(p, a) {
        var i :| 0 <= i < |p| && p[i].age == a;
        assert s[i].age == a;
      }
      if Occurs(s, a) && s[|s| - 1].age != a {
        var i :| 0 <= i < |s| && s[i].age == a;
        assert p[i].age == a;
      }
    }
  }

  /** Every entry is in exactly one of the three age groups or under six. */
  lemma {:induction false} AgeGroupsCoverAll(s: seq<Entry>)
    ensures CountWhere(s, IsYoung) + CountWhere(s, IsTeen) + CountWhere(s, IsAdult) + CountWhere(s, IsUnderSix) == |s|
  {
    if s != [] {
      AgeGroupsCoverAll(s[..|s| - 1]);
    }
  }

  /** Every entry is either with or without voice chat, so `total - vc_yes` counts those without. */
  lemma {:induction false} VoiceChatSplit(s: seq<Entry>)
    ensures CountWhere(s, UsesVc) + CountWhere(s, NoVc) == |s|
  {
    if s != [] {
      VoiceChatSplit(s[..|s| - 1]);
    }
  }

  // ---------------------------------------------------------------------
  // The per-age map

  /** The value of a key that `defaultdict` has not seen yet. */
  const Zero: Counts := Counts(0, 0, 0)

  /** Per-age counts: players, players with voice chat (`vce`), players without (`vcd`). */
  datatype Counts = Counts(total: nat, vce: nat, vcd: nat)

  /** One turn of the aggregation loop: count `e` under its age. */
  function Counted(m: map<int, Counts>, e: Entry): map<int, Counts> {
    var c := if e.age in m then m[e.age] else Zero;
    m[e.age := if e.vc then Counts(c.total + 1, c.vce + 1, c.vcd) else Counts(c.total + 1, c.vce, c.vcd + 1)]
  }

  /**
   * Counting one entry adds its age as a key if it is new, adds one player
   * to that age, leaves every other age as it was, and keeps the map
   * consistent.
   */
  lemma CountedSpec(m: map<int, Counts>, e: Entry)
    ensures var m' := Counted(m, e);
      && m'.Keys == m.Keys + {e.age}
      && (forall a :: a in m && a != e.age ==> m'[a] == m[a])
      && m'[e.age].total == TotalOf(m, e.age) + 1
      && (Consistent(m) ==> Consistent(m'))
  {
  }

  /** Every age in the map has at least one player, each counted either with or without voice chat. */
  predicate Consistent(m: map<int, Counts>) {
    forall a :: a in m ==> m[a].total == m[a].vce + m[a].vcd > 0
  }

  /** The per-age map after the aggregation loop has run over `s`. */
  function AgeData(s: seq<Entry>): map<int, Counts> {
    if s == [] then map[] else Counted(AgeData(s[..|s| - 1]), s[|s| - 1])
  }

  /** The keys of the per-age map in the dictionary's iteration order: order of first appearance. */
  function DistinctAges(s: seq<Entry>): (d: seq<int>)
    ensures Distinct(d)
  {
    if s == [] then []
    else
      var d := DistinctAges(s[..|s| - 1]);
      if s[|s| - 1].age in d then d else d + [s[|s| - 1].age]
  }

  lemma {:induction false} DistinctAgesSpec(s: seq<Entry>)
    ensures forall a :: a in DistinctAges(s) <==> Occurs(s, a)
    ensures forall a :: a in AgeData(s) <==> a in DistinctAges(s)
  {
    if s != [] {
      var p := s[..|s| - 1];
      DistinctAgesSpec(p);
      forall a | Occurs(s, a) && a != s[|s| - 1].age
        ensures Occurs(p, a)
      {
        var i :| 0 <= i < |s| && s[i].age == a;
        assert p[i].age == a;
      }
      forall a | Occurs(p, a)
        ensures Occurs(s, a)
      {
        var i :| 0 <= i < |p| && p[i].age == a;
        assert s[i].age == a;
      }
    }
  }

  /** The per-age map and the key list have the same keys. */
  lemma {:induction false} AgeDataKeys(s: seq<Entry>)
    ensures forall a :: a in AgeData(s) <==> a in DistinctAges(s)
  {
    if s != [] {
      AgeDataKeys(s[..|s| - 1]);
    }
  }

  /** The index of the first entry of age `a`, or `|s|` when there is none. */
  function FirstIndex(s: seq<Entry>, a: int): (i: nat)
    ensures i <= |s|
    ensures i < |s| ==> s[i].age == a
    ensures forall k :: 0 <= k < i ==> s[k].age != a
  {
    if s == [] then 0 else if s[0].age == a then 0 else 1 + FirstIndex(s[1..], a)
  }

  /** The keys seen after a prefix of the entries are a prefix of the keys seen after all of them. */
  lemma {:induction false} DistinctAgesPrefix(s: seq<Entry>, k: nat)
    requires k <= |s|
    ensures DistinctAges(s[..k]) <= DistinctAges(s)
    decreases |s|
  {
    if k < |s| {
      var p := s[..|s| - 1];
      assert s[..k] == p[..k];
      DistinctAgesPrefix(p, k);
    } else {
      assert s[..k] == s;
    }
  }

  /** The first entry of an age adds that age as the next key. */
  lemma NewAt(s: seq<Entry>, i: nat)
    requires i < |s| && forall k :: 0 <= k < i ==> s[k].age != s[i].age
    ensures DistinctAges(s[..i + 1]) == DistinctAges(s[..i]) + [s[i].age]
  {
    var before := s[..i];
    assert s[..i + 1][..i] == before;
    DistinctAgesSpec(before);
    assert !Occurs(before, s[i].age);
  }

  /** An age that occurs sits in the key list at the number of keys seen before its first entry. */
  lemma PosFirst(s: seq<Entry>, a: int)
    requires Occurs(s, a)
    ensures FirstIndex(s, a) < |s|
    ensures Pos(DistinctAges(s), a) == |DistinctAges(s[..FirstIndex(s, a)])|
  {
    var i := FirstIndex(s, a);
    var w :| 0 <= w < |s| && s[w].age == a;
    assert i <= w;
    NewAt(s, i);
    DistinctAgesPrefix(s, i + 1);
    var d := DistinctAges(s);
    var n := |DistinctAges(s[..i])|;
    assert d[n] == a;
    assert Pos(d, a) == n by {
      var q := Pos(d, a);
      assert q <= n;
      assert d[q] == a;
    }
  }

  /** Between a first entry and a later point, at least one new key has been seen. */
  lemma KeysGrow(s: seq<Entry>, i: nat, j: nat)
    requires i < j <= |s| && forall k :: 0 <= k < i ==> s[k].age != s[i].age
    ensures |DistinctAges(s[..i])| < |DistinctAges(s[..j])|
  {
    NewAt(s, i);
    DistinctAgesPrefix(s[..j], i + 1);
    assert s[..j][..i + 1] == s[..i + 1];
  }

  /**
   * The dictionary's keys come in order of first appearance: of two ages
   * that occur, the one whose first entry comes earlier is listed first.
   */
  lemma DistinctAgesOrder(s: seq<Entry>, a: int, b: int)
    requires Occurs(s, a) && Occurs(s, b)
    ensures Pos(DistinctAges(s), a) < Pos(DistinctAges(s), b) <==> FirstIndex(s, a) < FirstIndex(s, b)
  {
    PosFirst(s, a);
    PosFirst(s, b);
    var i, j := FirstIndex(s, a), FirstIndex(s, b);
    if i < j {
      KeysGrow(s, i, j);
    } else if j < i {
      KeysGrow(s, j, i);
    }
  }

  /** Each value of the per-age map holds exactly the counts of entries of that age. */
  lemma {:induction false} AgeDataCounts(s: seq<Entry>, a: int)
    requires a in AgeData(s)
    ensures AgeData(s)[a] == Counts(AgeCount(s, a), AgeVcCount(s, a, true), AgeVcCount(s, a, false))
  {
    var p := s[..|s| - 1];
    if a in AgeData(p) {
      AgeDataCounts(p, a);
    } else {
      DistinctAgesSpec(p);
      AgeCountSplit(p, a);
      assert AgeVcCount(p, a, true) + AgeVcCount(p, a, false) == 0;
    }
  }

  /** The count the ranking of ages uses: players of that age, 0 for an age not in the map. */
  function TotalOf(m: map<int, Counts>, a: int): nat {
    if a in m then m[a].total else 0
  }

  lemma TotalOfAgeData(s: seq<Entry>, a: int)
    ensures TotalOf(AgeData(s), a) == AgeCount(s, a)
  {
    if a in AgeData(s) {
      AgeDataCounts(s, a);
    } else {
      DistinctAgesSpec(s);
      AgeCountSplit(s, a);
    }
  }

  /** The sum of the `total`s of `keys`. */
  function SumTotals(m: map<int, Counts>, keys: seq<int>): nat {
    if keys == [] then 0 else SumTotals(m, keys[..|keys| - 1]) + TotalOf(m, keys[|keys| - 1])
  }

  lemma {:induction false} SumTotalsFrame(m: map<int, Counts>, m': map<int, Counts>, keys: seq<int>)
    requires forall k :: k in keys ==> TotalOf(m, k) == TotalOf(m', k)
    ensures SumTotals(m, keys) == SumTotals(m', keys)
  {
    if keys != [] {
      SumTotalsFrame(m, m', keys[..|keys| - 1]);
    }
  }

  lemma {:induction false} SumTotalsBump(m: map<int, Counts>, keys: seq<int>, a: int, c: Counts)
    requires Distinct(keys) && a in keys && c.total == TotalOf(m, a) + 1
    ensures SumTotals(m[a := c], keys) == SumTotals(m, keys) + 1
  {
    var p := keys[..|keys| - 1];
    if keys[|keys| - 1] == a {
      assert a !in p;
      SumTotalsFrame(m, m[a := c], p);
    } else {
      assert a in p;
      SumTotalsBump(m, p, a, c);
    }
  }

  lemma {:induction false} SumTotalsAgeData(s: seq<Entry>)
    ensures SumTotals(AgeData(s), DistinctAges(s)) == |s|
  {
    if s != [] {
      var p := s[..|s| - 1];
      var e := s[|s| - 1];
      var m := AgeData(p);
      var d := DistinctAges(p);
      SumTotalsAgeData(p);
      DistinctAgesSpec(p);
      if e.age in d {
        SumTotalsBump(m, d, e.age, AgeData(s)[e.age]);
      } else {
        SumTotalsFrame(m, AgeData(s), d);
        assert (d + [e.age])[..|d|] == d;
      }
    }
  }

  /**
   * The per-age map is consistent with the entries: its keys are exactly the
   * ages that occur, listed once each in first-appearance order; each
   * `total` is `vce + vcd` and at least 1; and the totals add up to the
   * number of entries.
   */
  lemma AgeDataConsistent(s: seq<Entry>)
    ensures forall a :: a in AgeData(s) <==> Occurs(s, a)
    ensures forall a :: a in AgeData(s) ==> AgeData(s)[a].total == AgeData(s)[a].vce + AgeData(s)[a].vcd > 0
    ensures Distinct(DistinctAges(s)) && forall a :: a in DistinctAges(s) <==> a in AgeData(s)
    ensures SumTotals(AgeData(s), DistinctAges(s)) == |s|
  {
    DistinctAgesSpec(s);
    forall a | a in AgeData(s)
      ensures AgeData(s)[a].total == AgeData(s)[a].vce + AgeData(s)[a].vcd > 0
    {
      AgeDataCounts(s, a);
      AgeCountSplit(s, a);
    }
    SumTotalsAgeData(s);
  }

  /** Recording one more entry adds one player, with or without voice chat as recorded, to its age and to no other. */
  lemma AgeDataAfterAdd(s: seq<Entry>, e: Entry)
    ensures var before := AgeData(s); var after := AgeData(s + [e]);
      && after.Keys == before.Keys + {e.age}
      && TotalOf(after, e.age) == TotalOf(before, e.age) + 1
      && (forall a :: a in before && a != e.age ==> after[a] == before[a])
      && (e.vc ==> after[e.age].vce == (if e.age in before then before[e.age].vce else 0) + 1)
      && (!e.vc ==> after[e.age].vcd == (if e.age in before then before[e.age].vcd else 0) + 1)
  {
    assert (s + [e])[..|s|] == s;
  }

  lemma UpdateTwice(m: map<int, Counts>, k: int, v: Counts, w: Counts)
    ensures m[k := v][k := w] == m[k := w]
  {
  }

  /** Counting `e` updates the entry for its age in place, from `c`, its value or the default. */
  lemma CountedInPlace(m: map<int, Counts>, e: Entry, c: Counts)
    requires c == if e.age in m then m[e.age] else Zero
    ensures Counted(m, e) ==
      m[e.age := if e.vc then Counts(c.total + 1, c.vce + 1, c.vcd) else Counts(c.total + 1, c.vce, c.vcd + 1)]
  {
  }

  /**
   * The aggregation loop of `generate_stats_report` and `save_all`: a
   * `defaultdict` keyed by age, updated in place for every entry. The
   * dictionary is the map together with its keys in insertion order.
   */
  method BuildAgeData(entries: seq<Entry>) returns (data: map<int, Counts>, order: seq<int>)
    ensures data == AgeData(entries) && order == DistinctAges(entries)
  {
    data, order := map[], [];
    for i := 0 to |entries|
      invariant data == AgeData(entries[..i])
      invariant order == DistinctAges(entries[..i])
    {
      var e := entries[i];
      assert entries[..i + 1][..i] == entries[..i];
      ghost var before := data;
      AgeDataKeys(entries[..i]);
      if e.age !in data {
        data := data[e.age := Zero];
        order := order + [e.age];
      }
      var c := data[e.age];
      ghost var c0 := c;
      assert c0 == if e.age in before then before[e.age] else Zero;
      c := c.(total := c.total + 1);
      if e.vc {
        c := c.(vce := c.vce + 1);
      } else {
        c := c.(vcd := c.vcd + 1);
      }
      data := data[e.age := c];
      assert data == before[e.age := c] by {
        if e.age !in before {
          UpdateTwice(before, e.age, Zero, c);
        }
      }
      CountedInPlace(before, e, c0);
      assert entries[..i + 1][i] == e;
      assert AgeData(entries[..i + 1]) == Counted(AgeData(entries[..i]), e);
    }
    assert entries[..|entries|] == entries;
  }

  // ---------------------------------------------------------------------
  // The three most common ages

  /** The index of `a` in `keys`, or `|keys|` when absent. */
  function Pos(keys: seq<int>, a: int): (i: nat)
    ensures i <= |keys| && (i < |keys| <==> a in keys)
    ensures i < |keys| ==> keys[i] == a && forall j :: 0 <= j < i ==> keys[j] != a
  {
    if keys == [] then 0 else if keys[0] == a then 0 else 1 + Pos(keys[1..], a)
  }

  lemma {:induction false} PosAppend(keys: seq<int>, x: int, a: int)
    requires a in keys
    ensures Pos(keys + [x], a) == Pos(keys, a)
  {
    var i := Pos(keys, a);
    var k := Pos(keys + [x], a);
    assert (keys + [x])[i] == a;
  }

  /**
   * The order `sorted(..., key=total, reverse=True)` leaves the ages in:
   * more players first, and since the sort is stable, among equally common
   * ages the one the dictionary holds first.
   */
  predicate RankedBefore(m: map<int, Counts>, keys: seq<int>, a: int, b: int) {
    TotalOf(m, a) > TotalOf(m, b) || (TotalOf(m, a) == TotalOf(m, b) && Pos(keys, a) < Pos(keys, b))
  }

  predicate Ranked(m: map<int, Counts>, keys: seq<int>, r: seq<int>) {
    forall i, j :: 0 <= i < j < |r| ==> RankedBefore(m, keys, r[i], r[j])
  }

  /** Inserting `x` after every age with at least as many players. */
  function InsertByTotal(m: map<int, Counts>, x: int, r: seq<int>): (r': seq<int>)
    ensures |r'| == |r| + 1
    ensures forall y :: y in r' <==> y == x || y in r
  {
    if r == [] then [x]
    else if TotalOf(m, r[0]) >= TotalOf(m, x) then [r[0]] + InsertByTotal(m, x, r[1..])
    else [x] + r
  }

  /** A stable sort of `keys` by decreasing total: insertion sort, each key placed after those before it. */
  function SortByTotal(m: map<int, Counts>, keys: seq<int>): (r: seq<int>)
    ensures |r| == |keys|
    ensures forall y :: y in r <==> y in keys
  {
    if keys == [] then [] else InsertByTotal(m, keys[|keys| - 1], SortByTotal(m, keys[..|keys| - 1]))
  }

  /** A key placed behind the first of `r` keeps the ranking, given that it keeps it among the rest. */
  lemma {:induction false} InsertBehind(m: map<int, Counts>, keys: seq<int>, x: int, r: seq<int>)
    requires r != [] && TotalOf(m, r[0]) >= TotalOf(m, x)
    requires Ranked(m, keys, r)
    requires forall y :: y in r ==> Pos(keys, y) < Pos(keys, x)
    requires Ranked(m, keys, InsertByTotal(m, x, r[1..]))
    ensures Ranked(m, keys, [r[0]] + InsertByTotal(m, x, r[1..]))
  {
    var t := InsertByTotal(m, x, r[1..]);
    var r' := [r[0]] + t;
    forall i, j | 0 <= i < j < |r'|
      ensures RankedBefore(m, keys, r'[i], r'[j])
    {
      if i == 0 {
        var y := t[j - 1];
        assert y in t;
        if y != x {
          var k :| 0 <= k < |r[1..]| && r[1..][k] == y;
          assert r[k + 1] == y;
        }
      } else {
        assert r'[i] == t[i - 1] && r'[j] == t[j - 1];
      }
    }
  }

  /** A key with a larger total than the first of `r` goes in front and keeps the ranking. */
  lemma {:induction false} InsertInFront(m: map<int, Counts>, keys: seq<int>, x: int, r: seq<int>)
    requires r != [] && TotalOf(m, r[0]) < TotalOf(m, x)
    requires Ranked(m, keys, r)
    ensures Ranked(m, keys, [x] + r)
  {
    var r' := [x] + r;
    forall i, j | 0 <= i < j < |r'|
      ensures RankedBefore(m, keys, r'[i], r'[j])
    {
      if i == 0 && j > 1 {
        assert RankedBefore(m, keys, r[0], r[j - 1]);
      } else if i > 0 {
        assert r'[i] == r[i - 1] && r'[j] == r[j - 1];
      }
    }
  }

  lemma {:induction false} InsertRanked(m: map<int, Counts>, keys: seq<int>, x: int, r: seq<int>)
    requires Ranked(m, keys, r)
    requires forall y :: y in r ==> Pos(keys, y) < Pos(keys, x)
    ensures Ranked(m, keys, InsertByTotal(m, x, r))
  {
    if r != [] && TotalOf(m, r[0]) >= TotalOf(m, x) {
      InsertRanked(m, keys, x, r[1..]);
      InsertBehind(m, keys, x, r);
    } else if r != [] {
      InsertInFront(m, keys, x, r);
    }
  }

  lemma {:induction false} SortByTotalRanked(m: map<int, Counts>, keys: seq<int>)
    requires Distinct(keys)
    ensures Ranked(m, keys, SortByTotal(m, keys))
  {
    if keys != [] {
      var p := keys[..|keys| - 1];
      var x := keys[|keys| - 1];
      var r := SortByTotal(m, p);
      assert keys == p + [x];
      SortByTotalRanked(m, p);
      forall y | y in p
        ensures Pos(keys, y) == Pos(p, y) < Pos(keys, x)
      {
        PosAppend(p, x, y);
      }
      assert x !in p;
      assert Pos(keys, x) == |p|;
      forall i, j | 0 <= i < j < |r|
        ensures RankedBefore(m, keys, r[i], r[j])
      {
        assert RankedBefore(m, p, r[i], r[j]);
        assert r[i] in p && r[j] in p;
      }
      InsertRanked(m, keys, x, r);
    }
  }

  /** `sorted_ages[:3]`: the first three ages of the ranking, or all of them when there are fewer. */
  function TopThree(m: map<int, Counts>, keys: seq<int>): (top: seq<int>)
    ensures |top| == Min(3, |keys|)
  {
    var r := SortByTotal(m, keys);
    r[..Min(3, |r|)]
  }

  /** Age `a` is more common than age `b`, or as common and first recorded earlier. */
  ghost predicate MoreCommon(s: seq<Entry>, a: int, b: int) {
    AgeCount(s, a) > AgeCount(s, b)
    || (AgeCount(s, a) == AgeCount(s, b) && FirstIndex(s, a) < FirstIndex(s, b))
  }

  /**
   * The top-three list names `min(3, #distinct ages)` ages that occur, each
   * more common than the ones after it and than every age left out, ties
   * going to the age recorded first.
   */
  lemma TopThreeRanked(s: seq<Entry>)
    ensures var top := TopThree(AgeData(s), DistinctAges(s));
      && |top| == Min(3, |DistinctAges(s)|)
      && (forall a :: a in top ==> Occurs(s, a))
      && (forall i, j :: 0 <= i < j < |top| ==> MoreCommon(s, top[i], top[j]))
      && (forall a, b :: a in top && Occurs(s, b) && b !in top ==> MoreCommon(s, a, b))
  {
    var m, keys := AgeData(s), DistinctAges(s);
    var r := SortByTotal(m, keys);
    var top := TopThree(m, keys);
    DistinctAgesSpec(s);
    SortByTotalRanked(m, keys);
    forall a, b | a in keys && b in keys && RankedBefore(m, keys, a, b)
      ensures MoreCommon(s, a, b)
    {
      TotalOfAgeData(s, a);
      TotalOfAgeData(s, b);
      DistinctAgesOrder(s, a, b);
    }
    forall i, j | 0 <= i < j < |top|
      ensures MoreCommon(s, top[i], top[j])
    {
      assert top[i] == r[i] && top[j] == r[j];
    }
    forall a, b | a in top && Occurs(s, b) && b !in top
      ensures MoreCommon(s, a, b)
    {
      var i :| 0 <= i < |top| && top[i] == a;
      var j :| 0 <= j < |r| && r[j] == b;
      assert r[i] == a;
    }
  }

  // ---------------------------------------------------------------------
  // Ascending per-age rows

  /** A dictionary item `(age, counts)`. */
  datatype AgeRow = AgeRow(age: int, counts: Counts)

  predicate StrictlyAscending(xs: seq<int>) {
    forall i, j :: 0 <= i < j < |xs| ==> xs[i] < xs[j]
  }

  function InsertAscending(x: int, r: seq<int>): (r': seq<int>)
    ensures |r'| == |r| + 1
    ensures forall y :: y in r' <==> y == x || y in r
    ensures StrictlyAscending(r) && x !in r ==> StrictlyAscending(r')
  {
    if r == [] || x < r[0] then [x] + r
    else
      var t := InsertAscending(x, r[1..]);
      assert StrictlyAscending(r) && x !in r ==> forall k :: 0 <= k < |t| ==> r[0] < t[k] by {
        if StrictlyAscending(r) && x !in r {
          forall k | 0 <= k < |t|
            ensures r[0] < t[k]
          {
            assert t[k] in t;
            if t[k] != x {
              var q :| 0 <= q < |r[1..]| && r[1..][q] == t[k];
              assert r[q + 1] == t[k];
            }
          }
        }
      }
      [r[0]] + t
  }

  /** `sorted(keys)`: the keys in ascending order. */
  function SortAscending(keys: seq<int>): (r: seq<int>)
    ensures |r| == |keys|
    ensures forall y :: y in r <==> y in keys
    ensures Distinct(keys) ==> StrictlyAscending(r)
  {
    if keys == [] then []
    else
      var p := keys[..|keys| - 1];
      assert Distinct(keys) ==> keys[|keys| - 1] !in p;
      InsertAscending(keys[|keys| - 1], SortAscending(p))
  }

  /** The dictionary items `(age, age_data[age])` for `ages`, in that order. */
  function RowsOf(m: map<int, Counts>, ages: seq<int>): (rows: seq<AgeRow>)
    ensures |rows| == |ages|
    ensures forall i :: 0 <= i < |ages| ==> rows[i].age == ages[i]
    ensures forall i :: 0 <= i < |ages| && ages[i] in m ==> rows[i] == AgeRow(ages[i], m[ages[i]])
  {
    if ages == [] then []
    else [AgeRow(ages[0], if ages[0] in m then m[ages[0]] else Zero)] + RowsOf(m, ages[1..])
  }

  /** The dictionary items in ascending age order, as `sorted(age_data.items())` and `sorted(age_data.keys())` visit them. */
  function Breakdown(m: map<int, Counts>, keys: seq<int>): (b: seq<AgeRow>)
    ensures |b| == |keys|
    ensures forall a :: a in keys <==> exists i :: 0 <= i < |b| && b[i].age == a
    ensures Distinct(keys) ==> forall i, j :: 0 <= i < j < |b| ==> b[i].age < b[j].age
  {
    RowsOf(m, SortAscending(keys))
  }

  /**
   * The breakdown has one row per age that occurs, in strictly ascending age
   * order, each holding that age's number of players with and without voice chat.
   */
  lemma BreakdownSpec(s: seq<Entry>)
    ensures var b := Breakdown(AgeData(s), DistinctAges(s));
      && |b| == |DistinctAges(s)|
      && (forall i, j :: 0 <= i < j < |b| ==> b[i].age < b[j].age)
      && (forall a :: Occurs(s, a) <==> exists i :: 0 <= i < |b| && b[i].age == a)
      && (forall i :: 0 <= i < |b| ==>
            b[i].counts == Counts(AgeCount(s, b[i].age), AgeVcCount(s, b[i].age, true), AgeVcCount(s, b[i].age, false)))
  {
    DistinctAgesSpec(s);
    var ages := SortAscending(DistinctAges(s));
    var b := Breakdown(AgeData(s), DistinctAges(s));
    forall a | Occurs(s, a)
      ensures exists i :: 0 <= i < |b| && b[i].age == a
    {
      var i :| 0 <= i < |ages| && ages[i] == a;
      assert b[i].age == a;
    }
    forall i | 0 <= i < |b|
      ensures b[i].counts == Counts(AgeCount(s, b[i].age), AgeVcCount(s, b[i].age, true), AgeVcCount(s, b[i].age, false))
    {
      AgeDataCounts(s, ages[i]);
    }
  }

  // ---------------------------------------------------------------------
  // Summary file

  /** The header row of `data/roblox_players.csv`. */
  const SummaryHeader: Row := ["Age", "Players", "VCE", "VCD"]

  function SummaryRow(r: AgeRow): (row: Row)
    ensures |row| == |SummaryHeader|
  {
    [Str(r.age), Str(r.counts.total), Str(r.counts.vce), Str(r.counts.vcd)]
  }

  /** The writer loop of `save_all`: the header row, then one row per breakdown row, in order. */
  method WriteSummary(breakdown: seq<AgeRow>) returns (rows: seq<Row>)
    ensures |rows| == |breakdown| + 1 && rows[0] == SummaryHeader
    ensures forall i :: 0 <= i < |breakdown| ==> rows[i + 1] == SummaryRow(breakdown[i])
  {
    var body: seq<Row> := [];
    for i := 0 to |breakdown|
      invariant |body| == i
      invariant forall k :: 0 <= k < i ==> body[k] == SummaryRow(breakdown[k])
    {
      body := body + [SummaryRow(breakdown[i])];
    }
    rows := [SummaryHeader] + body;
  }

  /**
   * A summary row reads back, column by column, as the age and its three
   * counts.
   */
  lemma SummaryRowReadsBack(r: AgeRow)
    ensures ParseInt(SummaryRow(r)[0]) == Some(r.age)
    ensures ParseInt(SummaryRow(r)[1]) == Some(r.counts.total as int)
    ensures ParseInt(SummaryRow(r)[2]) == Some(r.counts.vce as int)
    ensures ParseInt(SummaryRow(r)[3]) == Some(r.counts.vcd as int)
  {
    ParseStr(r.age);
    ParseStr(r.counts.total);
    ParseStr(r.counts.vce);
    ParseStr(r.counts.vcd);
  }

  // ---------------------------------------------------------------------
  // Recent-entries log

  /** How many entries the log view shows. */
  const RecentLimit: nat := 50

  /** `entries[-50:]`: the last 50 entries, or all of them when there are fewer. */
  function Recent(s: seq<Entry>): (r: seq<Entry>)
    ensures |r| == Min(RecentLimit, |s|)
    ensures forall i :: 0 <= i < |r| ==> r[i] == s[|s| - |r| + i]
  {
    s[|s| - Min(RecentLimit, |s|)..]
  }

  /** The line the log view shows for `e`: `f"{age:>3} | {vc:>3} | {timestamp}\n"`. */
  function LogLine(e: Entry): (l: string)
    ensures |l| >= 13 + |e.timestamp| && l[|l| - 1] == '\n'
  {
    Line(RightAlign(Str(e.age), 3), RightAlign(VcText(e.vc), 3), e.timestamp)
  }

  /** The three fields of a log line, separated by ` | ` and ended by a newline. */
  function Line(age: string, vc: string, timestamp: string): (l: string)
    ensures |l| == |age| + |vc| + |timestamp| + 7 && l[|l| - 1] == '\n'
  {
    age + " | " + vc + " | " + timestamp + "\n"
  }

  /** The lines of `es` one after the other, the first entry on top. */
  function LogText(es: seq<Entry>): (t: string)
    ensures t == [] <==> es == []
    ensures |t| >= 13 * |es|
  {
    if es == [] then "" else LogLine(es[0]) + LogText(es[1..])
  }

  /** The text of two runs of entries is the text of the first followed by the text of the second. */
  lemma {:induction false} LogTextConcat(a: seq<Entry>, b: seq<Entry>)
    ensures LogText(a + b) == LogText(a) + LogText(b)
    decreases |a|
  {
    if a == [] {
      assert a + b == b;
    } else {
      var rest := a[1..];
      assert (a + b)[0] == a[0] && (a + b)[1..] == rest + b;
      LogTextConcat(rest, b);
      Associate(LogLine(a[0]), LogText(rest), LogText(b));
    }
  }

  lemma Associate(x: string, y: string, z: string)
    ensures x + (y + z) == (x + y) + z
  {
  }

  lemma {:induction false} NatStrShort(n: nat)
    ensures n < 100 ==> |NatStr(n)| <= 2
    ensures n < 1000 ==> |NatStr(n)| <= 3
  {
    if n >= 10 {
      NatStrShort(n / 10);
    }
  }

  lemma LineSlices(a: string, v: string, ts: string)
    requires |a| == |v| == 3
    ensures var l := Line(a, v, ts);
      && |l| == 13 + |ts|
      && l[..3] == a && l[3..6] == " | " && l[6..9] == v && l[9..12] == " | "
      && l[12..|l| - 1] == ts && l[|l| - 1] == '\n'
  {
    var l := Line(a, v, ts);
    assert l[..3] == a;
    assert l[3..6] == " | ";
    assert l[6..9] == v;
    assert l[9..12] == " | ";
    assert l[12..|l| - 1] == ts;
  }

  /** An age of at most three characters fills the width-3 field and reads back as itself. */
  lemma AgeField(n: int)
    requires -99 <= n <= 999
    ensures |RightAlign(Str(n), 3)| == 3 && ParseInt(RightAlign(Str(n), 3)) == Some(n)
  {
    if n < 0 {
      NatStrShort(-n);
    } else {
      NatStrShort(n);
    }
    ParseRightAligned(n, 3);
  }

  lemma VcField(vc: bool)
    ensures RightAlign(VcText(vc), 3) == if vc then "Yes" else " No"
  {
    if vc {
      assert RightAlign(VcText(true), 3) == "Yes";
    } else {
      assert RightAlign(VcText(false), 3) == " No";
    }
  }

  /**
   * For an age of at most three characters (every age the input accepts),
   * a log line is a fixed-width age field that reads back as the age, the
   * separator, `Yes` or ` No`, the separator, the timestamp and a newline.
   */
  lemma LogLineFields(e: Entry)
    requires -99 <= e.age <= 999
    ensures var l := LogLine(e);
      && |l| == 13 + |e.timestamp|
      && ParseInt(l[..3]) == Some(e.age)
      && l[3..6] == " | "
      && l[6..9] == (if e.vc then "Yes" else " No")
      && l[9..12] == " | "
      && l[12..|l| - 1] == e.timestamp
      && l[|l| - 1] == '\n'
  {
    var a, v := RightAlign(Str(e.age), 3), RightAlign(VcText(e.vc), 3);
    AgeField(e.age);
    VcField(e.vc);
    LineSlices(a, v, e.timestamp);
    assert LogLine(e) == Line(a, v, e.timestamp);
  }
}
