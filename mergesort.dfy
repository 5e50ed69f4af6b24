/**
 * The merge and sort that prepare the output: the keys of the previous
 * revision of the templates are merged into each title's attributes with
 * empty values (current values win), each title's items are sorted by
 * attrs_sort_key, and the unmapped province entries, merged the same way with
 * the previous ones, are sorted stably by the number after their four-letter
 * prefix.
 */
module Sorting {
  import opened Common
  import opened LandedTitles
  import opened Localisation

  type Item = (string, string)

  // ---------------------------------------------------------------------
  // Merging in the previous revision
  // ---------------------------------------------------------------------

  /** `dict(((k, '') for k in prev), **cur)`: previous keys with empty values, overridden by the current ones. */
  function MergePrev(prev: Attrs, cur: Attrs): (r: Attrs)
    ensures r.Keys == prev.Keys + cur.Keys
    ensures forall k :: k in cur ==> r[k] == cur[k]
    ensures forall k :: k in prev && k !in cur ==> r[k] == ""
  {
    (map k | k in prev :: "") + cur
  }

  /**
   * The loop over the previous titles: each one is merged into the current
   * title of the same name, which must exist (the original indexes the
   * current dictionary and raises a KeyError otherwise).
   */
  function MergeAll(attrs: map<string, Attrs>, prev: map<string, Attrs>): (r: map<string, Attrs>)
    requires prev.Keys <= attrs.Keys
    ensures r.Keys == attrs.Keys
    ensures forall t :: t in prev ==> r[t] == MergePrev(prev[t], attrs[t])
    ensures forall t :: t in attrs && t !in prev ==> r[t] == attrs[t]
  {
    map t | t in attrs :: if t in prev then MergePrev(prev[t], attrs[t]) else attrs[t]
  }

  /** A current value is never lost and never changed by the merge. */
  lemma MergeKeepsCurrent(attrs: map<string, Attrs>, prev: map<string, Attrs>, t: string, k: string)
    requires prev.Keys <= attrs.Keys
    requires t in attrs && k in attrs[t]
    ensures k in MergeAll(attrs, prev)[t] && MergeAll(attrs, prev)[t][k] == attrs[t][k]
  {
  }

  /** An ordered dictionary as a list of (key, value) items with distinct keys. */
  predicate DistinctKeys(s: seq<Item>) {
    forall i, j :: 0 <= i < j < |s| ==> s[i].0 != s[j].0
  }

  function KeysOf(s: seq<Item>): set<string> {
    set i | 0 <= i < |s| :: s[i].0
  }

  /** `d.get(k, default)` on an ordered dictionary. */
  function Lookup(s: seq<Item>, k: string, default: string): (r: string)
    ensures k !in KeysOf(s) ==> r == default
  {
    if s == [] then default
    else if s[0].0 == k then s[0].1
    else
      assert forall i :: 0 < i < |s| ==> s[i] == s[1..][i - 1];
      Lookup(s[1..], k, default)
  }

  lemma {:induction false} LookupAt(s: seq<Item>, i: int, default: string)
    decreases s
    requires DistinctKeys(s) && 0 <= i < |s|
    ensures Lookup(s, s[i].0, default) == s[i].1
  {
    if i > 0 {
      assert DistinctKeys(s[1..]) by {
        assert forall j :: 0 <= j < |s[1..]| ==> s[1..][j] == s[j + 1];
      }
      assert s[1..][i - 1] == s[i];
      LookupAt(s[1..], i - 1, default);
    }
  }

  /** The previous keys in their order, each with the current value or the empty string. */
  function Blanked(prev: seq<Item>, cur: seq<Item>): (r: seq<Item>)
    ensures |r| == |prev|
    ensures forall i :: 0 <= i < |r| ==> r[i] == (prev[i].0, Lookup(cur, prev[i].0, ""))
  {
    if prev == [] then [] else [(prev[0].0, Lookup(cur, prev[0].0, ""))] + Blanked(prev[1..], cur)
  }

  /** The current items whose keys are not among the given ones, in order. */
  function Unlisted(cur: seq<Item>, keys: set<string>): (r: seq<Item>)
    ensures forall x :: x in r <==> x in cur && x.0 !in keys
  {
    if cur == [] then []
    else (if cur[0].0 in keys then [] else [cur[0]]) + Unlisted(cur[1..], keys)
  }

  lemma {:induction false} UnlistedDistinct(cur: seq<Item>, keys: set<string>)
    decreases cur
    requires DistinctKeys(cur)
    ensures DistinctKeys(Unlisted(cur, keys))
  {
    if cur != [] {
      assert DistinctKeys(cur[1..]) by {
        assert forall i :: 0 <= i < |cur[1..]| ==> cur[1..][i] == cur[i + 1];
      }
      UnlistedDistinct(cur[1..], keys);
      var rest := Unlisted(cur[1..], keys);
      forall i | 0 <= i < |rest| ensures rest[i].0 != cur[0].0 {
        assert rest[i] in cur[1..];
      }
    }
  }

  /** The unlisted items keep their order in the current entries. */
  lemma {:induction false} UnlistedOrder(cur: seq<Item>, keys: set<string>)
    decreases cur
    requires DistinctKeys(cur)
    ensures InOrderOf(Unlisted(cur, keys), cur)
  {
    if cur != [] {
      var tl := cur[1..];
      assert DistinctKeys(tl) by {
        assert forall i :: 0 <= i < |tl| ==> tl[i] == cur[i + 1];
      }
      UnlistedOrder(tl, keys);
      var rest := Unlisted(tl, keys);
      var h := if cur[0].0 in keys then [] else [cur[0]];
      forall q | 0 <= q < |rest| ensures rest[q] in tl && rest[q] != cur[0] {
        assert rest[q] in rest;
        var p :| 0 <= p < |tl| && tl[p] == rest[q];
        assert tl[p] == cur[p + 1];
      }
      InOrderOfCons(cur[0], tl, h, rest);
      assert Unlisted(cur, keys) == h + rest;
      assert cur == [cur[0]] + tl;
    }
  }

  /**
   * `dict(((k, '') for k in prev), **cur)` on ordered dictionaries: the
   * previous keys first, in their order, then the new current keys in theirs.
   */
  function MergeOther(prev: seq<Item>, cur: seq<Item>): seq<Item>
  {
    Blanked(prev, cur) + Unlisted(cur, KeysOf(prev))
  }

  lemma MergeOtherDistinct(prev: seq<Item>, cur: seq<Item>)
    requires DistinctKeys(prev) && DistinctKeys(cur)
    ensures DistinctKeys(MergeOther(prev, cur))
  {
    var b := Blanked(prev, cur);
    var u := Unlisted(cur, KeysOf(prev));
    var m := MergeOther(prev, cur);
    UnlistedDistinct(cur, KeysOf(prev));
    forall i, j | 0 <= i < j < |m| ensures m[i].0 != m[j].0 {
      if j >= |b| && i < |b| {
        assert m[j] == u[j - |b|];
        assert m[j] in u;
      } else if j >= |b| {
        assert m[i] == u[i - |b|] && m[j] == u[j - |b|];
      }
    }
  }

  lemma UnlistedKeys(cur: seq<Item>, keys: set<string>)
    ensures forall j :: 0 <= j < |Unlisted(cur, keys)| ==> Unlisted(cur, keys)[j].0 in KeysOf(cur) - keys
  {
    var u := Unlisted(cur, keys);
    forall j | 0 <= j < |u| ensures u[j].0 in KeysOf(cur) - keys {
      assert u[j] in u;
      var q :| 0 <= q < |cur| && cur[q] == u[j];
    }
  }

  lemma MergeOtherCurrent(prev: seq<Item>, cur: seq<Item>, i: int)
    requires DistinctKeys(cur) && 0 <= i < |cur|
    ensures cur[i] in MergeOther(prev, cur)
  {
    var m := MergeOther(prev, cur);
    if cur[i].0 in KeysOf(prev) {
      var p :| 0 <= p < |prev| && prev[p].0 == cur[i].0;
      LookupAt(cur, i, "");
      assert m[p] == (prev[p].0, Lookup(cur, prev[p].0, ""));
    } else {
      assert cur[i] in Unlisted(cur, KeysOf(prev));
    }
  }

  lemma MergeOtherBlank(prev: seq<Item>, cur: seq<Item>, i: int)
    requires 0 <= i < |MergeOther(prev, cur)| && MergeOther(prev, cur)[i].0 !in KeysOf(cur)
    ensures MergeOther(prev, cur)[i].1 == ""
  {
    var u := Unlisted(cur, KeysOf(prev));
    UnlistedKeys(cur, KeysOf(prev));
    assert i < |Blanked(prev, cur)|;
  }

  lemma MergeOtherKeyFrom(prev: seq<Item>, cur: seq<Item>, i: int)
    requires 0 <= i < |MergeOther(prev, cur)|
    ensures MergeOther(prev, cur)[i].0 in KeysOf(prev) + KeysOf(cur)
  {
    var b := Blanked(prev, cur);
    var m := MergeOther(prev, cur);
    if i >= |b| {
      UnlistedKeys(cur, KeysOf(prev));
      assert m[i] == Unlisted(cur, KeysOf(prev))[i - |b|];
    } else {
      assert m[i].0 == prev[i].0;
    }
  }

  lemma MergeOtherKeys(prev: seq<Item>, cur: seq<Item>)
    requires DistinctKeys(cur)
    ensures KeysOf(MergeOther(prev, cur)) == KeysOf(prev) + KeysOf(cur)
  {
    var m := MergeOther(prev, cur);
    forall k | k in KeysOf(m) ensures k in KeysOf(prev) + KeysOf(cur) {
      var i :| 0 <= i < |m| && m[i].0 == k;
      MergeOtherKeyFrom(prev, cur, i);
    }
    forall k | k in KeysOf(prev) ensures k in KeysOf(m) {
      var i :| 0 <= i < |prev| && prev[i].0 == k;
      assert m[i].0 == k;
    }
    forall k | k in KeysOf(cur) ensures k in KeysOf(m) {
      var i :| 0 <= i < |cur| && cur[i].0 == k;
      MergeOtherCurrent(prev, cur, i);
      var j :| 0 <= j < |m| && m[j] == cur[i];
    }
  }

  /** After the previous keys, the new current entries follow in their current order. */
  lemma MergeOtherNewOrder(prev: seq<Item>, cur: seq<Item>)
    requires DistinctKeys(cur)
    ensures |prev| <= |MergeOther(prev, cur)| && InOrderOf(MergeOther(prev, cur)[|prev|..], cur)
  {
    UnlistedOrder(cur, KeysOf(prev));
    assert MergeOther(prev, cur)[|prev|..] == Unlisted(cur, KeysOf(prev));
  }

  /**
   * The merged entries have distinct keys, which are the previous keys and
   * the current ones; a current key keeps its value, a previous-only key gets
   * the empty string; the previous order comes first, and the new current
   * entries follow in their current order.
   */
  lemma MergeOtherSpec(prev: seq<Item>, cur: seq<Item>)
    requires DistinctKeys(prev) && DistinctKeys(cur)
    ensures var m := MergeOther(prev, cur);
      && DistinctKeys(m)
      && KeysOf(m) == KeysOf(prev) + KeysOf(cur)
      && (forall i :: 0 <= i < |cur| ==> cur[i] in m)
      && (forall i :: 0 <= i < |m| && m[i].0 !in KeysOf(cur) ==> m[i].1 == "")
      && (forall i :: 0 <= i < |prev| ==> m[i].0 == prev[i].0)
      && |prev| <= |m| && InOrderOf(m[|prev|..], cur)
  {
    MergeOtherNewOrder(prev, cur);
    MergeOtherDistinct(prev, cur);
    MergeOtherKeys(prev, cur);
    forall i | 0 <= i < |cur| ensures cur[i] in MergeOther(prev, cur) {
      MergeOtherCurrent(prev, cur, i);
    }
    forall i | 0 <= i < |MergeOther(prev, cur)| && MergeOther(prev, cur)[i].0 !in KeysOf(cur)
      ensures MergeOther(prev, cur)[i].1 == ""
    {
      MergeOtherBlank(prev, cur, i);
    }
  }

  // ---------------------------------------------------------------------
  // attrs_sort_key
  // ---------------------------------------------------------------------

  /** `re.fullmatch('(.+)_adj(_.*)', key)` with group 1 ending at i. */
  predicate CultureAdjAt(key: string, i: int) {
    && 1 <= i && i + 5 <= |key|
    && NoNewline(key)
    && key[i..i + 4] == "_adj"
    && key[i + 4] == '_'
  }

  /** The largest i <= hi where the full match can split: the greedy choice. */
  function LastCultureAdj(key: string, hi: int): (r: Option<int>)
    decreases hi
    ensures r.Some? ==> r.value <= hi && CultureAdjAt(key, r.value) && forall j :: r.value < j <= hi ==> !CultureAdjAt(key, j)
    ensures r.None? ==> forall j :: j <= hi ==> !CultureAdjAt(key, j)
  {
    if hi < 1 then None
    else if CultureAdjAt(key, hi) then Some(hi)
    else LastCultureAdj(key, hi - 1)
  }

  /** `X_adj_S` compares as `X_S_adj`; any other key as itself. */
  function AdjRekey(key: string): (r: string)
    ensures (forall i :: !CultureAdjAt(key, i)) ==> r == key
    ensures (exists i :: CultureAdjAt(key, i)) ==>
      exists i :: CultureAdjAt(key, i) && r == key[..i] + key[i + 4..] + "_adj" && forall j :: i < j ==> !CultureAdjAt(key, j)
  {
    match LastCultureAdj(key, |key| - 5)
    case None => key
    case Some(i) => key[..i] + key[i + 4..] + "_adj"
  }

  /**
   * The comparison key of one item: a tier (false for the localisation-like
   * keys, true for the landed-title keys, so the latter sort last), a rank,
   * and the item itself. A landed-title item compares by the item alone,
   * which its rank (its own key) does not change.
   */
  datatype SortKey = SortKey(tier: bool, rank: string, item: Item)

  function AttrSortKey(item: Item, title: string, ltKeys: set<string>, cultures: set<string>): (r: SortKey)
    ensures r.item == item
    ensures r.tier <==> item.0 in ltKeys
    ensures item.0 in ltKeys ==> r.rank == item.0
    ensures item.0 !in ltKeys && item.0 in cultures ==> r.rank == title + "_" + item.0
    ensures item.0 !in ltKeys && item.0 !in cultures ==> r.rank == AdjRekey(item.0)
  {
    var key := item.0;
    if key in ltKeys then SortKey(true, key, item)
    else if key in cultures then SortKey(false, title + "_" + key, item)
    else SortKey(false, AdjRekey(key), item)
  }

  /** Python's `<` on (key, value) tuples. */
  predicate ItemLess(a: Item, b: Item) {
    StrLess(a.0, b.0) || (a.0 == b.0 && StrLess(a.1, b.1))
  }

  /** Python's `<` on the key tuples: `False < True`, then lexicographic. */
  predicate KeyLess(a: SortKey, b: SortKey) {
    || (!a.tier && b.tier)
    || (a.tier == b.tier && (StrLess(a.rank, b.rank) || (a.rank == b.rank && ItemLess(a.item, b.item))))
  }

  lemma ItemLessStrictTotal(a: Item, b: Item, c: Item)
    ensures !ItemLess(a, a)
    ensures ItemLess(a, b) ==> !ItemLess(b, a)
    ensures ItemLess(a, b) && ItemLess(b, c) ==> ItemLess(a, c)
    ensures a == b || ItemLess(a, b) || ItemLess(b, a)
  {
    StrLessIrreflexive(a.0);
    StrLessIrreflexive(a.1);
    StrLessAsymmetric(a.0, b.0);
    StrLessAsymmetric(a.1, b.1);
    StrLessTotal(a.0, b.0);
    StrLessTotal(a.1, b.1);
    if ItemLess(a, b) && ItemLess(b, c) {
      if StrLess(a.0, b.0) && StrLess(b.0, c.0) {
        StrLessTransitive(a.0, b.0, c.0);
      } else if StrLess(a.1, b.1) && StrLess(b.1, c.1) && a.0 == b.0 && b.0 == c.0 {
        StrLessTransitive(a.1, b.1, c.1);
      }
    }
  }

  /** The key order is a strict total order: items sort uniquely. */
  lemma KeyLessStrictTotal(a: SortKey, b: SortKey, c: SortKey)
    ensures !KeyLess(a, a)
    ensures KeyLess(a, b) ==> !KeyLess(b, a)
    ensures KeyLess(a, b) && KeyLess(b, c) ==> KeyLess(a, c)
    ensures a.item != b.item ==> KeyLess(a, b) || KeyLess(b, a)
  {
    ItemLessStrictTotal(a.item, b.item, c.item);
    StrLessIrreflexive(a.rank);
    StrLessAsymmetric(a.rank, b.rank);
    StrLessTotal(a.rank, b.rank);
    if KeyLess(a, b) && KeyLess(b, c) && a.tier == b.tier && b.tier == c.tier {
      if StrLess(a.rank, b.rank) && StrLess(b.rank, c.rank) {
        StrLessTransitive(a.rank, b.rank, c.rank);
      }
    }
  }

  /** Item a sorts before item b within title's attributes. */
  predicate Before(a: Item, b: Item, title: string, ltKeys: set<string>, cultures: set<string>) {
    KeyLess(AttrSortKey(a, title, ltKeys, cultures), AttrSortKey(b, title, ltKeys, cultures))
  }

  /** Every other key sorts before every landed-title key. */
  lemma TierOrder(a: Item, b: Item, title: string, ltKeys: set<string>, cultures: set<string>)
    requires a.0 !in ltKeys && b.0 in ltKeys
    ensures Before(a, b, title, ltKeys, cultures) && !Before(b, a, title, ltKeys, cultures)
  {
  }

  /** Landed-title items are ordered by (key, value). */
  lemma LandedKeysByItem(a: Item, b: Item, title: string, ltKeys: set<string>, cultures: set<string>)
    requires a.0 in ltKeys && b.0 in ltKeys
    ensures Before(a, b, title, ltKeys, cultures) <==> ItemLess(a, b)
  {
    if ItemLess(a, b) && a.0 != b.0 {
      assert StrLess(a.0, b.0);
    }
    if Before(a, b, title, ltKeys, cultures) && StrLess(a.0, b.0) {
      assert ItemLess(a, b);
    }
  }

  /**
   * A culture key c compares as title_c, so it sits among that title's own
   * name keys: against any other non-landed item b, whose rank is its own
   * title_ form if it is a culture key and its re-keyed adjective otherwise,
   * it comes first exactly when its rank is smaller, or equal with the
   * smaller item, and it comes second in the mirror case.
   */
  lemma CultureKeyRank(a: Item, b: Item, title: string, ltKeys: set<string>, cultures: set<string>)
    requires a.0 in cultures && a.0 !in ltKeys && b.0 !in ltKeys
    ensures var ra := title + "_" + a.0;
      var rb := if b.0 in cultures then title + "_" + b.0 else AdjRekey(b.0);
      && (Before(a, b, title, ltKeys, cultures) <==> StrLess(ra, rb) || (ra == rb && ItemLess(a, b)))
      && (Before(b, a, title, ltKeys, cultures) <==> StrLess(rb, ra) || (rb == ra && ItemLess(b, a)))
  {
  }

  /** The adjective of a culture variant sorts next to that variant. */
  lemma AdjRekeyCultureExample()
    ensures AdjRekey("k_test_adj_norse") == "k_test_norse_adj"
  {
    var key := "k_test_adj_norse";
    assert |key| == 16;
    forall i | 7 <= i <= 11 ensures !CultureAdjAt(key, i) {
      assert key[i..i + 4][1] == key[i + 1] != 'a';
    }
    assert NoNewline(key) by {
      forall i | 0 <= i < |key| ensures key[i] != '\n' {
        assert key[i] in "k_test_adj_norse";
      }
    }
    assert key[6..10] == "_adj" && key[10] == '_';
    assert CultureAdjAt(key, 6);
    assert LastCultureAdj(key, 6) == Some(6);
    assert LastCultureAdj(key, 11) == Some(6) by {
      assert LastCultureAdj(key, 11) == LastCultureAdj(key, 10) == LastCultureAdj(key, 9);
      assert LastCultureAdj(key, 9) == LastCultureAdj(key, 8) == LastCultureAdj(key, 7) == LastCultureAdj(key, 6);
    }
    assert key[..6] + key[10..] + "_adj" == "k_test_norse_adj";
  }

  /** A plain adjective key compares as itself. */
  lemma AdjRekeyPlainExample()
    ensures AdjRekey("k_test_adj") == "k_test_adj"
  {
    var key := "k_test_adj";
    forall i | 1 <= i <= 5 ensures !CultureAdjAt(key, i) {
      assert key[i..i + 4][1] == key[i + 1] != 'a';
    }
    assert LastCultureAdj(key, 5) == None;
  }

  // ---------------------------------------------------------------------
  // Sorting a title's items
  // ---------------------------------------------------------------------

  predicate SortedBy(s: seq<Item>, title: string, ltKeys: set<string>, cultures: set<string>) {
    forall i, j :: 0 <= i < j < |s| ==> Before(s[i], s[j], title, ltKeys, cultures)
  }

  /** The items of a dictionary. */
  ghost predicate ItemsOf(s: seq<Item>, m: Attrs) {
    forall x :: x in s <==> x.0 in m && m[x.0] == x.1
  }

  function Insert(s: seq<Item>, x: Item, title: string, ltKeys: set<string>, cultures: set<string>): (r: seq<Item>)
    requires SortedBy(s, title, ltKeys, cultures) && x !in s
    ensures SortedBy(r, title, ltKeys, cultures)
    ensures forall y :: y in r <==> y in s || y == x
    ensures |r| == |s| + 1
  {
    if s == [] then [x]
    else
      SortedHead(s, title, ltKeys, cultures);
      BeforeOrder(x, s[0], x, title, ltKeys, cultures);
      if Before(x, s[0], title, ltKeys, cultures) then
        forall y | y in s[1..] ensures Before(x, y, title, ltKeys, cultures) {
          BeforeOrder(x, s[0], y, title, ltKeys, cultures);
        }
        ConsSorted(x, s, title, ltKeys, cultures);
        [x] + s
      else
        var rest := Insert(s[1..], x, title, ltKeys, cultures);
        ConsSorted(s[0], rest, title, ltKeys, cultures);
        [s[0]] + rest
  }

  /** An item before everything in a sorted list may be put at its head. */
  lemma ConsSorted(a: Item, t: seq<Item>, title: string, ltKeys: set<string>, cultures: set<string>)
    requires SortedBy(t, title, ltKeys, cultures)
    requires forall y :: y in t ==> Before(a, y, title, ltKeys, cultures)
    ensures SortedBy([a] + t, title, ltKeys, cultures)
  {
    var r := [a] + t;
    forall i, j | 0 <= i < j < |r| ensures Before(r[i], r[j], title, ltKeys, cultures) {
      assert r[j] == t[j - 1];
      if i > 0 {
        assert r[i] == t[i - 1];
      }
    }
  }

  /**
   * `sorted(attrs.items(), key=attrs_sort_key)`: the result is strictly
   * sorted by the key and holds exactly the dictionary's items, once each.
   */
  method SortItems(m: Attrs, title: string, ltKeys: set<string>, cultures: set<string>) returns (s: seq<Item>)
    ensures SortedBy(s, title, ltKeys, cultures)
    ensures ItemsOf(s, m)
    ensures |s| == |m|
  {
    s := [];
    var rest := m.Keys;
    while rest != {}
      invariant rest <= m.Keys
      invariant SortedBy(s, title, ltKeys, cultures)
      invariant forall x :: x in s <==> x.0 in m.Keys - rest && m[x.0] == x.1
      invariant |s| == |m.Keys - rest|
      decreases |rest|
    {
      var k :| k in rest;
      assert (k, m[k]) !in s;
      assert m.Keys - (rest - {k}) == (m.Keys - rest) + {k};
      s := Insert(s, (k, m[k]), title, ltKeys, cultures);
      rest := rest - {k};
    }
    assert m.Keys - rest == m.Keys;
  }

  /** Before is a strict total order on items. */
  lemma BeforeOrder(a: Item, b: Item, c: Item, title: string, ltKeys: set<string>, cultures: set<string>)
    ensures !Before(a, a, title, ltKeys, cultures)
    ensures Before(a, b, title, ltKeys, cultures) ==> !Before(b, a, title, ltKeys, cultures)
    ensures Before(a, b, title, ltKeys, cultures) && Before(b, c, title, ltKeys, cultures) ==> Before(a, c, title, ltKeys, cultures)
    ensures a != b ==> Before(a, b, title, ltKeys, cultures) || Before(b, a, title, ltKeys, cultures)
  {
    KeyLessStrictTotal(AttrSortKey(a, title, ltKeys, cultures), AttrSortKey(b, title, ltKeys, cultures), AttrSortKey(c, title, ltKeys, cultures));
  }

  /** The head of a strictly sorted list comes before everything else in it, which does not hold the head again. */
  lemma SortedHead(s: seq<Item>, title: string, ltKeys: set<string>, cultures: set<string>)
    requires SortedBy(s, title, ltKeys, cultures) && s != []
    ensures SortedBy(s[1..], title, ltKeys, cultures)
    ensures forall x :: x in s[1..] ==> Before(s[0], x, title, ltKeys, cultures) && x != s[0]
  {
    assert forall i :: 0 <= i < |s[1..]| ==> s[1..][i] == s[i + 1];
    forall x | x in s[1..] ensures Before(s[0], x, title, ltKeys, cultures) && x != s[0] {
      BeforeOrder(s[0], s[0], s[0], title, ltKeys, cultures);
    }
  }

  lemma SortedHeads(s: seq<Item>, t: seq<Item>, title: string, ltKeys: set<string>, cultures: set<string>)
    requires SortedBy(s, title, ltKeys, cultures) && SortedBy(t, title, ltKeys, cultures)
    requires s != [] && t != [] && s[0] in t && t[0] in s
    ensures s[0] == t[0]
  {
    var i :| 0 <= i < |t| && t[i] == s[0];
    var j :| 0 <= j < |s| && s[j] == t[0];
    if i != 0 && j != 0 {
      assert Before(t[0], s[0], title, ltKeys, cultures);
      assert Before(s[0], t[0], title, ltKeys, cultures);
      BeforeOrder(s[0], t[0], s[0], title, ltKeys, cultures);
    }
  }

  /** A strictly sorted list of given items is unique: the insertion order of the dictionary does not matter. */
  lemma {:induction false} SortedUnique(s: seq<Item>, t: seq<Item>, title: string, ltKeys: set<string>, cultures: set<string>)
    decreases |s|
    requires SortedBy(s, title, ltKeys, cultures) && SortedBy(t, title, ltKeys, cultures)
    requires forall x :: x in s <==> x in t
    ensures s == t
  {
    assert s != [] ==> s[0] in t;
    assert t != [] ==> t[0] in s;
    if s != [] && t != [] {
      SortedHeads(s, t, title, ltKeys, cultures);
      SortedHead(s, title, ltKeys, cultures);
      SortedHead(t, title, ltKeys, cultures);
      assert s == [s[0]] + s[1..] && t == [t[0]] + t[1..];
      forall x ensures x in s[1..] <==> x in t[1..] {
        assert x in s <==> x in t;
        assert x in s <==> x == s[0] || x in s[1..];
        assert x in t <==> x == t[0] || x in t[1..];
      }
      SortedUnique(s[1..], t[1..], title, ltKeys, cultures);
    }
  }

  /** The loop that replaces every title's dictionary by its sorted items. */
  method SortTitles(attrs: map<string, Attrs>, ltKeys: set<string>, cultures: set<string>) returns (sorted: map<string, seq<Item>>)
    ensures sorted.Keys == attrs.Keys
    ensures forall t :: t in attrs ==> SortedBy(sorted[t], t, ltKeys, cultures) && ItemsOf(sorted[t], attrs[t])
  {
    sorted := map[];
    var rest := attrs.Keys;
    while rest != {}
      invariant rest <= attrs.Keys
      invariant sorted.Keys == attrs.Keys - rest
      invariant forall t :: t in sorted ==> SortedBy(sorted[t], t, ltKeys, cultures) && ItemsOf(sorted[t], attrs[t])
      decreases |rest|
    {
      var t :| t in rest;
      var items := SortItems(attrs[t], t, ltKeys, cultures);
      sorted := sorted[t := items];
      rest := rest - {t};
    }
  }

  // ---------------------------------------------------------------------
  // Sorting the other province entries
  // ---------------------------------------------------------------------

  /** `int(key[4:])` for a key whose suffix is a non-empty string of digits (0 otherwise). */
  function ProvNumber(key: string): nat {
    if |key| > 4 && AllDigits(key[4..]) then DigitsValue(key[4..]) else 0
  }

  predicate Numbered(key: string) {
    |key| > 4 && AllDigits(key[4..])
  }

  predicate NumSorted(s: seq<Item>) {
    forall i, j :: 0 <= i < j < |s| ==> ProvNumber(s[i].0) <= ProvNumber(s[j].0)
  }

  /** The entries whose number is n, in order. */
  function WithNumber(s: seq<Item>, n: nat): seq<Item>
  {
    if s == [] then []
    else (if ProvNumber(s[0].0) == n then [s[0]] else []) + WithNumber(s[1..], n)
  }

  /** Insert x after every entry whose number is not larger. */
  function InsertStable(s: seq<Item>, x: Item): (r: seq<Item>)
    ensures multiset(r) == multiset(s) + multiset{x}
  {
    if s == [] then [x]
    else if ProvNumber(x.0) < ProvNumber(s[0].0) then [x] + s
    else
      assert s == [s[0]] + s[1..];
      [s[0]] + InsertStable(s[1..], x)
  }

  /** A stable insertion sort by province number, the order `sorted` produces. */
  function SortOther(s: seq<Item>): (r: seq<Item>)
    ensures multiset(r) == multiset(s)
  {
    if s == [] then []
    else
      assert s == s[..|s| - 1] + [s[|s| - 1]];
      InsertStable(SortOther(s[..|s| - 1]), s[|s| - 1])
  }

  lemma {:induction false} InsertStableSorted(s: seq<Item>, x: Item)
    decreases s
    requires NumSorted(s)
    ensures NumSorted(InsertStable(s, x))
  {
    if s != [] {
      NumSortedTail(s);
      if ProvNumber(x.0) < ProvNumber(s[0].0) {
        ConsNumSorted(x, s);
      } else {
        var rest := InsertStable(s[1..], x);
        InsertStableSorted(s[1..], x);
        forall y | y in rest ensures ProvNumber(s[0].0) <= ProvNumber(y.0) {
          assert y in multiset(rest);
        }
        ConsNumSorted(s[0], rest);
      }
    }
  }

  /** An entry numbered no higher than every entry of a sorted list may go at its head. */
  lemma ConsNumSorted(a: Item, t: seq<Item>)
    requires NumSorted(t) && forall y :: y in t ==> ProvNumber(a.0) <= ProvNumber(y.0)
    ensures NumSorted([a] + t)
  {
    var r := [a] + t;
    forall i, j | 0 <= i < j < |r| ensures ProvNumber(r[i].0) <= ProvNumber(r[j].0) {
      assert r[j] == t[j - 1];
      if i > 0 {
        assert r[i] == t[i - 1];
      }
    }
  }

  lemma {:induction false} WithNumberConcat(a: seq<Item>, b: seq<Item>, n: nat)
    decreases a
    ensures WithNumber(a + b, n) == WithNumber(a, n) + WithNumber(b, n)
  {
    if a == [] {
      assert a + b == b;
    } else {
      var ab := a + b;
      assert ab != [] && ab[0] == a[0] && ab[1..] == a[1..] + b;
      var h := if ProvNumber(a[0].0) == n then [a[0]] else [];
      assert WithNumber(ab, n) == h + WithNumber(a[1..] + b, n);
      WithNumberConcat(a[1..], b, n);
      ConcatAssoc(h, WithNumber(a[1..], n), WithNumber(b, n));
    }
  }

  lemma {:induction false} WithNumberAbove(s: seq<Item>, n: nat)
    decreases s
    requires forall i :: 0 <= i < |s| ==> n < ProvNumber(s[i].0)
    ensures WithNumber(s, n) == []
  {
    if s != [] {
      WithNumberAbove(s[1..], n);
    }
  }

  lemma NumSortedTail(s: seq<Item>)
    requires NumSorted(s) && s != []
    ensures NumSorted(s[1..])
    ensures forall i :: 0 <= i < |s| ==> ProvNumber(s[0].0) <= ProvNumber(s[i].0)
    ensures forall y :: y in s ==> ProvNumber(s[0].0) <= ProvNumber(y.0)
  {
    assert forall i :: 0 <= i < |s[1..]| ==> s[1..][i] == s[i + 1];
  }

  lemma {:induction false} InsertStableKeepsOrder(s: seq<Item>, x: Item, n: nat)
    decreases s
    requires NumSorted(s)
    ensures WithNumber(InsertStable(s, x), n) == WithNumber(s, n) + WithNumber([x], n)
  {
    if s == [] {
    } else {
      NumSortedTail(s);
      var h := WithNumber([s[0]], n);
      assert s == [s[0]] + s[1..];
      WithNumberConcat([s[0]], s[1..], n);
      if ProvNumber(x.0) < ProvNumber(s[0].0) {
        WithNumberConcat([x], s, n);
        if ProvNumber(x.0) == n {
          WithNumberAbove(s, n);
        }
      } else {
        InsertStableKeepsOrder(s[1..], x, n);
        WithNumberConcat([s[0]], InsertStable(s[1..], x), n);
        ConcatAssoc(h, WithNumber(s[1..], n), WithNumber([x], n));
      }
    }
  }

  /**
   * The sort is ordered by province number, a permutation of its input, and
   * stable: the entries with any given number keep their relative order.
   */
  lemma {:induction false} SortOtherSpec(s: seq<Item>)
    decreases |s|
    ensures NumSorted(SortOther(s))
    ensures multiset(SortOther(s)) == multiset(s)
    ensures forall n: nat :: WithNumber(SortOther(s), n) == WithNumber(s, n)
  {
    if s != [] {
      var init := s[..|s| - 1];
      var x := s[|s| - 1];
      SortOtherSpec(init);
      InsertStableSorted(SortOther(init), x);
      SortOtherStep(init, x, SortOther(init));
      assert s == init + [x];
      assert SortOther(s) == InsertStable(SortOther(init), x);
    }
  }

  /** Inserting one more entry into a stable sort of init gives a stable sort of init + [x]. */
  lemma SortOtherStep(init: seq<Item>, x: Item, sorted: seq<Item>)
    requires NumSorted(sorted) && forall n: nat :: WithNumber(sorted, n) == WithNumber(init, n)
    ensures forall n: nat :: WithNumber(InsertStable(sorted, x), n) == WithNumber(init + [x], n)
  {
    forall n: nat ensures WithNumber(InsertStable(sorted, x), n) == WithNumber(init + [x], n) {
      InsertStableKeepsOrder(sorted, x, n);
      WithNumberConcat(init, [x], n);
    }
  }

  /**
   * The merge and sort of main: every previous title is merged into the
   * current one of that name (which must exist: the original raises a
   * KeyError otherwise), every title's items are sorted by attrs_sort_key,
   * and the merged province entries are sorted stably by number (every key
   * must carry a number after its prefix: `int()` raises otherwise).
   */
  method MergeAndSort(attrs: map<string, Attrs>, prev: map<string, Attrs>, other: seq<Item>, prevOther: seq<Item>,
                      ltKeys: set<string>, cultures: set<string>)
    returns (titles: map<string, seq<Item>>, others: seq<Item>)
    requires prev.Keys <= attrs.Keys
    requires forall i :: 0 <= i < |prevOther| ==> Numbered(prevOther[i].0)
    requires forall i :: 0 <= i < |other| ==> Numbered(other[i].0)
    ensures titles.Keys == attrs.Keys
    ensures forall t :: t in attrs ==>
      SortedBy(titles[t], t, ltKeys, cultures) && ItemsOf(titles[t], MergeAll(attrs, prev)[t])
    ensures NumSorted(others) && multiset(others) == multiset(MergeOther(prevOther, other))
    ensures forall n: nat :: WithNumber(others, n) == WithNumber(MergeOther(prevOther, other), n)
  {
    var merged := MergeAll(attrs, prev);
    titles := SortTitles(merged, ltKeys, cultures);
    others := SortOther(MergeOther(prevOther, other));
    SortOtherSpec(MergeOther(prevOther, other));
  }

  lemma ProvNumberExample()
    ensures ProvNumber("PROV10") == 10 && ProvNumber("PROV9") == 9
  {
    assert "PROV10"[4..] == "10" && "PROV9"[4..] == "9";
    assert "10"[..1] == "1" && "1"[..0] == "" && "9"[..0] == "";
    assert DigitsValue("1") == 1;
  }

  /** Province numbers compare as integers: PROV9 comes before PROV10. */
  lemma SortOtherExample()
    ensures SortOther([("PROV10", "a"), ("PROV9", "b")]) == [("PROV9", "b"), ("PROV10", "a")]
  {
    var a, b := ("PROV10", "a"), ("PROV9", "b");
    ProvNumberExample();
    assert [a, b][..1] == [a];
    assert [a][..0] == [];
    assert SortOther([a]) == [a];
    assert InsertStable([a], b) == [b, a];
  }
}
