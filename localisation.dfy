/**
 * Localisation routing: the localisation rows (key, value), in the order the
 * files are read, are folded with a set of keys already seen, so that only
 * the first row for a key has any effect. A title key (`e_`, `k_`, `d_`,
 * `c_` or `b_` prefix) is stored in the attributes of its base title (the key
 * with an `_adj` tail stripped), a `PROV<n>` key in the attributes of the
 * title the province maps to or, for an unmapped province, in the list of
 * other province localisations; every other key is dropped. A row whose
 * target title has no attributes is dropped as well, so the set of titles
 * never changes.
 */
module Localisation {
  import opened Common
  import opened LandedTitles

  type Row = (string, string)

  predicate NoNewline(s: string) {
    forall i :: 0 <= i < |s| ==> s[i] != '\n'
  }

  /** `re.match('[ekdcb]_', key)`. */
  predicate IsTitleKey(key: string) {
    |key| >= 2 && key[0] in "ekdcb" && key[1] == '_'
  }

  /** `re.match('PROV\d+', key)`: the prefix PROV, then at least one digit. */
  predicate IsProvKey(key: string) {
    |key| >= 5 && key[..4] == "PROV" && IsDigit(key[4])
  }

  /**
   * `(.+)_adj(_|$)` matches from the start with `(.+)` ending at i: a non-empty,
   * newline-free head, then `_adj`, then an underscore, the end, or a final newline.
   */
  predicate AdjAt(key: string, i: int) {
    && 1 <= i && i + 4 <= |key|
    && NoNewline(key[..i])
    && key[i..i + 4] == "_adj"
    && (i + 4 == |key| || key[i + 4] == '_' || (i + 5 == |key| && key[i + 4] == '\n'))
  }

  /** The largest i <= hi where the adjective pattern can end its group 1: the greedy choice. */
  function LastAdj(key: string, hi: int): (r: Option<int>)
    decreases hi
    ensures r.Some? ==> r.value <= hi && AdjAt(key, r.value) && forall j :: r.value < j <= hi ==> !AdjAt(key, j)
    ensures r.None? ==> forall j :: j <= hi ==> !AdjAt(key, j)
  {
    if hi < 1 then None
    else if AdjAt(key, hi) then Some(hi)
    else LastAdj(key, hi - 1)
  }

  /** The title a title key belongs to: the greedy group 1 of the adjective pattern, or the key itself. */
  function AdjBase(key: string): (r: string)
    ensures (forall i :: !AdjAt(key, i)) ==> r == key
    ensures (exists i :: AdjAt(key, i)) ==>
      exists i :: AdjAt(key, i) && r == key[..i] && forall j :: i < j ==> !AdjAt(key, j)
  {
    match LastAdj(key, |key| - 4)
    case None => key
    case Some(i) => key[..i]
  }

  lemma AdjSuffixStripped(x: string)
    requires |x| >= 1 && NoNewline(x)
    ensures AdjBase(x + "_adj") == x
  {
    var key := x + "_adj";
    assert key[..|x|] == x;
    assert key[|x|..|x| + 4] == "_adj";
    assert AdjAt(key, |x|);
  }

  /** A culture variant's adjective belongs to the title itself. */
  lemma AdjBaseCultureExample()
    ensures AdjBase("k_test_adj_norse") == "k_test"
  {
    var key := "k_test_adj_norse";
    assert key[6..10] == "_adj" && key[10] == '_';
    assert AdjAt(key, 6);
    assert LastAdj(key, 12) == Some(6) by {
      forall i | 7 <= i <= 12 ensures !AdjAt(key, i) {
        assert key[i..i + 4][1] == key[i + 1] != 'a';
      }
    }
  }

  /** Where a row's key is routed. */
  datatype Route = ToTitle(title: string) | ToOther | Drop

  function RouteOf(key: string, provTitle: map<string, string>): (r: Route)
    ensures r.ToOther? <==> !IsTitleKey(key) && IsProvKey(key) && key !in provTitle
    ensures r.Drop? <==> !IsTitleKey(key) && !IsProvKey(key)
    ensures IsTitleKey(key) ==> r == ToTitle(AdjBase(key))
    ensures !IsTitleKey(key) && IsProvKey(key) && key in provTitle ==> r == ToTitle(provTitle[key])
  {
    if IsTitleKey(key) then ToTitle(AdjBase(key))
    else if IsProvKey(key) then
      if key in provTitle then ToTitle(provTitle[key]) else ToOther
    else Drop
  }

  /** A PROV key whose province maps to a title goes to that title. */
  lemma RouteMappedProvExample()
    ensures RouteOf("PROV12", map["PROV12" := "c_test"]) == ToTitle("c_test")
  {
    assert "PROV12"[..4] == "PROV";
  }

  /** A PROV key of an unmapped province goes to the other entries. */
  lemma RouteUnmappedProvExample()
    ensures RouteOf("PROV12", map[]) == ToOther
  {
    assert "PROV12"[..4] == "PROV";
  }

  /** PROV followed by a non-digit is no province key, and is dropped. */
  lemma RouteDropExample()
    ensures RouteOf("PROVINCE", map[]) == Drop
  {
    assert "PROVINCE"[4] == 'I';
  }

  /** A title's adjective key goes to the title itself. */
  lemma RouteAdjExample()
    ensures RouteOf("k_test_adj", map[]) == ToTitle("k_test")
  {
    assert "k_test_adj" == "k_test" + "_adj";
    AdjSuffixStripped("k_test");
  }

  /** The fold's state: the title attributes, the other province entries in insertion order, the keys seen. */
  datatype Loc = Loc(attrs: map<string, Attrs>, other: seq<Row>, seen: set<string>)

  function Route1(acc: Loc, row: Row, provTitle: map<string, string>): Loc {
    var (key, value) := row;
    if key in acc.seen then acc
    else
      var acc' := acc.(seen := acc.seen + {key});
      match RouteOf(key, provTitle)
      case ToTitle(t) =>
        if t in acc'.attrs then acc'.(attrs := acc'.attrs[t := acc'.attrs[t][key := value]]) else acc'
      case ToOther => acc'.(other := acc'.other + [row])
      case Drop => acc'
  }

  function LocFrom(acc: Loc, rows: seq<Row>, provTitle: map<string, string>): Loc
    decreases rows
  {
    if rows == [] then acc else LocFrom(Route1(acc, rows[0], provTitle), rows[1..], provTitle)
  }

  function Localise(attrs: map<string, Attrs>, rows: seq<Row>, provTitle: map<string, string>): Loc {
    LocFrom(Loc(attrs, [], {}), rows, provTitle)
  }

  /** The value of the first row with key k, if any. */
  function FirstValue(rows: seq<Row>, k: string): (r: Option<string>)
    ensures r.None? <==> forall i :: 0 <= i < |rows| ==> rows[i].0 != k
    ensures r.Some? ==> exists i :: 0 <= i < |rows| && rows[i] == (k, r.value) && forall j :: 0 <= j < i ==> rows[j].0 != k
  {
    if rows == [] then None
    else if rows[0].0 == k then Some(rows[0].1)
    else
      var r := FirstValue(rows[1..], k);
      assert forall i :: 0 < i < |rows| ==> rows[i] == rows[1..][i - 1];
      if r.Some? then
        var i :| 0 <= i < |rows[1..]| && rows[1..][i] == (k, r.value) && forall j :: 0 <= j < i ==> rows[1..][j].0 != k;
        assert rows[i + 1] == (k, r.value);
        r
      else r
  }

  /** The titles never change, and neither do the keys seen before. */
  lemma {:induction false} LocFromTitles(acc: Loc, rows: seq<Row>, provTitle: map<string, string>)
    decreases rows
    ensures LocFrom(acc, rows, provTitle).attrs.Keys == acc.attrs.Keys
    ensures acc.seen <= LocFrom(acc, rows, provTitle).seen
  {
    if rows != [] {
      LocFromTitles(Route1(acc, rows[0], provTitle), rows[1..], provTitle);
    }
  }

  /** Row key k is written into title t's attributes from these rows. */
  predicate Writes(acc: Loc, rows: seq<Row>, provTitle: map<string, string>, t: string, k: string) {
    k !in acc.seen && FirstValue(rows, k).Some? && RouteOf(k, provTitle) == ToTitle(t)
  }

  lemma {:induction false} LocFromEntry(acc: Loc, rows: seq<Row>, provTitle: map<string, string>, t: string, k: string)
    decreases rows
    requires t in acc.attrs
    ensures t in LocFrom(acc, rows, provTitle).attrs
    ensures var a := LocFrom(acc, rows, provTitle).attrs[t];
      if Writes(acc, rows, provTitle, t, k) then k in a && a[k] == FirstValue(rows, k).value
      else (k in a <==> k in acc.attrs[t]) && (k in acc.attrs[t] ==> a[k] == acc.attrs[t][k])
  {
    LocFromTitles(acc, rows, provTitle);
    if rows != [] {
      var acc' := Route1(acc, rows[0], provTitle);
      LocFromEntry(acc', rows[1..], provTitle, t, k);
      if rows[0].0 == k && k !in acc.seen {
        assert k in acc'.seen;
        assert !Writes(acc', rows[1..], provTitle, t, k);
      }
    }
  }

  /** The other province entries are appended, keys never repeat, and the keys listed were seen. */
  predicate OtherFresh(acc: Loc) {
    && (forall i :: 0 <= i < |acc.other| ==> acc.other[i].0 in acc.seen)
    && (forall i, j :: 0 <= i < j < |acc.other| ==> acc.other[i].0 != acc.other[j].0)
  }

  /** One row appends to the other province entries exactly when its key is new and an unmapped PROV key. */
  lemma Route1Other(acc: Loc, row: Row, provTitle: map<string, string>)
    requires OtherFresh(acc)
    ensures var a := Route1(acc, row, provTitle);
      && OtherFresh(a)
      && a.seen == acc.seen + {row.0}
      && a.other == acc.other + (if row.0 !in acc.seen && RouteOf(row.0, provTitle) == ToOther then [row] else [])
  {
  }

  lemma SplitRows(a: seq<Row>, b: seq<Row>)
    ensures (a + b)[..|a|] == a && (a + b)[|a|..] == b
  {
  }

  /** When p is a prefix of s, s splits at n <= |p| into p's halves and the rest. */
  lemma Prefixed(s: seq<Row>, p: seq<Row>, n: int)
    requires 0 <= n <= |p| <= |s| && s[..|p|] == p
    ensures s[..n] == p[..n] && s[n..] == p[n..] + s[|p|..]
  {
    assert s[n..] == s[n..|p|] + s[|p|..];
  }

  lemma {:induction false} LocFromOther(acc: Loc, rows: seq<Row>, provTitle: map<string, string>)
    decreases rows
    requires OtherFresh(acc)
    ensures var r := LocFrom(acc, rows, provTitle);
      && OtherFresh(r)
      && |acc.other| <= |r.other| && r.other[..|acc.other|] == acc.other
      && forall k, v :: (k, v) in r.other[|acc.other|..] <==>
           k !in acc.seen && FirstValue(rows, k) == Some(v) && RouteOf(k, provTitle) == ToOther
  {
    if rows != [] {
      var acc' := Route1(acc, rows[0], provTitle);
      Route1Other(acc, rows[0], provTitle);
      LocFromOther(acc', rows[1..], provTitle);
      var r := LocFrom(acc, rows, provTitle);
      var n := |acc.other|;
      var added := acc'.other[n..];
      var tail := r.other[|acc'.other|..];
      SplitRows(acc.other, added);
      SplitRows(acc'.other[..n], added);
      Prefixed(r.other, acc'.other, n);
      forall k, v ensures (k, v) in r.other[n..] <==>
          k !in acc.seen && FirstValue(rows, k) == Some(v) && RouteOf(k, provTitle) == ToOther
      {
        assert (k, v) in r.other[n..] <==> (k, v) in added || (k, v) in tail;
        if (k, v) in tail {
          assert k !in acc'.seen;
        }
      }
    }
  }

  /** The entries a fold appends after acc's are rows of its input whose keys acc had not seen. */
  lemma OtherTailFresh(acc: Loc, rows: seq<Row>, provTitle: map<string, string>, x: Row)
    requires OtherFresh(acc) && x.0 in acc.seen
    ensures var r := LocFrom(acc, rows, provTitle);
      && |acc.other| <= |r.other| && r.other[..|acc.other|] == acc.other
      && forall q :: |acc.other| <= q < |r.other| ==> r.other[q] in rows && r.other[q] != x
  {
    LocFromOther(acc, rows, provTitle);
    var r := LocFrom(acc, rows, provTitle);
    var n := |acc.other|;
    forall q | n <= q < |r.other| ensures r.other[q] in rows && r.other[q] != x {
      var (k, v) := r.other[q];
      assert r.other[n..][q - n] == (k, v);
      var i :| 0 <= i < |rows| && rows[i] == (k, v) && forall j :: 0 <= j < i ==> rows[j].0 != k;
    }
  }

  /** One fold step keeps the appended entries in row order: the row's own entry, if any, comes first. */
  lemma OtherOrderStep(row: Row, rows: seq<Row>, before: seq<Row>, mid: seq<Row>, full: seq<Row>)
    requires |before| <= |mid| <= |full| && full[..|mid|] == mid
    requires mid[|before|..] == [] || mid[|before|..] == [row]
    requires InOrderOf(full[|mid|..], rows)
    requires forall q :: |mid| <= q < |full| ==> full[q] in rows && full[q] != row
    ensures InOrderOf(full[|before|..], [row] + rows)
  {
    var added := mid[|before|..];
    var rest := full[|mid|..];
    forall q | 0 <= q < |rest| ensures rest[q] in rows && rest[q] != row {
      assert rest[q] == full[q + |mid|];
    }
    InOrderOfCons(row, rows, added, rest);
    Prefixed(full, mid, |before|);
  }

  /** The entries a fold appends come in the order of their rows. */
  lemma {:induction false} LocFromOtherOrder(acc: Loc, rows: seq<Row>, provTitle: map<string, string>)
    decreases rows
    requires OtherFresh(acc)
    ensures var r := LocFrom(acc, rows, provTitle);
      |acc.other| <= |r.other| && InOrderOf(r.other[|acc.other|..], rows)
  {
    if rows == [] {
      assert acc.other[|acc.other|..] == [];
    } else {
      var acc' := Route1(acc, rows[0], provTitle);
      Route1Other(acc, rows[0], provTitle);
      LocFromOtherOrder(acc', rows[1..], provTitle);
      OtherTailFresh(acc', rows[1..], provTitle, rows[0]);
      var r := LocFrom(acc', rows[1..], provTitle);
      assert LocFrom(acc, rows, provTitle) == r;
      var added := if rows[0].0 !in acc.seen && RouteOf(rows[0].0, provTitle) == ToOther then [rows[0]] else [];
      SplitRows(acc.other, added);
      OtherOrderStep(rows[0], rows[1..], acc.other, acc'.other, r.other);
      assert rows == [rows[0]] + rows[1..];
    }
  }

  /** The other-entries half of the routing. */
  lemma LocaliseOther(attrs: map<string, Attrs>, rows: seq<Row>, provTitle: map<string, string>)
    ensures var r := Localise(attrs, rows, provTitle);
      && (forall k, v :: (k, v) in r.other <==> FirstValue(rows, k) == Some(v) && RouteOf(k, provTitle) == ToOther)
      && (forall i, j :: 0 <= i < j < |r.other| ==> r.other[i].0 != r.other[j].0)
      && InOrderOf(r.other, rows)
  {
    var acc := Loc(attrs, [], {});
    LocFromOther(acc, rows, provTitle);
    LocFromOtherOrder(acc, rows, provTitle);
    var r := Localise(attrs, rows, provTitle);
    assert r.other[0..] == r.other;
  }

  /**
   * The whole of the routing: the set of titles is unchanged; an attribute
   * entry is written exactly for the keys whose first row routes to that title,
   * with that row's value, and is otherwise left as it was; the other province
   * entries are exactly the first rows of the unmapped PROV keys, each key
   * once, in the order of the rows.
   */
  lemma LocaliseSpec(attrs: map<string, Attrs>, rows: seq<Row>, provTitle: map<string, string>)
    ensures var r := Localise(attrs, rows, provTitle);
      && r.attrs.Keys == attrs.Keys
      && (forall t, k | t in attrs ::
            if FirstValue(rows, k).Some? && RouteOf(k, provTitle) == ToTitle(t)
            then k in r.attrs[t] && r.attrs[t][k] == FirstValue(rows, k).value
            else (k in r.attrs[t] <==> k in attrs[t]) && (k in attrs[t] ==> r.attrs[t][k] == attrs[t][k]))
    ensures var r := Localise(attrs, rows, provTitle);
      && (forall k, v :: (k, v) in r.other <==> FirstValue(rows, k) == Some(v) && RouteOf(k, provTitle) == ToOther)
      && (forall i, j :: 0 <= i < j < |r.other| ==> r.other[i].0 != r.other[j].0)
      && InOrderOf(r.other, rows)
  {
    var acc := Loc(attrs, [], {});
    LocFromTitles(acc, rows, provTitle);
    var r := Localise(attrs, rows, provTitle);
    forall t, k | t in attrs
      ensures if FirstValue(rows, k).Some? && RouteOf(k, provTitle) == ToTitle(t)
            then k in r.attrs[t] && r.attrs[t][k] == FirstValue(rows, k).value
            else (k in r.attrs[t] <==> k in attrs[t]) && (k in attrs[t] ==> r.attrs[t][k] == attrs[t][k])
    {
      LocFromEntry(acc, rows, provTitle, t, k);
    }
    LocaliseOther(attrs, rows, provTitle);
  }

  lemma {:induction false} SkipSeen(acc: Loc, rows: seq<Row>, provTitle: map<string, string>, i: int)
    decreases rows
    requires 0 <= i < |rows|
    requires rows[i].0 in acc.seen || exists j :: 0 <= j < i && rows[j].0 == rows[i].0
    ensures LocFrom(acc, rows, provTitle) == LocFrom(acc, rows[..i] + rows[i + 1..], provTitle)
  {
    var acc' := Route1(acc, rows[0], provTitle);
    var rest := rows[..i] + rows[i + 1..];
    if i == 0 {
      assert acc' == acc;
      assert rest == rows[1..];
    } else {
      SkipSeenShift(acc, rows, provTitle, i);
      SkipSeen(acc', rows[1..], provTitle, i - 1);
      assert rest[0] == rows[0];
      assert rest[1..] == rows[1..][..i - 1] + rows[1..][i..];
    }
  }

  /** A key seen before row i is still seen before it once the first row is consumed. */
  lemma SkipSeenShift(acc: Loc, rows: seq<Row>, provTitle: map<string, string>, i: int)
    requires 0 < i < |rows|
    requires rows[i].0 in acc.seen || exists j :: 0 <= j < i && rows[j].0 == rows[i].0
    ensures var acc' := Route1(acc, rows[0], provTitle);
      rows[1..][i - 1].0 in acc'.seen || exists j :: 0 <= j < i - 1 && rows[1..][j].0 == rows[1..][i - 1].0
  {
    var acc' := Route1(acc, rows[0], provTitle);
    assert acc'.seen == acc.seen + {rows[0].0};
    assert rows[1..][i - 1] == rows[i];
    if rows[i].0 !in acc.seen {
      var j :| 0 <= j < i && rows[j].0 == rows[i].0;
      if j > 0 {
        assert rows[1..][j - 1] == rows[j];
      }
    }
  }

  /** A row whose key appeared in an earlier row has no effect at all. */
  lemma DuplicateRowIgnored(attrs: map<string, Attrs>, rows: seq<Row>, provTitle: map<string, string>, j: int, i: int)
    requires 0 <= j < i < |rows| && rows[j].0 == rows[i].0
    ensures Localise(attrs, rows, provTitle) == Localise(attrs, rows[..i] + rows[i + 1..], provTitle)
  {
    SkipSeen(Loc(attrs, [], {}), rows, provTitle, i);
  }

  /** process_localisation over the title dictionaries of the walk, which it updates in place. */
  method ProcessLocalisation(titles: Titles, rows: seq<Row>, provTitle: map<string, string>) returns (other: seq<Row>)
    modifies titles`attrs
    ensures titles.attrs == Localise(old(titles.attrs), rows, provTitle).attrs
    ensures other == Localise(old(titles.attrs), rows, provTitle).other
  {
    other := [];
    var seen: set<string> := {};
    var i := 0;
    while i < |rows|
      invariant 0 <= i <= |rows|
      invariant Localise(old(titles.attrs), rows, provTitle) == LocFrom(Loc(titles.attrs, other, seen), rows[i..], provTitle)
    {
      assert rows[i..][1..] == rows[i + 1..];
      var (key, value) := rows[i];
      if key !in seen {
        seen := seen + {key};
        var route := RouteOf(key, provTitle);
        if route.ToTitle? {
          if route.title in titles.attrs {
            titles.attrs := titles.attrs[route.title := titles.attrs[route.title][key := value]];
          }
        } else if route.ToOther? {
          other := other + [(key, value)];
        }
      }
      i := i + 1;
    }
  }
}
