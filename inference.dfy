/**
 * Region inference over the vassal relation.
 *
 * `title_region` maps a title to an optional region: a duchy that was never
 * seeded pushes "no region" down to its vassals, and that entry, once made,
 * blocks every later assignment just like a real region does.
 *
 * Fill is the no-overwrite downward fill (`rerecurse`); DuchyStep and
 * TopTierStep are what is done to a duchy, and to a kingdom or empire,
 * once all of its descendants have been walked.
 */
module Inference {
  import opened Common

  type Regions = map<string, Option<string>>
  type Vassals = map<string, seq<string>>

  /** title_vassals[t], where a title never seen as a liege has no vassals. */
  function Get(V: Vassals, t: string): seq<string> {
    if t in V then V[t] else []
  }

  /** title_region.get(t): None when t is unmapped or mapped to no region. */
  function RegionOf(reg: Regions, t: string): Option<string> {
    if t in reg then reg[t] else None
  }

  lemma {:induction false} SubsetCard<T>(X: set<T>, Y: set<T>)
    requires X <= Y
    ensures |X| <= |Y|
    decreases X
  {
    if X != {} {
      var x :| x in X;
      SubsetCard(X - {x}, Y - {x});
    }
  }

  lemma CardShrink(S: set<string>, A: set<string>, B: set<string>, t: string)
    requires A <= B && t in S && t !in A && t in B
    ensures |S - B| < |S - A|
  {
    SubsetCard(S - B, (S - A) - {t});
  }

  lemma CardMono(S: set<string>, A: set<string>, B: set<string>)
    requires A <= B
    ensures |S - B| <= |S - A|
  {
    SubsetCard(S - B, S - A);
  }

  // ---------------------------------------------------------------------
  // The downward fill
  // ---------------------------------------------------------------------

  /**
   * rerecurse(t, r): an unmapped title gets r, and so does every vassal
   * subtree below it, stopping at titles already mapped. Every step either
   * stops or maps one more title that has vassals, which bounds the recursion
   * by the number of unmapped lieges.
   */
  function Fill(reg: Regions, V: Vassals, t: string, r: Option<string>): (R: Regions)
    decreases |V.Keys - reg.Keys|, 0, 0
    ensures forall k :: k in reg ==> k in R && R[k] == reg[k]
  {
    if t in reg then reg
    else if t !in V then reg[t := r]
    else
      CardShrink(V.Keys, reg.Keys, reg[t := r].Keys, t);
      FillAll(reg[t := r], V, V[t], r)
  }

  /** `for vassal in ts: rerecurse(vassal, r)`. */
  function FillAll(reg: Regions, V: Vassals, ts: seq<string>, r: Option<string>): (R: Regions)
    decreases |V.Keys - reg.Keys|, 1, |ts|
    ensures forall k :: k in reg ==> k in R && R[k] == reg[k]
  {
    if ts == [] then reg
    else
      var reg1 := Fill(reg, V, ts[0], r);
      CardMono(V.Keys, reg.Keys, reg1.Keys);
      FillAll(reg1, V, ts[1..], r)
  }

  /** A chain of vassal edges t = p[0] -> p[1] -> ... through titles unmapped in reg. */
  ghost predicate IsPath(reg: Regions, V: Vassals, p: seq<string>) {
    && |p| > 0
    && (forall i :: 0 <= i < |p| ==> p[i] !in reg)
    && (forall i :: 0 <= i < |p| - 1 ==> p[i + 1] in Get(V, p[i]))
  }

  ghost predicate Reaches(reg: Regions, V: Vassals, t: string, x: string) {
    exists p :: IsPath(reg, V, p) && p[0] == t && p[|p| - 1] == x
  }

  ghost predicate ReachesFromSome(reg: Regions, V: Vassals, ts: seq<string>, x: string) {
    exists i :: 0 <= i < |ts| && Reaches(reg, V, ts[i], x)
  }

  /** Every vassal of a title that R maps but reg does not is mapped by R. */
  ghost predicate Closed(reg: Regions, R: Regions, V: Vassals) {
    forall x, i :: x in R && x !in reg && 0 <= i < |Get(V, x)| ==> Get(V, x)[i] in R
  }

  lemma ReachesMono(reg: Regions, reg': Regions, V: Vassals, t: string, x: string)
    requires reg.Keys <= reg'.Keys && Reaches(reg', V, t, x)
    ensures Reaches(reg, V, t, x)
  {
    var p :| IsPath(reg', V, p) && p[0] == t && p[|p| - 1] == x;
    assert IsPath(reg, V, p);
  }

  lemma ReachesSelf(reg: Regions, V: Vassals, t: string)
    requires t !in reg
    ensures Reaches(reg, V, t, t)
  {
    assert IsPath(reg, V, [t]);
  }

  /** A path may be extended at its head by an unmapped liege of its first title. */
  lemma ReachesCons(reg: Regions, reg': Regions, V: Vassals, t: string, i: int, x: string)
    requires reg.Keys <= reg'.Keys && t !in reg
    requires 0 <= i < |Get(V, t)| && Reaches(reg', V, Get(V, t)[i], x)
    ensures Reaches(reg, V, t, x)
  {
    var p :| IsPath(reg', V, p) && p[0] == Get(V, t)[i] && p[|p| - 1] == x;
    var q := [t] + p;
    assert forall j :: 0 < j < |q| ==> q[j] == p[j - 1];
    assert IsPath(reg, V, q);
  }

  lemma ReachesFromHead(reg: Regions, V: Vassals, ts: seq<string>, x: string)
    requires ts != [] && Reaches(reg, V, ts[0], x)
    ensures ReachesFromSome(reg, V, ts, x)
  {
  }

  lemma ReachesFromTail(reg: Regions, reg1: Regions, V: Vassals, ts: seq<string>, x: string)
    requires ts != [] && reg.Keys <= reg1.Keys && ReachesFromSome(reg1, V, ts[1..], x)
    ensures ReachesFromSome(reg, V, ts, x)
  {
    var i :| 0 <= i < |ts[1..]| && Reaches(reg1, V, ts[1..][i], x);
    assert ts[1..][i] == ts[i + 1];
    ReachesMono(reg, reg1, V, ts[i + 1], x);
  }

  lemma {:induction false} FillSound(reg: Regions, V: Vassals, t: string, r: Option<string>)
    decreases |V.Keys - reg.Keys|, 0, 0
    ensures var R := Fill(reg, V, t, r);
      forall x :: x in R && x !in reg ==> R[x] == r && Reaches(reg, V, t, x)
  {
    var R := Fill(reg, V, t, r);
    if t !in reg {
      ReachesSelf(reg, V, t);
      if t in V {
        var reg' := reg[t := r];
        CardShrink(V.Keys, reg.Keys, reg'.Keys, t);
        FillAllSound(reg', V, V[t], r);
        forall x | x in R && x !in reg
          ensures R[x] == r && Reaches(reg, V, t, x)
        {
          if x != t {
            var i :| 0 <= i < |V[t]| && Reaches(reg', V, V[t][i], x);
            ReachesCons(reg, reg', V, t, i, x);
          }
        }
      }
    }
  }

  lemma {:induction false} FillAllSound(reg: Regions, V: Vassals, ts: seq<string>, r: Option<string>)
    decreases |V.Keys - reg.Keys|, 1, |ts|
    ensures var R := FillAll(reg, V, ts, r);
      forall x :: x in R && x !in reg ==> R[x] == r && ReachesFromSome(reg, V, ts, x)
  {
    if ts != [] {
      var R := FillAll(reg, V, ts, r);
      var reg1 := Fill(reg, V, ts[0], r);
      FillSound(reg, V, ts[0], r);
      CardMono(V.Keys, reg.Keys, reg1.Keys);
      FillAllSound(reg1, V, ts[1..], r);
      forall x | x in R && x !in reg
        ensures R[x] == r && ReachesFromSome(reg, V, ts, x)
      {
        if x in reg1 {
          ReachesFromHead(reg, V, ts, x);
        } else {
          ReachesFromTail(reg, reg1, V, ts, x);
        }
      }
    }
  }

  lemma {:induction false} FillClosed(reg: Regions, V: Vassals, t: string, r: Option<string>)
    decreases |V.Keys - reg.Keys|, 0, 0
    ensures t in Fill(reg, V, t, r) && Closed(reg, Fill(reg, V, t, r), V)
  {
    if t !in reg && t in V {
      var reg' := reg[t := r];
      CardShrink(V.Keys, reg.Keys, reg'.Keys, t);
      FillAllClosed(reg', V, V[t], r);
    }
  }

  lemma {:induction false} FillAllClosed(reg: Regions, V: Vassals, ts: seq<string>, r: Option<string>)
    decreases |V.Keys - reg.Keys|, 1, |ts|
    ensures var R := FillAll(reg, V, ts, r);
      (forall i :: 0 <= i < |ts| ==> ts[i] in R) && Closed(reg, R, V)
  {
    if ts != [] {
      var R := FillAll(reg, V, ts, r);
      var reg1 := Fill(reg, V, ts[0], r);
      FillClosed(reg, V, ts[0], r);
      CardMono(V.Keys, reg.Keys, reg1.Keys);
      FillAllClosed(reg1, V, ts[1..], r);
      assert R == FillAll(reg1, V, ts[1..], r);
      FillAllClosedStep(reg, reg1, R, V, ts);
    }
  }

  /** The two fills of one pass of the vassal loop compose. */
  lemma FillAllClosedStep(reg: Regions, reg1: Regions, R: Regions, V: Vassals, ts: seq<string>)
    requires ts != [] && ts[0] in reg1 && reg1.Keys <= R.Keys
    requires Closed(reg, reg1, V) && Closed(reg1, R, V)
    requires forall i :: 0 <= i < |ts[1..]| ==> ts[1..][i] in R
    ensures (forall i :: 0 <= i < |ts| ==> ts[i] in R) && Closed(reg, R, V)
  {
    ClosedTrans(reg, reg1, R, V);
    forall i | 0 <= i < |ts| ensures ts[i] in R {
      if i > 0 {
        assert ts[i] == ts[1..][i - 1];
      }
    }
  }

  lemma {:induction false} PathInClosed(reg: Regions, R: Regions, V: Vassals, p: seq<string>)
    requires Closed(reg, R, V) && IsPath(reg, V, p) && p[0] in R
    ensures p[|p| - 1] in R
    decreases |p|
  {
    if |p| > 1 {
      assert p[1] in Get(V, p[0]);
      var i :| 0 <= i < |Get(V, p[0])| && Get(V, p[0])[i] == p[1];
      assert p[1] in R;
      assert IsPath(reg, V, p[1..]);
      PathInClosed(reg, R, V, p[1..]);
    }
  }

  /** In a closed map, whatever is reachable from a mapped title is mapped. */
  lemma ReachedIsMapped(reg: Regions, R: Regions, V: Vassals, t: string, x: string)
    requires Closed(reg, R, V) && t in R && Reaches(reg, V, t, x)
    ensures x in R && x !in reg
  {
    var p :| IsPath(reg, V, p) && p[0] == t && p[|p| - 1] == x;
    PathInClosed(reg, R, V, p);
  }

  /** Closedness composes along two successive fills. */
  lemma ClosedTrans(reg: Regions, reg1: Regions, R: Regions, V: Vassals)
    requires reg1.Keys <= R.Keys && Closed(reg, reg1, V) && Closed(reg1, R, V)
    ensures Closed(reg, R, V)
  {
    forall x, i | x in R && x !in reg && 0 <= i < |Get(V, x)|
      ensures Get(V, x)[i] in R
    {
      if x in reg1 {
        assert Get(V, x)[i] in reg1;
      }
    }
  }

  /**
   * What rerecurse(t, r) does, exactly: nothing already mapped changes (so a
   * mapped t leaves the map as it is); the titles it adds are exactly those
   * reachable from t along vassal edges through titles unmapped at the time
   * of the call; and it maps all of them to r.
   */
  lemma RerecurseSpec(reg: Regions, V: Vassals, t: string, r: Option<string>)
    ensures var R := Fill(reg, V, t, r);
      && (forall k :: k in reg ==> k in R && R[k] == reg[k])
      && (t in reg ==> R == reg)
      && (forall x :: x in R && x !in reg <==> Reaches(reg, V, t, x))
      && (forall x :: x in R && x !in reg ==> R[x] == r)
  {
    var R := Fill(reg, V, t, r);
    FillSound(reg, V, t, r);
    FillClosed(reg, V, t, r);
    forall x | Reaches(reg, V, t, x)
      ensures x in R && x !in reg
    {
      ReachedIsMapped(reg, R, V, t, x);
    }
  }

  /** The loop over a liege's vassals: the same, for titles reachable from any of them. */
  lemma FillAllSpec(reg: Regions, V: Vassals, ts: seq<string>, r: Option<string>)
    ensures var R := FillAll(reg, V, ts, r);
      && (forall k :: k in reg ==> k in R && R[k] == reg[k])
      && (forall x :: x in R && x !in reg <==> ReachesFromSome(reg, V, ts, x))
      && (forall x :: x in R && x !in reg ==> R[x] == r)
  {
    var R := FillAll(reg, V, ts, r);
    FillAllSound(reg, V, ts, r);
    FillAllClosed(reg, V, ts, r);
    forall x | ReachesFromSome(reg, V, ts, x)
      ensures x in R && x !in reg
    {
      var i :| 0 <= i < |ts| && Reaches(reg, V, ts[i], x);
      ReachedIsMapped(reg, R, V, ts[i], x);
    }
  }

  // ---------------------------------------------------------------------
  // The duchy step
  // ---------------------------------------------------------------------

  /** After its subtree is walked, a duchy hands title_region.get(d) to each vassal subtree. */
  function DuchyStep(reg: Regions, V: Vassals, d: string): Regions {
    FillAll(reg, V, Get(V, d), RegionOf(reg, d))
  }

  /**
   * The duchy step changes no existing entry (the duchy's own included); it
   * adds exactly the titles reachable from its vassals through unmapped
   * titles, and gives them the duchy's entry, "no region" if it has none.
   */
  lemma DuchyStepSpec(reg: Regions, V: Vassals, d: string)
    ensures var R := DuchyStep(reg, V, d);
      && (forall k :: k in reg ==> k in R && R[k] == reg[k])
      && (d in reg ==> R[d] == reg[d])
      && (forall x :: x in R && x !in reg <==> ReachesFromSome(reg, V, Get(V, d), x))
      && (forall x :: x in R && x !in reg ==> R[x] == RegionOf(reg, d))
      && (d !in reg ==> forall x :: x in R && x !in reg ==> R[x] == None)
  {
    FillAllSpec(reg, V, Get(V, d), RegionOf(reg, d));
  }

  // ---------------------------------------------------------------------
  // The kingdom and empire vote
  // ---------------------------------------------------------------------

  /** The entries of the already mapped titles among vs, in order (the Counter's input). */
  function Known(reg: Regions, vs: seq<string>): (es: seq<Option<string>>)
    ensures forall x :: x in es <==> exists i :: 0 <= i < |vs| && vs[i] in reg && reg[vs[i]] == x
  {
    if vs == [] then []
    else
      var rest := Known(reg, vs[1..]);
      assert forall i :: 0 < i < |vs| ==> vs[i] == vs[1..][i - 1];
      if vs[0] in reg then [reg[vs[0]]] + rest else rest
  }

  /** The Counter's input is taken vassal by vassal: the entries of a + b are those of a, then those of b. */
  lemma {:induction false} KnownConcat(reg: Regions, a: seq<string>, b: seq<string>)
    decreases |a|
    ensures Known(reg, a + b) == Known(reg, a) + Known(reg, b)
    ensures Known(reg, []) == []
    ensures forall v :: Known(reg, [v]) == if v in reg then [reg[v]] else []
  {
    if a == [] {
      assert a + b == b;
    } else {
      assert (a + b)[0] == a[0] && (a + b)[1..] == a[1..] + b;
      KnownConcat(reg, a[1..], b);
    }
    forall v ensures Known(reg, [v]) == if v in reg then [reg[v]] else [] {
      assert [v][1..] == [];
    }
  }

  /** The positions of the mapped vassals among vs whose entry is x. */
  ghost function Carriers(reg: Regions, vs: seq<string>, x: Option<string>): set<int> {
    set i | 0 <= i < |vs| && vs[i] in reg && reg[vs[i]] == x
  }

  lemma CarriersLast(reg: Regions, vs: seq<string>, x: Option<string>)
    requires vs != []
    ensures var init := vs[..|vs| - 1]; var v := vs[|vs| - 1];
      Carriers(reg, vs, x) == Carriers(reg, init, x) + (if v in reg && reg[v] == x then {|init|} else {})
  {
    var init := vs[..|vs| - 1];
    var v := vs[|vs| - 1];
    forall i ensures i in Carriers(reg, vs, x) <==> i in Carriers(reg, init, x) + (if v in reg && reg[v] == x then {|init|} else {}) {
      if 0 <= i < |init| {
        assert vs[i] == init[i];
      }
    }
  }

  /** Each entry occurs in the Counter's input as often as mapped vassals carry it. */
  lemma {:induction false} KnownCount(reg: Regions, vs: seq<string>, x: Option<string>)
    decreases |vs|
    ensures multiset(Known(reg, vs))[x] == |Carriers(reg, vs, x)|
  {
    if vs == [] {
      assert Carriers(reg, vs, x) == {};
    } else {
      var init := vs[..|vs| - 1];
      var v := vs[|vs| - 1];
      KnownCount(reg, init, x);
      assert vs == init + [v];
      KnownConcat(reg, init, [v]);
      CarriersLast(reg, vs, x);
      assert |init| !in Carriers(reg, init, x);
    }
  }

  type Tally = seq<(Option<string>, nat)>

  /**
   * collections.Counter(es).items(): the distinct entries in first-occurrence
   * order (a Counter is an insertion-ordered dict), each with its number of
   * occurrences.
   */
  function Count(es: seq<Option<string>>): (T: Tally)
    ensures |es| > 0 ==> |T| > 0
  {
    var d := Distinct(es);
    DistinctSpec(es);
    seq(|d|, i requires 0 <= i < |d| => (d[i], multiset(es)[d[i]]))
  }

  ghost predicate TallyOf(T: Tally, es: seq<Option<string>>) {
    && (forall i, j :: 0 <= i < j < |T| ==> T[i].0 != T[j].0)
    && (forall i :: 0 <= i < |T| ==> T[i].0 in es && T[i].1 == multiset(es)[T[i].0])
    && (forall x :: x in es ==> exists i :: 0 <= i < |T| && T[i].0 == x)
    && (forall i, j :: 0 <= i < j < |T| ==>
          T[i].0 in es && T[j].0 in es && FirstIndex(es, T[i].0) < FirstIndex(es, T[j].0))
  }

  /**
   * The Counter's items: each distinct entry once, with its number of
   * occurrences, in the order of the entries' first occurrences.
   */
  lemma CountSpec(es: seq<Option<string>>)
    ensures TallyOf(Count(es), es)
  {
    var d := Distinct(es);
    var T := Count(es);
    DistinctSpec(es);
    forall x | x in es ensures exists i :: 0 <= i < |T| && T[i].0 == x {
      assert x in d;
      var i :| 0 <= i < |d| && d[i] == x;
      assert T[i].0 == x;
    }
    forall i, j | 0 <= i < j < |T|
      ensures T[i].0 in es && T[j].0 in es && FirstIndex(es, T[i].0) < FirstIndex(es, T[j].0)
    {
      assert T[i].0 == d[i] && T[j].0 == d[j];
      assert d[i] in d && d[j] in d;
    }
  }

  /**
   * `key(a) < key(b)` for the vote's key (-count, entry), as Python evaluates
   * it: counts first; on equal counts the entries, where comparing "no
   * region" with a region name raises a TypeError.
   */
  function VoteLess(title: string, a: (Option<string>, nat), b: (Option<string>, nat)): Result<bool>
  {
    if a.1 != b.1 then Ok(a.1 > b.1)
    else match (a.0, b.0)
      case (Some(x), Some(y)) => Ok(StrLess(x, y))
      case (None, None) => Ok(false)
      case _ => Fail(VoteTypeError(title))
  }

  /** min(items, key=...): keep the first item, replace it by each later item whose key is smaller. */
  function Scan(title: string, best: (Option<string>, nat), rest: Tally): Result<(Option<string>, nat)>
    decreases |rest|
  {
    if rest == [] then Ok(best)
    else match VoteLess(title, rest[0], best)
      case Fail(e) => Fail(e)
      case Ok(less) => Scan(title, if less then rest[0] else best, rest[1..])
  }

  /** The vote of a kingdom or empire over the entries of its mapped direct vassals. */
  function Winner(title: string, es: seq<Option<string>>): Result<Option<string>>
    requires |es| > 0
  {
    var T := Count(es);
    match Scan(title, T[0], T[1..])
    case Fail(e) => Fail(e)
    case Ok(w) => Ok(w.0)
  }

  /** w's count is at least x's, and on equal counts w is x or a smaller region name. */
  predicate Dominates(w: (Option<string>, nat), x: (Option<string>, nat)) {
    x.1 <= w.1 && (x.1 == w.1 ==> x.0 == w.0 || (x.0.Some? && w.0.Some? && StrLess(w.0.value, x.0.value)))
  }

  lemma DominatesTrans(a: (Option<string>, nat), b: (Option<string>, nat), c: (Option<string>, nat))
    requires Dominates(a, b) && Dominates(b, c)
    ensures Dominates(a, c)
  {
    if a.1 == c.1 && a.0 != b.0 && b.0 != c.0 {
      StrLessTransitive(a.0.value, b.0.value, c.0.value);
    }
  }

  lemma VoteLessSpec(title: string, a: (Option<string>, nat), b: (Option<string>, nat))
    requires VoteLess(title, a, b).Ok?
    ensures VoteLess(title, a, b).value ==> Dominates(a, b)
    ensures !VoteLess(title, a, b).value ==> Dominates(b, a)
  {
    if a.1 == b.1 && a.0.Some? && b.0.Some? {
      StrLessTotal(a.0.value, b.0.value);
    }
  }

  lemma {:induction false} ScanSpec(title: string, best: (Option<string>, nat), rest: Tally)
    requires Scan(title, best, rest).Ok?
    decreases |rest|
    ensures var w := Scan(title, best, rest).value;
      && (w == best || w in rest)
      && Dominates(w, best)
      && forall x :: x in rest ==> Dominates(w, x)
  {
    if rest != [] {
      var less := VoteLess(title, rest[0], best).value;
      var best' := if less then rest[0] else best;
      VoteLessSpec(title, rest[0], best);
      ScanSpec(title, best', rest[1..]);
      var w := Scan(title, best, rest).value;
      DominatesTrans(w, best', best);
      DominatesTrans(w, best', rest[0]);
    } else {
      StrLessIrreflexive(if best.0.Some? then best.0.value else "");
    }
  }

  lemma {:induction false} ScanWithoutNone(title: string, best: (Option<string>, nat), rest: Tally)
    requires best.0.Some? && forall i :: 0 <= i < |rest| ==> rest[i].0.Some?
    ensures Scan(title, best, rest).Ok?
    decreases |rest|
  {
    if rest != [] {
      var less := VoteLess(title, rest[0], best).value;
      ScanWithoutNone(title, if less then rest[0] else best, rest[1..]);
    }
  }

  /**
   * The vote: when it succeeds, the winner is an entry of maximal count
   * and, among entries of that count, the smallest region name; "no region"
   * wins only when it alone has the maximal count. Without "no region"
   * entries the vote always succeeds.
   */
  lemma WinnerSpec(title: string, es: seq<Option<string>>)
    requires |es| > 0
    ensures None !in es ==> Winner(title, es).Ok?
    ensures Winner(title, es).Ok? ==>
      var w := Winner(title, es).value;
      && w in es
      && forall y :: y in es ==>
           && multiset(es)[y] <= multiset(es)[w]
           && (multiset(es)[y] == multiset(es)[w] ==> y == w || (y.Some? && w.Some? && StrLess(w.value, y.value)))
  {
    var T := Count(es);
    CountSpec(es);
    if None !in es {
      assert forall i :: 0 <= i < |T| ==> T[i].0 in es;
      ScanWithoutNone(title, T[0], T[1..]);
    }
    if Winner(title, es).Ok? {
      var wp := Scan(title, T[0], T[1..]).value;
      ScanSpec(title, T[0], T[1..]);
      assert wp in T;
      forall y | y in es
        ensures multiset(es)[y] <= multiset(es)[wp.0]
        ensures multiset(es)[y] == multiset(es)[wp.0] ==> y == wp.0 || (y.Some? && wp.0.Some? && StrLess(wp.0.value, y.value))
      {
        var i :| 0 <= i < |T| && T[i].0 == y;
        if i > 0 {
          assert T[i] in T[1..];
        }
        assert Dominates(wp, T[i]);
      }
    }
  }

  /** A tie for the most votes between "no region" and a region name aborts the run. */
  lemma TieWithNoneFails(title: string, es: seq<Option<string>>, s: string)
    requires None in es && Some(s) in es
    requires multiset(es)[None] == multiset(es)[Some(s)]
    requires forall y :: y in es ==> multiset(es)[y] <= multiset(es)[None]
    ensures Winner(title, es).Fail?
  {
    WinnerSpec(title, es);
  }

  lemma DistinctTwo(x: Option<string>, y: Option<string>)
    requires x != y
    ensures Distinct([x, y]) == [x, y]
  {
    assert Distinct([x]) == [x] by { assert [x][..0] == []; }
    assert [x, y][..1] == [x];
  }

  lemma DistinctTwoOne(x: Option<string>, y: Option<string>)
    requires x != y
    ensures Distinct([x, x, y]) == [x, y]
  {
    assert Distinct([x]) == [x] by { assert [x][..0] == []; }
    assert Distinct([x, x]) == [x] by { assert [x, x][..1] == [x]; }
    assert [x, x, y][..2] == [x, x];
  }

  /** The tally of votes x, x, y for two different entries. */
  lemma CountTwoOne(x: Option<string>, y: Option<string>)
    requires x != y
    ensures Count([x, x, y]) == [(x, 2), (y, 1)]
  {
    var es := [x, x, y];
    DistinctTwoOne(x, y);
    var m := multiset(es);
    assert m == multiset{x, x, y};
    assert m[x] == 2 && m[y] == 1;
    var T := Count(es);
    assert |T| == 2 && T[0] == (x, 2) && T[1] == (y, 1);
  }

  /** The tally of votes x, y for two different entries. */
  lemma CountOneOne(x: Option<string>, y: Option<string>)
    requires x != y
    ensures Count([x, y]) == [(x, 1), (y, 1)]
  {
    var es := [x, y];
    DistinctTwo(x, y);
    var m := multiset(es);
    assert m == multiset{x, y};
    assert m[x] == 1 && m[y] == 1;
    var T := Count(es);
    assert |T| == 2 && T[0] == (x, 1) && T[1] == (y, 1);
  }

  /** The plurality wins: votes {A, A, B} elect A. */
  lemma VoteExampleMajority()
    ensures Winner("k_test", [Some("a"), Some("a"), Some("b")]) == Ok(Some("a"))
  {
    assert "a"[0] != "b"[0];
    CountTwoOne(Some("a"), Some("b"));
    assert VoteLess("k_test", (Some("b"), 1), (Some("a"), 2)) == Ok(false);
  }

  /** A tie between region names goes to the smaller name, whatever the vassal order. */
  lemma VoteExampleTie()
    ensures Winner("k_test", [Some("b"), Some("a")]) == Ok(Some("a"))
  {
    assert "a"[0] != "b"[0];
    CountOneOne(Some("b"), Some("a"));
    assert VoteLess("k_test", (Some("a"), 1), (Some("b"), 1)) == Ok(true);
  }

  /** "No region" can win outright: votes {None, None, B} elect None. */
  lemma VoteExampleNone()
    ensures Winner("k_test", [None, None, Some("b")]) == Ok(None)
  {
    CountTwoOne(None, Some("b"));
    assert VoteLess("k_test", (Some("b"), 1), (None, 2)) == Ok(false);
  }

  /** A tie between "no region" and a region name raises. */
  lemma VoteExampleTypeError()
    ensures Winner("k_test", [Some("b"), None]).Fail?
  {
    CountOneOne(Some("b"), None);
  }

  lemma DistinctThree(x: Option<string>, y: Option<string>, z: Option<string>)
    requires x != y && x != z && y != z
    ensures Distinct([x, y, z]) == [x, y, z]
  {
    DistinctTwo(x, y);
    DistinctLast([x, y], z);
    assert [x, y] + [z] == [x, y, z];
  }

  lemma DistinctThreeOne(x: Option<string>, y: Option<string>, z: Option<string>)
    requires x != y && x != z && y != z
    ensures Distinct([x, y, z, z]) == [x, y, z]
  {
    DistinctThree(x, y, z);
    DistinctLast([x, y, z], z);
    assert [x, y, z] + [z] == [x, y, z, z];
  }

  lemma DistinctTwoOneOne(x: Option<string>, y: Option<string>, z: Option<string>)
    requires x != y && x != z && y != z
    ensures Distinct([x, x, y, z]) == [x, y, z]
  {
    DistinctTwoOne(x, y);
    DistinctLast([x, x, y], z);
    assert [x, x, y] + [z] == [x, x, y, z];
  }

  /** The tally of votes x, y, z, z for three different entries. */
  lemma CountOneOneTwo(x: Option<string>, y: Option<string>, z: Option<string>)
    requires x != y && x != z && y != z
    ensures Count([x, y, z, z]) == [(x, 1), (y, 1), (z, 2)]
  {
    var es := [x, y, z, z];
    DistinctThreeOne(x, y, z);
    var m := multiset(es);
    assert m == multiset{x, y, z, z};
    assert m[x] == 1 && m[y] == 1 && m[z] == 2;
    var T := Count(es);
    assert |T| == 3 && T[0] == (x, 1) && T[1] == (y, 1) && T[2] == (z, 2);
  }

  /** The tally of votes x, x, y, z for three different entries. */
  lemma CountTwoOneOne(x: Option<string>, y: Option<string>, z: Option<string>)
    requires x != y && x != z && y != z
    ensures Count([x, x, y, z]) == [(x, 2), (y, 1), (z, 1)]
  {
    var es := [x, x, y, z];
    DistinctTwoOneOne(x, y, z);
    var m := multiset(es);
    assert m == multiset{x, x, y, z};
    assert m[x] == 2 && m[y] == 1 && m[z] == 1;
    var T := Count(es);
    assert |T| == 3 && T[0] == (x, 2) && T[1] == (y, 1) && T[2] == (z, 1);
  }

  /**
   * The scan can raise below the top: votes None, a, b, b reach the tie of
   * a with the running best None before b, the clear winner, is seen.
   */
  lemma VoteExampleLowTieFails()
    ensures Winner("k_test", [None, Some("a"), Some("b"), Some("b")]).Fail?
  {
    assert "a"[0] != "b"[0];
    CountOneOneTwo(None, Some("a"), Some("b"));
  }

  /** The same votes in another vassal order: b, b, None, a elect b. */
  lemma VoteExampleOrderMatters()
    ensures Winner("k_test", [Some("b"), Some("b"), None, Some("a")]) == Ok(Some("b"))
  {
    assert "a"[0] != "b"[0];
    CountTwoOneOne(Some("b"), None, Some("a"));
    assert VoteLess("k_test", (None, 1), (Some("b"), 2)) == Ok(false);
    assert VoteLess("k_test", (Some("a"), 1), (Some("b"), 2)) == Ok(false);
  }

  /**
   * After its subtree is walked, a kingdom or empire takes the vote over its
   * mapped direct vassals and fills itself with the winner (no change when
   * it is mapped already, nothing at all when no vassal is mapped).
   */
  function TopTierStep(reg: Regions, V: Vassals, k: string): Result<Regions>
  {
    var es := Known(reg, Get(V, k));
    if es == [] then Ok(reg)
    else match Winner(k, es)
      case Fail(e) => Fail(e)
      case Ok(w) => Ok(Fill(reg, V, k, w))
  }

  lemma TopTierStepSpec(reg: Regions, V: Vassals, k: string)
    ensures var es := Known(reg, Get(V, k));
      && (es == [] ==> TopTierStep(reg, V, k) == Ok(reg))
      && (TopTierStep(reg, V, k).Ok? && k in reg ==> TopTierStep(reg, V, k).value == reg)
      && (None !in es ==> TopTierStep(reg, V, k).Ok?)
      && (TopTierStep(reg, V, k).Ok? && es != [] && k !in reg ==>
            var R := TopTierStep(reg, V, k).value;
            && k in R && R[k] in es
            && (forall y :: y in es ==>
                  && multiset(es)[y] <= multiset(es)[R[k]]
                  && (multiset(es)[y] == multiset(es)[R[k]] ==> y == R[k] || (y.Some? && R[k].Some? && StrLess(R[k].value, y.value))))
            && (forall x :: x in reg ==> x in R && R[x] == reg[x])
            && (forall x :: x in R && x !in reg <==> Reaches(reg, V, k, x))
            && (forall x :: x in R && x !in reg ==> R[x] == R[k]))
  {
    var es := Known(reg, Get(V, k));
    if es != [] {
      WinnerSpec(k, es);
      if Winner(k, es).Ok? {
        var w := Winner(k, es).value;
        RerecurseSpec(reg, V, k, w);
        if k !in reg {
          ReachesSelf(reg, V, k);
        }
      }
    }
  }
}
