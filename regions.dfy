/**
 * Region seeding: the geographical region file declares, under top-level
 * `world_<region>` nodes, the duchies that belong to each leaf region.
 * Region groups (nodes that have a `regions` child) are skipped. The result
 * maps each listed duchy to its region name; a later declaration of the same
 * duchy overwrites an earlier one.
 */
module Regions {
  import opened Common

  const WorldPrefix := "world_"

  /**
   * What one top-level node contributes: nothing (Ok(None)), a region
   * name with the duchies it lists, or a hard failure.
   */
  function Declaration(p: Pair): Result<Option<(string, seq<string>)>>
  {
    if !StartsWith(p.name, WorldPrefix) then Ok(None)
    else match p.value
      case Block(ps) =>
        if exists i :: 0 <= i < |ps| && ps[i].name == "regions" then Ok(None)
        else if |ps| != 1 then Fail(RegionArity(p.name))
        else if ps[0].name != "duchies" then Fail(NoDuchies(p.name))
        else (match Scalars(ps[0].value)
          case None => Fail(NotScalar(p.name))
          case Some(ds) => Ok(Some((p.name[|WorldPrefix|..], ds))))
      case _ => Fail(NotABlock(p.name))
  }

  /** Node p is a leaf-region declaration that lists duchy d. */
  predicate Lists(p: Pair, d: string) {
    var dec := Declaration(p);
    dec.Ok? && dec.value.Some? && d in dec.value.value.1
  }

  /** The region a listing declaration assigns: the node name without its `world_` prefix. */
  function RegionName(p: Pair): string {
    if |p.name| >= |WorldPrefix| then p.name[|WorldPrefix|..] else ""
  }

  /** Map every duchy in ds to region, over m (the inner loop of the seeding). */
  function Assign(m: map<string, string>, ds: seq<string>, region: string): map<string, string>
  {
    m + map d | d in ds :: region
  }

  /** The effect of one well-formed top-level node on the map built so far. */
  function Apply(m: map<string, string>, dec: Option<(string, seq<string>)>): map<string, string>
  {
    match dec
    case None => m
    case Some(d) => Assign(m, d.1, d.0)
  }

  /** The seeding fold over the top-level nodes, starting from m. */
  function SeedFrom(m: map<string, string>, ps: seq<Pair>): Result<map<string, string>>
    decreases ps
  {
    if ps == [] then Ok(m)
    else match Declaration(ps[0])
      case Fail(e) => Fail(e)
      case Ok(dec) => SeedFrom(Apply(m, dec), ps[1..])
  }

  function Seed(ps: seq<Pair>): Result<map<string, string>> {
    SeedFrom(map[], ps)
  }

  lemma ApplyLists(m: map<string, string>, p: Pair, d: string)
    requires Declaration(p).Ok?
    ensures d in Apply(m, Declaration(p).value) <==> d in m || Lists(p, d)
    ensures Lists(p, d) ==> Apply(m, Declaration(p).value)[d] == RegionName(p)
    ensures !Lists(p, d) && d in m ==> Apply(m, Declaration(p).value)[d] == m[d]
  {
  }

  lemma {:induction false} SeedFromOk(m: map<string, string>, ps: seq<Pair>)
    decreases ps
    ensures SeedFrom(m, ps).Ok? <==> forall i :: 0 <= i < |ps| ==> Declaration(ps[i]).Ok?
  {
    if ps != [] && Declaration(ps[0]).Ok? {
      SeedFromOk(Apply(m, Declaration(ps[0]).value), ps[1..]);
      assert forall i :: 0 < i < |ps| ==> ps[i] == ps[1..][i - 1];
    }
  }

  lemma {:induction false} SeedFromKeys(m: map<string, string>, ps: seq<Pair>, d: string)
    decreases ps
    requires SeedFrom(m, ps).Ok?
    ensures d in SeedFrom(m, ps).value <==> d in m || exists i :: 0 <= i < |ps| && Lists(ps[i], d)
  {
    if ps != [] {
      var m' := Apply(m, Declaration(ps[0]).value);
      SeedFromKeys(m', ps[1..], d);
      ApplyLists(m, ps[0], d);
      if exists i :: 0 <= i < |ps| && Lists(ps[i], d) {
        var i :| 0 <= i < |ps| && Lists(ps[i], d);
        if i > 0 {
          assert Lists(ps[1..][i - 1], d);
        }
      }
      if exists i :: 0 <= i < |ps[1..]| && Lists(ps[1..][i], d) {
        var i :| 0 <= i < |ps[1..]| && Lists(ps[1..][i], d);
        assert Lists(ps[i + 1], d);
      }
    }
  }

  lemma {:induction false} SeedFromLast(m: map<string, string>, ps: seq<Pair>, d: string, i: int)
    decreases ps
    requires SeedFrom(m, ps).Ok?
    requires 0 <= i < |ps| && Lists(ps[i], d)
    requires forall j :: i < j < |ps| ==> !Lists(ps[j], d)
    ensures d in SeedFrom(m, ps).value && SeedFrom(m, ps).value[d] == RegionName(ps[i])
  {
    var m' := Apply(m, Declaration(ps[0]).value);
    ApplyLists(m, ps[0], d);
    if i > 0 {
      assert ps[1..][i - 1] == ps[i];
      assert forall j :: i - 1 < j < |ps[1..]| ==> ps[1..][j] == ps[j + 1];
      SeedFromLast(m', ps[1..], d, i - 1);
    } else {
      assert forall j :: 0 <= j < |ps[1..]| ==> ps[1..][j] == ps[j + 1];
      SeedFromUnlisted(m', ps[1..], d);
    }
  }

  lemma {:induction false} SeedFromUnlisted(m: map<string, string>, ps: seq<Pair>, d: string)
    decreases ps
    requires SeedFrom(m, ps).Ok?
    requires d in m
    requires forall j :: 0 <= j < |ps| ==> !Lists(ps[j], d)
    ensures d in SeedFrom(m, ps).value && SeedFrom(m, ps).value[d] == m[d]
  {
    if ps != [] {
      var m' := Apply(m, Declaration(ps[0]).value);
      ApplyLists(m, ps[0], d);
      assert forall j :: 0 <= j < |ps[1..]| ==> ps[1..][j] == ps[j + 1];
      SeedFromUnlisted(m', ps[1..], d);
    }
  }

  /**
   * The whole of the seeding: it succeeds exactly when every top-level node
   * is well-formed; a duchy is seeded exactly when some leaf-region
   * declaration lists it, and its region is that of the last such declaration.
   */
  lemma SeedSpec(ps: seq<Pair>)
    ensures Seed(ps).Ok? <==> forall i :: 0 <= i < |ps| ==> Declaration(ps[i]).Ok?
    ensures Seed(ps).Ok? ==>
      var r := Seed(ps).value;
      && (forall d :: d in r <==> exists i :: 0 <= i < |ps| && Lists(ps[i], d))
      && (forall d, i :: 0 <= i < |ps| && Lists(ps[i], d) && (forall j :: i < j < |ps| ==> !Lists(ps[j], d))
            ==> r[d] == RegionName(ps[i]))
  {
    SeedFromOk(map[], ps);
    if Seed(ps).Ok? {
      forall d ensures d in Seed(ps).value <==> exists i :: 0 <= i < |ps| && Lists(ps[i], d) {
        SeedFromKeys(map[], ps, d);
      }
      forall d, i | 0 <= i < |ps| && Lists(ps[i], d) && (forall j :: i < j < |ps| ==> !Lists(ps[j], d))
        ensures Seed(ps).value[d] == RegionName(ps[i])
      {
        SeedFromLast(map[], ps, d, i);
      }
    }
  }

  /**
   * A `world_` node that is not a region group aborts the run unless it is
   * a block whose one child is `duchies` holding scalars: a scalar value,
   * no child or several children (the arity assertion), a lone child of
   * another name (the `duchies` lookup raises), and a `duchies` child
   * holding nested pairs all fail.
   */
  lemma MalformedDeclarationFails(ps: seq<Pair>, i: int)
    requires 0 <= i < |ps| && StartsWith(ps[i].name, WorldPrefix)
    requires var v := ps[i].value;
      || !v.Block?
      || (&& (forall j :: 0 <= j < |v.pairs| ==> v.pairs[j].name != "regions")
          && (|v.pairs| != 1 || v.pairs[0].name != "duchies" || Scalars(v.pairs[0].value).None?))
    ensures Seed(ps).Fail?
  {
    assert Declaration(ps[i]).Fail?;
    SeedSpec(ps);
  }

  lemma AssignStep(m: map<string, string>, ds: seq<string>, j: int, region: string)
    requires 0 <= j < |ds|
    ensures Assign(m, ds[..j + 1], region) == Assign(m, ds[..j], region)[ds[j] := region]
  {
    assert ds[..j + 1] == ds[..j] + [ds[j]];
  }

  /** The inner loop of process_regions: every duchy listed by one declaration gets its region. */
  method AssignDuchies(m: map<string, string>, duchies: seq<string>, region: string) returns (m': map<string, string>)
    ensures m' == Assign(m, duchies, region)
  {
    m' := m;
    var j := 0;
    while j < |duchies|
      invariant 0 <= j <= |duchies|
      invariant m' == Assign(m, duchies[..j], region)
    {
      AssignStep(m, duchies, j, region);
      m' := m'[duchies[j] := region];
      j := j + 1;
    }
    assert duchies[..j] == duchies;
  }

  /** process_regions: the loop over the top-level nodes of the region file. */
  method ProcessRegions(ps: seq<Pair>) returns (res: Result<map<string, string>>)
    ensures res == Seed(ps)
  {
    var titleRegion: map<string, string> := map[];
    var i := 0;
    while i < |ps|
      invariant 0 <= i <= |ps|
      invariant Seed(ps) == SeedFrom(titleRegion, ps[i..])
    {
      assert ps[i..][1..] == ps[i + 1..];
      var dec := Declaration(ps[i]);
      if dec.Fail? {
        return Fail(dec.error);
      }
      if dec.value.Some? {
        titleRegion := AssignDuchies(titleRegion, dec.value.value.1, dec.value.value.0);
      }
      i := i + 1;
    }
    res := Ok(titleRegion);
  }
}
