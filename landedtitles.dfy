/**
 * The landed-title walk: one recursive pass over the title definition files
 * that records every codename title's attributes (in first-definition
 * order), its direct vassals (in source order), and, in post-order, infers
 * regions: a duchy hands its own entry down to its vassal subtrees, and a
 * kingdom or empire takes the plurality of its mapped direct vassals.
 *
 * The pass is specified by the functions WalkPairs / WalkPair over an
 * abstract State; the class Titles holds the four dictionaries the original
 * mutates, and its methods are proved to compute exactly those functions.
 */
module LandedTitles {
  import opened Common
  import opened Inference

  /** One title's attribute dictionary: key to value. */
  type Attrs = map<string, string>

  /**
   * The dictionaries the walk maintains: the attributes per title, the order
   * in which titles were first defined (the ordered dictionary's key order),
   * the vassal lists, and the region entries.
   */
  datatype State = State(attrs: map<string, Attrs>, order: seq<string>, vassals: Vassals, region: Regions)

  /** Before the walk: nothing recorded, the seeded duchies mapped to their regions. */
  function Initial(seeds: map<string, string>): (st: State)
    ensures st.attrs == map[] && st.order == [] && st.vassals == map[]
    ensures st.region.Keys == seeds.Keys
    ensures forall d :: d in seeds ==> st.region[d] == Some(seeds[d])
  {
    State(map[], [], map[], map d | d in seeds :: Some(seeds[d]))
  }

  // ---------------------------------------------------------------------
  // Attribute collection (the loop over a title's children)
  // ---------------------------------------------------------------------

  /** A recorded attribute's text: a scalar as is, a list of scalars joined by spaces. */
  function AttrText(name: string, v: Value): (r: Result<string>)
    ensures r.Fail? <==> v.Block? && v.pairs != []
    ensures v.Atom? ==> r == Ok(v.text)
    ensures v.List? ==> r == Ok(Join(v.items, " "))
    ensures v == Block([]) ==> r == Ok("")
  {
    match v
    case Atom(text) => Ok(text)
    case _ =>
      match Scalars(v)
      case Some(items) => Ok(Join(items, " "))
      case None => Fail(NotScalar(name))
  }

  /** Record, over acc, every child whose name is an attribute key; a later child overwrites. */
  function CollectFrom(acc: Attrs, ps: seq<Pair>, keys: set<string>): Result<Attrs>
    decreases ps
  {
    if ps == [] then Ok(acc)
    else if ps[0].name !in keys then CollectFrom(acc, ps[1..], keys)
    else match AttrText(ps[0].name, ps[0].value)
      case Fail(e) => Fail(e)
      case Ok(text) => CollectFrom(acc[ps[0].name := text], ps[1..], keys)
  }

  /** The defaults every title starts from: its own name and its adjective, both empty. */
  function Defaults(title: string): Attrs {
    map[title := "", title + "_adj" := ""]
  }

  function CollectAttrs(title: string, ps: seq<Pair>, keys: set<string>): Result<Attrs> {
    CollectFrom(Defaults(title), ps, keys)
  }

  lemma {:induction false} CollectFromOk(acc: Attrs, ps: seq<Pair>, keys: set<string>)
    decreases ps
    ensures CollectFrom(acc, ps, keys).Ok? <==>
      forall i :: 0 <= i < |ps| && ps[i].name in keys ==> AttrText(ps[i].name, ps[i].value).Ok?
  {
    if ps != [] {
      assert forall i :: 0 < i < |ps| ==> ps[i] == ps[1..][i - 1];
      if ps[0].name !in keys {
        CollectFromOk(acc, ps[1..], keys);
      } else if AttrText(ps[0].name, ps[0].value).Ok? {
        CollectFromOk(acc[ps[0].name := AttrText(ps[0].name, ps[0].value).value], ps[1..], keys);
      }
    }
  }

  lemma {:induction false} CollectFromKeys(acc: Attrs, ps: seq<Pair>, keys: set<string>, k: string)
    decreases ps
    requires CollectFrom(acc, ps, keys).Ok?
    ensures k in CollectFrom(acc, ps, keys).value <==>
      k in acc || exists i :: 0 <= i < |ps| && ps[i].name == k && k in keys
  {
    if ps != [] {
      var acc' := if ps[0].name in keys then acc[ps[0].name := AttrText(ps[0].name, ps[0].value).value] else acc;
      CollectFromKeys(acc', ps[1..], keys, k);
      if exists i :: 0 <= i < |ps[1..]| && ps[1..][i].name == k && k in keys {
        var i :| 0 <= i < |ps[1..]| && ps[1..][i].name == k && k in keys;
        assert ps[i + 1].name == k;
      }
      if exists i :: 0 <= i < |ps| && ps[i].name == k && k in keys {
        var i :| 0 <= i < |ps| && ps[i].name == k && k in keys;
        if i > 0 {
          assert ps[1..][i - 1].name == k;
        }
      }
    }
  }

  lemma {:induction false} CollectFromUntouched(acc: Attrs, ps: seq<Pair>, keys: set<string>, k: string)
    decreases ps
    requires CollectFrom(acc, ps, keys).Ok?
    requires k in acc
    requires forall j :: 0 <= j < |ps| ==> ps[j].name != k || k !in keys
    ensures k in CollectFrom(acc, ps, keys).value && CollectFrom(acc, ps, keys).value[k] == acc[k]
  {
    if ps != [] {
      var acc' := if ps[0].name in keys then acc[ps[0].name := AttrText(ps[0].name, ps[0].value).value] else acc;
      assert forall j :: 0 <= j < |ps[1..]| ==> ps[1..][j] == ps[j + 1];
      CollectFromUntouched(acc', ps[1..], keys, k);
    }
  }

  lemma {:induction false} CollectFromLast(acc: Attrs, ps: seq<Pair>, keys: set<string>, i: int)
    decreases ps
    requires CollectFrom(acc, ps, keys).Ok?
    requires 0 <= i < |ps| && ps[i].name in keys
    requires forall j :: i < j < |ps| ==> ps[j].name != ps[i].name
    ensures AttrText(ps[i].name, ps[i].value).Ok?
    ensures ps[i].name in CollectFrom(acc, ps, keys).value
    ensures CollectFrom(acc, ps, keys).value[ps[i].name] == AttrText(ps[i].name, ps[i].value).value
  {
    var acc' := if ps[0].name in keys then acc[ps[0].name := AttrText(ps[0].name, ps[0].value).value] else acc;
    assert forall j :: 0 <= j < |ps[1..]| ==> ps[1..][j] == ps[j + 1];
    if i > 0 {
      CollectFromLast(acc', ps[1..], keys, i - 1);
    } else {
      CollectFromUntouched(acc', ps[1..], keys, ps[0].name);
    }
  }

  /**
   * Attribute collection: it fails exactly when a recorded child holds a
   * nested block; a title's dictionary holds its own name, its adjective
   * and every child name that is an attribute key, and nothing else; each
   * recorded key has the text of its last child, and the two defaults not
   * overridden stay empty.
   */
  lemma CollectAttrsSpec(title: string, ps: seq<Pair>, keys: set<string>)
    ensures CollectAttrs(title, ps, keys).Ok? <==>
      forall i :: 0 <= i < |ps| && ps[i].name in keys ==> AttrText(ps[i].name, ps[i].value).Ok?
    ensures CollectAttrs(title, ps, keys).Ok? ==>
      var a := CollectAttrs(title, ps, keys).value;
      && (forall k :: k in a <==> k == title || k == title + "_adj" || exists i :: 0 <= i < |ps| && ps[i].name == k && k in keys)
      && (forall i :: 0 <= i < |ps| && ps[i].name in keys && (forall j :: i < j < |ps| ==> ps[j].name != ps[i].name)
            ==> a[ps[i].name] == AttrText(ps[i].name, ps[i].value).value)
      && (forall k :: (k == title || k == title + "_adj") && (forall j :: 0 <= j < |ps| ==> ps[j].name != k || k !in keys)
            ==> a[k] == "")
  {
    CollectFromOk(Defaults(title), ps, keys);
    if CollectAttrs(title, ps, keys).Ok? {
      var a := CollectAttrs(title, ps, keys).value;
      forall k ensures k in a <==> k == title || k == title + "_adj" || exists i :: 0 <= i < |ps| && ps[i].name == k && k in keys {
        CollectFromKeys(Defaults(title), ps, keys, k);
      }
      forall i | 0 <= i < |ps| && ps[i].name in keys && (forall j :: i < j < |ps| ==> ps[j].name != ps[i].name)
        ensures a[ps[i].name] == AttrText(ps[i].name, ps[i].value).value
      {
        CollectFromLast(Defaults(title), ps, keys, i);
      }
      forall k | (k == title || k == title + "_adj") && (forall j :: 0 <= j < |ps| ==> ps[j].name != k || k !in keys)
        ensures a[k] == ""
      {
        CollectFromUntouched(Defaults(title), ps, keys, k);
      }
    }
  }

  /** The loop over a title's children that builds its attribute dictionary. */
  method CollectAttrsLoop(title: string, ps: seq<Pair>, keys: set<string>) returns (res: Result<Attrs>)
    ensures res == CollectAttrs(title, ps, keys)
  {
    var acc := Defaults(title);
    var i := 0;
    while i < |ps|
      invariant 0 <= i <= |ps|
      invariant CollectAttrs(title, ps, keys) == CollectFrom(acc, ps[i..], keys)
    {
      assert ps[i..][1..] == ps[i + 1..];
      if ps[i].name in keys {
        var text := AttrText(ps[i].name, ps[i].value);
        if text.Fail? {
          return Fail(text.error);
        }
        acc := acc[ps[i].name := text.value];
      }
      i := i + 1;
    }
    res := Ok(acc);
  }

  // ---------------------------------------------------------------------
  // The walk, as functions over State
  // ---------------------------------------------------------------------

  /** Record a title's dictionary and, under a liege, append it to the liege's vassals. */
  function Register(st: State, name: string, a: Attrs, liege: string): State {
    State(st.attrs[name := a],
          if name in st.attrs then st.order else st.order + [name],
          if liege == "" then st.vassals else st.vassals[liege := Get(st.vassals, liege) + [name]],
          st.region)
  }

  /** The region step that runs once a title's subtree is walked; its tier is its first character. */
  function TierStep(st: State, name: string): Result<State> {
    if |name| == 0 then Fail(EmptyCodename)
    else if name[0] == 'd' then Ok(st.(region := DuchyStep(st.region, st.vassals, name)))
    else if name[0] == 'e' || name[0] == 'k' then
      match TopTierStep(st.region, st.vassals, name)
      case Fail(e) => Fail(e)
      case Ok(reg) => Ok(st.(region := reg))
    else Ok(st)
  }

  /** recurse: the nodes ps, in order, with liege the enclosing codename ("" at the top of a file). */
  function WalkPairs(st: State, ps: seq<Pair>, liege: string, keys: set<string>, codename: string -> bool): Result<State>
    decreases ps
  {
    if ps == [] then Ok(st)
    else match WalkPair(st, ps[0], liege, keys, codename)
      case Fail(e) => Fail(e)
      case Ok(st1) => WalkPairs(st1, ps[1..], liege, keys, codename)
  }

  /** One node: skipped unless a codename; else collect, register, walk the children, then the region step. */
  function WalkPair(st: State, p: Pair, liege: string, keys: set<string>, codename: string -> bool): Result<State>
    decreases p
  {
    if !codename(p.name) then Ok(st)
    else if !p.value.Block? then Fail(NotABlock(p.name))
    else match CollectAttrs(p.name, p.value.pairs, keys)
      case Fail(e) => Fail(e)
      case Ok(a) =>
        match WalkPairs(Register(st, p.name, a, liege), p.value.pairs, p.name, keys, codename)
        case Fail(e) => Fail(e)
        case Ok(st1) => TierStep(st1, p.name)
  }

  /** The walk over every title file in turn, each from the top (no liege). */
  function WalkFiles(st: State, files: seq<seq<Pair>>, keys: set<string>, codename: string -> bool): Result<State>
    decreases files
  {
    if files == [] then Ok(st)
    else match WalkPairs(st, files[0], "", keys, codename)
      case Fail(e) => Fail(e)
      case Ok(st1) => WalkFiles(st1, files[1..], keys, codename)
  }

  /** process_landed_titles, from the seeded regions. */
  function LandedTitles(seeds: map<string, string>, files: seq<seq<Pair>>, keys: set<string>, codename: string -> bool): Result<State> {
    WalkFiles(Initial(seeds), files, keys, codename)
  }

  // ---------------------------------------------------------------------
  // What a walk records
  // ---------------------------------------------------------------------

  /** The codename titles a walk over ps visits, at every depth. */
  function Names(ps: seq<Pair>, codename: string -> bool): set<string>
    decreases ps
  {
    if ps == [] then {} else NamesOf(ps[0], codename) + Names(ps[1..], codename)
  }

  function NamesOf(p: Pair, codename: string -> bool): set<string>
    decreases p
  {
    if !codename(p.name) then {}
    else {p.name} + (if p.value.Block? then Names(p.value.pairs, codename) else {})
  }

  /** The codename titles directly among ps, in source order: the vassals they give their liege. */
  function Direct(ps: seq<Pair>, codename: string -> bool): seq<string>
    decreases ps
  {
    if ps == [] then [] else (if codename(ps[0].name) then [ps[0].name] else []) + Direct(ps[1..], codename)
  }

  /**
   * st' is a later state of the same walk: no region entry is changed or
   * removed, no title is forgotten, the definition order and every vassal
   * list are only appended to.
   */
  ghost predicate Extends(st: State, st': State) {
    && (forall k :: k in st.region ==> k in st'.region && st'.region[k] == st.region[k])
    && st.attrs.Keys <= st'.attrs.Keys
    && st.order <= st'.order
    && (forall l :: Get(st.vassals, l) <= Get(st'.vassals, l))
  }

  /**
   * The ordered dictionary's shape: the definition order lists each recorded
   * title exactly once, and every title's dictionary holds its own name and
   * its adjective.
   */
  ghost predicate Consistent(st: State) {
    && (forall t :: t in st.attrs <==> t in st.order)
    && (forall i, j :: 0 <= i < j < |st.order| ==> st.order[i] != st.order[j])
    && (forall t :: t in st.attrs ==> t in st.attrs[t] && t + "_adj" in st.attrs[t])
  }

  /** Every region entry is one of S. */
  ghost predicate ValuesIn(reg: Regions, S: set<Option<string>>) {
    forall t :: t in reg ==> reg[t] in S
  }

  lemma ExtendsTrans(st1: State, st2: State, st3: State)
    requires Extends(st1, st2) && Extends(st2, st3)
    ensures Extends(st1, st3)
  {
    forall l ensures Get(st1.vassals, l) <= Get(st3.vassals, l) {
      assert Get(st1.vassals, l) <= Get(st2.vassals, l);
    }
  }

  lemma CollectAttrsDefaults(title: string, ps: seq<Pair>, keys: set<string>)
    requires CollectAttrs(title, ps, keys).Ok?
    ensures title in CollectAttrs(title, ps, keys).value
    ensures title + "_adj" in CollectAttrs(title, ps, keys).value
  {
    CollectAttrsSpec(title, ps, keys);
  }

  lemma RegisterSpec(st: State, name: string, a: Attrs, liege: string)
    requires name in a && name + "_adj" in a
    ensures Extends(st, Register(st, name, a, liege))
    ensures Consistent(st) ==> Consistent(Register(st, name, a, liege))
    ensures Register(st, name, a, liege).attrs.Keys == st.attrs.Keys + {name}
  {
  }

  /** The region step changes nothing but the regions, and those it only adds to. */
  lemma TierStepSpec(st: State, name: string, S: set<Option<string>>)
    requires TierStep(st, name).Ok?
    ensures var st' := TierStep(st, name).value;
      && Extends(st, st')
      && st'.attrs == st.attrs && st'.order == st.order && st'.vassals == st.vassals
      && (ValuesIn(st.region, S) && None in S ==> ValuesIn(st'.region, S))
  {
    var st' := TierStep(st, name).value;
    if name[0] == 'd' {
      DuchyStepSpec(st.region, st.vassals, name);
    } else if name[0] == 'e' || name[0] == 'k' {
      var es := Known(st.region, Get(st.vassals, name));
      if es != [] {
        WinnerSpec(name, es);
        RerecurseSpec(st.region, st.vassals, name, Winner(name, es).value);
      }
    }
  }

  lemma {:induction false} WalkPairsExtends(st: State, ps: seq<Pair>, liege: string, keys: set<string>, codename: string -> bool, S: set<Option<string>>)
    decreases ps
    requires WalkPairs(st, ps, liege, keys, codename).Ok?
    ensures var st' := WalkPairs(st, ps, liege, keys, codename).value;
      && Extends(st, st')
      && (Consistent(st) ==> Consistent(st'))
      && st'.attrs.Keys == st.attrs.Keys + Names(ps, codename)
      && (ValuesIn(st.region, S) && None in S ==> ValuesIn(st'.region, S))
  {
    if ps != [] {
      var st1 := WalkPair(st, ps[0], liege, keys, codename).value;
      WalkPairExtends(st, ps[0], liege, keys, codename, S);
      WalkPairsExtends(st1, ps[1..], liege, keys, codename, S);
      ExtendsTrans(st, st1, WalkPairs(st, ps, liege, keys, codename).value);
    }
  }

  lemma {:induction false} WalkPairExtends(st: State, p: Pair, liege: string, keys: set<string>, codename: string -> bool, S: set<Option<string>>)
    decreases p
    requires WalkPair(st, p, liege, keys, codename).Ok?
    ensures var st' := WalkPair(st, p, liege, keys, codename).value;
      && Extends(st, st')
      && (Consistent(st) ==> Consistent(st'))
      && st'.attrs.Keys == st.attrs.Keys + NamesOf(p, codename)
      && (ValuesIn(st.region, S) && None in S ==> ValuesIn(st'.region, S))
  {
    if codename(p.name) {
      var a := CollectAttrs(p.name, p.value.pairs, keys).value;
      CollectAttrsDefaults(p.name, p.value.pairs, keys);
      var st0 := Register(st, p.name, a, liege);
      RegisterSpec(st, p.name, a, liege);
      WalkPairsExtends(st0, p.value.pairs, p.name, keys, codename, S);
      var st1 := WalkPairs(st0, p.value.pairs, p.name, keys, codename).value;
      TierStepSpec(st1, p.name, S);
      ExtendsTrans(st, st0, st1);
      ExtendsTrans(st, st1, TierStep(st1, p.name).value);
    }
  }

  /**
   * Vassal lists: walking ps under liege appends exactly the codename titles
   * directly among ps, in source order, to the liege's list, and leaves the
   * list of every title the walk does not visit otherwise untouched.
   */
  lemma {:induction false} WalkPairsVassals(st: State, ps: seq<Pair>, liege: string, keys: set<string>, codename: string -> bool, l: string)
    decreases ps
    requires WalkPairs(st, ps, liege, keys, codename).Ok?
    requires l !in Names(ps, codename)
    ensures Get(WalkPairs(st, ps, liege, keys, codename).value.vassals, l) ==
      Get(st.vassals, l) + (if l == liege && liege != "" then Direct(ps, codename) else [])
  {
    if ps != [] {
      var st1 := WalkPair(st, ps[0], liege, keys, codename).value;
      WalkPairVassals(st, ps[0], liege, keys, codename, l);
      WalkPairsVassals(st1, ps[1..], liege, keys, codename, l);
    }
  }

  lemma {:induction false} WalkPairVassals(st: State, p: Pair, liege: string, keys: set<string>, codename: string -> bool, l: string)
    decreases p
    requires WalkPair(st, p, liege, keys, codename).Ok?
    requires l !in NamesOf(p, codename)
    ensures Get(WalkPair(st, p, liege, keys, codename).value.vassals, l) ==
      Get(st.vassals, l) + (if l == liege && liege != "" && codename(p.name) then [p.name] else [])
  {
    if codename(p.name) {
      var a := CollectAttrs(p.name, p.value.pairs, keys).value;
      var st0 := Register(st, p.name, a, liege);
      WalkPairsVassals(st0, p.value.pairs, p.name, keys, codename, l);
      var st1 := WalkPairs(st0, p.value.pairs, p.name, keys, codename).value;
      TierStepSpec(st1, p.name, {});
    }
  }

  /**
   * Post-order: when a title's region step runs, every codename child has
   * already been appended to its vassal list, in source order (provided the
   * title's subtree does not define the title again).
   */
  lemma StepSeesVassals(st: State, p: Pair, liege: string, keys: set<string>, codename: string -> bool)
    requires WalkPair(st, p, liege, keys, codename).Ok? && codename(p.name)
    requires p.name != liege && p.name !in Names(p.value.pairs, codename)
    ensures p.value.Block? && CollectAttrs(p.name, p.value.pairs, keys).Ok?
    ensures var st1 := WalkPairs(Register(st, p.name, CollectAttrs(p.name, p.value.pairs, keys).value, liege), p.value.pairs, p.name, keys, codename);
      && st1.Ok?
      && Get(st1.value.vassals, p.name) == Get(st.vassals, p.name) + Direct(p.value.pairs, codename)
      && WalkPair(st, p, liege, keys, codename) == TierStep(st1.value, p.name)
  {
    var a := CollectAttrs(p.name, p.value.pairs, keys).value;
    WalkPairsVassals(Register(st, p.name, a, liege), p.value.pairs, p.name, keys, codename, p.name);
  }

  /** The codename titles defined anywhere in the files. */
  function FileNames(files: seq<seq<Pair>>, codename: string -> bool): set<string>
    decreases files
  {
    if files == [] then {} else Names(files[0], codename) + FileNames(files[1..], codename)
  }

  lemma {:induction false} WalkFilesExtends(st: State, files: seq<seq<Pair>>, keys: set<string>, codename: string -> bool, S: set<Option<string>>)
    decreases files
    requires WalkFiles(st, files, keys, codename).Ok?
    ensures var st' := WalkFiles(st, files, keys, codename).value;
      && Extends(st, st')
      && (Consistent(st) ==> Consistent(st'))
      && st'.attrs.Keys == st.attrs.Keys + FileNames(files, codename)
      && (ValuesIn(st.region, S) && None in S ==> ValuesIn(st'.region, S))
  {
    if files != [] {
      var st1 := WalkPairs(st, files[0], "", keys, codename).value;
      WalkPairsExtends(st, files[0], "", keys, codename, S);
      WalkFilesExtends(st1, files[1..], keys, codename, S);
      ExtendsTrans(st, st1, WalkFiles(st, files, keys, codename).value);
    }
  }

  // ---------------------------------------------------------------------
  // The definitions a walk registers, in order
  // ---------------------------------------------------------------------

  /** The codename definitions among ps, at every depth, in pre-order (a title before its children). */
  function Defs(ps: seq<Pair>, codename: string -> bool): seq<Pair>
    decreases ps
  {
    if ps == [] then [] else DefsOf(ps[0], codename) + Defs(ps[1..], codename)
  }

  function DefsOf(p: Pair, codename: string -> bool): seq<Pair>
    decreases p
  {
    if !codename(p.name) then []
    else [p] + (if p.value.Block? then Defs(p.value.pairs, codename) else [])
  }

  /** The definitions of every file, file after file. */
  function FileDefs(files: seq<seq<Pair>>, codename: string -> bool): seq<Pair>
    decreases files
  {
    if files == [] then [] else Defs(files[0], codename) + FileDefs(files[1..], codename)
  }

  /** The titles the definitions ds define, in order (with repetitions). */
  function NamesIn(ds: seq<Pair>): seq<string>
  {
    if ds == [] then [] else [ds[0].name] + NamesIn(ds[1..])
  }

  /** The dictionary one definition records (none when its collection fails, which aborts the walk). */
  function DefAttrs(p: Pair, keys: set<string>): Attrs {
    if p.value.Block? && CollectAttrs(p.name, p.value.pairs, keys).Ok? then CollectAttrs(p.name, p.value.pairs, keys).value
    else map[]
  }

  /** Every definition in ds is a block whose attributes collect. */
  ghost predicate DefsCollect(ds: seq<Pair>, keys: set<string>) {
    forall d :: d in ds ==> d.value.Block? && CollectAttrs(d.name, d.value.pairs, keys).Ok?
  }

  /** The attribute table after recording the definitions ds in turn, each replacing any earlier one. */
  function Record(m: map<string, Attrs>, ds: seq<Pair>, keys: set<string>): map<string, Attrs>
    decreases ds
  {
    if ds == [] then m else Record(m[ds[0].name := DefAttrs(ds[0], keys)], ds[1..], keys)
  }

  lemma {:induction false} NamesInConcat(a: seq<Pair>, b: seq<Pair>)
    decreases |a|
    ensures NamesIn(a + b) == NamesIn(a) + NamesIn(b)
  {
    if a == [] {
      assert a + b == b;
    } else {
      assert (a + b)[0] == a[0] && (a + b)[1..] == a[1..] + b;
      NamesInConcat(a[1..], b);
    }
  }

  lemma {:induction false} RecordConcat(m: map<string, Attrs>, a: seq<Pair>, b: seq<Pair>, keys: set<string>)
    decreases |a|
    ensures Record(m, a + b, keys) == Record(Record(m, a, keys), b, keys)
  {
    if a == [] {
      assert a + b == b;
    } else {
      assert (a + b)[0] == a[0] && (a + b)[1..] == a[1..] + b;
      RecordConcat(m[a[0].name := DefAttrs(a[0], keys)], a[1..], b, keys);
    }
  }

  lemma {:induction false} RecordUntouched(m: map<string, Attrs>, ds: seq<Pair>, keys: set<string>, t: string)
    decreases |ds|
    requires t in m && forall j :: 0 <= j < |ds| ==> ds[j].name != t
    ensures t in Record(m, ds, keys) && Record(m, ds, keys)[t] == m[t]
  {
    if ds != [] {
      assert forall j :: 0 <= j < |ds[1..]| ==> ds[1..][j] == ds[j + 1];
      RecordUntouched(m[ds[0].name := DefAttrs(ds[0], keys)], ds[1..], keys, t);
    }
  }

  /** A title's entry is what its last definition records. */
  lemma {:induction false} RecordLast(m: map<string, Attrs>, ds: seq<Pair>, keys: set<string>, i: int)
    decreases |ds|
    requires 0 <= i < |ds| && forall j :: i < j < |ds| ==> ds[j].name != ds[i].name
    ensures ds[i].name in Record(m, ds, keys) && Record(m, ds, keys)[ds[i].name] == DefAttrs(ds[i], keys)
  {
    var m' := m[ds[0].name := DefAttrs(ds[0], keys)];
    assert forall j :: 0 <= j < |ds[1..]| ==> ds[1..][j] == ds[j + 1];
    if i > 0 {
      RecordLast(m', ds[1..], keys, i - 1);
    } else {
      RecordUntouched(m', ds[1..], keys, ds[0].name);
    }
  }

  /** Registering a title, over a consistent state, is one step of the first-occurrence order. */
  lemma RegisterOrder(st: State, name: string, a: Attrs, liege: string)
    requires Consistent(st)
    ensures Register(st, name, a, liege).order == Distinct(st.order + [name])
  {
    assert NoRepeats(st.order);
    DistinctOfNoRepeats(st.order);
    DistinctLast(st.order, name);
  }

  lemma RegisterConsistent(st: State, name: string, a: Attrs, liege: string)
    requires Consistent(st) && name in a && name + "_adj" in a
    ensures Consistent(Register(st, name, a, liege))
  {
    RegisterSpec(st, name, a, liege);
  }

  /** The region step leaves the dictionaries and the definition order alone. */
  lemma TierStepRecords(st: State, name: string)
    requires TierStep(st, name).Ok?
    ensures TierStep(st, name).value.attrs == st.attrs && TierStep(st, name).value.order == st.order
  {
    TierStepSpec(st, name, {});
  }

  /** Registering a definition is one step of Record. */
  lemma RegisterAttrs(st: State, p: Pair, a: Attrs, liege: string, keys: set<string>)
    requires p.value.Block? && CollectAttrs(p.name, p.value.pairs, keys) == Ok(a)
    ensures Register(st, p.name, a, liege).attrs == Record(st.attrs, [p], keys)
  {
    assert [p][1..] == [];
  }

  /** A definition registered, then a stretch of the walk over its children D, records [p] + D. */
  lemma RegisterRecords(st: State, st1: State, p: Pair, a: Attrs, liege: string, keys: set<string>, D: seq<Pair>)
    requires Consistent(st) && p.value.Block? && CollectAttrs(p.name, p.value.pairs, keys) == Ok(a)
    requires var st0 := Register(st, p.name, a, liege);
      && st1.order == Distinct(st0.order + NamesIn(D))
      && st1.attrs == Record(st0.attrs, D, keys)
      && DefsCollect(D, keys)
    ensures st1.order == Distinct(st.order + NamesIn([p] + D))
    ensures st1.attrs == Record(st.attrs, [p] + D, keys)
    ensures DefsCollect([p] + D, keys)
  {
    var st0 := Register(st, p.name, a, liege);
    RegisterOrder(st, p.name, a, liege);
    RegisterAttrs(st, p, a, liege, keys);
    assert NamesIn([p]) == [p.name];
    ComposeRecords(st.order, st0.order, st1.order, st.attrs, st0.attrs, st1.attrs, [p], D, keys);
  }

  /** Walking nothing new leaves a consistent order as the first occurrences of itself. */
  lemma OrderUnchanged(st: State)
    requires Consistent(st)
    ensures Distinct(st.order + []) == st.order
  {
    assert st.order + [] == st.order;
    assert NoRepeats(st.order);
    DistinctOfNoRepeats(st.order);
  }

  /** Two successive stretches of a walk compose into one over the concatenated definitions. */
  lemma ComposeRecords(o: seq<string>, o1: seq<string>, o2: seq<string>, m: map<string, Attrs>, m1: map<string, Attrs>, m2: map<string, Attrs>,
                       D0: seq<Pair>, D1: seq<Pair>, keys: set<string>)
    requires o1 == Distinct(o + NamesIn(D0)) && o2 == Distinct(o1 + NamesIn(D1))
    requires m1 == Record(m, D0, keys) && m2 == Record(m1, D1, keys)
    requires DefsCollect(D0, keys) && DefsCollect(D1, keys)
    ensures o2 == Distinct(o + NamesIn(D0 + D1))
    ensures m2 == Record(m, D0 + D1, keys)
    ensures DefsCollect(D0 + D1, keys)
  {
    ComposeOrder(o, o1, o2, D0, D1);
    RecordConcat(m, D0, D1, keys);
    DefsCollectConcat(D0, D1, keys);
  }

  lemma ComposeOrder(o: seq<string>, o1: seq<string>, o2: seq<string>, D0: seq<Pair>, D1: seq<Pair>)
    requires o1 == Distinct(o + NamesIn(D0)) && o2 == Distinct(o1 + NamesIn(D1))
    ensures o2 == Distinct(o + NamesIn(D0 + D1))
  {
    var N0 := NamesIn(D0);
    var N1 := NamesIn(D1);
    NamesInConcat(D0, D1);
    DistinctAppend(o + N0, N1);
    ConcatAssoc(o, N0, N1);
  }

  lemma DefsCollectConcat(D0: seq<Pair>, D1: seq<Pair>, keys: set<string>)
    requires DefsCollect(D0, keys) && DefsCollect(D1, keys)
    ensures DefsCollect(D0 + D1, keys)
  {
  }

  /**
   * Over a consistent state, walking ps registers its definitions in
   * pre-order: the definition order gains the titles not seen before, in
   * the order of their first definitions, and every definition's dictionary
   * replaces the title's previous one.
   */
  lemma {:induction false} WalkPairsRecords(st: State, ps: seq<Pair>, liege: string, keys: set<string>, codename: string -> bool)
    decreases ps
    requires WalkPairs(st, ps, liege, keys, codename).Ok? && Consistent(st)
    ensures var st' := WalkPairs(st, ps, liege, keys, codename).value;
      && st'.order == Distinct(st.order + NamesIn(Defs(ps, codename)))
      && st'.attrs == Record(st.attrs, Defs(ps, codename), keys)
      && DefsCollect(Defs(ps, codename), keys)
  {
    if ps == [] {
      OrderUnchanged(st);
    } else {
      var st1 := WalkPair(st, ps[0], liege, keys, codename).value;
      var st2 := WalkPairs(st1, ps[1..], liege, keys, codename).value;
      assert WalkPairs(st, ps, liege, keys, codename).value == st2;
      WalkPairRecords(st, ps[0], liege, keys, codename);
      WalkPairExtends(st, ps[0], liege, keys, codename, {});
      WalkPairsRecords(st1, ps[1..], liege, keys, codename);
      assert Defs(ps, codename) == DefsOf(ps[0], codename) + Defs(ps[1..], codename);
      ComposeRecords(st.order, st1.order, st2.order, st.attrs, st1.attrs, st2.attrs,
                     DefsOf(ps[0], codename), Defs(ps[1..], codename), keys);
    }
  }

  lemma {:induction false} WalkPairRecords(st: State, p: Pair, liege: string, keys: set<string>, codename: string -> bool)
    decreases p
    requires WalkPair(st, p, liege, keys, codename).Ok? && Consistent(st)
    ensures var st' := WalkPair(st, p, liege, keys, codename).value;
      && st'.order == Distinct(st.order + NamesIn(DefsOf(p, codename)))
      && st'.attrs == Record(st.attrs, DefsOf(p, codename), keys)
      && DefsCollect(DefsOf(p, codename), keys)
  {
    if !codename(p.name) {
      OrderUnchanged(st);
    } else {
      var a := CollectAttrs(p.name, p.value.pairs, keys).value;
      CollectAttrsDefaults(p.name, p.value.pairs, keys);
      var st0 := Register(st, p.name, a, liege);
      RegisterConsistent(st, p.name, a, liege);
      WalkPairsRecords(st0, p.value.pairs, p.name, keys, codename);
      var st1 := WalkPairs(st0, p.value.pairs, p.name, keys, codename).value;
      TierStepRecords(st1, p.name);
      assert WalkPair(st, p, liege, keys, codename).value == TierStep(st1, p.name).value;
      RegisterRecords(st, st1, p, a, liege, keys, Defs(p.value.pairs, codename));
      assert DefsOf(p, codename) == [p] + Defs(p.value.pairs, codename);
    }
  }

  lemma {:induction false} WalkFilesRecords(st: State, files: seq<seq<Pair>>, keys: set<string>, codename: string -> bool)
    decreases files
    requires WalkFiles(st, files, keys, codename).Ok? && Consistent(st)
    ensures var st' := WalkFiles(st, files, keys, codename).value;
      && st'.order == Distinct(st.order + NamesIn(FileDefs(files, codename)))
      && st'.attrs == Record(st.attrs, FileDefs(files, codename), keys)
      && DefsCollect(FileDefs(files, codename), keys)
  {
    if files == [] {
      OrderUnchanged(st);
    } else {
      var st1 := WalkPairs(st, files[0], "", keys, codename).value;
      var st2 := WalkFiles(st1, files[1..], keys, codename).value;
      assert WalkFiles(st, files, keys, codename).value == st2;
      WalkPairsRecords(st, files[0], "", keys, codename);
      WalkPairsExtends(st, files[0], "", keys, codename, {});
      WalkFilesRecords(st1, files[1..], keys, codename);
      assert FileDefs(files, codename) == Defs(files[0], codename) + FileDefs(files[1..], codename);
      ComposeRecords(st.order, st1.order, st2.order, st.attrs, st1.attrs, st2.attrs,
                     Defs(files[0], codename), FileDefs(files[1..], codename), keys);
    }
  }

  /** The region names the seeding declared, and "no region". */
  function Declared(seeds: map<string, string>): (S: set<Option<string>>)
    ensures forall x :: x in S <==> x == None || exists d :: d in seeds && x == Some(seeds[d])
  {
    {None} + set d | d in seeds :: Some(seeds[d])
  }

  lemma InitialSpec(seeds: map<string, string>)
    ensures Consistent(Initial(seeds))
    ensures ValuesIn(Initial(seeds).region, Declared(seeds))
  {
    var st0 := Initial(seeds);
    forall t | t in st0.region ensures st0.region[t] in Declared(seeds) {
      assert t in seeds && st0.region[t] == Some(seeds[t]);
    }
  }

  lemma DeclaredValues(seeds: map<string, string>, reg: Regions)
    requires ValuesIn(reg, Declared(seeds))
    ensures forall t :: t in reg ==> reg[t] == None || exists d :: d in seeds && reg[t] == Some(seeds[d])
  {
    forall t | t in reg
      ensures reg[t] == None || exists d :: d in seeds && reg[t] == Some(seeds[d])
    {
      assert reg[t] in Declared(seeds);
    }
  }

  /**
   * process_landed_titles, end to end: the result records exactly the
   * codename titles of the files, each once and each with its name and
   * adjective keys; the definition order is the order of the titles' first
   * definitions in the pre-order listing of all files; each title's
   * dictionary is the collection of its last definition; every seeded
   * duchy keeps its region; and every inferred entry is a declared region
   * or "no region".
   */
  lemma LandedTitlesSpec(seeds: map<string, string>, files: seq<seq<Pair>>, keys: set<string>, codename: string -> bool)
    requires LandedTitles(seeds, files, keys, codename).Ok?
    ensures var st := LandedTitles(seeds, files, keys, codename).value;
      && Consistent(st)
      && st.attrs.Keys == FileNames(files, codename)
      && st.order == Distinct(NamesIn(FileDefs(files, codename)))
      && (var D := FileDefs(files, codename);
          forall i :: 0 <= i < |D| && (forall j :: i < j < |D| ==> D[j].name != D[i].name) ==>
            && D[i].value.Block? && D[i].name in st.attrs
            && CollectAttrs(D[i].name, D[i].value.pairs, keys) == Ok(st.attrs[D[i].name]))
      && (forall d :: d in seeds ==> d in st.region && st.region[d] == Some(seeds[d]))
      && (forall t :: t in st.region ==> st.region[t] == None || exists d :: d in seeds && st.region[t] == Some(seeds[d]))
  {
    var S := Declared(seeds);
    InitialSpec(seeds);
    WalkFilesExtends(Initial(seeds), files, keys, codename, S);
    DeclaredValues(seeds, LandedTitles(seeds, files, keys, codename).value.region);
    LastDefinitions(seeds, files, keys, codename);
  }

  /** The definition order and the dictionaries of a whole run, from the walk's records. */
  lemma LastDefinitions(seeds: map<string, string>, files: seq<seq<Pair>>, keys: set<string>, codename: string -> bool)
    requires LandedTitles(seeds, files, keys, codename).Ok?
    ensures var st := LandedTitles(seeds, files, keys, codename).value;
      && st.order == Distinct(NamesIn(FileDefs(files, codename)))
      && (var D := FileDefs(files, codename);
          forall i :: 0 <= i < |D| && (forall j :: i < j < |D| ==> D[j].name != D[i].name) ==>
            && D[i].value.Block? && D[i].name in st.attrs
            && CollectAttrs(D[i].name, D[i].value.pairs, keys) == Ok(st.attrs[D[i].name]))
  {
    var st0 := Initial(seeds);
    var st := LandedTitles(seeds, files, keys, codename).value;
    var D := FileDefs(files, codename);
    InitialSpec(seeds);
    WalkFilesRecords(st0, files, keys, codename);
    assert st0.order + NamesIn(D) == NamesIn(D);
    forall i | 0 <= i < |D| && (forall j :: i < j < |D| ==> D[j].name != D[i].name)
      ensures D[i].value.Block? && D[i].name in st.attrs
      ensures CollectAttrs(D[i].name, D[i].value.pairs, keys) == Ok(st.attrs[D[i].name])
    {
      RecordLast(st0.attrs, D, keys, i);
      assert D[i] in D;
    }
  }

  // ---------------------------------------------------------------------
  // A worked walk
  // ---------------------------------------------------------------------

  /** The shape of a title codename: a tier letter and an underscore. */
  predicate TitleShaped(name: string) {
    |name| >= 2 && name[0] in "ekdcb" && name[1] == '_'
  }

  /** The tally of a single vote. */
  lemma CountSingle(x: Option<string>)
    ensures Count([x]) == [(x, 1)]
  {
    assert [x][..0] == [];
    assert Distinct([x]) == [x];
  }

  /** A duchy whose one vassal is an unmapped leaf hands the duchy's entry to it. */
  lemma DuchyOfLeaf(reg: Regions, V: Vassals, d: string, c: string)
    requires Get(V, d) == [c] && c !in reg && c !in V
    ensures DuchyStep(reg, V, d) == reg[c := RegionOf(reg, d)]
  {
    var r := RegionOf(reg, d);
    assert Fill(reg, V, c, r) == reg[c := r];
    assert FillAll(reg, V, [c], r) == FillAll(reg[c := r], V, [], r);
  }

  /** Filling an unmapped title whose one vassal is mapped maps that title alone. */
  lemma FillOverMapped(reg: Regions, V: Vassals, k: string, d: string, r: Option<string>)
    requires Get(V, k) == [d] && k in V && k !in reg && d in reg && d != k
    ensures Fill(reg, V, k, r) == reg[k := r]
  {
    var R := reg[k := r];
    assert Fill(R, V, d, r) == R;
    assert FillAll(R, V, [d], r) == FillAll(R, V, [], r);
  }

  /** A county with no children: registered, and its region step does nothing. */
  lemma ExampleCounty(st: State, c: string, liege: string)
    requires TitleShaped(c) && c[0] == 'c'
    ensures WalkPairs(st, [Pair(c, Block([]))], liege, {}, TitleShaped) == Ok(Register(st, c, Defaults(c), liege))
  {
    var st1 := Register(st, c, Defaults(c), liege);
    assert WalkPair(st, Pair(c, Block([])), liege, {}, TitleShaped) == Ok(st1);
  }

  /** A duchy holding one such county hands the duchy's entry to the county. */
  lemma ExampleDuchy(st: State, d: string, c: string, liege: string)
    requires TitleShaped(d) && d[0] == 'd' && TitleShaped(c) && c[0] == 'c'
    requires c !in st.region && c !in st.vassals && d !in st.vassals && liege != d && liege != c
    ensures var st1 := Register(Register(st, d, Defaults(d), liege), c, Defaults(c), d);
      WalkPairs(st, [Pair(d, Block([Pair(c, Block([]))]))], liege, {}, TitleShaped)
        == Ok(st1.(region := st.region[c := RegionOf(st.region, d)]))
  {
    var dp := Pair(d, Block([Pair(c, Block([]))]));
    var st0 := Register(st, d, Defaults(d), liege);
    ExampleCounty(st0, c, d);
    var st1 := Register(st0, c, Defaults(c), d);
    assert Get(st1.vassals, d) == [c];
    DuchyOfLeaf(st1.region, st1.vassals, d, c);
    assert CollectAttrs(d, dp.value.pairs, {}) == Ok(Defaults(d)) by {
      assert CollectFrom(Defaults(d), dp.value.pairs, {}) == CollectFrom(Defaults(d), [], {});
    }
    assert TierStep(st1, d) == Ok(st1.(region := st.region[c := RegionOf(st.region, d)]));
    assert WalkPair(st, dp, liege, {}, TitleShaped) == Ok(st1.(region := st.region[c := RegionOf(st.region, d)]));
  }

  lemma ExampleNames()
    ensures TitleShaped("k_test") && TitleShaped("d_test") && TitleShaped("c_test")
    ensures "k_test" != "d_test" && "k_test" != "c_test" && "d_test" != "c_test"
    ensures "k_test" != "" && "d_test" != "" && "c_test" != ""
  {
    assert "k_test"[0] != "d_test"[0] && "k_test"[0] != "c_test"[0] && "d_test"[0] != "c_test"[0];
  }

  /** One codename node whose attributes and children are already known. */
  lemma WalkTitleStep(st: State, p: Pair, liege: string, keys: set<string>, codename: string -> bool, a: Attrs, st1: State)
    requires codename(p.name) && p.value.Block?
    requires CollectAttrs(p.name, p.value.pairs, keys) == Ok(a)
    requires WalkPairs(Register(st, p.name, a, liege), p.value.pairs, p.name, keys, codename) == Ok(st1)
    ensures WalkPair(st, p, liege, keys, codename) == TierStep(st1, p.name)
  {
  }

  /** A kingdom whose one vassal is mapped takes that vassal's entry. */
  lemma KingdomOfMapped(st: State, k: string, d: string)
    requires |k| > 0 && k[0] == 'k' && k != d
    requires k in st.vassals && st.vassals[k] == [d] && d in st.region && k !in st.region
    ensures TierStep(st, k) == Ok(st.(region := st.region[k := st.region[d]]))
  {
    var r := st.region[d];
    assert Known(st.region, [d]) == [r];
    CountSingle(r);
    assert Winner(k, [r]) == Ok(r);
    FillOverMapped(st.region, st.vassals, k, d, r);
  }

  /** The example's state once the duchy's subtree is walked. */
  function ExampleAfterDuchy(north: Option<string>): State {
    State(map["k_test" := Defaults("k_test"), "d_test" := Defaults("d_test"), "c_test" := Defaults("c_test")],
          ["k_test", "d_test", "c_test"],
          map["k_test" := ["d_test"], "d_test" := ["c_test"]],
          map["d_test" := north, "c_test" := north])
  }

  lemma RegisterKingdomExample(region: Regions)
    ensures Register(State(map[], [], map[], region), "k_test", Defaults("k_test"), "")
      == State(map["k_test" := Defaults("k_test")], ["k_test"], map[], region)
  {
  }

  lemma RegisterDuchyExample(region: Regions)
    ensures Register(State(map["k_test" := Defaults("k_test")], ["k_test"], map[], region), "d_test", Defaults("d_test"), "k_test")
      == State(map["k_test" := Defaults("k_test"), "d_test" := Defaults("d_test")], ["k_test", "d_test"],
               map["k_test" := ["d_test"]], region)
  {
    ExampleNames();
    assert Get(map[], "k_test") + ["d_test"] == ["d_test"];
  }

  lemma RegisterCountyExample(region: Regions)
    ensures Register(State(map["k_test" := Defaults("k_test"), "d_test" := Defaults("d_test")], ["k_test", "d_test"],
                           map["k_test" := ["d_test"]], region), "c_test", Defaults("c_test"), "d_test")
      == ExampleAfterDuchy(None).(region := region)
  {
    ExampleNames();
    assert Get(map["k_test" := ["d_test"]], "d_test") + ["c_test"] == ["c_test"];
  }

  lemma ExampleDuchyWalked(st: State, north: Option<string>)
    requires st == State(map[], [], map[], map["d_test" := north])
    ensures WalkPairs(Register(st, "k_test", Defaults("k_test"), ""),
                      [Pair("d_test", Block([Pair("c_test", Block([]))]))], "k_test", {}, TitleShaped)
            == Ok(ExampleAfterDuchy(north))
  {
    ExampleNames();
    RegisterKingdomExample(st.region);
    RegisterDuchyExample(st.region);
    RegisterCountyExample(st.region);
    var st1 := Register(st, "k_test", Defaults("k_test"), "");
    ExampleDuchy(st1, "d_test", "c_test", "k_test");
    assert RegionOf(st1.region, "d_test") == north;
    assert st1.region["c_test" := north] == ExampleAfterDuchy(north).region;
  }

  /** The example's state once the kingdom has taken its one vassal's entry. */
  lemma ExampleAfterDuchyShape(north: Option<string>)
    ensures var st := ExampleAfterDuchy(north);
      && "k_test" in st.vassals && st.vassals["k_test"] == ["d_test"]
      && "d_test" in st.region && st.region["d_test"] == north && "k_test" !in st.region
      && st.(region := st.region["k_test" := north])
         == ExampleAfterDuchy(north).(region := map["d_test" := north, "c_test" := north, "k_test" := north])
  {
    ExampleNames();
  }

  /** The walk of a kingdom holding one duchy holding one county, from a state where only the duchy is mapped. */
  lemma ExampleKingdom(st: State, north: Option<string>)
    requires st == State(map[], [], map[], map["d_test" := north])
    ensures var k := Pair("k_test", Block([Pair("d_test", Block([Pair("c_test", Block([]))]))]));
      WalkPairs(st, [k], "", {}, TitleShaped) == Ok(ExampleAfterDuchy(north).(region := map["d_test" := north, "c_test" := north, "k_test" := north]))
  {
    var k := Pair("k_test", Block([Pair("d_test", Block([Pair("c_test", Block([]))]))]));
    ExampleNames();
    KingdomAttrsExample();
    ExampleDuchyWalked(st, north);
    KingdomVoteExample(north);
    WalkTitleStep(st, k, "", {}, TitleShaped, Defaults("k_test"), ExampleAfterDuchy(north));
  }

  lemma KingdomAttrsExample()
    ensures CollectAttrs("k_test", [Pair("d_test", Block([Pair("c_test", Block([]))]))], {}) == Ok(Defaults("k_test"))
  {
    var ps := [Pair("d_test", Block([Pair("c_test", Block([]))]))];
    assert CollectFrom(Defaults("k_test"), ps, {}) == CollectFrom(Defaults("k_test"), [], {});
  }

  lemma KingdomVoteExample(north: Option<string>)
    ensures TierStep(ExampleAfterDuchy(north), "k_test")
      == Ok(ExampleAfterDuchy(north).(region := map["d_test" := north, "c_test" := north, "k_test" := north]))
  {
    ExampleAfterDuchyShape(north);
    KingdomOfMapped(ExampleAfterDuchy(north), "k_test", "d_test");
  }

  /**
   * A kingdom holding a seeded duchy holding an unseeded county: the duchy
   * hands its region down to the county, then the kingdom's vote over its
   * one mapped vassal gives it the same region.
   */
  lemma WalkExample()
    ensures var k := Pair("k_test", Block([Pair("d_test", Block([Pair("c_test", Block([]))]))]));
      var r := LandedTitles(map["d_test" := "north"], [[k]], {}, TitleShaped);
      && r.Ok?
      && r.value.region == map["d_test" := Some("north"), "c_test" := Some("north"), "k_test" := Some("north")]
      && r.value.order == ["k_test", "d_test", "c_test"]
      && Get(r.value.vassals, "k_test") == ["d_test"]
      && Get(r.value.vassals, "d_test") == ["c_test"]
  {
    var st0 := Initial(map["d_test" := "north"]);
    assert st0 == State(map[], [], map[], map["d_test" := Some("north")]);
    ExampleKingdom(st0, Some("north"));
  }

  // ---------------------------------------------------------------------
  // The walk over the original's dictionaries
  // ---------------------------------------------------------------------

  /** The outcome of an operation that can abort: None on success. */
  predicate Outcome<T>(w: Result<T>, err: Option<Error>) {
    (w.Ok? <==> err.None?) && (w.Fail? ==> err == Some(w.error))
  }

  /**
   * The four dictionaries process_landed_titles keeps: the attributes per
   * title (with their key order), the vassal lists, and the region entries
   * it shares with the seeding.
   */
  class Titles {
    var attrs: map<string, Attrs>
    var order: seq<string>
    var vassals: Vassals
    var region: Regions

    function Snapshot(): State
      reads this
    {
      State(attrs, order, vassals, region)
    }

    /** Start from the seeded regions, with nothing recorded. */
    constructor (seeds: map<string, string>)
      ensures Snapshot() == Initial(seeds)
    {
      attrs := map[];
      order := [];
      vassals := map[];
      region := map d | d in seeds :: Some(seeds[d]);
    }

    /** rerecurse: map an unmapped title to r, then each vassal subtree in turn. */
    method Rerecurse(title: string, r: Option<string>)
      modifies this`region
      decreases |vassals.Keys - region.Keys|, 0
      ensures region == Fill(old(region), vassals, title, r)
    {
      if title !in region {
        region := region[title := r];
        if title in vassals {
          CardShrink(vassals.Keys, old(region).Keys, region.Keys, title);
          RerecurseVassals(vassals[title], r);
        }
      }
    }

    /** The loop of rerecurse over a title's vassals. */
    method RerecurseVassals(ts: seq<string>, r: Option<string>)
      modifies this`region
      decreases |vassals.Keys - region.Keys|, 1
      ensures region == FillAll(old(region), vassals, ts, r)
    {
      var j := 0;
      while j < |ts|
        invariant 0 <= j <= |ts|
        invariant old(region).Keys <= region.Keys
        invariant FillAll(old(region), vassals, ts, r) == FillAll(region, vassals, ts[j..], r)
      {
        assert ts[j..][1..] == ts[j + 1..];
        CardMono(vassals.Keys, old(region).Keys, region.Keys);
        Rerecurse(ts[j], r);
        j := j + 1;
      }
    }

    /** Record a title's dictionary and append it to its liege's vassals. */
    method RegisterTitle(name: string, a: Attrs, liege: string)
      modifies this`attrs, this`order, this`vassals
      ensures Snapshot() == Register(old(Snapshot()), name, a, liege)
    {
      if name !in attrs {
        order := order + [name];
      }
      attrs := attrs[name := a];
      if liege != "" {
        vassals := vassals[liege := Get(vassals, liege) + [name]];
      }
    }

    /** The region step once a title's subtree is walked: the duchy hand-down or the vote. */
    method RegionStep(name: string) returns (err: Option<Error>)
      modifies this`region
      ensures Outcome(TierStep(old(Snapshot()), name), err)
      ensures err.None? ==> Snapshot() == TierStep(old(Snapshot()), name).value
    {
      if |name| == 0 {
        return Some(EmptyCodename);
      }
      if name[0] == 'd' {
        var r := RegionOf(region, name);
        var vs := Get(vassals, name);
        var j := 0;
        while j < |vs|
          invariant 0 <= j <= |vs|
          invariant DuchyStep(old(region), vassals, name) == FillAll(region, vassals, vs[j..], r)
        {
          assert vs[j..][1..] == vs[j + 1..];
          Rerecurse(vs[j], r);
          j := j + 1;
        }
      } else if name[0] == 'e' || name[0] == 'k' {
        var es := Known(region, Get(vassals, name));
        if es != [] {
          var w := Winner(name, es);
          if w.Fail? {
            return Some(w.error);
          }
          Rerecurse(name, w.value);
        }
      }
      err := None;
    }

    /** recurse: walk the nodes ps under liege, in order. */
    method Recurse(ps: seq<Pair>, liege: string, keys: set<string>, codename: string -> bool) returns (err: Option<Error>)
      modifies this
      decreases ps
      ensures Outcome(WalkPairs(old(Snapshot()), ps, liege, keys, codename), err)
      ensures err.None? ==> Snapshot() == WalkPairs(old(Snapshot()), ps, liege, keys, codename).value
    {
      var i := 0;
      while i < |ps|
        invariant 0 <= i <= |ps|
        invariant WalkPairs(old(Snapshot()), ps, liege, keys, codename) == WalkPairs(Snapshot(), ps[i..], liege, keys, codename)
      {
        assert ps[i..][1..] == ps[i + 1..];
        var p := ps[i];
        if codename(p.name) {
          if !p.value.Block? {
            return Some(NotABlock(p.name));
          }
          ghost var before := Snapshot();
          var a := CollectAttrsLoop(p.name, p.value.pairs, keys);
          if a.Fail? {
            return Some(a.error);
          }
          RegisterTitle(p.name, a.value, liege);
          var e := Recurse(p.value.pairs, p.name, keys, codename);
          if e.Some? {
            return e;
          }
          e := RegionStep(p.name);
          if e.Some? {
            return e;
          }
          assert WalkPair(before, p, liege, keys, codename) == Ok(Snapshot());
        }
        i := i + 1;
      }
      err := None;
    }

    /** The loop over the title files, each walked from the top. */
    method WalkFilesLoop(files: seq<seq<Pair>>, keys: set<string>, codename: string -> bool) returns (err: Option<Error>)
      modifies this
      ensures Outcome(WalkFiles(old(Snapshot()), files, keys, codename), err)
      ensures err.None? ==> Snapshot() == WalkFiles(old(Snapshot()), files, keys, codename).value
    {
      var f := 0;
      while f < |files|
        invariant 0 <= f <= |files|
        invariant WalkFiles(old(Snapshot()), files, keys, codename) == WalkFiles(Snapshot(), files[f..], keys, codename)
      {
        assert files[f..][1..] == files[f + 1..];
        var e := Recurse(files[f], "", keys, codename);
        if e.Some? {
          return e;
        }
        f := f + 1;
      }
      err := None;
    }
  }

  /** process_landed_titles: walk every title file over the seeded regions. */
  method ProcessLandedTitles(seeds: map<string, string>, files: seq<seq<Pair>>, keys: set<string>, codename: string -> bool)
    returns (titles: Titles, err: Option<Error>)
    ensures fresh(titles)
    ensures Outcome(LandedTitles(seeds, files, keys, codename), err)
    ensures err.None? ==> titles.Snapshot() == LandedTitles(seeds, files, keys, codename).value
  {
    titles := new Titles(seeds);
    err := titles.WalkFilesLoop(files, keys, codename);
  }
}
