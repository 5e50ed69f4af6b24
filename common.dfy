/**
 * Shared vocabulary of the model: optional values, results of operations
 * that can abort the run, the abstract definition tree produced by the game
 * script parser, and the few string operations the core relies on
 * (prefix test, space join, Python's ordering of strings, decimal digits).
 */
module Common {

  datatype Option<T> = None | Some(value: T)

  /** Every way the core can abort a run (an exception or a failed assertion in the original). */
  datatype Error =
    | NotABlock(name: string)       // a node that must hold a nested block holds something else
    | NotScalar(name: string)       // a value that must be a scalar or a list of scalars is a block
    | RegionArity(name: string)     // a region declaration with other than exactly one child
    | NoDuchies(name: string)       // a region declaration whose only child is not `duchies`
    | VoteTypeError(title: string)  // the vote compared "no region" with a region name
    | EmptyCodename                 // a codename with no first character to take its tier from

  datatype Result<T> = Ok(value: T) | Fail(error: Error)

  /**
   * The parser's tree: a node is a (name, value) pair; a value is a scalar,
   * a brace-enclosed list of scalars, or a brace-enclosed block of further
   * pairs. An empty pair of braces is the block with no pairs.
   */
  datatype Value = Atom(text: string) | List(items: seq<string>) | Block(pairs: seq<Pair>)
  datatype Pair = Pair(name: string, value: Value)

  /** The scalars a value iterates over when used as a list (the empty block yields none). */
  function Scalars(v: Value): (r: Option<seq<string>>)
    ensures r.Some? <==> v.List? || v == Block([])
    ensures v.List? ==> r == Some(v.items)
    ensures v == Block([]) ==> r == Some([])
  {
    match v
    case List(items) => Some(items)
    case Block(ps) => if ps == [] then Some([]) else None
    case Atom(_) => None
  }

  predicate StartsWith(s: string, prefix: string) {
    |prefix| <= |s| && s[..|prefix|] == prefix
  }

  /** Python's `sep.join(items)`. */
  function Join(items: seq<string>, sep: string): string
  {
    if items == [] then ""
    else if |items| == 1 then items[0]
    else items[0] + sep + Join(items[1..], sep)
  }

  /** Python's `a < b` on strings: lexicographic by code point, a proper prefix first. */
  predicate StrLess(a: string, b: string)
  {
    if b == [] then false
    else if a == [] then true
    else if a[0] != b[0] then a[0] < b[0]
    else StrLess(a[1..], b[1..])
  }

  lemma {:induction false} StrLessIrreflexive(a: string)
    ensures !StrLess(a, a)
  {
    if a != [] {
      StrLessIrreflexive(a[1..]);
    }
  }

  lemma {:induction false} StrLessAsymmetric(a: string, b: string)
    ensures StrLess(a, b) ==> !StrLess(b, a)
  {
    if a != [] && b != [] && a[0] == b[0] {
      StrLessAsymmetric(a[1..], b[1..]);
    }
  }

  lemma {:induction false} StrLessTransitive(a: string, b: string, c: string)
    requires StrLess(a, b) && StrLess(b, c)
    ensures StrLess(a, c)
  {
    if a != [] && a[0] == b[0] && b[0] == c[0] {
      StrLessTransitive(a[1..], b[1..], c[1..]);
    }
  }

  lemma {:induction false} StrLessTotal(a: string, b: string)
    ensures a == b || StrLess(a, b) || StrLess(b, a)
  {
    if a != [] && b != [] && a[0] == b[0] {
      StrLessTotal(a[1..], b[1..]);
      if a[1..] == b[1..] {
        assert a == [a[0]] + a[1..] && b == [b[0]] + b[1..];
      }
    }
  }

  lemma ConcatAssoc<T>(a: seq<T>, b: seq<T>, c: seq<T>)
    ensures a + b + c == a + (b + c)
  {
  }

  // ---------------------------------------------------------------------
  // First occurrences
  // ---------------------------------------------------------------------

  /** The position of the first occurrence of x in s. */
  function FirstIndex<T(==)>(s: seq<T>, x: T): (k: nat)
    requires x in s
    ensures k < |s| && s[k] == x && forall m :: 0 <= m < k ==> s[m] != x
  {
    if s[0] == x then 0 else 1 + FirstIndex(s[1..], x)
  }

  /** The elements of s with every repetition dropped, kept at their first occurrence. */
  function Distinct<T(==)>(s: seq<T>): seq<T>
  {
    if s == [] then []
    else
      var init := s[..|s| - 1];
      Distinct(init) + (if s[|s| - 1] in init then [] else [s[|s| - 1]])
  }

  predicate NoRepeats<T(==)>(s: seq<T>) {
    forall i, j :: 0 <= i < j < |s| ==> s[i] != s[j]
  }

  /** FirstIndex of a sequence with one element in front. */
  lemma FirstIndexCons<T>(a: T, s: seq<T>, x: T)
    ensures FirstIndex([a] + s, a) == 0
    ensures x != a && x in s ==> FirstIndex([a] + s, x) == 1 + FirstIndex(s, x)
  {
    if x != a && x in s {
      assert ([a] + s)[1..] == s;
    }
  }

  /** u lists elements of s in the order of their first occurrences in s. */
  predicate InOrderOf<T(==)>(u: seq<T>, s: seq<T>) {
    forall i, j :: 0 <= i < j < |u| ==> u[i] in s && u[j] in s && FirstIndex(s, u[i]) < FirstIndex(s, u[j])
  }

  /** The order is kept when both sides gain the same element in front, which u's tail does not hold. */
  lemma InOrderOfCons<T>(a: T, tl: seq<T>, h: seq<T>, rest: seq<T>)
    requires h == [] || h == [a]
    requires forall q :: 0 <= q < |rest| ==> rest[q] in tl && rest[q] != a
    requires InOrderOf(rest, tl)
    ensures InOrderOf(h + rest, [a] + tl)
  {
    var u := h + rest;
    var s := [a] + tl;
    forall i, j | 0 <= i < j < |u| ensures u[i] in s && u[j] in s && FirstIndex(s, u[i]) < FirstIndex(s, u[j]) {
      ConsPosition(a, tl, h, rest, i);
      ConsPosition(a, tl, h, rest, j);
    }
  }

  lemma ConsPosition<T>(a: T, tl: seq<T>, h: seq<T>, rest: seq<T>, i: int)
    requires h == [] || h == [a]
    requires forall q :: 0 <= q < |rest| ==> rest[q] in tl && rest[q] != a
    requires 0 <= i < |h + rest|
    ensures (h + rest)[i] in [a] + tl
    ensures i < |h| ==> FirstIndex([a] + tl, (h + rest)[i]) == 0
    ensures i >= |h| ==> FirstIndex([a] + tl, (h + rest)[i]) == 1 + FirstIndex(tl, rest[i - |h|])
  {
    var x := (h + rest)[i];
    if i < |h| {
      assert x == a;
      FirstIndexCons(a, tl, a);
    } else {
      assert x == rest[i - |h|];
      FirstIndexCons(a, tl, x);
    }
  }

  /** An occurrence in a prefix is found there first. */
  lemma FirstIndexPrefix<T>(a: seq<T>, b: seq<T>, x: T)
    requires x in a
    ensures FirstIndex(a + b, x) == FirstIndex(a, x)
  {
    var k1 := FirstIndex(a + b, x);
    var k2 := FirstIndex(a, x);
    assert (a + b)[k2] == x;
    assert k1 <= k2;
    assert a[k1] == (a + b)[k1];
  }

  /**
   * Distinct lists every element of s and nothing else, each once, in the
   * order of their first occurrences in s.
   */
  lemma {:induction false} DistinctSpec<T>(s: seq<T>)
    decreases |s|
    ensures forall x :: x in Distinct(s) ==> x in s
    ensures forall x :: x in s ==> x in Distinct(s)
    ensures NoRepeats(Distinct(s))
    ensures |s| > 0 ==> |Distinct(s)| > 0
    ensures forall i, j :: 0 <= i < j < |Distinct(s)| ==> FirstIndex(s, Distinct(s)[i]) < FirstIndex(s, Distinct(s)[j])
  {
    if s != [] {
      var init := s[..|s| - 1];
      var e := s[|s| - 1];
      DistinctSpec(init);
      assert s == init + [e];
      var D := Distinct(s);
      var Di := Distinct(init);
      assert D == Di + (if e in init then [] else [e]);
      forall i, j | 0 <= i < j < |D|
        ensures FirstIndex(s, D[i]) < FirstIndex(s, D[j])
      {
        assert i < |Di|;
        assert D[i] == Di[i] && Di[i] in Di;
        assert D[i] in init;
        FirstIndexPrefix(init, [e], D[i]);
        if j < |Di| {
          assert D[j] == Di[j];
          FirstIndexPrefix(init, [e], D[j]);
        } else {
          assert D[j] == e && e !in init;
          assert FirstIndex(s, e) == |init|;
        }
      }
    }
  }

  /** A sequence without repetitions is its own Distinct. */
  lemma {:induction false} DistinctOfNoRepeats<T>(s: seq<T>)
    requires NoRepeats(s)
    decreases |s|
    ensures Distinct(s) == s
  {
    if s != [] {
      var init := s[..|s| - 1];
      assert NoRepeats(init);
      DistinctOfNoRepeats(init);
      assert s[|s| - 1] !in init;
      assert s == init + [s[|s| - 1]];
    }
  }

  /** Dropping repetitions early changes nothing about the final result. */
  lemma {:induction false} DistinctAppend<T>(a: seq<T>, b: seq<T>)
    decreases |b|
    ensures Distinct(Distinct(a) + b) == Distinct(a + b)
  {
    var A := Distinct(a);
    if b == [] {
      assert A + b == A && a + b == a;
      DistinctSpec(a);
      DistinctOfNoRepeats(A);
    } else {
      var b' := b[..|b| - 1];
      var x := b[|b| - 1];
      DistinctAppend(a, b');
      DistinctLast(A + b', x);
      DistinctLast(a + b', x);
      assert A + b == (A + b') + [x] && a + b == (a + b') + [x];
      DistinctSpec(a);
      assert (x in A + b') <==> (x in a + b');
    }
  }

  /** One more element at the end: Distinct's own recursion, stated for s + [x]. */
  lemma DistinctLast<T>(s: seq<T>, x: T)
    ensures Distinct(s + [x]) == Distinct(s) + (if x in s then [] else [x])
  {
    assert (s + [x])[..|s|] == s;
  }

  predicate IsDigit(c: char) { '0' <= c <= '9' }

  predicate AllDigits(s: string) { forall i :: 0 <= i < |s| ==> IsDigit(s[i]) }

  /** Python's `int(s)` for a non-empty string of ASCII digits. */
  function DigitsValue(s: string): nat
    requires AllDigits(s)
  {
    if s == [] then 0
    else DigitsValue(s[..|s| - 1]) * 10 + (s[|s| - 1] as int - '0' as int)
  }
}
