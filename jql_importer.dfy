/**
 * The best-effort importer of query text (src/components/JQLBuilder.tsx:374-442):
 * the text is cut at every `AND` surrounded by white space, each non-blank
 * piece is matched against the clause pattern
 * `^([a-zA-Z]+)\s*(=|!=|>=|<=|>|<|~|!~|in|not\s+in)\s*(.+)$` (case-insensitive),
 * and every piece becomes one condition.
 *
 * Both regular expressions are written out as the searches the ECMAScript
 * matcher performs, and each search is proved to find exactly what the
 * pattern describes, in the order the backtracking matcher tries it.
 */
module JqlImporter {
  import opened Wrappers
  import opened Seqs
  import opened Text
  import opened JqlModel

  // ---------------------------------------------------------------------
  // `importText.split(/\s+AND\s+/i)`

  /** `AND` in any letter case starts at `i`, as the `i` flag compares it. */
  predicate AndAt(s: string, i: nat) {
    i + 3 <= |s| && (s[i] == 'a' || s[i] == 'A') && (s[i + 1] == 'n' || s[i + 1] == 'N')
    && (s[i + 2] == 'd' || s[i + 2] == 'D')
  }

  /** `t` is one whole match of `\s+AND\s+` under the `i` flag. */
  predicate IsDelimiter(t: string) {
    exists a :: 0 < a && a + 3 < |t| && AllSpace(t[..a]) && AndAt(t, a) && AllSpace(t[a + 3..])
  }

  /** A prefix of white space reaches no further than the white-space run. */
  lemma {:induction false} AllSpaceWithinRun(s: string, i: nat, j: nat)
    requires i <= j <= |s|
    ensures AllSpace(s[i..j]) <==> j - i <= SpaceRun(s, i)
  {
    SpaceRunSpaces(s, i);
    if j - i > SpaceRun(s, i) {
      var k := i + SpaceRun(s, i);
      assert s[i..j][k - i] == s[k];
    }
  }

  /**
   * Where the match of `\s+AND\s+` that starts exactly at `q` ends, if there
   * is one. Each `\s+` takes the whole white-space run: giving characters
   * back would leave white space where a letter or the end is needed.
   */
  function DelimEnd(s: string, q: nat): (e: Option<nat>)
    requires q <= |s|
    ensures e.Some? ==> q < e.value <= |s|
  {
    var a := SpaceRun(s, q);
    if 0 < a && AndAt(s, q + a) && SpaceRun(s, q + a + 3) > 0 then
      Some(q + a + 3 + SpaceRun(s, q + a + 3))
    else
      None
  }

  /**
   * DelimEnd finds a match of `\s+AND\s+` at `q` exactly when there is one,
   * and the one it finds is followed by no further white space.
   */
  lemma DelimEndMatches(s: string, q: nat)
    requires q <= |s|
    ensures var e := DelimEnd(s, q);
      && (e.Some? ==> IsDelimiter(s[q..e.value]))
      && (e.Some? ==> e.value == |s| || !IsSpace(s[e.value]))
      && (e.None? ==> forall e' :: q <= e' <= |s| ==> !IsDelimiter(s[q..e']))
  {
    var a := SpaceRun(s, q);
    if 0 < a && AndAt(s, q + a) && SpaceRun(s, q + a + 3) > 0 {
      var b := SpaceRun(s, q + a + 3);
      DelimEndIs(s, q, a, b, q + a + 3 + b);
      DelimEndSome(s, q, a, b, q + a + 3 + b);
    } else {
      DelimEndNone(s, q);
    }
  }

  /** The greedy reading is a delimiter. */
  lemma DelimEndSome(s: string, q: nat, a: nat, b: nat, e: nat)
    requires q <= |s| && a == SpaceRun(s, q) && 0 < a && AndAt(s, q + a)
    requires b == SpaceRun(s, q + a + 3) && 0 < b && e == q + a + 3 + b
    ensures e <= |s| && IsDelimiter(s[q..e]) && (e == |s| || !IsSpace(s[e]))
  {
    var t := s[q..e];
    assert t[..a] == s[q..q + a];
    assert t[a..a + 3] == s[q + a..q + a + 3];
    assert t[a + 3..] == s[q + a + 3..e];
    AllSpaceWithinRun(s, q, q + a);
    AllSpaceWithinRun(s, q + a + 3, e);
  }

  /** Any delimiter starting at `q` is the greedy reading. */
  lemma DelimiterIsGreedy(s: string, q: nat, e: nat, a: nat)
    requires q <= e <= |s|
    requires 0 < a && a + 3 < e - q && AllSpace(s[q..e][..a]) && AndAt(s[q..e], a)
    requires AllSpace(s[q..e][a + 3..])
    ensures a == SpaceRun(s, q) && AndAt(s, q + a) && SpaceRun(s, q + a + 3) > 0
  {
    var t := s[q..e];
    assert t[..a] == s[q..q + a];
    AllSpaceWithinRun(s, q, q + a);
    SpaceRunSpaces(s, q);
    assert t[a] == s[q + a] && t[a + 1] == s[q + a + 1] && t[a + 2] == s[q + a + 2];
    assert !IsSpace(s[q + a]);
    assert IsSpace(t[a + 3]);
  }

  /** Why no delimiter starts at `q` when the greedy reading fails. */
  lemma DelimEndNone(s: string, q: nat)
    requires q <= |s|
    requires !(0 < SpaceRun(s, q) && AndAt(s, q + SpaceRun(s, q)) && SpaceRun(s, q + SpaceRun(s, q) + 3) > 0)
    ensures forall e' :: q <= e' <= |s| ==> !IsDelimiter(s[q..e'])
  {
    forall e' | q <= e' <= |s| && IsDelimiter(s[q..e'])
      ensures false
    {
      var t := s[q..e'];
      var a :| 0 < a && a + 3 < |t| && AllSpace(t[..a]) && AndAt(t, a) && AllSpace(t[a + 3..]);
      DelimiterIsGreedy(s, q, e', a);
    }
  }

  /**
   * The SplitMatcher scan of `String.prototype.split`: `p` is where the
   * current piece began and `q` the next position a delimiter is tried at.
   */
  function SplitFrom(s: string, p: nat, q: nat): (r: seq<string>)
    requires p <= q <= |s|
    ensures |r| >= 1
    decreases |s| - q
  {
    if q == |s| then [s[p..]]
    else
      match DelimEnd(s, q)
      case None => SplitFrom(s, p, q + 1)
      case Some(e) => [s[p..q]] + SplitFrom(s, e, e)
  }

  /** `s.split(/\s+AND\s+/i)` */
  function SplitAnd(s: string): seq<string> {
    SplitFrom(s, 0, 0)
  }

  /** Without a delimiter from `q` on, the rest of the text is one piece. */
  lemma {:induction false} SplitFromNoDelimiter(s: string, p: nat, q: nat)
    requires p <= q <= |s|
    requires forall i :: q <= i < |s| ==> DelimEnd(s, i).None?
    ensures SplitFrom(s, p, q) == [s[p..]]
    decreases |s| - q
  {
    if q < |s| {
      SplitFromNoDelimiter(s, p, q + 1);
    }
  }

  /** Text without any delimiter is not split. */
  lemma SplitAndNoDelimiter(s: string)
    requires forall i :: 0 <= i < |s| ==> DelimEnd(s, i).None?
    ensures SplitAnd(s) == [s]
  {
    SplitFromNoDelimiter(s, 0, 0);
  }

  /** `t` holds no `and` in any letter case. */
  predicate NoAndWord(t: string) {
    forall i :: 0 <= i <= |t| ==> !AndAt(t, i)
  }

  /** A piece that the split gives back whole when it stands between ` AND `s. */
  predicate Separable(t: string) {
    t != "" && !IsSpace(t[0]) && !IsSpace(t[|t| - 1]) && NoAndWord(t)
  }

  /** The characters of a case-insensitive `and` are ASCII letters. */
  lemma AndLetters(s: string, i: nat)
    ensures AndAt(s, i) ==> forall k :: i <= k < i + 3 ==> IsAsciiLetter(s[k])
  {
  }

  /** No delimiter starts inside a separable piece that is followed by a non-letter. */
  lemma NoDelimiterInside(x: string, y: string, q: nat)
    requires Separable(x) && q < |x|
    requires y == [] || !IsAsciiLetter(y[0])
    ensures DelimEnd(x + y, q).None?
  {
    var s := x + y;
    var a := SpaceRun(s, q);
    if 0 < a {
      SpaceRunSpaces(s, q);
      assert s[|x| - 1] == x[|x| - 1];
      assert q + a < |x|;
      if q + a + 3 <= |x| {
        NoAndWordExtends(x, y, q + a);
      } else if y != [] {
        assert s[|x|] == y[0];
        AndLetters(s, q + a);
      }
    }
  }

  lemma NoAndWordExtends(x: string, y: string, i: nat)
    requires NoAndWord(x) && i + 3 <= |x|
    ensures !AndAt(x + y, i)
  {
    assert (x + y)[i] == x[i] && (x + y)[i + 1] == x[i + 1] && (x + y)[i + 2] == x[i + 2];
    assert !AndAt(x, i);
  }

  /** The scan passes over a separable first piece without cutting it. */
  lemma {:induction false} ScanSeparable(x: string, y: string, q: nat)
    requires Separable(x) && q <= |x|
    requires y == [] || !IsAsciiLetter(y[0])
    ensures SplitFrom(x + y, 0, q) == SplitFrom(x + y, 0, |x|)
    decreases |x| - q
  {
    if q < |x| {
      NoDelimiterInside(x, y, q);
      ScanSeparable(x, y, q + 1);
    }
  }

  lemma {:induction false} SpaceRunShift(w: string, z: string, i: nat, k: nat)
    requires i <= |z| && k == |w| + i
    ensures SpaceRun(w + z, k) == SpaceRun(z, i)
    decreases |z| - i
  {
    if i < |z| {
      assert (w + z)[k] == z[i];
      SpaceRunShift(w, z, i + 1, k + 1);
    }
  }

  /** `DelimEnd` in terms of the white-space runs `a` at `q` and `b` after the word. */
  lemma DelimEndIs(s: string, q: nat, a: nat, b: nat, e: nat)
    requires q <= |s| && a == SpaceRun(s, q)
    requires q + a + 3 <= |s| ==> b == SpaceRun(s, q + a + 3)
    requires e == q + a + 3 + b
    ensures DelimEnd(s, q) == if 0 < a && AndAt(s, q + a) && b > 0 then Some(e) else None
  {
  }

  lemma AndAtShift(w: string, z: string, i: nat, k: nat)
    requires k == |w| + i
    ensures AndAt(w + z, k) == AndAt(z, i)
  {
    if i + 3 <= |z| {
      assert (w + z)[k] == z[i] && (w + z)[k + 1] == z[i + 1] && (w + z)[k + 2] == z[i + 2];
    }
  }

  /** The delimiter tests at `j` of `w + z` and at `q` of `z` agree once their parts do. */
  lemma DelimEndAgree(w: string, z: string, q: nat, j: nat, a: nat, b: nat)
    requires q <= |z| && j == |w| + q
    requires SpaceRun(w + z, j) == a && a == SpaceRun(z, q)
    requires AndAt(w + z, j + a) == AndAt(z, q + a)
    requires q + a + 3 <= |z| ==> SpaceRun(w + z, j + a + 3) == b && b == SpaceRun(z, q + a + 3)
    ensures DelimEnd(w + z, j) == match DelimEnd(z, q) case None => None case Some(e) => Some(|w| + e)
  {
    DelimEndIs(z, q, a, b, q + a + 3 + b);
    DelimEndIs(w + z, j, a, b, |w| + (q + a + 3 + b));
  }

  /** What follows a prefix is matched as if the prefix were not there: the
      delimiter test at position `j` of `w + z` is the one at `q` of `z`. */
  lemma DelimEndShift(w: string, z: string, q: nat, j: nat)
    requires q <= |z| && j == |w| + q
    ensures DelimEnd(w + z, j) == match DelimEnd(z, q) case None => None case Some(e) => Some(|w| + e)
  {
    SpaceRunShift(w, z, q, j);
    var a := SpaceRun(z, q);
    AndAtShift(w, z, q + a, j + a);
    if q + a + 3 <= |z| {
      SpaceRunShift(w, z, q + a + 3, j + a + 3);
      DelimEndAgree(w, z, q, j, a, SpaceRun(z, q + a + 3));
    } else {
      DelimEndAgree(w, z, q, j, a, 0);
    }
  }

  /** Splitting after a prefix `w`: the split of `w + z` from positions `i`
      and `j` is the split of `z` from `p` and `q`. */
  lemma {:induction false} SplitFromShift(w: string, z: string, p: nat, q: nat, i: nat, j: nat)
    requires p <= q <= |z| && i == |w| + p && j == |w| + q
    ensures SplitFrom(w + z, i, j) == SplitFrom(z, p, q)
    decreases |z| - q, 1
  {
    if q == |z| {
      ShiftEnd(w, z, p, q, i, j);
    } else if DelimEnd(z, q).None? {
      ShiftSkip(w, z, p, q, i, j);
    } else {
      ShiftCut(w, z, p, q, i, j);
    }
  }

  /** The last step of SplitFromShift: the rest is one piece. */
  lemma ShiftEnd(w: string, z: string, p: nat, q: nat, i: nat, j: nat)
    requires p <= q == |z| && i == |w| + p && j == |w| + q
    ensures SplitFrom(w + z, i, j) == SplitFrom(z, p, q)
  {
    assert j == |w + z|;
    assert (w + z)[i..] == z[p..];
  }

  /** One step of SplitFromShift: no delimiter at `q`. */
  lemma {:induction false} ShiftSkip(w: string, z: string, p: nat, q: nat, i: nat, j: nat)
    requires p <= q < |z| && i == |w| + p && j == |w| + q
    requires DelimEnd(z, q).None?
    ensures SplitFrom(w + z, i, j) == SplitFrom(z, p, q)
    decreases |z| - q, 0
  {
    DelimEndShift(w, z, q, j);
    SplitFromShift(w, z, p, q + 1, i, j + 1);
    SplitSkip(z, p, q);
    SplitSkip(w + z, i, j);
  }

  /** One step of SplitFromShift: a delimiter at `q` ends the piece. */
  lemma {:induction false} ShiftCut(w: string, z: string, p: nat, q: nat, i: nat, j: nat)
    requires p <= q < |z| && i == |w| + p && j == |w| + q
    requires DelimEnd(z, q).Some?
    ensures SplitFrom(w + z, i, j) == SplitFrom(z, p, q)
    decreases |z| - q, 0
  {
    DelimEndShift(w, z, q, j);
    var e := DelimEnd(z, q).value;
    var f := |w| + e;
    SplitFromShift(w, z, e, e, f, f);
    SliceShift(w, z, p, q, i, j);
    SplitCut(z, p, q, e);
    SplitCut(w + z, i, j, f);
  }

  lemma SliceShift(w: string, z: string, p: nat, q: nat, i: nat, j: nat)
    requires p <= q <= |z| && i == |w| + p && j == |w| + q
    ensures (w + z)[i..j] == z[p..q]
  {
  }

  /** One step of the scan: no delimiter at `q`. */
  lemma SplitSkip(s: string, p: nat, q: nat)
    requires p <= q < |s| && DelimEnd(s, q).None?
    ensures SplitFrom(s, p, q) == SplitFrom(s, p, q + 1)
  {
  }

  /** One step of the scan: a delimiter from `q` to `e` ends the piece. */
  lemma SplitCut(s: string, p: nat, q: nat, e: nat)
    requires p <= q < |s| && DelimEnd(s, q) == Some(e)
    ensures e <= |s| && SplitFrom(s, p, q) == [s[p..q]] + SplitFrom(s, e, e)
  {
  }

  /** The separator ` AND ` in front of a piece is one whole delimiter. */
  lemma JoinDelimiter(z: string)
    requires z != [] && !IsSpace(z[0])
    ensures DelimEnd(" AND " + z, 0) == Some(5)
  {
    var s := " AND " + z;
    assert s[0] == ' ' && s[1] == 'A' && s[4] == ' ' && s[5] == z[0];
    assert SpaceRun(s, 0) == 1;
    assert AndAt(s, 1);
    assert SpaceRun(s, 4) == 1;
  }

  /** A separable first piece and ` AND ` come off the front of the split. */
  lemma SplitAndCons(x: string, z: string)
    requires Separable(x) && z != [] && !IsSpace(z[0])
    ensures SplitAnd(x + " AND " + z) == [x] + SplitAnd(z)
  {
    var w := x + " AND ";
    var s := w + z;
    assert s == x + (" AND " + z);
    ScanSeparable(x, " AND " + z, 0);
    JoinDelimiter(z);
    DelimEndShift(x, " AND " + z, 0, |x|);
    assert DelimEnd(s, |x|) == Some(|w|);
    assert s[0..|x|] == x;
    assert SplitFrom(s, 0, |x|) == [x] + SplitFrom(s, |w|, |w|);
    SplitFromShift(w, z, 0, 0, |w|, |w|);
  }

  /** Separable pieces joined with ` AND ` split back into the same pieces. */
  lemma {:induction false} SplitAndJoin(parts: seq<string>)
    requires |parts| >= 1
    requires forall i :: 0 <= i < |parts| ==> Separable(parts[i])
    ensures SplitAnd(Join(parts, " AND ")) == parts
  {
    var x := parts[0];
    if |parts| == 1 {
      assert x + [] == x;
      ScanSeparable(x, [], 0);
    } else {
      var z := Join(parts[1..], " AND ");
      assert z[0] == parts[1][0];
      SplitAndCons(x, z);
      SplitAndJoin(parts[1..]);
    }
  }

  // ---------------------------------------------------------------------
  // `trimmed.match(/^([a-zA-Z]+)\s*(=|!=|>=|<=|>|<|~|!~|in|not\s+in)\s*(.+)$/i)`

  /** One alternative of the operator group. */
  datatype Alternative = Literal(word: string) | NotIn

  /** The operator alternatives in the order the alternation tries them. */
  const Alternatives: seq<Alternative> := [
    Literal("="), Literal("!="), Literal(">="), Literal("<="), Literal(">"), Literal("<"),
    Literal("~"), Literal("!~"), Literal("in"), NotIn
  ]

  /**
   * Where `alt` ends when it matches at `p` (under the `i` flag). In
   * `not\s+in` the `\s+` takes the whole run: giving back white space leaves
   * it where the `i` is needed.
   */
  function AlternativeEnd(s: string, p: nat, alt: Alternative): (r: Option<nat>)
    requires p <= |s|
    ensures r.Some? ==> p <= r.value <= |s|
  {
    match alt
    case Literal(w) => if MatchesWordAt(s, p, w) then Some(p + |w|) else None
    case NotIn =>
      if MatchesWordAt(s, p, "not") then
        var n := SpaceRun(s, p + 3);
        if n > 0 && MatchesWordAt(s, p + 3 + n, "in") then Some(p + 3 + n + 2) else None
      else None
  }

  /** The ends of the alternatives among `alts` that match at `p`, in order. */
  function EndsOf(s: string, p: nat, alts: seq<Alternative>): (ends: seq<nat>)
    requires p <= |s|
    ensures forall k :: 0 <= k < |ends| ==> p <= ends[k] <= |s|
  {
    if alts == [] then []
    else
      (match AlternativeEnd(s, p, alts[0]) case Some(e) => [e] case None => [])
      + EndsOf(s, p, alts[1..])
  }

  /** The ends of the operator alternatives that match at `p`, in the order they are tried. */
  function OperatorEnds(s: string, p: nat): (ends: seq<nat>)
    requires p <= |s|
    ensures forall k :: 0 <= k < |ends| ==> p <= ends[k] <= |s|
  {
    EndsOf(s, p, Alternatives)
  }

  /** `(.+)$` can start at `v`: something is left and none of it ends a line. */
  predicate ValueAt(s: string, v: nat) {
    v < |s| && NoLineTerminator(s[v..])
  }

  /**
   * `\s*(.+)$` after position `a`, with the `\s*` having taken `j` characters
   * and giving them back one at a time: the start of the value group.
   */
  function ValueFrom(s: string, a: nat, j: nat): (r: Option<nat>)
    requires a + j <= |s|
    ensures r.Some? ==> a <= r.value <= a + j && ValueAt(s, r.value)
    ensures r.Some? ==> forall v :: r.value < v <= a + j ==> !ValueAt(s, v)
    ensures r.None? ==> forall v :: a <= v <= a + j ==> !ValueAt(s, v)
  {
    if ValueAt(s, a + j) then Some(a + j)
    else if j == 0 then None
    else ValueFrom(s, a, j - 1)
  }

  /** Where the value group starts when the operator ends at `a`. */
  function ValueStart(s: string, a: nat): Option<nat>
    requires a <= |s|
  {
    ValueFrom(s, a, SpaceRun(s, a))
  }

  /** Where the value group starts after each of the operator ends `ends`. */
  function ValueStarts(s: string, ends: seq<nat>): (vs: seq<Option<nat>>)
    requires forall i :: 0 <= i < |ends| ==> ends[i] <= |s|
    ensures |vs| == |ends| && forall i :: 0 <= i < |ends| ==> vs[i] == ValueStart(s, ends[i])
  {
    seq(|ends|, i requires 0 <= i < |ends| => ValueStart(s, ends[i]))
  }

  /** The first entry of `vs[k..]` that holds a value start, with its index. */
  function FirstValue(vs: seq<Option<nat>>, k: nat): (r: Option<(nat, nat)>)
    ensures r.Some? ==> (k <= r.value.0 < |vs| && vs[r.value.0] == Some(r.value.1))
    ensures r.Some? ==> forall i :: k <= i < r.value.0 ==> vs[i].None?
    ensures r.None? ==> forall i :: k <= i < |vs| ==> vs[i].None?
    decreases |vs| - k
  {
    if k >= |vs| then None
    else
      match vs[k]
      case Some(v) => Some((k, v))
      case None => FirstValue(vs, k + 1)
  }

  /** The first operator alternative at `p` after which a value follows. */
  function FirstOperator(s: string, p: nat): Option<(nat, nat)>
    requires p <= |s|
  {
    FirstValue(ValueStarts(s, OperatorEnds(s, p)), 0)
  }

  /**
   * A way the clause pattern can match: the identifier is `s[..l]`, the
   * operator starts at `p` and is alternative number `k` of those present
   * there, and the value starts at `v`.
   */
  datatype Match = Match(l: nat, p: nat, k: nat, v: nat)

  predicate Parses(s: string, m: Match) {
    1 <= m.l <= LetterRun(s, 0) && m.l <= m.p <= |s| && AllSpace(s[m.l..m.p])
    && m.k < |OperatorEnds(s, m.p)| && OperatorEnds(s, m.p)[m.k] <= m.v <= |s|
    && AllSpace(s[OperatorEnds(s, m.p)[m.k]..m.v]) && ValueAt(s, m.v)
  }

  /**
   * The backtracking matcher tries `a` before `b`: longer identifier first,
   * then more white space before the operator, then the earlier alternative,
   * then more white space before the value.
   */
  predicate TriedBefore(a: Match, b: Match) {
    a.l > b.l || (a.l == b.l && (a.p > b.p || (a.p == b.p && (a.k < b.k || (a.k == b.k && a.v > b.v)))))
  }

  /** What the operator group and the rest of the pattern give at every position of `s`. */
  function OperatorTable(s: string): (t: seq<Option<(nat, nat)>>)
    ensures |t| == |s| + 1
    ensures forall p :: 0 <= p <= |s| ==> t[p] == FirstOperator(s, p)
  {
    seq(|s| + 1, p requires 0 <= p <= |s| => FirstOperator(s, p))
  }

  /** The operator tried at `l + j`, and then with less white space before it. */
  function SearchSpace(t: seq<Option<(nat, nat)>>, l: nat, j: nat): (r: Option<Match>)
    requires l + j < |t|
    ensures r.Some? ==> (r.value.l == l && l <= r.value.p <= l + j && t[r.value.p] == Some((r.value.k, r.value.v)))
    ensures forall p :: l <= p <= l + j && t[p].Some? ==> r.Some? && p <= r.value.p
  {
    if t[l + j].Some? then Some(Match(l, l + j, t[l + j].value.0, t[l + j].value.1))
    else if j == 0 then None
    else SearchSpace(t, l, j - 1)
  }

  /** For each identifier length `l`, the search over the white space after it. */
  function SpaceTable(s: string, t: seq<Option<(nat, nat)>>): (rows: seq<Option<Match>>)
    requires |t| == |s| + 1
    ensures |rows| == |s| + 1
    ensures forall l :: 0 <= l <= |s| ==> rows[l] == SearchSpace(t, l, SpaceRun(s, l))
    ensures forall l :: 0 <= l <= |s| && rows[l].Some? ==> rows[l].value.l == l
  {
    seq(|s| + 1, l requires 0 <= l <= |s| => SearchSpace(t, l, SpaceRun(s, l)))
  }

  /** Identifier lengths from `l` down to 1: the first row of `rows` that finds a match. */
  function SearchField(rows: seq<Option<Match>>, l: nat): (r: Option<Match>)
    requires l < |rows| && forall l' :: 0 <= l' < |rows| && rows[l'].Some? ==> rows[l'].value.l == l'
    ensures r.Some? ==> 1 <= r.value.l <= l && rows[r.value.l] == r
    ensures r.Some? ==> forall l' :: r.value.l < l' <= l ==> rows[l'].None?
    ensures r.None? ==> forall l' :: 1 <= l' <= l ==> rows[l'].None?
  {
    if l == 0 then None
    else if rows[l].Some? then rows[l] else SearchField(rows, l - 1)
  }

  /** The match the ECMAScript matcher returns, if any; MatchClauseFirst says it is the first one tried. */
  function MatchClause(s: string): (r: Option<Match>)
    ensures r.Some? ==> Parses(s, r.value)
  {
    SearchFieldSound(s);
    SearchField(SpaceTable(s, OperatorTable(s)), LetterRun(s, 0))
  }

  /** What the search finds is a way of matching the pattern. */
  lemma SearchFieldSound(s: string)
    ensures var r := SearchField(SpaceTable(s, OperatorTable(s)), LetterRun(s, 0)); r.Some? ==> Parses(s, r.value)
  {
    var r := SearchField(SpaceTable(s, OperatorTable(s)), LetterRun(s, 0));
    if r.Some? {
      var m := r.value;
      var t := OperatorTable(s);
      AllSpaceWithinRun(s, m.l, m.p);
      assert t[m.p] == FirstOperator(s, m.p);
      var a := OperatorEnds(s, m.p)[m.k];
      AllSpaceWithinRun(s, a, m.v);
    }
  }

  /**
   * Whenever the pattern can match, MatchClause finds the way of matching
   * that the backtracking matcher tries first.
   */
  lemma MatchClauseFirst(s: string, m: Match)
    requires Parses(s, m)
    ensures MatchClause(s).Some?
    ensures MatchClause(s).value == m || TriedBefore(MatchClause(s).value, m)
  {
    FirstByField(s, m);
    var m0 := MatchClause(s).value;
    if m.l == m0.l {
      FirstBySpace(s, m);
      if m.p == m0.p {
        FirstByOperator(s, m);
        if m.k == m0.k {
          FirstByValue(s, m);
        }
      }
    }
  }

  lemma FirstByField(s: string, m: Match)
    requires Parses(s, m)
    ensures MatchClause(s).Some? && m.l <= MatchClause(s).value.l
  {
    ParsesSpace(s, m);
  }

  lemma FirstBySpace(s: string, m: Match)
    requires Parses(s, m) && MatchClause(s).Some? && MatchClause(s).value.l == m.l
    ensures m.p <= MatchClause(s).value.p
  {
    var t := OperatorTable(s);
    AllSpaceWithinRun(s, m.l, m.p);
    ParsesOperator(s, m);
    assert t[m.p].Some?;
  }

  lemma FirstByOperator(s: string, m: Match)
    requires Parses(s, m) && MatchClause(s).Some?
    requires MatchClause(s).value.l == m.l && MatchClause(s).value.p == m.p
    ensures MatchClause(s).value.k <= m.k
  {
    var t := OperatorTable(s);
    ParsesValue(s, m);
    assert t[m.p] == FirstOperator(s, m.p);
  }

  lemma FirstByValue(s: string, m: Match)
    requires Parses(s, m) && MatchClause(s).Some?
    requires MatchClause(s).value.l == m.l && MatchClause(s).value.p == m.p && MatchClause(s).value.k == m.k
    ensures m.v <= MatchClause(s).value.v
  {
    var t := OperatorTable(s);
    var m0 := MatchClause(s).value;
    assert t[m.p] == FirstOperator(s, m.p);
    var ends := OperatorEnds(s, m.p);
    assert ValueStarts(s, ends)[m.k] == Some(m0.v);
    var a := ends[m.k];
    assert ValueStart(s, a) == Some(m0.v);
    AllSpaceWithinRun(s, a, m.v);
  }

  /** With the operator of `m` in place, a value is found after it. */
  lemma ParsesValue(s: string, m: Match)
    requires Parses(s, m)
    ensures ValueStart(s, OperatorEnds(s, m.p)[m.k]).Some?
  {
    var a := OperatorEnds(s, m.p)[m.k];
    AllSpaceWithinRun(s, a, m.v);
  }

  /** With the operator position of `m`, some alternative is followed by a value. */
  lemma ParsesOperator(s: string, m: Match)
    requires Parses(s, m)
    ensures FirstOperator(s, m.p).Some?
  {
    ParsesValue(s, m);
  }

  /** With the identifier of `m`, the search over the white space before the operator succeeds. */
  lemma ParsesSpace(s: string, m: Match)
    requires Parses(s, m)
    ensures SearchSpace(OperatorTable(s), m.l, SpaceRun(s, m.l)).Some?
  {
    AllSpaceWithinRun(s, m.l, m.p);
    ParsesOperator(s, m);
    assert OperatorTable(s)[m.p].Some?;
  }

  /** The first two characters of a word found at `p`, lower-cased. */
  lemma FirstLetter(s: string, p: nat, w: string)
    requires w != []
    ensures MatchesWordAt(s, p, w) ==> p < |s| && LowerChar(s[p]) == w[0]
    ensures MatchesWordAt(s, p, w) && |w| >= 2 ==> p + 1 < |s| && LowerChar(s[p + 1]) == w[1]
  {
    if MatchesWordAt(s, p, w) {
      assert LowerAscii(s[p..p + |w|])[0] == LowerChar(s[p]);
      if |w| >= 2 {
        assert LowerAscii(s[p..p + |w|])[1] == LowerChar(s[p + 1]);
      }
    }
  }

  /** No alternative matching at `p` leaves no end. */
  lemma EndsOfNone(s: string, p: nat, alts: seq<Alternative>)
    requires p <= |s|
    requires forall i :: 0 <= i < |alts| ==> AlternativeEnd(s, p, alts[i]).None?
    ensures EndsOf(s, p, alts) == []
  {
    if alts != [] {
      EndsOfNone(s, p, alts[1..]);
    }
  }

  /** The first characters of the operator alternatives, lower-cased. */
  predicate OperatorInitial(c: char) {
    c == '=' || c == '!' || c == '>' || c == '<' || c == '~' || c == 'i' || c == 'n'
  }

  /** At a character no operator starts with, or at `n` not followed by `o`, no alternative matches. */
  lemma NoOperatorAt(s: string, p: nat)
    requires p <= |s|
    requires p == |s| || !OperatorInitial(LowerChar(s[p]))
      || (LowerChar(s[p]) == 'n' && (p + 1 == |s| || LowerChar(s[p + 1]) != 'o'))
    ensures OperatorEnds(s, p) == []
  {
    forall i | 0 <= i < |Alternatives|
      ensures AlternativeEnd(s, p, Alternatives[i]).None?
    {
      match Alternatives[i]
      case Literal(w) => FirstLetter(s, p, w);
      case NotIn => FirstLetter(s, p, "not");
    }
    EndsOfNone(s, p, Alternatives);
  }

  /** The only alternative present at `p` is `in`. */
  lemma OnlyInAt(s: string, p: nat)
    requires MatchesWordAt(s, p, "in") && p + 2 < |s| && !IsAsciiLetter(s[p + 2])
    ensures OperatorEnds(s, p) == [p + 2]
  {
    assert LowerChar(s[p]) == LowerAscii(s[p..p + 2])[0];
    assert Alternatives == [Literal("="), Literal("!="), Literal(">="), Literal("<="), Literal(">"), Literal("<"),
      Literal("~"), Literal("!~")] + [Literal("in"), NotIn];
    forall i | 0 <= i < 8
      ensures AlternativeEnd(s, p, Alternatives[i]).None?
    {
      FirstLetter(s, p, Alternatives[i].word);
    }
    FirstLetter(s, p, "not");
    assert EndsOf(s, p, [NotIn]) == [];
    assert EndsOf(s, p, [Literal("in"), NotIn]) == [p + 2];
    EndsOfNone(s, p, Alternatives[..8]);
    EndsOfAppend(s, p, Alternatives[..8], [Literal("in"), NotIn]);
  }

  /** The ends of two runs of alternatives, one after the other. */
  lemma {:induction false} EndsOfAppend(s: string, p: nat, a: seq<Alternative>, b: seq<Alternative>)
    requires p <= |s|
    ensures EndsOf(s, p, a + b) == EndsOf(s, p, a) + EndsOf(s, p, b)
  {
    if a != [] {
      assert (a + b)[1..] == a[1..] + b;
      EndsOfAppend(s, p, a[1..], b);
    } else {
      assert a + b == b;
    }
  }

  // ---------------------------------------------------------------------
  // From a clause to a condition

  predicate IsQuote(c: char) {
    c == '\'' || c == '"'
  }

  /** `s.replace(/^['"]|['"]$/g, "")`: one leading and one trailing quote character, each removed on its own. */
  function StripQuotes(s: string): (r: string)
    ensures |s| - 2 <= |r| <= |s|
    ensures |s| >= 2 && IsQuote(s[0]) && IsQuote(s[|s| - 1]) ==> r == s[1..|s| - 1]
    ensures |s| == 1 && IsQuote(s[0]) ==> r == ""
    ensures s != [] && IsQuote(s[0]) && !IsQuote(s[|s| - 1]) ==> r == s[1..]
    ensures s != [] && !IsQuote(s[0]) && IsQuote(s[|s| - 1]) ==> r == s[..|s| - 1]
    ensures s == [] || (!IsQuote(s[0]) && !IsQuote(s[|s| - 1])) ==> r == s
  {
    var a := if s != [] && IsQuote(s[0]) then s[1..] else s;
    if a != [] && IsQuote(a[|a| - 1]) then a[..|a| - 1] else a
  }

  /** Removing the quotes of a quoted string gives back the string, whatever it holds. */
  lemma StripQuotesOfQuoted(q: char, v: string)
    requires IsQuote(q)
    ensures StripQuotes([q] + v + [q]) == v
  {
    var a := ([q] + v + [q])[1..];
    assert a == v + [q];
    assert a[..|a| - 1] == v;
  }

  /** The value text: `( … )` is a list of comma pieces, anything else a single value. */
  function ParseValue(v: string): (r: Value)
    ensures r.List? <==> |v| >= 2 && v[0] == '(' && v[|v| - 1] == ')'
    ensures r.List? ==> var pieces := Split(v[1..|v| - 1], ',');
      |r.items| == |pieces| && forall i :: 0 <= i < |pieces| ==> r.items[i] == StripQuotes(Trim(pieces[i]))
    ensures r.Str? ==> r.s == StripQuotes(v)
  {
    if v != [] && v[0] == '(' && v[|v| - 1] == ')' then
      var pieces := Split(v[1..|v| - 1], ',');
      List(seq(|pieces|, i requires 0 <= i < |pieces| => StripQuotes(Trim(pieces[i]))))
    else
      Str(StripQuotes(v))
  }

  /** The three groups of a match of the clause pattern. */
  function FieldGroup(s: string, m: Match): string
    requires Parses(s, m)
  {
    s[..m.l]
  }

  function OperatorGroup(s: string, m: Match): string
    requires Parses(s, m)
  {
    s[m.p..OperatorEnds(s, m.p)[m.k]]
  }

  function ValueGroup(s: string, m: Match): string
    requires Parses(s, m)
  {
    s[m.v..]
  }

  /** The clause matches and names a field the builder offers. */
  predicate Supported(clause: string) {
    MatchClause(clause).Some? && FieldGroup(clause, MatchClause(clause).value) in FieldOptions
  }

  /** The condition kept for a clause the builder cannot represent: the clause itself as custom text. */
  function Demoted(clause: string, id: string): Condition {
    Condition(id, "custom", "none", Str(clause), "AND")
  }

  /** The condition one trimmed clause becomes. */
  function ClauseCondition(clause: string, id: string): (r: Condition)
    ensures r.id == id && r.logic == "AND" && r.field in FieldOptions
  {
    if Supported(clause) then
      var m := MatchClause(clause).value;
      // `match[1].trim()` changes nothing: the group is made of letters.
      var field := FieldGroup(clause, m);
      var op := LowerAscii(Trim(OperatorGroup(clause, m)));
      Condition(id, field, op, ParseValue(Trim(ValueGroup(clause, m))), "AND")
    else
      Demoted(clause, id)
  }

  /**
   * An operator as the import leaves it: one of the listed symbols, `in`,
   * or `not`, white space and `in`, the white space kept as written.
   */
  predicate ImportedOperator(op: string) {
    op == "=" || op == "!=" || op == ">=" || op == "<=" || op == ">" || op == "<" || op == "~" || op == "!~"
    || op == "in" || NotInText(op)
  }

  /** `not`, white space and `in`. */
  predicate NotInText(op: string) {
    |op| > 5 && op[..3] == "not" && op[|op| - 2..] == "in" && AllSpace(op[3..|op| - 2])
  }

  /** The operator group of a match, trimmed and lower-cased, is an imported operator: `IN` gives `in`. */
  lemma OperatorGroupImported(s: string, m: Match)
    requires Parses(s, m)
    ensures ImportedOperator(LowerAscii(Trim(OperatorGroup(s, m))))
  {
    var e := OperatorEnds(s, m.p)[m.k];
    EndsOfFrom(s, m.p, Alternatives, m.k);
    var j :| 0 <= j < |Alternatives| && AlternativeEnd(s, m.p, Alternatives[j]) == Some(e);
    AlternativeWords();
    AlternativeGroup(s, m.p, Alternatives[j], e);
  }

  /** Each end among the alternatives that match was given by one of them. */
  lemma {:induction false} EndsOfFrom(s: string, p: nat, alts: seq<Alternative>, k: nat)
    requires p <= |s| && k < |EndsOf(s, p, alts)|
    ensures exists j :: 0 <= j < |alts| && AlternativeEnd(s, p, alts[j]) == Some(EndsOf(s, p, alts)[k])
    decreases |alts|
  {
    var first := match AlternativeEnd(s, p, alts[0]) case Some(e) => [e] case None => [];
    assert EndsOf(s, p, alts) == first + EndsOf(s, p, alts[1..]);
    if k >= |first| {
      EndsOfFrom(s, p, alts[1..], k - |first|);
      var j :| 0 <= j < |alts[1..]| && AlternativeEnd(s, p, alts[1..][j]) == Some(EndsOf(s, p, alts[1..])[k - |first|]);
      assert alts[j + 1] == alts[1..][j];
    }
  }

  /** The words of the listed alternatives are imported operators with no white space at either end. */
  lemma AlternativeWords()
    ensures forall alt :: alt in Alternatives && alt.Literal? ==> SolidWord(alt.word) && ImportedOperator(alt.word)
  {
    AlternativesSolid();
    AlternativesImported();
  }

  lemma AlternativesSolid()
    ensures forall alt :: alt in Alternatives && alt.Literal? ==> SolidWord(alt.word)
  {
  }

  lemma AlternativesImported()
    ensures forall alt :: alt in Alternatives && alt.Literal? ==> ImportedOperator(alt.word)
  {
  }

  /** A word that starts and ends with a visible ASCII character. */
  predicate SolidWord(w: string) {
    w != "" && '!' <= w[0] <= '~' && '!' <= w[|w| - 1] <= '~'
  }

  /** A visible ASCII character is not white space. */
  lemma VisibleNotSpace(c: char)
    requires '!' <= c <= '~'
    ensures !IsSpace(c)
  {
  }

  /** The text an alternative matched, trimmed and lower-cased. */
  lemma AlternativeGroup(s: string, p: nat, alt: Alternative, e: nat)
    requires p <= |s| && AlternativeEnd(s, p, alt) == Some(e)
    requires alt.Literal? ==> SolidWord(alt.word) && ImportedOperator(alt.word)
    ensures ImportedOperator(LowerAscii(Trim(s[p..e])))
  {
    if alt.Literal? {
      LiteralEnd(s, p, alt.word, e);
    } else {
      NotInEnd(s, p, e);
      NotInGroup(s, p, e);
    }
  }

  lemma LiteralEnd(s: string, p: nat, w: string, e: nat)
    requires p <= |s| && AlternativeEnd(s, p, Literal(w)) == Some(e)
    requires SolidWord(w)
    ensures LowerAscii(Trim(s[p..e])) == w
  {
    assert MatchesWordAt(s, p, w) && e == p + |w|;
    LiteralGroup(s, p, w);
    assert s[p..e] == s[p..p + |w|];
  }

  /** Where `not\s+in` matched: `not`, then white space, then `in` ending at `e`. */
  lemma NotInEnd(s: string, p: nat, e: nat)
    requires p <= |s| && AlternativeEnd(s, p, NotIn) == Some(e)
    ensures p + 5 < e && MatchesWordAt(s, p, "not") && MatchesWordAt(s, e - 2, "in")
    ensures forall k :: p + 3 <= k < e - 2 ==> IsSpace(s[k])
  {
    SpaceRunSpaces(s, p + 3);
  }

  /** Text matching a word without white space at its ends is its own trim, and lower-cases to the word. */
  lemma LiteralGroup(s: string, p: nat, w: string)
    requires SolidWord(w) && MatchesWordAt(s, p, w)
    ensures LowerAscii(Trim(s[p..p + |w|])) == w
  {
    var g := s[p..p + |w|];
    VisibleNotSpace(w[0]);
    VisibleNotSpace(w[|w| - 1]);
    assert LowerAscii(g)[0] == LowerChar(g[0]);
    assert LowerAscii(g)[|g| - 1] == LowerChar(g[|g| - 1]);
    TrimUnpadded(g);
  }

  /** `not`, a run of white space and `in`, in any case, lower-case to `not`, that run and `in`. */
  lemma NotInGroup(s: string, p: nat, e: nat)
    requires p + 5 < e && MatchesWordAt(s, p, "not") && MatchesWordAt(s, e - 2, "in")
    requires forall k :: p + 3 <= k < e - 2 ==> IsSpace(s[k])
    ensures NotInText(LowerAscii(Trim(s[p..e])))
  {
    var g := s[p..e];
    var a, b, c := s[p..p + 3], s[p + 3..e - 2], s[e - 2..e];
    assert g == a + b + c;
    LowerAsciiAppend(a + b, c);
    LowerAsciiAppend(a, b);
    SpacesLowered(b);
    NotInShape(b);
    assert LowerAscii(g)[0] == LowerChar(g[0]) && LowerAscii(g)[|g| - 1] == LowerChar(g[|g| - 1]);
    TrimUnpadded(g);
  }

  /** `not`, white space and `in` is an imported operator. */
  lemma NotInShape(mid: string)
    requires mid != "" && AllSpace(mid)
    ensures NotInText("not" + mid + "in")
  {
    var op := "not" + mid + "in";
    assert op[..3] == "not";
    assert op[|op| - 2..] == "in";
    assert op[3..|op| - 2] == mid;
  }

  /**
   * A clause that does not match the pattern, or names a field the builder
   * does not offer, is kept whole as custom text with the operator "none". A
   * supported one keeps its field, gets its operator in lower case (one of
   * the listed operators, so `IN` becomes `in`), and gets
   * its trimmed value text as a list of unquoted comma pieces when it is in
   * parentheses, and unquoted otherwise.
   */
  lemma ClauseConditionCases(clause: string, id: string)
    ensures var r := ClauseCondition(clause, id);
      MatchClause(clause).None? ==> r == Condition(id, "custom", "none", Str(clause), "AND")
    ensures var r := ClauseCondition(clause, id);
      MatchClause(clause).Some? && FieldGroup(clause, MatchClause(clause).value) !in FieldOptions ==>
        r == Condition(id, "custom", "none", Str(clause), "AND")
    ensures var r := ClauseCondition(clause, id);
      Supported(clause) ==>
        && r.field == FieldGroup(clause, MatchClause(clause).value)
        && forall i :: 0 <= i < |r.operator| ==> !('A' <= r.operator[i] <= 'Z')
    ensures Supported(clause) ==> ImportedOperator(ClauseCondition(clause, id).operator)
    ensures var r := ClauseCondition(clause, id);
      Supported(clause) ==> var g := Trim(ValueGroup(clause, MatchClause(clause).value));
        && (r.value.List? <==> |g| >= 2 && g[0] == '(' && g[|g| - 1] == ')')
        && (r.value.Str? ==> r.value.s == StripQuotes(g))
        && (r.value.List? ==> var pieces := Split(g[1..|g| - 1], ',');
              |r.value.items| == |pieces|
              && forall i :: 0 <= i < |pieces| ==> r.value.items[i] == StripQuotes(Trim(pieces[i])))
  {
    if Supported(clause) {
      SupportedOperator(clause, id);
      SupportedValue(clause, id);
    }
  }

  /** The operator of a supported clause is one of the listed operators, lower-cased. */
  lemma SupportedOperator(clause: string, id: string)
    requires Supported(clause)
    ensures forall i :: 0 <= i < |ClauseCondition(clause, id).operator| ==> !('A' <= ClauseCondition(clause, id).operator[i] <= 'Z')
    ensures ImportedOperator(ClauseCondition(clause, id).operator)
  {
    var m := MatchClause(clause).value;
    LowerAsciiLowers(Trim(OperatorGroup(clause, m)));
    OperatorGroupImported(clause, m);
  }

  /** The value of a supported clause is its trimmed value group, parsed. */
  lemma SupportedValue(clause: string, id: string)
    requires Supported(clause)
    ensures var r := ClauseCondition(clause, id);
      var g := Trim(ValueGroup(clause, MatchClause(clause).value));
      && (r.value.List? <==> |g| >= 2 && g[0] == '(' && g[|g| - 1] == ')')
      && (r.value.Str? ==> r.value.s == StripQuotes(g))
      && (r.value.List? ==> var pieces := Split(g[1..|g| - 1], ',');
            |r.value.items| == |pieces|
            && forall i :: 0 <= i < |pieces| ==> r.value.items[i] == StripQuotes(Trim(pieces[i])))
  {
    var m := MatchClause(clause).value;
    var g := Trim(ValueGroup(clause, m));
    assert ClauseCondition(clause, id).value == ParseValue(g);
    ParseValueCases(g);
  }

  /** What ParseValue gives, case by case, in the form ClauseConditionCases states it. */
  lemma ParseValueCases(g: string)
    ensures var r := ParseValue(g);
      && (r.List? <==> |g| >= 2 && g[0] == '(' && g[|g| - 1] == ')')
      && (r.Str? ==> r.s == StripQuotes(g))
      && (r.List? ==> var pieces := Split(g[1..|g| - 1], ',');
            |r.items| == |pieces|
            && forall i :: 0 <= i < |pieces| ==> r.items[i] == StripQuotes(Trim(pieces[i])))
  {
  }

  // ---------------------------------------------------------------------
  // handleImportJQL

  /**
   * Condition ids come from `Math.random()`: the model takes them as a
   * supply, the k-th condition built getting `ids(k)`.
   */
  type IdSupply = nat -> string

  /** `part.trim()` for every piece. */
  function TrimAll(pieces: seq<string>): (r: seq<string>)
    ensures |r| == |pieces|
  {
    if pieces == [] then [] else TrimAll(pieces[..|pieces| - 1]) + [Trim(pieces[|pieces| - 1])]
  }

  /** Each piece is trimmed in its place. */
  lemma {:induction false} TrimAllAt(pieces: seq<string>, i: nat)
    requires i < |pieces|
    ensures TrimAll(pieces)[i] == Trim(pieces[i])
    decreases |pieces|
  {
    if i + 1 < |pieces| {
      TrimAllAt(pieces[..|pieces| - 1], i);
    } else {
      TrimAllLast(pieces);
    }
  }

  lemma TrimAllLast(pieces: seq<string>)
    requires |pieces| > 0
    ensures TrimAll(pieces)[|pieces| - 1] == Trim(pieces[|pieces| - 1])
  {
  }

  predicate NonBlank(t: string) {
    t != ""
  }

  /** The trimmed pieces of the text that are not blank, in order: one condition each. */
  function Clauses(text: string): seq<string> {
    Filter(NonBlank, TrimAll(SplitAnd(text)))
  }

  /** Every clause is trimmed and not blank. */
  lemma ClausesTrimmed(text: string)
    ensures forall i :: 0 <= i < |Clauses(text)| ==> Clauses(text)[i] != "" && Trim(Clauses(text)[i]) == Clauses(text)[i]
  {
    var pieces := SplitAnd(text);
    forall i | 0 <= i < |Clauses(text)|
      ensures Trim(Clauses(text)[i]) == Clauses(text)[i]
    {
      var j :| 0 <= j < |pieces| && TrimAll(pieces)[j] == Clauses(text)[i];
      TrimAllAt(pieces, j);
      TrimIdempotent(pieces[j]);
    }
  }

  /** A condition as the import builds it: joined by AND, on a field the builder offers. */
  predicate Imported(c: Condition) {
    c.logic == "AND" && c.field in FieldOptions
  }

  /** The conditions built from `clauses`, numbered from 0. */
  function ConditionsOf(clauses: seq<string>, ids: IdSupply): (r: seq<Condition>)
    ensures |r| == |clauses|
    ensures forall k :: 0 <= k < |r| ==> r[k] == ClauseCondition(clauses[k], ids(k))
    ensures forall k :: 0 <= k < |r| ==> r[k].id == ids(k) && Imported(r[k])
  {
    MapIndexed(clauses, (c, k) => ClauseCondition(c, ids(k)))
  }

  lemma ConditionsOfSnoc(clauses: seq<string>, c: string, ids: IdSupply)
    ensures ConditionsOf(clauses + [c], ids) == ConditionsOf(clauses, ids) + [ClauseCondition(c, ids(|clauses|))]
  {
    MapIndexedSnoc(clauses, c, (c, k) => ClauseCondition(c, ids(k)));
  }

  /** Pushing the next clause's condition, numbered by the list's length, gives the conditions of one more clause. */
  lemma PushCondition(clauses: seq<string>, c: string, ids: IdSupply, pushed: seq<Condition>)
    requires pushed == ConditionsOf(clauses, ids)
    ensures pushed + [ClauseCondition(c, ids(|pushed|))] == ConditionsOf(clauses + [c], ids)
  {
    ConditionsOfSnoc(clauses, c, ids);
  }

  lemma TrimAllSnoc(pieces: seq<string>, i: nat)
    requires i < |pieces|
    ensures TrimAll(pieces[..i + 1]) == TrimAll(pieces[..i]) + [Trim(pieces[i])]
  {
    assert pieces[..i + 1][..i] == pieces[..i];
  }

  lemma FilterNonBlankOne(t: string)
    ensures Filter(NonBlank, [t]) == if t != "" then [t] else []
  {
    assert [t][1..] == [];
  }

  /** The clauses of the first `i + 1` pieces: those of the first `i`, then piece `i` trimmed unless it is blank. */
  lemma ClausesStep(pieces: seq<string>, i: nat)
    requires i < |pieces|
    ensures Filter(NonBlank, TrimAll(pieces[..i + 1]))
      == Filter(NonBlank, TrimAll(pieces[..i])) + (if Trim(pieces[i]) != "" then [Trim(pieces[i])] else [])
  {
    TrimAllSnoc(pieces, i);
    FilterAppend(NonBlank, TrimAll(pieces[..i]), [Trim(pieces[i])]);
    FilterNonBlankOne(Trim(pieces[i]));
  }

  /** The parse loop: one condition pushed for each non-blank piece. */
  method ParseClauses(importText: string, ids: IdSupply) returns (newConditions: seq<Condition>)
    ensures newConditions == ConditionsOf(Clauses(importText), ids)
  {
    var andParts := SplitAnd(importText);
    newConditions := [];
    ghost var clauses: seq<string> := [];
    var i := 0;
    while i < |andParts|
      invariant i <= |andParts|
      invariant clauses == Filter(NonBlank, TrimAll(andParts[..i]))
      invariant newConditions == ConditionsOf(clauses, ids)
    {
      var trimmed := Trim(andParts[i]);
      ClausesStep(andParts, i);
      if trimmed != "" {
        var condition := ClauseCondition(trimmed, ids(|newConditions|));
        PushCondition(clauses, trimmed, ids, newConditions);
        newConditions := newConditions + [condition];
        clauses := clauses + [trimmed];
      }
      i := i + 1;
    }
    assert andParts[..i] == andParts;
  }

  /** The single condition used when nothing could be parsed: the whole text as a text search. */
  function Fallback(importText: string, ids: IdSupply): Condition {
    Condition("manual-" + ids(0), "text", "~", Str(importText), "AND")
  }

  /**
   * What a non-empty import leaves, the conditions of `clauses` or the
   * fallback when there are none, is never empty and holds imported
   * conditions only: the fallback searches the text field, which the builder offers.
   */
  lemma ImportOffered(clauses: seq<string>, importText: string, ids: IdSupply)
    ensures var r := if clauses == [] then [Fallback(importText, ids)] else ConditionsOf(clauses, ids);
      |r| > 0 && forall k :: 0 <= k < |r| ==> Imported(r[k])
  {
    assert FieldOptions[8] == "text";
  }

  /**
   * The import: nothing happens for empty text; otherwise the parsed
   * conditions replace the list, or the fallback does when there are none,
   * so a non-empty text always leaves at least one condition, each joined
   * by AND and on a field the builder offers.
   */
  method ImportJql(conditions: seq<Condition>, importText: string, ids: IdSupply) returns (result: seq<Condition>)
    ensures importText == "" ==> result == conditions
    ensures importText != "" && Clauses(importText) == [] ==> result == [Fallback(importText, ids)]
    ensures importText != "" && Clauses(importText) != [] ==> result == ConditionsOf(Clauses(importText), ids)
    ensures importText != "" ==>
      |result| > 0 && forall k :: 0 <= k < |result| ==> Imported(result[k])
  {
    if importText == "" {
      return conditions;
    }
    var newConditions := ParseClauses(importText, ids);
    ImportOffered(Clauses(importText), importText, ids);
    if |newConditions| > 0 {
      result := newConditions;
    } else {
      result := [Fallback(importText, ids)];
    }
  }
}
