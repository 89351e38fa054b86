/**
 * What the importer makes of the text the compiler writes: a comparison
 * `f op "v"` on a field the builder offers is read back as the condition it
 * came from.
 */
module JqlRoundTrip {
  import opened Wrappers
  import opened Seqs
  import opened Text
  import opened JqlModel
  import opened JqlCompiler
  import opened JqlImporter

  /** The operators written as symbols, which the compiler renders as `f op "v"` for a text value. */
  predicate SymbolOperator(op: string) {
    op == "=" || op == "!=" || op == ">=" || op == "<=" || op == ">" || op == "<" || op == "~" || op == "!~"
  }

  /** Where the alternation lists a symbol operator. */
  function AlternativeIndex(op: string): (i: nat)
    requires SymbolOperator(op)
    ensures i < |Alternatives| && Alternatives[i] == Literal(op)
  {
    if op == "=" then 0 else if op == "!=" then 1 else if op == ">=" then 2 else if op == "<=" then 3
    else if op == ">" then 4 else if op == "<" then 5 else if op == "~" then 6 else 7
  }

  /** A field name the pattern's `[a-zA-Z]+` takes whole. */
  predicate Letters(f: string) {
    f != "" && forall i :: 0 <= i < |f| ==> IsAsciiLetter(f[i])
  }

  /** The characters symbol operators are made of: neither letters nor white space. */
  predicate SymbolChar(c: char) {
    c == '=' || c == '!' || c == '<' || c == '>' || c == '~'
  }

  predicate SymbolText(op: string) {
    1 <= |op| <= 2 && forall i :: 0 <= i < |op| ==> SymbolChar(op[i])
  }

  lemma SymbolOperatorText(op: string)
    requires SymbolOperator(op)
    ensures SymbolText(op)
  {
  }

  /** Lower-casing and trimming leave symbols as they are. */
  lemma SymbolsUnchanged(op: string)
    requires SymbolText(op)
    ensures LowerAscii(op) == op && Trim(op) == op
  {
    assert LowerAscii(op) == op by {
      forall i | 0 <= i < |op|
        ensures LowerAscii(op)[i] == op[i]
      {
      }
    }
    TrimUnpadded(op);
  }

  /**
   * Each symbol operator differs from every alternative listed before it in
   * the first character, or in the second where the earlier one is longer.
   */
  lemma ListedBefore(j: nat, i: nat)
    requires j < i < 8
    ensures Alternatives[j].Literal? && Alternatives[i].Literal?
    ensures var a, b := Alternatives[j].word, Alternatives[i].word;
      1 <= |a| <= 2 && 1 <= |b| <= 2 && (a[0] != b[0] || (|a| == 2 && (|b| == 1 || a[1] != b[1])))
  {
  }

  /** The alternatives listed before a symbol operator do not match where it is written. */
  lemma EarlierAlternativesFail(s: string, p: nat, i: nat, op: string)
    requires i < 8 && Alternatives[i] == Literal(op) && SymbolText(op)
    requires p + |op| < |s| && s[p..p + |op|] == op && s[p + |op|] == ' '
    ensures forall j :: 0 <= j < i ==> AlternativeEnd(s, p, Alternatives[j]).None?
  {
    assert s[p] == op[0];
    assert |op| == 2 ==> s[p + 1] == op[1];
    forall j | 0 <= j < i
      ensures AlternativeEnd(s, p, Alternatives[j]).None?
    {
      ListedBefore(j, i);
      FirstLetter(s, p, Alternatives[j].word);
    }
  }

  /** Where a symbol operator is written, case-insensitive matching finds it. */
  lemma SymbolFound(s: string, p: nat, op: string)
    requires SymbolText(op) && p + |op| <= |s| && s[p..p + |op|] == op
    ensures MatchesWordAt(s, p, op)
  {
    SymbolsUnchanged(op);
  }

  /** The ends found at `p` start with that of alternative `i` when none listed before it matches. */
  lemma FirstAlternative(s: string, p: nat, i: nat, w: string)
    requires i < |Alternatives| && Alternatives[i] == Literal(w) && MatchesWordAt(s, p, w)
    requires forall j :: 0 <= j < i ==> AlternativeEnd(s, p, Alternatives[j]).None?
    ensures OperatorEnds(s, p) != [] && OperatorEnds(s, p)[0] == p + |w|
  {
    EndsOfNone(s, p, Alternatives[..i]);
    assert Alternatives == Alternatives[..i] + Alternatives[i..];
    EndsOfAppend(s, p, Alternatives[..i], Alternatives[i..]);
    assert Alternatives[i..][0] == Literal(w);
  }

  /** The clause the compiler writes for a comparison with a text value. */
  lemma ComparisonShape(f: string, op: string, v: string)
    requires Letters(f) && SymbolText(op)
    ensures var s := Comparison(f, op, v);
      var n := |f|;
      && |s| == n + |op| + 4 + |v|
      && s[..n] == f && s[n] == ' ' && s[n + 1..n + 1 + |op|] == op && s[n + 1 + |op|] == ' '
      && s[n + 2 + |op|..] == Quote(v)
  {
  }

  /** The letters of the field are the longest run of letters at the start of the clause. */
  lemma ComparisonLetters(f: string, op: string, v: string)
    requires Letters(f) && SymbolText(op)
    ensures LetterRun(Comparison(f, op, v), 0) == |f|
  {
    var s := Comparison(f, op, v);
    ComparisonShape(f, op, v);
    LettersRun(s, 0, |f|);
  }

  /** A stretch of letters ended by a non-letter is the letter run. */
  lemma {:induction false} LettersRun(s: string, i: nat, j: nat)
    requires i <= j < |s| && !IsAsciiLetter(s[j]) && forall k :: i <= k < j ==> IsAsciiLetter(s[k])
    ensures LetterRun(s, i) == j - i
    decreases j - i
  {
    if i < j {
      LettersRun(s, i + 1, j);
    }
  }

  /** The single blank before a non-blank character is the white-space run. */
  lemma OneSpace(s: string, i: nat)
    requires i + 1 < |s| && IsSpace(s[i]) && !IsSpace(s[i + 1])
    ensures SpaceRun(s, i) == 1
  {
  }

  /**
   * When the letters end at `n` before a single blank, the first operator
   * found there ends at `a`, and a single blank leads to a value at `a + 1`,
   * that is the match: nothing tried earlier can match.
   */
  lemma SimpleMatch(s: string, n: nat, a: nat, v: nat)
    requires 1 <= n && LetterRun(s, 0) == n && SpaceRun(s, n) == 1
    requires OperatorEnds(s, n + 1) != [] && OperatorEnds(s, n + 1)[0] == a
    requires v == a + 1 && v < |s| && SpaceRun(s, a) == 1 && ValueAt(s, v)
    ensures MatchClause(s) == Some(Match(n, n + 1, 0, v))
  {
    AllSpaceWithinRun(s, n, n + 1);
    AllSpaceWithinRun(s, a, v);
    var m := Match(n, n + 1, 0, v);
    assert Parses(s, m);
    MatchClauseFirst(s, m);
    var m0 := MatchClause(s).value;
    AllSpaceWithinRun(s, m0.l, m0.p);
    if m0.l == n && m0.p == n + 1 && m0.k == 0 {
      AllSpaceWithinRun(s, a, m0.v);
    }
  }

  /** The facts SimpleMatch needs, for a clause laid out as `f op "v"`. */
  lemma ComparisonFacts(s: string, f: string, op: string, v: string)
    requires Letters(f) && SymbolText(op) && NoLineTerminator(v)
    requires var n := |f|;
      && |s| == n + |op| + 4 + |v|
      && s[..n] == f && s[n] == ' ' && s[n + 1..n + 1 + |op|] == op && s[n + 1 + |op|] == ' '
      && s[n + 2 + |op|..] == Quote(v)
    ensures var n := |f|;
      && LetterRun(s, 0) == n && SpaceRun(s, n) == 1
      && n + 2 + |op| < |s| && SpaceRun(s, n + 1 + |op|) == 1 && ValueAt(s, n + 2 + |op|)
  {
    var n := |f|;
    var a := n + 1 + |op|;
    assert forall k :: 0 <= k < n ==> s[k] == f[k];
    LettersRun(s, 0, n);
    assert s[n + 1] == op[0];
    OneSpace(s, n);
    assert s[a + 1] == Quote(v)[0];
    OneSpace(s, a);
    QuotedOneLine(v);
  }

  lemma QuotedOneLine(v: string)
    requires NoLineTerminator(v)
    ensures NoLineTerminator(Quote(v))
  {
    forall k | 0 <= k < |Quote(v)|
      ensures !IsLineTerminator(Quote(v)[k])
    {
      if 0 < k < |Quote(v)| - 1 {
        assert Quote(v)[k] == v[k - 1];
      }
    }
  }

  /** How the pattern matches `f op "v"`: field, one blank, the operator, one blank, the quoted value. */
  lemma ComparisonMatch(s: string, f: string, op: string, v: string)
    requires Letters(f) && SymbolOperator(op) && NoLineTerminator(v)
    requires var n := |f|;
      && |s| == n + |op| + 4 + |v|
      && s[..n] == f && s[n] == ' ' && s[n + 1..n + 1 + |op|] == op && s[n + 1 + |op|] == ' '
      && s[n + 2 + |op|..] == Quote(v)
    ensures MatchClause(s) == Some(Match(|f|, |f| + 1, 0, |f| + 2 + |op|))
    ensures OperatorEnds(s, |f| + 1) != [] && OperatorEnds(s, |f| + 1)[0] == |f| + 1 + |op|
  {
    SymbolOperatorText(op);
    ComparisonFacts(s, f, op, v);
    SymbolEnds(s, f, op, v);
    SimpleMatch(s, |f|, |f| + 1 + |op|, |f| + 2 + |op|);
  }

  /** In that clause the first operator found after the field is `op`. */
  lemma SymbolEnds(s: string, f: string, op: string, v: string)
    requires SymbolOperator(op)
    requires var n := |f|;
      && |s| == n + |op| + 4 + |v|
      && s[n + 1..n + 1 + |op|] == op && s[n + 1 + |op|] == ' '
    ensures OperatorEnds(s, |f| + 1) != [] && OperatorEnds(s, |f| + 1)[0] == |f| + 1 + |op|
  {
    var i := AlternativeIndex(op);
    SymbolOperatorText(op);
    EarlierAlternativesFail(s, |f| + 1, i, op);
    SymbolFound(s, |f| + 1, op);
    FirstAlternative(s, |f| + 1, i, op);
  }

  /**
   * A comparison on a field the builder offers, with a symbol operator and
   * a value on one line, is read back as that condition.
   */
  lemma ComparisonRoundTrip(f: string, op: string, v: string, id: string)
    requires f in FieldOptions && Letters(f) && SymbolOperator(op) && NoLineTerminator(v)
    ensures ClauseCondition(Comparison(f, op, v), id) == Condition(id, f, op, Str(v), "AND")
  {
    SymbolOperatorText(op);
    ComparisonShape(f, op, v);
    ComparisonMatch(Comparison(f, op, v), f, op, v);
    SymbolsUnchanged(op);
    QuotedValue(v);
    ComparisonRead(Comparison(f, op, v), f, op, v, id);
  }

  /**
   * What the compiler writes for a filled text condition with a symbol
   * operator on an ordinary field is read back as that condition, its value trimmed.
   */
  lemma CompiledComparisonRoundTrip(c: Condition, normalize: DateFormat, id: string)
    requires OrdinaryField(c.field) && c.field in FieldOptions && Letters(c.field) && SymbolOperator(c.operator)
    requires c.value.Str? && Trim(c.value.s) != "" && NoLineTerminator(c.value.s)
    ensures PartOf(c, normalize) == Some(Comparison(c.field, c.operator, Trim(c.value.s)))
    ensures ClauseCondition(PartOf(c, normalize).value, id) == Condition(id, c.field, c.operator, Str(Trim(c.value.s)), "AND")
  {
    PartOfSymbol(c, normalize);
    TrimmedRoundTrip(c.field, c.operator, c.value.s, id);
  }

  /** A symbol operator is neither empty nor a list operator, so the compiler writes `f op "v"`. */
  lemma PartOfSymbol(c: Condition, normalize: DateFormat)
    requires OrdinaryField(c.field) && SymbolOperator(c.operator) && c.value.Str? && Trim(c.value.s) != ""
    ensures PartOf(c, normalize) == Some(Comparison(c.field, c.operator, Trim(c.value.s)))
  {
    SymbolOperatorText(c.operator);
    SymbolNotList(c.operator);
    PartOfOther(c, normalize);
  }

  /** A symbol operator starts with a symbol, so it is neither empty nor `in` nor `not in`. */
  lemma SymbolNotList(op: string)
    requires SymbolText(op)
    ensures op != "" && !ListOperator(op)
  {
    assert !SymbolChar('i') && !SymbolChar('n');
    assert "in"[0] == 'i' && "not in"[0] == 'n';
  }

  lemma TrimmedRoundTrip(f: string, op: string, s: string, id: string)
    requires f in FieldOptions && Letters(f) && SymbolOperator(op) && NoLineTerminator(s)
    ensures ClauseCondition(Comparison(f, op, Trim(s)), id) == Condition(id, f, op, Str(Trim(s)), "AND")
  {
    TrimSliceOneLine(s);
    ComparisonRoundTrip(f, op, Trim(s), id);
  }

  /** Trimming keeps text on one line. */
  lemma TrimSliceOneLine(s: string)
    requires NoLineTerminator(s)
    ensures NoLineTerminator(Trim(s))
  {
    var a, b := TrimSlice(s);
    assert forall k :: 0 <= k < b - a ==> Trim(s)[k] == s[a + k];
  }

  /** The condition read from a clause laid out as `f op "v"` and matched as such. */
  lemma ComparisonRead(s: string, f: string, op: string, v: string, id: string)
    requires f in FieldOptions
    requires var n := |f|;
      && |s| == n + |op| + 4 + |v|
      && s[..n] == f && s[n + 1..n + 1 + |op|] == op && s[n + 2 + |op|..] == Quote(v)
      && MatchClause(s) == Some(Match(n, n + 1, 0, n + 2 + |op|))
      && OperatorEnds(s, n + 1)[0] == n + 1 + |op|
    requires LowerAscii(op) == op && Trim(op) == op && ParseValue(Trim(Quote(v))) == Str(v)
    ensures ClauseCondition(s, id) == Condition(id, f, op, Str(v), "AND")
  {
    GroupsOfComparison(s, MatchClause(s).value, f, op, v);
    ConditionOfGroups(s, f, op, Quote(v), Str(v), id);
  }

  /** The groups of the match of a clause laid out as `f op "v"`. */
  lemma GroupsOfComparison(s: string, m: Match, f: string, op: string, v: string)
    requires var n := |f|;
      && |s| == n + |op| + 4 + |v|
      && s[..n] == f && s[n + 1..n + 1 + |op|] == op && s[n + 2 + |op|..] == Quote(v)
      && m == Match(n, n + 1, 0, n + 2 + |op|) && Parses(s, m)
      && OperatorEnds(s, n + 1)[0] == n + 1 + |op|
    ensures FieldGroup(s, m) == f && OperatorGroup(s, m) == op && ValueGroup(s, m) == Quote(v)
  {
  }

  /** A double-quoted value reads back as the text between the quotes. */
  lemma QuotedValue(v: string)
    ensures ParseValue(Trim(Quote(v))) == Str(v)
  {
    var q := Quote(v);
    assert q == ['"'] + v + ['"'];
    TrimUnpadded(q);
    StripQuotesOfQuoted('"', v);
  }

  /** The condition a matched clause gives, from its three groups. */
  lemma ConditionOfGroups(s: string, f: string, op: string, g: string, val: Value, id: string)
    requires MatchClause(s).Some? && f in FieldOptions
    requires FieldGroup(s, MatchClause(s).value) == f && OperatorGroup(s, MatchClause(s).value) == op
    requires ValueGroup(s, MatchClause(s).value) == g
    requires LowerAscii(Trim(op)) == op && ParseValue(Trim(g)) == val
    ensures ClauseCondition(s, id) == Condition(id, f, op, val, "AND")
  {
    ClauseConditionCases(s, id);
  }

  // ---------------------------------------------------------------------
  // Lists

  /** Items as the compiler can write them back: at least one, each trimmed and free of commas. */
  predicate ListItems(xs: seq<string>) {
    xs != [] && forall i :: 0 <= i < |xs| ==> Trim(xs[i]) == xs[i] && ',' !in xs[i]
  }

  /** One piece of the comma split of a quoted list, the first or a later one after its blank, reads back as its item. */
  lemma QuotedPiece(x: string, pre: string, piece: string)
    requires (pre == "" || pre == " ") && piece == pre + Quote(x)
    ensures StripQuotes(Trim(piece)) == x
  {
    var q := Quote(x);
    assert q == ['"'] + x + ['"'];
    if pre == "" {
      assert piece == q;
      TrimUnpadded(q);
    } else {
      TrimSpaced(q);
    }
    StripQuotesOfQuoted('"', x);
  }

  /** The comma pieces of a quoted list read back as its items. */
  lemma SplitQuoted(xs: seq<string>)
    requires ListItems(xs)
    ensures var pieces := Split(QuotedList(xs), ',');
      |pieces| == |xs| && forall i :: 0 <= i < |xs| ==> StripQuotes(Trim(pieces[i])) == xs[i]
  {
    var qs := seq(|xs|, i requires 0 <= i < |xs| => Quote(Trim(xs[i])));
    assert QuotedList(xs) == Join(qs, ", ");
    forall i | 0 <= i < |qs|
      ensures qs[i] == Quote(xs[i]) && ',' !in qs[i]
    {
      assert qs[i] == ['"'] + xs[i] + ['"'];
    }
    assert "" + Join(qs, ", ") == Join(qs, ", ");
    SplitCommaSpace("", qs);
    var pieces := Split(Join(qs, ", "), ',');
    forall i | 0 <= i < |xs|
      ensures StripQuotes(Trim(pieces[i])) == xs[i]
    {
      var pre := if i == 0 then "" else " ";
      assert pieces[i] == pre + qs[i];
      QuotedPiece(xs[i], pre, pieces[i]);
    }
  }

  /** A parenthesised list the compiler writes is parsed back into its items. */
  lemma ParseValueOfList(xs: seq<string>)
    requires ListItems(xs)
    ensures ParseValue("(" + QuotedList(xs) + ")") == List(xs)
  {
    var v := "(" + QuotedList(xs) + ")";
    assert |v| >= 2 && v[0] == '(' && v[|v| - 1] == ')' && v[1..|v| - 1] == QuotedList(xs);
    SplitQuoted(xs);
    ParsedItems(v, xs);
  }

  /** A value in parentheses whose comma pieces read back as `xs` parses as the list `xs`. */
  lemma ParsedItems(v: string, xs: seq<string>)
    requires |v| >= 2 && v[0] == '(' && v[|v| - 1] == ')'
    requires var pieces := Split(v[1..|v| - 1], ',');
      |pieces| == |xs| && forall i :: 0 <= i < |xs| ==> StripQuotes(Trim(pieces[i])) == xs[i]
    ensures ParseValue(v) == List(xs)
  {
    var r := ParseValue(v);
    assert |r.items| == |xs|;
    assert forall i :: 0 <= i < |xs| ==> r.items[i] == xs[i];
  }

  /** The `f in ()` the compiler writes for an empty list reads back as a list of one empty item, not an empty list. */
  lemma EmptyListReadsBack()
    ensures ParseValue("()") == List([""])
  {
    var v, e := "()", "";
    assert |v| == 2 && v[0] == '(' && v[1] == ')' && v[1..|v| - 1] == e;
    SplitFree(e, ',');
    EmptyText(e);
    ParsedItems(v, [e]);
  }

  lemma ConcatOneLine(a: string, b: string)
    requires NoLineTerminator(a) && NoLineTerminator(b)
    ensures NoLineTerminator(a + b)
  {
    forall k | 0 <= k < |a + b|
      ensures !IsLineTerminator((a + b)[k])
    {
      if k >= |a| {
        assert (a + b)[k] == b[k - |a|];
      }
    }
  }

  lemma {:induction false} JoinOneLine(parts: seq<string>, sep: string)
    requires NoLineTerminator(sep) && forall i :: 0 <= i < |parts| ==> NoLineTerminator(parts[i])
    ensures NoLineTerminator(Join(parts, sep))
    decreases |parts|
  {
    if |parts| >= 2 {
      JoinOneLine(parts[1..], sep);
      ConcatOneLine(parts[0], sep);
      ConcatOneLine(parts[0] + sep, Join(parts[1..], sep));
    }
  }

  /** A list of one-line items is written on one line. */
  lemma ListOneLine(xs: seq<string>)
    requires forall i :: 0 <= i < |xs| ==> NoLineTerminator(xs[i])
    ensures NoLineTerminator("(" + QuotedList(xs) + ")")
  {
    var qs := seq(|xs|, i requires 0 <= i < |xs| => Quote(Trim(xs[i])));
    forall i | 0 <= i < |qs|
      ensures NoLineTerminator(qs[i])
    {
      TrimSliceOneLine(xs[i]);
      QuotedOneLine(Trim(xs[i]));
    }
    JoinOneLine(qs, ", ");
    ConcatOneLine("(", QuotedList(xs));
    ConcatOneLine("(" + QuotedList(xs), ")");
  }

  /** A clause laid out as `f in g`. */
  predicate InShape(s: string, f: string, g: string) {
    var n := |f|;
    && |s| == n + 4 + |g|
    && s[..n] == f && s[n] == ' ' && s[n + 1..n + 3] == "in" && s[n + 3] == ' ' && s[n + 4..] == g
  }

  /** The clause the compiler writes for `in` with a list. */
  lemma ListShape(f: string, xs: seq<string>)
    ensures InShape(ListPart(f, "in", xs), f, "(" + QuotedList(xs) + ")")
  {
    var q := QuotedList(xs);
    assert ListPart(f, "in", xs) == f + " " + "in" + " (" + q + ")";
    InShapeOf(f, q);
  }

  lemma InShapeOf(f: string, q: string)
    ensures InShape(f + " " + "in" + " (" + q + ")", f, "(" + q + ")")
  {
  }

  lemma InUnchanged()
    ensures LowerAscii("in") == "in" && Trim("in") == "in"
  {
    LowerAsciiLowers("in");
    assert LowerAscii("in") == "in";
    TrimUnpadded("in");
  }

  /** How the pattern matches `f in (…)`: field, one blank, `in`, one blank, the list. */
  lemma InMatch(s: string, f: string, g: string)
    requires Letters(f) && InShape(s, f, g) && g != [] && g[0] == '(' && NoLineTerminator(g)
    ensures var n := |f|;
      MatchClause(s) == Some(Match(n, n + 1, 0, n + 4)) && OperatorEnds(s, n + 1) == [n + 3]
  {
    var n := |f|;
    FieldRun(s, f);
    assert s[n + 1] == s[n + 1..n + 3][0] == 'i';
    assert s[n + 4] == s[n + 4..][0] == '(';
    OneSpace(s, n);
    InEnds(s, n + 1);
    OneSpace(s, n + 3);
    SimpleMatch(s, n, n + 3, n + 4);
  }

  /** A field followed by a blank is the letter run at the start. */
  lemma FieldRun(s: string, f: string)
    requires Letters(f) && |f| < |s| && s[..|f|] == f && s[|f|] == ' '
    ensures LetterRun(s, 0) == |f|
  {
    assert forall k :: 0 <= k < |f| ==> s[k] == f[k];
    LettersRun(s, 0, |f|);
  }

  /** Where `in` is written before a blank, it is the only operator that matches. */
  lemma InEnds(s: string, p: nat)
    requires p + 2 < |s| && s[p..p + 2] == "in" && s[p + 2] == ' '
    ensures OperatorEnds(s, p) == [p + 2]
  {
    InUnchanged();
    OnlyInAt(s, p);
  }

  /** The groups of that match. */
  lemma InGroups(s: string, f: string, g: string)
    requires InShape(s, f, g)
    requires var n := |f|;
      MatchClause(s) == Some(Match(n, n + 1, 0, n + 4)) && OperatorEnds(s, n + 1) == [n + 3]
    ensures var m := MatchClause(s).value;
      FieldGroup(s, m) == f && OperatorGroup(s, m) == "in" && ValueGroup(s, m) == g
  {
  }

  /**
   * A list condition on a field the builder offers, written `f in ("a", "b")`,
   * is read back as that condition: the partner of ListPart.
   */
  lemma ListRoundTrip(f: string, xs: seq<string>, id: string)
    requires f in FieldOptions && Letters(f) && ListItems(xs)
    requires forall i :: 0 <= i < |xs| ==> NoLineTerminator(xs[i])
    ensures ClauseCondition(ListPart(f, "in", xs), id) == Condition(id, f, "in", List(xs), "AND")
  {
    ListFacts(f, xs);
    InRead(ListPart(f, "in", xs), f, "(" + QuotedList(xs) + ")", List(xs), id);
  }

  /** The list `in` clause is laid out as `f in g`, with `g` on one line and parsing back into the items. */
  lemma ListFacts(f: string, xs: seq<string>)
    requires ListItems(xs) && forall i :: 0 <= i < |xs| ==> NoLineTerminator(xs[i])
    ensures var g := "(" + QuotedList(xs) + ")";
      && InShape(ListPart(f, "in", xs), f, g) && g[0] == '('
      && NoLineTerminator(g) && ParseValue(Trim(g)) == List(xs)
  {
    var g := "(" + QuotedList(xs) + ")";
    ListShape(f, xs);
    ListOneLine(xs);
    TrimUnpadded(g);
    ParseValueOfList(xs);
  }

  /** The condition read from a clause laid out as `f in g`, for a `g` in parentheses on one line. */
  lemma InRead(s: string, f: string, g: string, val: Value, id: string)
    requires f in FieldOptions && Letters(f) && InShape(s, f, g)
    requires g != [] && g[0] == '(' && NoLineTerminator(g) && ParseValue(Trim(g)) == val
    ensures ClauseCondition(s, id) == Condition(id, f, "in", val, "AND")
  {
    InMatch(s, f, g);
    InGroups(s, f, g);
    InUnchanged();
    ConditionOfGroups(s, f, "in", g, val, id);
  }

  /** The compiler's text for `in` with a list on an ordinary field is read back as the condition. */
  lemma CompiledListRoundTrip(c: Condition, normalize: DateFormat, id: string)
    requires OrdinaryField(c.field) && c.field in FieldOptions && Letters(c.field) && c.operator == "in"
    requires c.value.List? && ListItems(c.value.items)
    requires forall i :: 0 <= i < |c.value.items| ==> NoLineTerminator(c.value.items[i])
    ensures PartOf(c, normalize) == Some(ListPart(c.field, "in", c.value.items))
    ensures ClauseCondition(PartOf(c, normalize).value, id) == c.(id := id, logic := "AND")
  {
    PartOfInList(c, normalize);
    ListRoundTrip(c.field, c.value.items, id);
  }
}
