/**
 * The condition compiler: the effect that turns the condition list into the
 * query text shown under the builder (src/components/JQLBuilder.tsx:152-223).
 * Each condition yields at most one part; every part after the first is
 * preceded by the connective of the condition just before it in the list.
 */
module JqlCompiler {
  import opened Wrappers
  import opened Seqs
  import opened Text
  import opened JqlModel

  /**
   * `format(new Date(v), "yyyy-MM-dd")`, which depends on the time zone and on
   * date-fns: the model takes it as a parameter; None stands for the throw.
   */
  type DateFormat = string -> Option<string>

  function Quote(v: string): string {
    "\"" + v + "\""
  }

  /** `f op "v"` */
  function Comparison(field: string, op: string, v: string): string {
    field + " " + op + " " + Quote(v)
  }

  /** Each item trimmed and double-quoted, joined by ", ". */
  function QuotedList(items: seq<string>): string {
    Join(seq(|items|, i requires 0 <= i < |items| => Quote(Trim(items[i]))), ", ")
  }

  /** `f op (items)` */
  function ListPart(field: string, op: string, items: seq<string>): string {
    field + " " + op + " (" + QuotedList(items) + ")"
  }

  /** `/^\d{4}-\d{2}-\d{2}/`: a leading calendar date. */
  predicate HasDatePrefix(s: string) {
    |s| >= 10 && IsDigit(s[0]) && IsDigit(s[1]) && IsDigit(s[2]) && IsDigit(s[3]) && s[4] == '-'
    && IsDigit(s[5]) && IsDigit(s[6]) && s[7] == '-' && IsDigit(s[8]) && IsDigit(s[9])
  }

  /** `/^[a-zA-Z]+\(.*\)$/`: a value that already reads as a function call. */
  predicate IsFunctionCall(s: string) {
    var k := LetterRun(s, 0);
    1 <= k && k + 2 <= |s| && s[k] == '(' && s[|s| - 1] == ')' && NoLineTerminator(s[k + 1..|s| - 1])
  }

  /** `s.replace(/^\(|\)$/g, "")`: one leading `(` and one trailing `)`, each removed on its own. */
  function StripParens(s: string): (r: string)
    ensures |s| - 2 <= |r| <= |s|
    ensures |s| >= 2 && s[0] == '(' && s[|s| - 1] == ')' ==> r == s[1..|s| - 1]
    ensures s != [] && s[0] == '(' && s[|s| - 1] != ')' ==> r == s[1..]
    ensures s != [] && s[0] != '(' && s[|s| - 1] == ')' ==> r == s[..|s| - 1]
    ensures s == [] || (s[0] != '(' && s[|s| - 1] != ')') ==> r == s
  {
    var a := if s != [] && s[0] == '(' then s[1..] else s;
    if a != [] && a[|a| - 1] == ')' then a[..|a| - 1] else a
  }

  /** The text quoted for a date field: normalised when it starts with a date and the formatting does not throw. */
  function DateText(v: string, normalize: DateFormat): string {
    if HasDatePrefix(v) then
      match normalize(v)
      case Some(d) => d
      case None => v
    else v
  }

  /** `"(" + val.map(v => `f op "v"`).join(subLogic) + ")"`: one comparison per item, in parentheses. */
  function AnyOf(field: string, op: string, items: seq<string>): string {
    "(" + Join(seq(|items|, i requires 0 <= i < |items| => Comparison(field, op, Trim(items[i]))), SubLogic(op)) + ")"
  }

  /** The connective between the comparisons of an array value. */
  function SubLogic(op: string): string {
    if '!' in op then " AND " else " OR "
  }

  /** `typeof c.value === 'string' ? c.value.trim() : c.value` */
  function Trimmed(v: Value): Value {
    match v
    case Str(s) => Str(Trim(s))
    case List(xs) => List(xs)
  }

  /** `in` / `not in` on a field without a rule of its own, for the trimmed value `v`. */
  function InPart(f: string, op: string, v: Value): string {
    match v
    case Str(s) =>
      if f == "issueFunction" || IsFunctionCall(s) then f + " " + op + " " + s
      else
        var clean := Trim(StripParens(s));
        if ',' in clean then ListPart(f, op, Split(clean, ','))
        else f + " " + op + " (" + Quote(clean) + ")"
    case List(xs) => ListPart(f, op, xs)
  }

  /** Any other operator on a field without a rule of its own, for the trimmed value `v`. */
  function OtherPart(f: string, op: string, v: Value): Option<string> {
    match v
    case List(xs) => if xs == [] then None else Some(AnyOf(f, op, xs))
    case Str(s) => if s != "" then Some(Comparison(f, op, s)) else None
  }

  /** The part one condition contributes, or None when it contributes nothing. */
  function PartOf(c: Condition, normalize: DateFormat): (r: Option<string>)
    ensures c.field == "" || c.operator == "" ==> r == None
    ensures r.Some? ==> r.value != ""
    ensures c.field == "custom" && c.operator != "" ==>
              r == if c.value.Str? && Trim(c.value.s) != "" then Some(Trim(c.value.s)) else None
    ensures c.field == "worklogAuthor" && c.operator != "" ==>
              (r.Some? <==> c.value.List? && c.value.items != [])
    ensures IsDateField(c.field) && c.operator != "" ==>
              (r.Some? <==> c.value.Str? && Trim(c.value.s) != "")
    ensures OrdinaryField(c.field) && ListOperator(c.operator) ==> r.Some?
    ensures OrdinaryField(c.field) && !ListOperator(c.operator) && c.operator != "" ==>
              (r.Some? <==> if c.value.List? then c.value.items != [] else Trim(c.value.s) != "")
  {
    if c.field == "" || c.operator == "" then None
    else
      var f, op, v := c.field, c.operator, Trimmed(c.value);
      if f == "custom" then
        if v.Str? && v.s != "" then Some(v.s) else None
      else if f == "worklogAuthor" then
        if v.List? && v.items != [] then Some(ListPart(f, op, v.items)) else None
      else if IsDateField(f) then
        if v.Str? && v.s != "" then Some(Comparison(f, op, DateText(v.s, normalize))) else None
      else if ListOperator(op) then Some(InPart(f, op, v))
      else OtherPart(f, op, v)
  }

  predicate ListOperator(op: string) {
    op == "in" || op == "not in"
  }

  /** The author field: its list in parentheses, each account trimmed and quoted; nothing for an empty list or text. */
  lemma PartOfAuthors(c: Condition, normalize: DateFormat)
    requires c.field == "worklogAuthor" && c.operator != ""
    ensures PartOf(c, normalize) ==
      if c.value.List? && c.value.items != [] then Some(ListPart(c.field, c.operator, c.value.items)) else None
  {
  }

  /**
   * A date field: the trimmed text quoted, in the formatted form when it
   * starts with a date and the formatting does not throw, and as typed
   * otherwise; nothing for blank text or a list.
   */
  lemma PartOfDate(c: Condition, normalize: DateFormat)
    requires IsDateField(c.field) && c.operator != ""
    ensures PartOf(c, normalize) ==
      if c.value.Str? && Trim(c.value.s) != "" then Some(Comparison(c.field, c.operator, DateText(Trim(c.value.s), normalize)))
      else None
    ensures c.value.Str? && Trim(c.value.s) != "" && !HasDatePrefix(Trim(c.value.s)) ==>
      PartOf(c, normalize) == Some(Comparison(c.field, c.operator, Trim(c.value.s)))
  {
  }

  /** A quoted item written on its own between parentheses is the one-item list. */
  lemma ListPartOne(f: string, op: string, clean: string)
    requires Trim(clean) == clean
    ensures ListPart(f, op, [clean]) == f + " " + op + " (" + Quote(clean) + ")"
  {
    var qs := seq(1, i requires 0 <= i < 1 => Quote(Trim([clean][i])));
    assert qs[0] == Quote(clean);
    JoinSingle(qs, ", ");
  }

  /** Text without a comma is written as a list of one item, so every text is its comma pieces quoted. */
  lemma InPartText(f: string, op: string, s: string)
    requires f != "issueFunction" && !IsFunctionCall(s)
    ensures InPart(f, op, Str(s)) == ListPart(f, op, Split(Trim(StripParens(s)), ','))
  {
    var clean := Trim(StripParens(s));
    if ',' !in clean {
      SplitFree(clean, ',');
      TrimIdempotent(StripParens(s));
      ListPartOne(f, op, clean);
    }
  }

  /**
   * `in` / `not in` with text on another field: verbatim for issueFunction
   * and for a function call; otherwise the text without its outer
   * parentheses, cut at every comma, each piece trimmed and quoted. Text
   * without a comma is one piece, so blank text gives `f in ("")`.
   */
  lemma PartOfInText(c: Condition, normalize: DateFormat)
    requires OrdinaryField(c.field) && ListOperator(c.operator) && c.value.Str?
    ensures var v := Trim(c.value.s);
      PartOf(c, normalize) ==
        if c.field == "issueFunction" || IsFunctionCall(v) then Some(c.field + " " + c.operator + " " + v)
        else Some(ListPart(c.field, c.operator, Split(Trim(StripParens(v)), ',')))
  {
    var v := Trim(c.value.s);
    assert PartOf(c, normalize) == Some(InPart(c.field, c.operator, Str(v)));
    if !(c.field == "issueFunction" || IsFunctionCall(v)) {
      InPartText(c.field, c.operator, v);
    }
  }

  /** `in` / `not in` with a list on another field: the list in parentheses, `f in ()` when it is empty. */
  lemma PartOfInList(c: Condition, normalize: DateFormat)
    requires OrdinaryField(c.field) && ListOperator(c.operator) && c.value.List?
    ensures PartOf(c, normalize) == Some(ListPart(c.field, c.operator, c.value.items))
    ensures c.value.items == [] ==> PartOf(c, normalize) == Some(c.field + " " + c.operator + " ()")
  {
    assert PartOf(c, normalize) == Some(InPart(c.field, c.operator, c.value));
    if c.value.items == [] {
      ListPartEmpty(c.field, c.operator);
    }
  }

  /** An empty list is written as empty parentheses. */
  lemma ListPartEmpty(f: string, op: string)
    ensures ListPart(f, op, []) == f + " " + op + " ()"
  {
    assert QuotedList([]) == "";
  }

  /** The two texts `in` writes for an empty value: `f in ("")` for empty text and `f in ()` for an empty list. */
  lemma PartOfEmptyIn(c: Condition, normalize: DateFormat)
    requires OrdinaryField(c.field) && c.field != "issueFunction" && ListOperator(c.operator)
    ensures c.value == Str("") ==> PartOf(c, normalize) == Some(c.field + " " + c.operator + " (\"\")")
    ensures c.value == List([]) ==> PartOf(c, normalize) == Some(c.field + " " + c.operator + " ()")
  {
    if c.value == Str("") {
      EmptyInPart(c.field, c.operator);
      assert PartOf(c, normalize) == Some(InPart(c.field, c.operator, Trimmed(c.value)));
    } else if c.value == List([]) {
      PartOfInList(c, normalize);
    }
  }

  lemma EmptyInPart(f: string, op: string)
    requires f != "issueFunction"
    ensures InPart(f, op, Str(Trim(""))) == f + " " + op + " (\"\")"
  {
    EmptyText("");
    EmptyItem(f + " " + op);
  }

  /** One empty quoted item in parentheses. */
  lemma EmptyItem(pre: string)
    ensures pre + " (" + Quote("") + ")" == pre + " (\"\")"
  {
    var a, b := pre + " (" + Quote("") + ")", pre + " (\"\")";
    assert |a| == |b| && forall k :: 0 <= k < |a| ==> a[k] == b[k];
  }

  /** Empty text trims, strips and quotes as expected, and is no function call. */
  lemma EmptyText(s: string)
    requires |s| == 0
    ensures Trim(s) == s && Trim(StripParens(s)) == s && !IsFunctionCall(s) && Quote(s) == "\"\""
  {
    assert LetterRun(s, 0) == 0;
  }

  /**
   * Any other operator: a list becomes one comparison per item in
   * parentheses, joined by AND for a negated operator and by OR otherwise;
   * text becomes `f op "v"`, trimmed; an empty list or blank text gives nothing.
   */
  lemma PartOfOther(c: Condition, normalize: DateFormat)
    requires OrdinaryField(c.field) && !ListOperator(c.operator) && c.operator != ""
    ensures c.value.List? ==>
      PartOf(c, normalize) == if c.value.items == [] then None else Some(AnyOf(c.field, c.operator, c.value.items))
    ensures c.value.Str? ==>
      PartOf(c, normalize) == if Trim(c.value.s) == "" then None else Some(Comparison(c.field, c.operator, Trim(c.value.s)))
    ensures SubLogic(c.operator) == if '!' in c.operator then " AND " else " OR "
  {
    assert PartOf(c, normalize) == OtherPart(c.field, c.operator, Trimmed(c.value));
  }

  /** A present field without a formatting rule of its own. */
  predicate OrdinaryField(field: string) {
    field != "" && field != "custom" && field != "worklogAuthor" && !IsDateField(field)
  }

  /** `conditions[j]?.logic || "AND"`: the connective written after the part of a condition after `j`. */
  function JoinToken(cs: seq<Condition>, j: nat): (t: string)
    requires j < |cs|
    ensures t != ""
    ensures t == if cs[j].logic == "" then "AND" else cs[j].logic
  {
    if cs[j].logic != "" then cs[j].logic else "AND"
  }

  /** What each condition contributes, in list order. */
  function Outputs(cs: seq<Condition>, normalize: DateFormat): (outs: seq<Option<string>>)
    ensures |outs| == |cs|
    ensures forall i :: 0 <= i < |cs| ==> outs[i] == PartOf(cs[i], normalize)
  {
    seq(|cs|, i requires 0 <= i < |cs| => PartOf(cs[i], normalize))
  }

  /** The positions below `n` of `outs` that hold a part, in increasing order. */
  function Emitters(outs: seq<Option<string>>, n: nat): (e: seq<nat>)
    requires n <= |outs|
    ensures forall k :: 0 <= k < |e| ==> e[k] < n && outs[e[k]].Some?
    ensures forall k, l :: 0 <= k < l < |e| ==> e[k] < e[l]
  {
    if n == 0 then []
    else Emitters(outs, n - 1) + (if outs[n - 1].Some? then [n - 1] else [])
  }

  /** Every position below `n` that holds a part is among the emitters. */
  lemma {:induction false} EmittersComplete(outs: seq<Option<string>>, n: nat, i: nat)
    requires n <= |outs| && i < n
    ensures outs[i].Some? <==> i in Emitters(outs, n)
  {
    if i < n - 1 {
      EmittersComplete(outs, n - 1, i);
    }
  }

  /** No position contributes exactly when no condition yields a part. */
  lemma EmittersEmpty(outs: seq<Option<string>>)
    ensures Emitters(outs, |outs|) == [] <==> forall i :: 0 <= i < |outs| ==> outs[i].None?
  {
    var e := Emitters(outs, |outs|);
    if e == [] {
      forall i | 0 <= i < |outs|
        ensures outs[i].None?
      {
        EmittersComplete(outs, |outs|, i);
      }
    } else {
      assert outs[e[0]].Some?;
    }
  }

  /**
   * `parts` is the list `jqlParts` for the contributing positions `e`: the
   * part of e[0], then for every later e[k] the connective of condition
   * e[k] - 1 followed by the part of e[k].
   */
  ghost predicate Laid(parts: seq<string>, cs: seq<Condition>, outs: seq<Option<string>>, e: seq<nat>)
    requires |outs| == |cs|
  {
    (forall k :: 0 <= k < |e| ==> e[k] < |cs|)
    && |parts| == (if e == [] then 0 else 2 * |e| - 1)
    && (forall k :: 0 <= k < |e| ==> outs[e[k]] == Some(parts[2 * k]))
    && (forall k :: 0 < k < |e| ==> 0 < e[k] && parts[2 * k - 1] == JoinToken(cs, e[k] - 1))
  }

  lemma EmittersSkip(outs: seq<Option<string>>, idx: nat)
    requires idx < |outs| && outs[idx].None?
    ensures Emitters(outs, idx + 1) == Emitters(outs, idx)
  {
  }

  lemma EmittersPush(outs: seq<Option<string>>, idx: nat)
    requires idx < |outs| && outs[idx].Some?
    ensures Emitters(outs, idx + 1) == Emitters(outs, idx) + [idx]
  {
  }

  /** A position without a part leaves the laid-out parts as they are. */
  lemma LaidSkip(parts: seq<string>, cs: seq<Condition>, outs: seq<Option<string>>, idx: nat)
    requires |outs| == |cs| && idx < |cs| && outs[idx].None?
    requires Laid(parts, cs, outs, Emitters(outs, idx))
    ensures Laid(parts, cs, outs, Emitters(outs, idx + 1))
  {
    EmittersSkip(outs, idx);
  }

  /** The first part is pushed without a connective. */
  lemma LaidFirst(cs: seq<Condition>, outs: seq<Option<string>>, idx: nat)
    requires |outs| == |cs| && idx < |cs| && outs[idx].Some?
    requires Emitters(outs, idx) == []
    ensures Laid([outs[idx].value], cs, outs, Emitters(outs, idx + 1))
  {
    EmittersPush(outs, idx);
  }

  /** A later part is pushed after the connective of the condition just before it. */
  lemma LaidNext(parts: seq<string>, cs: seq<Condition>, outs: seq<Option<string>>, idx: nat)
    requires |outs| == |cs| && idx < |cs| && outs[idx].Some?
    requires Emitters(outs, idx) != []
    requires Laid(parts, cs, outs, Emitters(outs, idx))
    ensures 0 < idx
    ensures Laid(parts + [JoinToken(cs, idx - 1), outs[idx].value], cs, outs, Emitters(outs, idx + 1))
  {
    var e := Emitters(outs, idx);
    var e' := Emitters(outs, idx + 1);
    EmittersPush(outs, idx);
    var parts' := parts + [JoinToken(cs, e[0] + idx - e[0] - 1), outs[idx].value];
    assert |parts'| == 2 * |e'| - 1;
    forall k | 0 <= k < |e'|
      ensures outs[e'[k]] == Some(parts'[2 * k])
    {
      if k < |e| {
        assert parts'[2 * k] == parts[2 * k];
      }
    }
    forall k | 0 < k < |e'|
      ensures 0 < e'[k] && parts'[2 * k - 1] == JoinToken(cs, e'[k] - 1)
    {
      if k < |e| {
        assert parts'[2 * k - 1] == parts[2 * k - 1];
      }
    }
  }

  /**
   * The parts pushed for the first `n` conditions: each contributing
   * condition pushes its part, preceded by the connective of the condition
   * just before it unless nothing was pushed yet.
   */
  function Layout(cs: seq<Condition>, outs: seq<Option<string>>, n: nat): (parts: seq<string>)
    requires |outs| == |cs| && n <= |cs|
    ensures parts != [] ==> n > 0
  {
    if n == 0 then []
    else
      var prev := Layout(cs, outs, n - 1);
      match outs[n - 1]
      case None => prev
      case Some(p) => if prev == [] then [p] else prev + [JoinToken(cs, n - 2), p]
  }

  /** The pushed parts are laid out as Laid describes: parts at even places, connectives between. */
  lemma {:induction false} LayoutLaid(cs: seq<Condition>, outs: seq<Option<string>>, n: nat)
    requires |outs| == |cs| && n <= |cs|
    ensures Laid(Layout(cs, outs, n), cs, outs, Emitters(outs, n))
  {
    if n > 0 {
      var prev := Layout(cs, outs, n - 1);
      LayoutLaid(cs, outs, n - 1);
      if outs[n - 1].None? {
        LaidSkip(prev, cs, outs, n - 1);
      } else if prev == [] {
        LaidFirst(cs, outs, n - 1);
      } else {
        LaidNext(prev, cs, outs, n - 1);
      }
    }
  }

  /**
   * The compile effect: computes what each condition contributes, pushes
   * the parts, and joins them with single spaces.
   */
  method Compile(conditions: seq<Condition>, normalize: DateFormat) returns (jqlParts: seq<string>, jql: string)
    ensures jqlParts == Layout(conditions, Outputs(conditions, normalize), |conditions|)
    ensures jql == Join(jqlParts, " ")
    ensures var outs := Outputs(conditions, normalize);
      jql == "" <==> Emitters(outs, |outs|) == []
  {
    var outs := Outputs(conditions, normalize);
    jqlParts := PushParts(conditions, outs);
    jql := Join(jqlParts, " ");
    LayoutLaid(conditions, outs, |conditions|);
    if jqlParts != [] {
      ghost var e := Emitters(outs, |outs|);
      assert outs[e[0]] == Some(jqlParts[0]);
      JoinNonEmpty(jqlParts, " ", 0);
    }
  }

  /**
   * The loop of the compile effect: walks the conditions left to right and
   * pushes each contribution, preceded by the previous condition's
   * connective when it is not the first.
   */
  method PushParts(conditions: seq<Condition>, outs: seq<Option<string>>) returns (jqlParts: seq<string>)
    requires |outs| == |conditions|
    ensures jqlParts == Layout(conditions, outs, |conditions|)
  {
    jqlParts := [];
    var idx := 0;
    while idx < |conditions|
      invariant idx <= |conditions|
      invariant jqlParts == Layout(conditions, outs, idx)
    {
      var part := outs[idx];
      if part.Some? {
        if |jqlParts| > 0 {
          var prevLogic := JoinToken(conditions, idx - 1);
          jqlParts := jqlParts + [prevLogic, part.value];
        } else {
          jqlParts := [part.value];
        }
      }
      idx := idx + 1;
    }
  }

  /**
   * The connective in front of a part is the logic of the condition just
   * before it, even when that condition contributes nothing: with three
   * conditions of which the middle one is silent, the result is the first
   * part, the middle condition's logic, and the third part.
   */
  lemma LayoutConnectiveOfSilent(cs: seq<Condition>, outs: seq<Option<string>>)
    requires |cs| == 3 && |outs| == 3
    requires outs[0].Some? && outs[1].None? && outs[2].Some?
    ensures Layout(cs, outs, 3) == [outs[0].value, JoinToken(cs, 1), outs[2].value]
  {
    assert Layout(cs, outs, 1) == [outs[0].value];
    assert Layout(cs, outs, 2) == [outs[0].value];
  }

  /** The parts laid out for given emitters are determined by them. */
  lemma {:induction false} LaidUnique(p: seq<string>, q: seq<string>, cs: seq<Condition>, outs: seq<Option<string>>, e: seq<nat>)
    requires |outs| == |cs|
    requires Laid(p, cs, outs, e) && Laid(q, cs, outs, e)
    ensures p == q
  {
    forall j | 0 <= j < |p|
      ensures p[j] == q[j]
    {
      if j % 2 == 0 {
        assert outs[e[j / 2]] == Some(p[2 * (j / 2)]);
        assert outs[e[j / 2]] == Some(q[2 * (j / 2)]);
      } else {
        assert p[2 * ((j + 1) / 2) - 1] == JoinToken(cs, e[(j + 1) / 2] - 1);
        assert q[2 * ((j + 1) / 2) - 1] == JoinToken(cs, e[(j + 1) / 2] - 1);
      }
    }
  }
}
