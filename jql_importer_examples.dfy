/**
 * Facts about the clause matcher on particular inputs, and the small
 * lemmas about the operator alternatives they rest on.
 */
module JqlImporterExamples {
  import opened Wrappers
  import opened Text
  import opened JqlModel
  import opened JqlImporter

  /**
   * The identifier group gives back letters: `domain (x)` matches with the
   * field `doma` and the operator `in` taken from the middle of the word.
   */
  lemma DomainClause()
    ensures MatchClause("domain (x)") == Some(Match(4, 4, 0, 7))
  {
    var s := "domain (x)";
    var m := Match(4, 4, 0, 7);
    DomainParses();
    MatchClauseFirst(s, m);
    DomainNothingEarlier(MatchClause(s).value);
  }

  lemma DomainParses()
    ensures Parses("domain (x)", Match(4, 4, 0, 7))
  {
    DomainLetters();
    DomainOperator();
    DomainValue();
    ParsesAt("domain (x)");
  }

  /** The facts about `domain (x)` that make the match found parse. */
  lemma ParsesAt(s: string)
    requires |s| == 10 && LetterRun(s, 0) == 6 && OperatorEnds(s, 4) == [6]
    requires AllSpace(s[6..7]) && ValueAt(s, 7)
    ensures Parses(s, Match(4, 4, 0, 7))
  {
    assert AllSpace(s[4..4]);
  }

  lemma DomainLetters()
    ensures LetterRun("domain (x)", 0) == 6
  {
  }

  lemma DomainOperator()
    ensures OperatorEnds("domain (x)", 4) == [6]
  {
    var s := "domain (x)";
    assert s[4..6] == "in";
    var l := LowerAscii("in");
    assert l[0] == 'i' && l[1] == 'n';
    assert l == "in";
    OnlyInAt(s, 4);
  }

  lemma DomainValue()
    ensures AllSpace("domain (x)"[6..7]) && ValueAt("domain (x)", 7)
  {
    var s := "domain (x)";
    assert s[6..7] == " ";
    assert s[7..] == "(x)";
  }

  lemma DomainNothingEarlier(m0: Match)
    requires Parses("domain (x)", m0)
    ensures !TriedBefore(m0, Match(4, 4, 0, 7))
  {
    var s := "domain (x)";
    DomainLetters();
    DomainOperator();
    DomainNoOperator5();
    DomainNoOperator6();
    DomainNoOperator7();
    DomainSpaces();
    assert |s| == 10;
    EarliestAt(s, m0);
  }

  /** The facts about `domain (x)` that rule out every match tried before the one found. */
  lemma EarliestAt(s: string, m0: Match)
    requires Parses(s, m0) && |s| == 10
    requires LetterRun(s, 0) == 6 && OperatorEnds(s, 4) == [6]
    requires OperatorEnds(s, 5) == [] && OperatorEnds(s, 6) == [] && OperatorEnds(s, 7) == []
    requires SpaceRun(s, 4) == 0 && SpaceRun(s, 5) == 0 && SpaceRun(s, 6) == 1
    ensures !TriedBefore(m0, Match(4, 4, 0, 7))
  {
    var p := SpacesFrom(s, m0.l, m0.p);
    if m0.l == 6 {
      assert p == 6 || p == 7;
    } else if m0.l == 4 {
      assert p == 4;
      var e := OperatorEnds(s, p)[m0.k];
      assert e == 6;
      var v := SpacesFrom(s, e, m0.v);
      assert v <= 7;
    }
  }

  /** The end of an all-space stretch starting at `i` lies within the space run there. */
  lemma SpacesFrom(s: string, i: nat, j: nat) returns (j': nat)
    requires i <= j <= |s| && AllSpace(s[i..j])
    ensures j' == j && j <= i + SpaceRun(s, i)
  {
    AllSpaceWithinRun(s, i, j);
    j' := j;
  }

  lemma DomainNoOperator5()
    ensures OperatorEnds("domain (x)", 5) == []
  {
    NoOperatorAt("domain (x)", 5);
  }

  lemma DomainNoOperator6()
    ensures OperatorEnds("domain (x)", 6) == []
  {
    NoOperatorAt("domain (x)", 6);
  }

  lemma DomainNoOperator7()
    ensures OperatorEnds("domain (x)", 7) == []
  {
    NoOperatorAt("domain (x)", 7);
  }

  lemma DomainSpaces()
    ensures SpaceRun("domain (x)", 4) == 0 && SpaceRun("domain (x)", 5) == 0 && SpaceRun("domain (x)", 6) == 1
  {
  }
}
