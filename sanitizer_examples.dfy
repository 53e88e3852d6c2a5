/** Two inputs of `sanitizeText` worked through the whole rule table: an
    operator that contains shorter ones, and a member call whose empty
    parentheses are dropped afterwards. */
module SanitizerExamples {
  import opened Strings
  import opened Results
  import opened Rules
  import opened Sanitizer

  /** A text of letters, spaces and hyphens lacks every other character. */
  lemma SpokenLacks(t: string)
    requires SpokenText(t)
    ensures forall c :: !IsSpokenChar(c) ==> c !in t
  {
  }

  lemma Single(x: Rule, s: string)
    ensures ApplyRules([x], s) == ReplaceAll(x, s)
  {
    assert [x][..0] == [];
  }

  /** Three groups of rules applied one after the other. */
  lemma Chain3(a: seq<Rule>, b: seq<Rule>, c: seq<Rule>, s: string, ra: Replaced, rb: Replaced, rc: Replaced)
    requires ApplyRules(a, s) == ra && ApplyRules(b, ra.text) == rb && ApplyRules(c, rb.text) == rc
    ensures ApplyRules(a + b + c, s) == Replaced(rc.text, ra.count + rb.count + rc.count)
  {
    ApplyThen(a, b, s, ra, rb);
    ApplyThen(a + b, c, s, Replaced(rb.text, ra.count + rb.count), rc);
  }

  /** The seven groups of the table applied one after the other. */
  lemma Chain7(g1: seq<Rule>, g2: seq<Rule>, g3: seq<Rule>, g4: seq<Rule>, g5: seq<Rule>, g6: seq<Rule>, g7: seq<Rule>,
               s: string, r1: Replaced, r2: Replaced, r3: Replaced, r4: Replaced, r5: Replaced, r6: Replaced, r7: Replaced)
    requires ApplyRules(g1, s) == r1 && ApplyRules(g2, r1.text) == r2 && ApplyRules(g3, r2.text) == r3
    requires ApplyRules(g4, r3.text) == r4 && ApplyRules(g5, r4.text) == r5
    requires ApplyRules(g6, r5.text) == r6 && ApplyRules(g7, r6.text) == r7
    ensures ApplyRules(g1 + g2 + g3 + g4 + g5 + g6 + g7, s) ==
      Replaced(r7.text, r1.count + r2.count + r3.count + r4.count + r5.count + r6.count + r7.count)
  {
    Chain3(g1, g2, g3, s, r1, r2, r3);
    var m := Replaced(r3.text, r1.count + r2.count + r3.count);
    Chain3(g1 + g2 + g3, g4, g5, s, m, r4, r5);
    Chain3(g1 + g2 + g3 + g4 + g5, g6, g7, s, Replaced(r5.text, m.count + r4.count + r5.count), r6, r7);
  }

  // ── "a === b" ────────────────────────────────────────────────────────────

  lemma EqualsSpoken()
    ensures SpokenText("a strictly equals b") && NoDoubleSpace("a strictly equals b")
  {
  }

  /** The three-character operator is replaced once, as a whole. */
  lemma EqualsReplaced()
    ensures ReplaceAll(Operators[0], "a === b") == Replaced("a strictly equals b", 1)
  {
    LiteralOnce("===", "strictly equals", "a ", " b");
    assert "a " + "===" + " b" == "a === b";
    assert "a " + "strictly equals" + " b" == "a strictly equals b";
  }

  /** No operator after the first finds anything in the words. */
  lemma LaterOperatorsOnEquals()
    ensures ApplyRules(Operators[1..], "a strictly equals b") == Replaced("a strictly equals b", 0)
  {
    EqualsSpoken();
    SpokenLacks("a strictly equals b");
    InertEach(Operators[1..], "a strictly equals b", "===|&=.");
  }

  /** The operator rules: `===` becomes words, and no `=` is left for the
      shorter operators after it. */
  lemma OperatorsOnEquals()
    ensures ApplyRules(Operators, "a === b") == Replaced("a strictly equals b", 1)
  {
    var t := "a strictly equals b";
    EqualsReplaced();
    Single(Operators[0], "a === b");
    LaterOperatorsOnEquals();
    ApplyThen([Operators[0]], Operators[1..], "a === b", Replaced(t, 1), Replaced(t, 0));
    assert [Operators[0]] + Operators[1..] == Operators;
  }

  lemma MarkdownOnEquals()
    ensures ApplyRules(Markdown, "a === b") == Replaced("a === b", 0)
  {
    InertEach(Markdown, "a === b", "**`[");
  }

  lemma IdiomsOnEquals()
    ensures ApplyRules(Idioms, "a strictly equals b") == Replaced("a strictly equals b", 0)
  {
    EqualsSpoken();
    SpokenLacks("a strictly equals b");
    InertRules(Idioms, "a strictly equals b", '/');
  }

  lemma QualifiedOnEquals()
    ensures ApplyRules(Qualified, "a strictly equals b") == Replaced("a strictly equals b", 0)
  {
    EqualsSpoken();
    SpokenLacks("a strictly equals b");
    InertEach(Qualified, "a strictly equals b", "...J..U((");
  }

  lemma CleanupOnEquals()
    ensures ApplyRules(Cleanup, "a strictly equals b") == Replaced("a strictly equals b", 0)
  {
    EqualsSpoken();
    SpokenLacks("a strictly equals b");
    InertEach(Cleanup, "a strictly equals b", "(`");
  }

  lemma KeywordsOnEquals()
    ensures ApplyRules(Keywords, "a strictly equals b") == Replaced("a strictly equals b", 0)
  {
    InertEach(Keywords, "a strictly equals b", "nw");
  }

  lemma DotMethodsOnEquals()
    ensures ApplyRules(DotMethods, "a strictly equals b") == Replaced("a strictly equals b", 0)
  {
    var t := "a strictly equals b";
    EqualsSpoken();
    SpokenLacks(t);
    InertRules(DotMethods, t, '.');
  }

  /** The whole table: one match, the operator's. */
  lemma TableOnEquals()
    ensures ApplyRules(PhoneticRules, "a === b") == Replaced("a strictly equals b", 1)
  {
    var s := "a === b";
    var t := "a strictly equals b";
    MarkdownOnEquals();
    OperatorsOnEquals();
    IdiomsOnEquals();
    QualifiedOnEquals();
    KeywordsOnEquals();
    DotMethodsOnEquals();
    CleanupOnEquals();
    Chain7(Markdown, Operators, Idioms, Qualified, Keywords, DotMethods, Cleanup,
      s, Replaced(s, 0), Replaced(t, 1), Replaced(t, 0), Replaced(t, 0), Replaced(t, 0), Replaced(t, 0), Replaced(t, 0));
  }

  /** How `Sanitize` ends once the rule table's result is known, for a text
      without newlines or whitespace at its ends. */
  lemma SanitizeVia(raw: string, t: string, n: nat)
    requires '\n' !in raw && (raw == [] || (!IsSpace(raw[0]) && !IsSpace(raw[|raw| - 1])))
    requires ApplyRules(PhoneticRules, raw) == Replaced(t, n)
    requires NoDoubleSpace(t) && (t == [] || (!IsSpace(t[0]) && !IsSpace(t[|t| - 1])))
    ensures Sanitize(raw) == Replaced(t, n)
  {
    CollapseAbsent(raw, '\n');
    TrimNothing(raw);
    CollapseSingle(t);
    TrimNothing(t);
  }

  /** Longer operators are tried first: `a === b` is read as "a strictly
      equals b", with one substitution, and never as a loose equality
      followed by `=`. */
  lemma SanitizeEquals()
    ensures Sanitize("a === b") == Replaced("a strictly equals b", 1)
  {
    TableOnEquals();
    EqualsSpoken();
    SanitizeVia("a === b", "a strictly equals b", 1);
  }

  // ── "response.json()" ────────────────────────────────────────────────────

  /** The characters of `response.json()`. */
  predicate CallChar(c: char) {
    c == 'e' || c == 'j' || ('n' <= c <= 'p') || ('r' <= c <= 's') || c == '.' || c == '(' || c == ')'
  }

  lemma CallChars()
    ensures forall c :: !CallChar(c) ==> c !in "response.json()"
  {
    var s := "response.json()";
    assert forall i :: 0 <= i < |s| ==> CallChar(s[i]);
  }

  lemma MarkdownOnCall()
    ensures ApplyRules(Markdown, "response.json()") == Replaced("response.json()", 0)
  {
    CallChars();
    InertEach(Markdown, "response.json()", "**`[");
  }

  /** The spread operator needs two dots in a row; the call has one. */
  lemma SpreadOnCall()
    ensures ReplaceAll(Operators[7], "response.json()") == Replaced("response.json()", 0)
  {
    var s := "response.json()";
    forall k | 0 <= k < |s| ensures MatchAt(Operators[7], s, k).None? {
      LiteralHead("...", "rest", s, k);
      if k == 8 { assert s[8..11] == ".js"; }
    }
    CopiedStretch(Operators[7], s, 0, |s|);
  }

  lemma ShortOperatorsOnCall()
    ensures ApplyRules(Operators[..4], "response.json()") == Replaced("response.json()", 0)
  {
    CallChars();
    InertRules(Operators[..4], "response.json()", '=');
  }

  lemma LongOperatorsOnCall()
    ensures ApplyRules(Operators[4..7], "response.json()") == Replaced("response.json()", 0)
  {
    CallChars();
    InertEach(Operators[4..7], "response.json()", "|&=");
  }

  lemma OperatorsSplit()
    ensures Operators[..4] + Operators[4..7] + [Operators[7]] == Operators
  {
  }

  lemma OperatorsOnCall()
    ensures ApplyRules(Operators, "response.json()") == Replaced("response.json()", 0)
  {
    var s := "response.json()";
    ShortOperatorsOnCall();
    LongOperatorsOnCall();
    SpreadOnCall();
    Single(Operators[7], s);
    Chain3(Operators[..4], Operators[4..7], [Operators[7]], s, Replaced(s, 0), Replaced(s, 0), Replaced(s, 0));
    OperatorsSplit();
  }

  lemma IdiomsOnCall()
    ensures ApplyRules(Idioms, "response.json()") == Replaced("response.json()", 0)
  {
    CallChars();
    InertRules(Idioms, "response.json()", '/');
  }

  lemma QualifiedOnCall0()
    ensures ApplyRules(Qualified[..3], "response.json()") == Replaced("response.json()", 0)
  {
    CallChars();
    InertEach(Qualified[..3], "response.json()", "cJJ");
  }

  lemma QualifiedOnCall1()
    ensures ApplyRules(Qualified[3..6], "response.json()") == Replaced("response.json()", 0)
  {
    CallChars();
    InertEach(Qualified[3..6], "response.json()", "JPP");
  }

  lemma QualifiedOnCall2()
    ensures ApplyRules(Qualified[6..], "response.json()") == Replaced("response.json()", 0)
  {
    CallChars();
    InertEach(Qualified[6..], "response.json()", "UMS");
  }

  lemma QualifiedOnCall()
    ensures ApplyRules(Qualified, "response.json()") == Replaced("response.json()", 0)
  {
    var s := "response.json()";
    QualifiedOnCall0();
    QualifiedOnCall1();
    QualifiedOnCall2();
    Chain3(Qualified[..3], Qualified[3..6], Qualified[6..], s, Replaced(s, 0), Replaced(s, 0), Replaced(s, 0));
    assert Qualified[..3] + Qualified[3..6] + Qualified[6..] == Qualified;
  }

  lemma KeywordsOnCall()
    ensures ApplyRules(Keywords, "response.json()") == Replaced("response.json()", 0)
  {
    CallChars();
    InertRules(Keywords, "response.json()", 'a');
  }

  lemma CallPieces()
    ensures "respons" + ['e'] + ("." + "json") + "()" == "response.json()"
  {
  }

  lemma SpokenCallPieces()
    ensures "respons" + (['e'] + " dot json") + "()" == "response dot json()"
  {
  }

  /** The member rule keeps the `e` before the dot. */
  lemma JsonOnCall()
    ensures ReplaceAll(DotCalls[7], "response.json()") == Replaced("response dot json()", 1)
  {
    DotOnce("json", " dot json", "respons", 'e', "()");
    CallPieces();
    SpokenCallPieces();
  }

  lemma PromiseCallsOnCall()
    ensures ApplyRules(DotCalls[..2], "response.json()") == Replaced("response.json()", 0)
  {
    CallChars();
    InertEach(DotCalls[..2], "response.json()", "tc");
  }

  lemma LoopCallsOnCall()
    ensures ApplyRules(DotCalls[2..4], "response.json()") == Replaced("response.json()", 0)
  {
    CallChars();
    InertEach(DotCalls[2..4], "response.json()", "ff");
  }

  lemma FirstDotCallsOnCall0()
    ensures ApplyRules(DotCalls[..4], "response.json()") == Replaced("response.json()", 0)
  {
    var s := "response.json()";
    PromiseCallsOnCall();
    LoopCallsOnCall();
    ApplyThen(DotCalls[..2], DotCalls[2..4], s, Replaced(s, 0), Replaced(s, 0));
    DotCallsSplit();
  }

  lemma FirstDotCallsOnCall1()
    ensures ApplyRules(DotCalls[4..7], "response.json()") == Replaced("response.json()", 0)
  {
    CallChars();
    InertEach(DotCalls[4..7], "response.json()", "afd");
  }

  lemma DotCallsSplit()
    ensures DotCalls[..2] + DotCalls[2..4] == DotCalls[..4]
    ensures DotCalls[..4] + DotCalls[4..7] == DotCalls[..7]
    ensures DotCalls[..7] + [DotCalls[7]] + DotCalls[8..] == DotCalls
  {
  }

  lemma FirstDotCallsOnCall()
    ensures ApplyRules(DotCalls[..7], "response.json()") == Replaced("response.json()", 0)
  {
    var s := "response.json()";
    FirstDotCallsOnCall0();
    FirstDotCallsOnCall1();
    ApplyThen(DotCalls[..4], DotCalls[4..7], s, Replaced(s, 0), Replaced(s, 0));
    DotCallsSplit();
  }

  lemma LastDotCallsOnCall()
    ensures ApplyRules(DotCalls[8..], "response dot json()") == Replaced("response dot json()", 0)
  {
    InertRules(DotCalls[8..], "response dot json()", '.');
  }

  lemma DotCallsOnCall()
    ensures ApplyRules(DotCalls, "response.json()") == Replaced("response dot json()", 1)
  {
    var s := "response.json()";
    var t := "response dot json()";
    FirstDotCallsOnCall();
    JsonOnCall();
    Single(DotCalls[7], s);
    LastDotCallsOnCall();
    Chain3(DotCalls[..7], [DotCalls[7]], DotCalls[8..], s, Replaced(s, 0), Replaced(t, 1), Replaced(t, 0));
    DotCallsSplit();
  }

  lemma DotMembersOnCall()
    ensures ApplyRules(DotMembers, "response dot json()") == Replaced("response dot json()", 0)
  {
    InertRules(DotMembers, "response dot json()", '.');
  }

  lemma DotMethodsOnCall()
    ensures ApplyRules(DotMethods, "response.json()") == Replaced("response dot json()", 1)
  {
    DotCallsOnCall();
    DotMembersOnCall();
    ApplyThen(DotCalls, DotMembers, "response.json()",
      Replaced("response dot json()", 1), Replaced("response dot json()", 0));
  }

  /** The empty parentheses left behind are dropped. */
  lemma ParensOnCall()
    ensures ReplaceAll(Cleanup[0], "response dot json()") == Replaced("response dot json", 1)
  {
    LiteralOnce("()", "", "response dot json", "");
    assert "response dot json" + "()" + "" == "response dot json()";
    assert "response dot json" + "" + "" == "response dot json";
  }

  lemma LaterCleanupOnCall()
    ensures ApplyRules(Cleanup[1..], "response dot json") == Replaced("response dot json", 0)
  {
    InertRules(Cleanup[1..], "response dot json", '`');
  }

  lemma CleanupSplit()
    ensures [Cleanup[0]] + Cleanup[1..] == Cleanup
  {
  }

  lemma CleanupOnCall()
    ensures ApplyRules(Cleanup, "response dot json()") == Replaced("response dot json", 1)
  {
    ParensOnCall();
    Single(Cleanup[0], "response dot json()");
    LaterCleanupOnCall();
    ApplyThen([Cleanup[0]], Cleanup[1..], "response dot json()",
      Replaced("response dot json", 1), Replaced("response dot json", 0));
    CleanupSplit();
  }

  lemma TableOnCall()
    ensures ApplyRules(PhoneticRules, "response.json()") == Replaced("response dot json", 2)
  {
    var s := "response.json()";
    MarkdownOnCall();
    OperatorsOnCall();
    IdiomsOnCall();
    QualifiedOnCall();
    KeywordsOnCall();
    DotMethodsOnCall();
    CleanupOnCall();
    Chain7(Markdown, Operators, Idioms, Qualified, Keywords, DotMethods, Cleanup,
      s, Replaced(s, 0), Replaced(s, 0), Replaced(s, 0), Replaced(s, 0), Replaced(s, 0),
      Replaced("response dot json()", 1), Replaced("response dot json", 1));
  }

  lemma CallSpoken()
    ensures NoDoubleSpace("response dot json")
  {
  }

  /** A member call is read out with the dot spoken and the empty
      parentheses dropped: two substitutions. */
  lemma SanitizeCall()
    ensures Sanitize("response.json()") == Replaced("response dot json", 2)
  {
    CallChars();
    TableOnCall();
    CallSpoken();
    SanitizeVia("response.json()", "response dot json", 2);
  }

}
