/** `sanitizeText` of sanitize-frames.js: narration text rewritten for a
    text-to-speech engine by the phonetic rule table, with the number of
    matches counted. */
module Sanitizer {
  import opened Strings
  import opened Results
  import opened Rules
  import Fences

  /** No two spaces in a row. */
  predicate NoDoubleSpace(t: string) {
    forall k :: 0 <= k < |t| - 1 ==> !(t[k] == ' ' && t[k + 1] == ' ')
  }

  /** Each maximal run of `c` replaced by a single space: `/\n+/g` for a
      line break, and `/ {2,}/g` (a single space stays a single space) for
      a space. */
  function CollapseRuns(s: string, c: char): (r: string)
    decreases |s|
  {
    if s == [] then []
    else if s[0] == c then [' '] + CollapseRuns(s[Fences.RunLength(s, c)..], c)
    else [s[0]] + CollapseRuns(s[1..], c)
  }

  /** A run of `c` other than the space leaves no `c` behind it. */
  lemma {:induction false} CollapseRemoves(s: string, c: char)
    requires c != ' '
    ensures c !in CollapseRuns(s, c)
    decreases |s|
  {
    if s != [] {
      var n := if s[0] == c then Fences.RunLength(s, c) else 1;
      CollapseRemoves(s[n..], c);
    }
  }

  /** Collapsing runs of spaces leaves no two spaces in a row. */
  lemma {:induction false} CollapseSpaces(s: string)
    ensures NoDoubleSpace(CollapseRuns(s, ' '))
    decreases |s|
  {
    if s != [] {
      var n := if s[0] == ' ' then Fences.RunLength(s, ' ') else 1;
      var rest := CollapseRuns(s[n..], ' ');
      CollapseSpaces(s[n..]);
      var r := CollapseRuns(s, ' ');
      assert r == [r[0]] + rest;
      if rest != [] {
        assert rest[0] == (if s[n] == ' ' then ' ' else s[n]);
        assert r[0] == ' ' ==> rest[0] != ' ';
      }
      forall k | 0 <= k < |r| - 1 ensures !(r[k] == ' ' && r[k + 1] == ' ') {
        if k > 0 { assert r[k] == rest[k - 1] && r[k + 1] == rest[k]; }
      }
    }
  }

  /** Collapsing brings in no character but the space. */
  lemma {:induction false} CollapseKeeps(s: string, c: char, x: char)
    requires x != ' ' && x !in s
    ensures x !in CollapseRuns(s, c)
    decreases |s|
  {
    if s != [] {
      var n := if s[0] == c then Fences.RunLength(s, c) else 1;
      assert x !in s[n..] by {
        forall k | 0 <= k < |s| - n ensures s[n..][k] != x { assert s[n..][k] == s[n + k]; }
      }
      CollapseKeeps(s[n..], c, x);
    }
  }

  /** Without `c` there is no run to collapse. */
  lemma {:induction false} CollapseAbsent(s: string, c: char)
    requires c !in s
    ensures CollapseRuns(s, c) == s
    decreases |s|
  {
    if s != [] {
      assert c !in s[1..];
      CollapseAbsent(s[1..], c);
    }
  }

  /** Single spaces stay as they are. */
  lemma {:induction false} CollapseSingle(s: string)
    requires NoDoubleSpace(s)
    ensures CollapseRuns(s, ' ') == s
    decreases |s|
  {
    if s != [] {
      if s[0] == ' ' {
        assert |s| == 1 || s[1] != ' ';
        assert Fences.RunLength(s[1..], ' ') == 0;
      }
      assert NoDoubleSpace(s[1..]) by {
        forall k | 0 <= k < |s| - 2 ensures !(s[1..][k] == ' ' && s[1..][k + 1] == ' ') {
          assert s[1..][k] == s[k + 1] && s[1..][k + 1] == s[k + 2];
        }
      }
      CollapseSingle(s[1..]);
    }
  }

  /** Trimming keeps characters out and keeps spaces apart. */
  lemma TrimKeeps(s: string)
    ensures forall x :: x !in s ==> x !in Trim(s)
    ensures NoDoubleSpace(s) ==> NoDoubleSpace(Trim(s))
  {
    var k := TrimIsSlice(s);
    var t := Trim(s);
    forall x | x !in s ensures x !in t {
      forall j | 0 <= j < |t| ensures t[j] != x { assert t[j] == s[k + j]; }
    }
    if NoDoubleSpace(s) {
      forall j | 0 <= j < |t| - 1 ensures !(t[j] == ' ' && t[j + 1] == ' ') {
        assert t[j] == s[k + j] && t[j + 1] == s[k + j + 1];
      }
    }
  }

  /** `sanitizeText(raw)`: line breaks flattened to spaces and the ends
      trimmed, the rule table applied in order with its matches counted,
      then runs of spaces collapsed and the ends trimmed again. */
  function Sanitize(raw: string): Replaced {
    var flat := Trim(CollapseRuns(raw, '\n'));
    var applied := ApplyRules(PhoneticRules, flat);
    Replaced(Trim(CollapseRuns(applied.text, ' ')), applied.count)
  }

  /** The loop of `sanitizeText` over a rule table: each rule's matches are
      counted and replaced in the text the previous rule left. */
  method ApplyEach(rules: seq<Rule>, s0: string) returns (s: string, count: nat)
    ensures Replaced(s, count) == ApplyRules(rules, s0)
  {
    s := s0;
    count := 0;
    for k := 0 to |rules|
      invariant Replaced(s, count) == ApplyRules(rules[..k], s0)
    {
      assert rules[..k + 1][..k] == rules[..k];
      var step := ReplaceAll(rules[k], s);
      count := count + step.count;
      s := step.text;
    }
    assert rules[..|rules|] == rules;
  }

  /** `sanitizeText`. */
  method SanitizeText(raw: string) returns (text: string, count: nat)
    ensures Replaced(text, count) == Sanitize(raw)
  {
    var s := Trim(CollapseRuns(raw, '\n'));
    s, count := ApplyEach(PhoneticRules, s);
    text := Trim(CollapseRuns(s, ' '));
  }

  /** What the narration engine is handed: one line, no backtick, no
      whitespace at either end and never two spaces in a row. */
  lemma SanitizedShape(raw: string)
    ensures var t := Sanitize(raw).text;
      '\n' !in t && '`' !in t && NoDoubleSpace(t)
      && (t == [] || (!IsSpace(t[0]) && !IsSpace(t[|t| - 1])))
  {
    var flat := Trim(CollapseRuns(raw, '\n'));
    CollapseRemoves(raw, '\n');
    TrimKeeps(CollapseRuns(raw, '\n'));
    TableSpoken();
    CharsRules(PhoneticRules, flat, '\n');
    LastRuleDeletesBackticks(flat);
    var applied := ApplyRules(PhoneticRules, flat);
    CollapseKeeps(applied.text, ' ', '\n');
    CollapseKeeps(applied.text, ' ', '`');
    CollapseSpaces(applied.text);
    TrimKeeps(CollapseRuns(applied.text, ' '));
    TrimShape(CollapseRuns(applied.text, ' '));
  }

  /** Text no rule matches comes back whitespace-normalised only, with a
      count of zero. */
  lemma UnmatchedOnlyNormalised(raw: string)
    requires Sanitize(raw).count == 0
    ensures Sanitize(raw).text == Trim(CollapseRuns(Trim(CollapseRuns(raw, '\n')), ' '))
  {
    UncountedRules(PhoneticRules, Trim(CollapseRuns(raw, '\n')));
  }
}
