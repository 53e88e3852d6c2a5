/** The phonetic rule table of sanitize-frames.js as data, and what one
    global `replace` (with the matching `match` count) does with one rule. */
module Rules {
  import opened Strings
  import opened Results

  /** One global regular expression of the table with its replacement. The
      table uses five shapes:
      - `Strip`: `open(content)close` with lazy content of at least one
        character outside `excluded`, replaced by the content
        (`**bold**`, `*italic*`, `` `code` ``);
      - `Link`: `[text](url)`, replaced by the text;
      - `Literal`: a fixed string, replaced everywhere;
      - `Word`: a fixed string behind a word boundary `\b`, and also ahead
        of one when `closed`;
      - `DotMethod`: `(\w)\.name\b`, replaced by the word character followed
        by `replacement`. */
  datatype Rule =
    | Strip(open: string, close: string, excluded: set<char>)
    | Link
    | Literal(pattern: string, replacement: string)
    | Word(pattern: string, closed: bool, replacement: string)
    | DotMethod(name: string, replacement: string)

  /** A match: how many characters it consumes and what replaces them. */
  datatype Match = Match(length: nat, replacement: string)

  /** The rewritten text and the number of matches replaced. */
  datatype Replaced = Replaced(text: string, count: nat)

  /** `\b` at position `p` of `s`. */
  predicate Boundary(s: string, p: nat) {
    (0 < p <= |s| && IsWordChar(s[p - 1])) != (p < |s| && IsWordChar(s[p]))
  }

  /** The first position at or after `from` that holds `c`. */
  function FindFrom(s: string, c: char, from: nat): (r: Option<nat>)
    ensures r.Some? ==> from <= r.value < |s| && s[r.value] == c
    ensures r.Some? ==> forall k :: from <= k < r.value ==> s[k] != c
    ensures r.None? ==> forall k :: from <= k < |s| ==> s[k] != c
    decreases |s| - from
  {
    if from >= |s| then None
    else if s[from] == c then Some(from)
    else FindFrom(s, c, from + 1)
  }

  /** Lazy repetition: the first `j >= from` at which `close` occurs, the
      characters from `from` to `j` all being outside `excluded`. */
  function LazyEnd(s: string, from: nat, close: string, excluded: set<char>): (r: Option<nat>)
    requires from <= |s|
    ensures r.Some? ==> from <= r.value && OccursAt(s, r.value, close)
    ensures r.Some? ==> forall k :: from <= k < r.value ==> s[k] !in excluded
    decreases |s| - from
  {
    if OccursAt(s, from, close) then Some(from)
    else if from < |s| && s[from] !in excluded then LazyEnd(s, from + 1, close, excluded)
    else None
  }

  /** Laziness: the position found is the first closer at or after `from`;
      when there is none, every closer is preceded by an excluded
      character. */
  lemma {:induction false} LazyFirst(s: string, from: nat, close: string, excluded: set<char>)
    requires from <= |s|
    ensures var r := LazyEnd(s, from, close, excluded);
      (r.Some? ==> forall k :: from <= k < r.value ==> !OccursAt(s, k, close))
      && (r.None? ==> forall j :: from <= j <= |s| && OccursAt(s, j, close) ==>
            exists k :: from <= k < j && s[k] in excluded)
    decreases |s| - from
  {
    if !OccursAt(s, from, close) && from < |s| && s[from] !in excluded {
      LazyFirst(s, from + 1, close, excluded);
      if LazyEnd(s, from, close, excluded).None? {
        forall j | from <= j <= |s| && OccursAt(s, j, close)
          ensures exists k :: from <= k < j && s[k] in excluded
        {
          assert j != from;
          var k :| from + 1 <= k < j && s[k] in excluded;
        }
      }
    } else if !OccursAt(s, from, close) {
      forall j | from <= j <= |s| && OccursAt(s, j, close)
        ensures exists k :: from <= k < j && s[k] in excluded
      {
        assert j != from && s[from] in excluded;
      }
    }
  }

  /** The match the regular expression of `r` finds when it is tried at
      position `i` of `s`, if any. */
  function MatchAt(r: Rule, s: string, i: nat): (m: Option<Match>)
    requires i < |s|
    ensures m.Some? ==> 1 <= m.value.length <= |s| - i
  {
    match r
    case Strip(open, close, excluded) =>
      var c0 := i + |open|;
      if OccursAt(s, i, open) && c0 < |s| && s[c0] !in excluded then
        (match LazyEnd(s, c0 + 1, close, excluded)
         case Some(j) => Some(Match(j + |close| - i, s[c0..j]))
         case None => None)
      else None
    case Link =>
      if s[i] != '[' then None
      else (match FindFrom(s, ']', i + 1)
        case None => None
        case Some(j) =>
          if j == i + 1 || j + 1 >= |s| || s[j + 1] != '(' then None
          else (match FindFrom(s, ')', j + 2)
            case None => None
            case Some(k) => if k == j + 2 then None else Some(Match(k + 1 - i, s[i + 1..j]))))
    case Literal(pattern, replacement) =>
      if |pattern| > 0 && OccursAt(s, i, pattern) then Some(Match(|pattern|, replacement)) else None
    case Word(pattern, closed, replacement) =>
      if |pattern| > 0 && Boundary(s, i) && OccursAt(s, i, pattern)
         && (!closed || Boundary(s, i + |pattern|))
      then Some(Match(|pattern|, replacement))
      else None
    case DotMethod(name, replacement) =>
      if IsWordChar(s[i]) && OccursAt(s, i + 1, "." + name) && Boundary(s, i + 2 + |name|)
      then Some(Match(2 + |name|, [s[i]] + replacement))
      else None
  }

  /** The global scan from position `i`: a match found at the scan position
      is replaced and the scan resumes after it; otherwise one character is
      kept and the scan moves on by one. */
  function ReplaceFrom(r: Rule, s: string, i: nat): Replaced
    decreases |s| - i
  {
    if i >= |s| then Replaced([], 0)
    else match MatchAt(r, s, i)
      case Some(m) =>
        var rest := ReplaceFrom(r, s, i + m.length);
        Replaced(m.replacement + rest.text, rest.count + 1)
      case None =>
        var rest := ReplaceFrom(r, s, i + 1);
        Replaced([s[i]] + rest.text, rest.count)
  }

  /** A position where the rule does not match is copied. */
  lemma ScanMiss(r: Rule, s: string, i: nat)
    requires i < |s| && MatchAt(r, s, i).None?
    ensures ReplaceFrom(r, s, i) == Replaced([s[i]] + ReplaceFrom(r, s, i + 1).text, ReplaceFrom(r, s, i + 1).count)
  {
  }

  /** A position where the rule matches is replaced and counted. */
  lemma ScanHit(r: Rule, s: string, i: nat)
    requires i < |s| && MatchAt(r, s, i).Some?
    ensures ReplaceFrom(r, s, i) ==
      Replaced(MatchAt(r, s, i).value.replacement + ReplaceFrom(r, s, i + MatchAt(r, s, i).value.length).text,
               ReplaceFrom(r, s, i + MatchAt(r, s, i).value.length).count + 1)
  {
  }

  /** Positions where the rule does not match are copied one by one. */
  lemma {:induction false} CopiedStretch(r: Rule, s: string, i: nat, j: nat)
    requires i <= j <= |s|
    requires forall k :: i <= k < j ==> MatchAt(r, s, k).None?
    ensures ReplaceFrom(r, s, i) == Replaced(s[i..j] + ReplaceFrom(r, s, j).text, ReplaceFrom(r, s, j).count)
    decreases j - i
  {
    if i < j {
      ScanMiss(r, s, i);
      CopiedStretch(r, s, i + 1, j);
      ConsSlice(s, i, j, ReplaceFrom(r, s, j).text);
    }
  }

  /** Consing the character at `i` onto the stretch after it. */
  lemma ConsSlice(s: string, i: nat, j: nat, t: string)
    requires i < j <= |s|
    ensures [s[i]] + (s[i + 1..j] + t) == s[i..j] + t
  {
    assert s[i..j] == [s[i]] + s[i + 1..j];
  }

  /** A literal matches only where its first character is. */
  lemma LiteralHead(p: string, rep: string, s: string, k: nat)
    requires p != [] && k < |s|
    ensures MatchAt(Literal(p, rep), s, k).Some? ==> s[k] == p[0]
  {
    if OccursAt(s, k, p) {
      assert s[k..k + |p|][0] == s[k];
    }
  }

  /** A member access matches only where a dot follows. */
  lemma DotHead(name: string, rep: string, s: string, k: nat)
    requires k < |s|
    ensures MatchAt(DotMethod(name, rep), s, k).Some? ==> k + 1 < |s| && s[k + 1] == '.'
  {
    if k + 1 < |s| && OccursAt(s, k + 1, "." + name) {
      assert s[k + 1..k + 2 + |name|][0] == s[k + 1];
    }
  }

  /** A literal whose first character occurs nowhere else in the text is
      replaced exactly once. */
  lemma LiteralOnce(p: string, rep: string, pre: string, post: string)
    requires p != [] && p[0] !in pre && p[0] !in post
    ensures ReplaceAll(Literal(p, rep), pre + p + post) == Replaced(pre + rep + post, 1)
  {
    var r := Literal(p, rep);
    var s := pre + p + post;
    var e := |pre| + |p|;
    assert s[e..|s|] == post;
    LiteralStretch(p, rep, s, e, |s|);
    assert s[|pre|..e] == p;
    assert MatchAt(r, s, |pre|) == Some(Match(|p|, rep));
    ScanHit(r, s, |pre|);
    assert s[0..|pre|] == pre;
    LiteralStretch(p, rep, s, 0, |pre|);
  }

  /** A literal rule copies a stretch without its first character. */
  lemma LiteralStretch(p: string, rep: string, s: string, i: nat, j: nat)
    requires p != [] && i <= j <= |s| && p[0] !in s[i..j]
    ensures ReplaceFrom(Literal(p, rep), s, i) ==
      Replaced(s[i..j] + ReplaceFrom(Literal(p, rep), s, j).text, ReplaceFrom(Literal(p, rep), s, j).count)
  {
    forall k | i <= k < j ensures MatchAt(Literal(p, rep), s, k).None? {
      assert s[k] == s[i..j][k - i];
      LiteralHead(p, rep, s, k);
    }
    CopiedStretch(Literal(p, rep), s, i, j);
  }

  /** From the word character on: the access is replaced, and the rest,
      which holds no dot, is copied. */
  lemma DotTail(name: string, rep: string, s: string, i: nat, post: string)
    requires name != [] && i < |s| && IsWordChar(s[i])
    requires s[i + 1..] == "." + name + post && IsWordChar(name[|name| - 1])
    requires '.' !in post && (post == [] || !IsWordChar(post[0]))
    ensures ReplaceFrom(DotMethod(name, rep), s, i) == Replaced([s[i]] + rep + post, 1)
  {
    var r := DotMethod(name, rep);
    var e := i + 2 + |name|;
    assert |s| == e + |post|;
    assert s[e..] == post;
    DotlessTail(name, rep, s, e);
    assert s[i + 1..e] == "." + name;
    assert s[e - 1] == s[i + 1..][e - 2 - i] == name[|name| - 1];
    assert e < |s| ==> s[e] == s[i + 1..][e - 1 - i] == post[0];
    DotMatch(name, rep, s, i);
    HitThen(r, s, i, Match(2 + |name|, [s[i]] + rep), Replaced(post, 0));
  }

  /** A match at `i` followed by a known rest of the scan. */
  lemma HitThen(r: Rule, s: string, i: nat, m: Match, rest: Replaced)
    requires i < |s| && MatchAt(r, s, i) == Some(m)
    requires ReplaceFrom(r, s, i + m.length) == rest
    ensures ReplaceFrom(r, s, i) == Replaced(m.replacement + rest.text, rest.count + 1)
  {
    ScanHit(r, s, i);
  }

  /** A word character, then the dot and the name, then a word boundary:
      the rule matches there. */
  lemma DotMatch(name: string, rep: string, s: string, i: nat)
    requires i < |s| && IsWordChar(s[i]) && OccursAt(s, i + 1, "." + name)
    requires Boundary(s, i + 2 + |name|)
    ensures MatchAt(DotMethod(name, rep), s, i) == Some(Match(2 + |name|, [s[i]] + rep))
  {
  }

  /** A member access rule copies a stretch without dots unchanged. */
  lemma DotlessTail(name: string, rep: string, s: string, e: nat)
    requires e <= |s| && '.' !in s[e..]
    ensures ReplaceFrom(DotMethod(name, rep), s, e) == Replaced(s[e..], 0)
  {
    var r := DotMethod(name, rep);
    forall k | e <= k < |s| ensures MatchAt(r, s, k).None? {
      if k + 1 < |s| { assert s[k + 1] == s[e..][k + 1 - e]; }
      DotHead(name, rep, s, k);
    }
    CopiedStretch(r, s, e, |s|);
    assert s[e..|s|] + [] == s[e..];
  }

  /** A member access after a word character, with no other dot in the
      text, is replaced exactly once, the word character kept. */
  lemma DotOnce(name: string, rep: string, pre: string, w: char, post: string)
    requires name != [] && IsWordChar(w) && IsWordChar(name[|name| - 1])
    requires '.' !in pre && '.' !in post
    requires post == [] || !IsWordChar(post[0])
    ensures ReplaceAll(DotMethod(name, rep), pre + [w] + ("." + name) + post) == Replaced(pre + ([w] + rep) + post, 1)
  {
    var s := pre + [w] + ("." + name) + post;
    assert s[|pre|] == w && s[|pre| + 1..] == "." + name + post;
    assert forall k :: 0 <= k < |pre| ==> s[k] == pre[k];
    DotAfter(name, rep, s, |pre|, post);
    assert s[..|pre|] == pre;
  }

  /** The scan of `DotOnce`, over any text of that shape. */
  lemma DotAfter(name: string, rep: string, s: string, i: nat, post: string)
    requires name != [] && i < |s| && IsWordChar(s[i])
    requires s[i + 1..] == "." + name + post && IsWordChar(name[|name| - 1])
    requires '.' !in post && (post == [] || !IsWordChar(post[0]))
    requires forall k :: 0 < k <= i ==> s[k] != '.'
    ensures ReplaceAll(DotMethod(name, rep), s) == Replaced(s[..i] + ([s[i]] + rep + post), 1)
  {
    DotTail(name, rep, s, i, post);
    DotlessStretch(name, rep, s, 0, i);
    CopiedThen(DotMethod(name, rep), s, 0, i, Replaced([s[i]] + rep + post, 1));
    assert s[0..i] == s[..i];
  }

  /** A member access rule copies a stretch in which no dot follows any
      position. */
  lemma DotlessStretch(name: string, rep: string, s: string, i: nat, j: nat)
    requires i <= j < |s|
    requires forall k :: i < k <= j ==> s[k] != '.'
    ensures ReplaceFrom(DotMethod(name, rep), s, i)
      == Replaced(s[i..j] + ReplaceFrom(DotMethod(name, rep), s, j).text, ReplaceFrom(DotMethod(name, rep), s, j).count)
  {
    forall k | i <= k < j ensures MatchAt(DotMethod(name, rep), s, k).None? {
      assert s[k + 1] != '.';
      DotHead(name, rep, s, k);
    }
    CopiedStretch(DotMethod(name, rep), s, i, j);
  }

  /** A copied stretch followed by a known rest of the scan. */
  lemma CopiedThen(r: Rule, s: string, i: nat, j: nat, rest: Replaced)
    requires i <= j <= |s| && ReplaceFrom(r, s, j) == rest
    requires ReplaceFrom(r, s, i) == Replaced(s[i..j] + ReplaceFrom(r, s, j).text, ReplaceFrom(r, s, j).count)
    ensures ReplaceFrom(r, s, i) == Replaced(s[i..j] + rest.text, rest.count)
  {
  }

  /** `s.replace(rule, replacement)` with the number of matches
      `s.match(rule)` reports. */
  function ReplaceAll(r: Rule, s: string): Replaced {
    ReplaceFrom(r, s, 0)
  }

  /** The rules in table order, each applied to the text the previous one
      produced, with the match counts added up. */
  function ApplyRules(rules: seq<Rule>, s: string): Replaced {
    if rules == [] then Replaced(s, 0)
    else
      var before := ApplyRules(rules[..|rules| - 1], s);
      var last := ReplaceAll(rules[|rules| - 1], before.text);
      Replaced(last.text, before.count + last.count)
  }

  // ── The table ─────────────────────────────────────────────────────────────

  const LineTerminators: set<char> := {'\n', '\r', '\U{2028}', '\U{2029}'}

  /** Markdown formatting, stripped to its text. */
  const Markdown: seq<Rule> := [
    Strip("**", "**", LineTerminators),
    Strip("*", "*", LineTerminators),
    Strip("`", "`", {'`', '\n'}),
    Link
  ]

  /** Operators, longer ones before the shorter ones they contain. */
  const Operators: seq<Rule> := [
    Literal("===", "strictly equals"),
    Literal("!==", "strictly not equals"),
    Literal("==", "loosely equals"),
    Literal("!=", "loosely not equals"),
    Literal("||", "or"),
    Literal("&&", "and"),
    Literal("=>", "which returns"),
    Literal("...", "rest")
  ]

  /** Slash-separated idioms, before the keyword rules split their words. */
  const Idioms: seq<Rule> := [
    Word("async/await", true, "ay-sink and ah-weight"),
    Word("try/catch", true, "try and catch"),
    Word("read/write", true, "read and write")
  ]

  /** Qualified names, before the shorter names they contain. */
  const Qualified: seq<Rule> := [
    Word("console.log", true, "console log"),
    Word("JSON.stringify", true, "Jay-son dot stringify"),
    Word("JSON.parse", true, "Jay-son dot parse"),
    Word("JSON", true, "Jay-son"),
    Word("Promise.all", true, "Promise dot all"),
    Word("Promise.race", true, "Promise dot race"),
    Word("URL", true, "you are ell"),
    Word("new Map()", false, "a new map"),
    Word("new Set()", false, "a new set")
  ]

  const Keywords: seq<Rule> := [
    Word("async", true, "ay-sink"),
    Word("await", true, "ah-weight")
  ]

  /** Member calls: the word character before the dot is kept. */
  const DotMethods: seq<Rule> := DotCalls + DotMembers

  const DotCalls: seq<Rule> := [
    DotMethod("then", " dot then"),
    DotMethod("catch", " dot catch"),
    DotMethod("finally", " dot finally"),
    DotMethod("forEach", " for each"),
    DotMethod("map", " dot map"),
    DotMethod("filter", " dot filter"),
    DotMethod("reduce", " dot reduce"),
    DotMethod("json", " dot json"),
    DotMethod("ok", " dot ok"),
    DotMethod("status", " dot status"),
    DotMethod("stringify", " dot stringify"),
    DotMethod("parse", " dot parse")
  ]

  const DotMembers: seq<Rule> := [
    DotMethod("keys", " dot keys"),
    DotMethod("values", " dot values"),
    DotMethod("entries", " dot entries"),
    DotMethod("length", " dot length"),
    DotMethod("push", " dot push"),
    DotMethod("pop", " dot pop"),
    DotMethod("shift", " dot shift"),
    DotMethod("includes", " dot includes"),
    DotMethod("indexOf", " dot index of"),
    DotMethod("find", " dot find"),
    DotMethod("all", " dot all")
  ]

  /** Leftover empty parentheses, then stray backticks. */
  const Cleanup: seq<Rule> := [
    Literal("()", ""),
    Literal("`", "")
  ]

  /** `PHONETIC_RULES`, in order. */
  const PhoneticRules: seq<Rule> := Markdown + Operators + Idioms + Qualified + Keywords + DotMethods + Cleanup

  // ── Properties of one rule ────────────────────────────────────────────────

  /** The fixed part of the replacement of `r`: the text the rule may bring
      in that was not in its input. */
  function Introduced(r: Rule): string {
    match r
    case Literal(_, replacement) => replacement
    case Word(_, _, replacement) => replacement
    case DotMethod(_, replacement) => replacement
    case _ => []
  }

  predicate MayIntroduce(r: Rule, c: char) {
    c in Introduced(r)
  }

  /** Characters every match of `r` contains. */
  function Needs(r: Rule): string {
    match r
    case Strip(open, _, _) => open
    case Link => "["
    case Literal(pattern, _) => pattern
    case Word(pattern, _, _) => pattern
    case DotMethod(name, _) => "." + name
  }

  /** A match holds every character of `Needs(r)`. */
  lemma NeededCharsPresent(r: Rule, s: string, i: nat, c: char)
    requires i < |s| && MatchAt(r, s, i).Some? && c in Needs(r)
    ensures c in s[i..]
  {
    var k :| 0 <= k < |Needs(r)| && Needs(r)[k] == c;
    match r
    case Strip(open, _, _) => assert s[i + k] == c;
    case Link => assert s[i] == c;
    case Literal(pattern, _) => assert s[i + k] == c;
    case Word(pattern, _, _) => assert s[i + k] == c;
    case DotMethod(name, _) => assert s[i + 1 + k] == c;
  }

  /** With no match anywhere, the scan copies the text and counts nothing. */
  lemma {:induction false} InertFrom(r: Rule, s: string, i: nat, c: char)
    requires i <= |s| && c in Needs(r) && c !in s[i..]
    ensures ReplaceFrom(r, s, i) == Replaced(s[i..], 0)
    decreases |s| - i
  {
    if i < |s| {
      if MatchAt(r, s, i).Some? {
        NeededCharsPresent(r, s, i, c);
      }
      assert s[i + 1..] == s[i..][1..];
      InertFrom(r, s, i + 1, c);
      assert s[i..] == [s[i]] + s[i + 1..];
    }
  }

  /** A rule cannot fire on a text that lacks one of the characters it
      needs. */
  lemma Inert(r: Rule, s: string, c: char)
    requires c in Needs(r) && c !in s
    ensures ReplaceAll(r, s) == Replaced(s, 0)
  {
    assert s[0..] == s;
    InertFrom(r, s, 0, c);
  }

  /** A scan that counts no match returns the text unchanged. */
  lemma {:induction false} UncountedFrom(r: Rule, s: string, i: nat)
    requires i <= |s| && ReplaceFrom(r, s, i).count == 0
    ensures ReplaceFrom(r, s, i).text == s[i..]
    decreases |s| - i
  {
    if i < |s| {
      assert MatchAt(r, s, i).None?;
      UncountedFrom(r, s, i + 1);
      assert s[i..] == [s[i]] + s[i + 1..];
    }
  }

  lemma SliceLacks(s: string, i: nat, a: nat, b: nat, c: char)
    requires i <= a <= b <= |s| && c !in s[i..]
    ensures c !in s[a..b]
  {
  }

  /** The replacement of a match is made of characters of the scanned text
      and characters the rule may bring in. */
  lemma MatchChars(r: Rule, s: string, i: nat, c: char)
    requires i < |s| && MatchAt(r, s, i).Some? && c !in s[i..] && !MayIntroduce(r, c)
    ensures c !in MatchAt(r, s, i).value.replacement
  {
    var m := MatchAt(r, s, i).value;
    match r {
      case Strip(open, close, excluded) =>
        var c0 := i + |open|;
        var j := LazyEnd(s, c0 + 1, close, excluded).value;
        SliceLacks(s, i, c0, j, c);
      case Link =>
        var j := FindFrom(s, ']', i + 1).value;
        SliceLacks(s, i, i + 1, j, c);
      case Literal(_, _) =>
      case Word(_, _, _) =>
      case DotMethod(_, replacement) =>
        assert m.replacement == [s[i]] + replacement && s[i] == s[i..][0];
    }
  }

  /** Every character of the scan's output was in the scanned text or comes
      from the rule's replacement. */
  lemma {:induction false} CharsFrom(r: Rule, s: string, i: nat, c: char)
    requires i <= |s| && c !in s[i..] && !MayIntroduce(r, c)
    ensures c !in ReplaceFrom(r, s, i).text
    decreases |s| - i
  {
    if i < |s| {
      var n := if MatchAt(r, s, i).Some? then i + MatchAt(r, s, i).value.length else i + 1;
      assert s[n..] == s[i..][n - i..];
      CharsFrom(r, s, n, c);
      if MatchAt(r, s, i).Some? {
        MatchChars(r, s, i, c);
      } else {
        assert s[i] == s[i..][0];
      }
    }
  }

  /** The last rule of the table leaves no backtick behind. */
  lemma {:induction false} StrayBackticksFrom(s: string, i: nat)
    requires i <= |s|
    ensures '`' !in ReplaceFrom(Literal("`", ""), s, i).text
    decreases |s| - i
  {
    if i < |s| {
      var m := MatchAt(Literal("`", ""), s, i);
      if m.Some? {
        StrayBackticksFrom(s, i + 1);
      } else {
        assert s[i..i + 1] == [s[i]];
        StrayBackticksFrom(s, i + 1);
      }
    }
  }

  // ── Properties of a sequence of rules ─────────────────────────────────────

  /** Applying `a` and then `b` is applying `a + b`. */
  lemma {:induction false} ApplyRulesAppend(a: seq<Rule>, b: seq<Rule>, s: string)
    ensures ApplyRules(a + b, s) ==
      var first := ApplyRules(a, s);
      var second := ApplyRules(b, first.text);
      Replaced(second.text, first.count + second.count)
    decreases |b|
  {
    if b == [] {
      assert a + b == a;
    } else {
      assert (a + b)[..|a + b| - 1] == a + b[..|b| - 1];
      ApplyRulesAppend(a, b[..|b| - 1], s);
    }
  }

  /** Rules that all need a character the text lacks leave it alone. */
  lemma {:induction false} InertRules(rules: seq<Rule>, s: string, c: char)
    requires forall r :: r in rules ==> c in Needs(r)
    requires c !in s
    ensures ApplyRules(rules, s) == Replaced(s, 0)
    decreases |rules|
  {
    if rules != [] {
      InertRules(rules[..|rules| - 1], s, c);
      Inert(rules[|rules| - 1], s, c);
    }
  }

  /** Rules each of which needs a character the text lacks, `cs[k]` for
      rule `k`, leave it alone. */
  lemma {:induction false} InertEach(rules: seq<Rule>, s: string, cs: string)
    requires |cs| == |rules|
    requires forall k :: 0 <= k < |rules| ==> cs[k] in Needs(rules[k]) && cs[k] !in s
    ensures ApplyRules(rules, s) == Replaced(s, 0)
    decreases |rules|
  {
    if rules != [] {
      var n := |rules| - 1;
      InertEach(rules[..n], s, cs[..n]);
      Inert(rules[n], s, cs[n]);
    }
  }

  /** Applying `a` and then `b`, as a chain of two results. */
  lemma ApplyThen(a: seq<Rule>, b: seq<Rule>, s: string, mid: Replaced, out: Replaced)
    requires ApplyRules(a, s) == mid && ApplyRules(b, mid.text) == out
    ensures ApplyRules(a + b, s) == Replaced(out.text, mid.count + out.count)
  {
    ApplyRulesAppend(a, b, s);
  }

  /** If no rule of the sequence matched, the text is unchanged. */
  lemma {:induction false} UncountedRules(rules: seq<Rule>, s: string)
    requires ApplyRules(rules, s).count == 0
    ensures ApplyRules(rules, s).text == s
    decreases |rules|
  {
    if rules != [] {
      var before := ApplyRules(rules[..|rules| - 1], s);
      UncountedRules(rules[..|rules| - 1], s);
      assert s[0..] == s && before.text[0..] == before.text;
      UncountedFrom(rules[|rules| - 1], before.text, 0);
    }
  }

  /** A character that is not in the text and that no rule brings in is not
      in the result. */
  lemma {:induction false} CharsRules(rules: seq<Rule>, s: string, c: char)
    requires forall r :: r in rules ==> !MayIntroduce(r, c)
    requires c !in s
    ensures c !in ApplyRules(rules, s).text
    decreases |rules|
  {
    if rules != [] {
      var before := ApplyRules(rules[..|rules| - 1], s);
      CharsRules(rules[..|rules| - 1], s, c);
      assert before.text[0..] == before.text;
      CharsFrom(rules[|rules| - 1], before.text, 0, c);
    }
  }

  /** What the replacement texts of the table are written in: ASCII
      letters, spaces and hyphens. */
  predicate IsSpokenChar(c: char) {
    ('a' <= c <= 'z') || ('A' <= c <= 'Z') || c == ' ' || c == '-'
  }

  predicate SpokenText(t: string) {
    forall j :: 0 <= j < |t| ==> IsSpokenChar(t[j])
  }

  lemma SpokenGroup(rules: seq<Rule>)
    requires forall k :: 0 <= k < |rules| ==> SpokenText(Introduced(rules[k]))
    ensures forall r, c :: r in rules && MayIntroduce(r, c) ==> IsSpokenChar(c)
  {
    forall r, c | r in rules && MayIntroduce(r, c) ensures IsSpokenChar(c) {
      var k :| 0 <= k < |rules| && rules[k] == r;
      var j :| 0 <= j < |Introduced(r)| && Introduced(r)[j] == c;
    }
  }

  // The replacement texts of each table, checked a few at a time.

  lemma OperatorsSpoken0()
    ensures forall k :: 0 <= k < 2 ==> SpokenText(Introduced(Operators[k]))
  {
  }

  lemma OperatorsSpoken1()
    ensures forall k :: 2 <= k < 4 ==> SpokenText(Introduced(Operators[k]))
  {
  }

  lemma OperatorsSpoken2()
    ensures forall k :: 4 <= k < |Operators| ==> SpokenText(Introduced(Operators[k]))
  {
  }

  lemma IdiomsSpoken0()
    ensures SpokenText(Introduced(Idioms[0]))
  {
  }

  lemma IdiomsSpoken1()
    ensures forall k :: 1 <= k < |Idioms| ==> SpokenText(Introduced(Idioms[k]))
  {
  }

  lemma QualifiedSpoken0()
    ensures forall k :: 0 <= k < 2 ==> SpokenText(Introduced(Qualified[k]))
  {
  }

  lemma QualifiedSpoken1()
    ensures forall k :: 2 <= k < 4 ==> SpokenText(Introduced(Qualified[k]))
  {
  }

  lemma QualifiedSpoken2()
    ensures forall k :: 4 <= k < 6 ==> SpokenText(Introduced(Qualified[k]))
  {
  }

  lemma QualifiedSpoken3()
    ensures forall k :: 6 <= k < |Qualified| ==> SpokenText(Introduced(Qualified[k]))
  {
  }

  lemma DotCallsSpoken0()
    ensures forall k :: 0 <= k < 3 ==> SpokenText(Introduced(DotCalls[k]))
  {
  }

  lemma DotCallsSpoken1()
    ensures forall k :: 3 <= k < 6 ==> SpokenText(Introduced(DotCalls[k]))
  {
  }

  lemma DotCallsSpoken2()
    ensures forall k :: 6 <= k < 9 ==> SpokenText(Introduced(DotCalls[k]))
  {
  }

  lemma DotCallsSpoken3()
    ensures forall k :: 9 <= k < |DotCalls| ==> SpokenText(Introduced(DotCalls[k]))
  {
  }

  lemma DotMembersSpoken0()
    ensures forall k :: 0 <= k < 3 ==> SpokenText(Introduced(DotMembers[k]))
  {
  }

  lemma DotMembersSpoken1()
    ensures forall k :: 3 <= k < 6 ==> SpokenText(Introduced(DotMembers[k]))
  {
  }

  lemma DotMembersSpoken2()
    ensures forall k :: 6 <= k < 8 ==> SpokenText(Introduced(DotMembers[k]))
  {
  }

  lemma DotMembersSpoken3()
    ensures forall k :: 8 <= k < |DotMembers| ==> SpokenText(Introduced(DotMembers[k]))
  {
  }

  lemma MarkdownSpoken()
    ensures forall r, c :: r in Markdown && MayIntroduce(r, c) ==> IsSpokenChar(c)
  {
    forall k | 0 <= k < |Markdown| ensures SpokenText(Introduced(Markdown[k])) { }
    SpokenGroup(Markdown);
  }

  lemma OperatorsSpoken()
    ensures forall r, c :: r in Operators && MayIntroduce(r, c) ==> IsSpokenChar(c)
  {
    OperatorsSpoken0();
    OperatorsSpoken1();
    OperatorsSpoken2();
    SpokenGroup(Operators);
  }

  lemma IdiomsSpoken()
    ensures forall r, c :: r in Idioms && MayIntroduce(r, c) ==> IsSpokenChar(c)
  {
    IdiomsSpoken0();
    IdiomsSpoken1();
    SpokenGroup(Idioms);
  }

  lemma QualifiedSpoken()
    ensures forall r, c :: r in Qualified && MayIntroduce(r, c) ==> IsSpokenChar(c)
  {
    QualifiedSpoken0();
    QualifiedSpoken1();
    QualifiedSpoken2();
    QualifiedSpoken3();
    SpokenGroup(Qualified);
  }

  lemma KeywordsSpoken()
    ensures forall r, c :: r in Keywords && MayIntroduce(r, c) ==> IsSpokenChar(c)
  {
    forall k | 0 <= k < |Keywords| ensures SpokenText(Introduced(Keywords[k])) { }
    SpokenGroup(Keywords);
  }

  lemma DotCallsSpoken()
    ensures forall r, c :: r in DotCalls && MayIntroduce(r, c) ==> IsSpokenChar(c)
  {
    DotCallsSpoken0();
    DotCallsSpoken1();
    DotCallsSpoken2();
    DotCallsSpoken3();
    SpokenGroup(DotCalls);
  }

  lemma DotMembersSpoken()
    ensures forall r, c :: r in DotMembers && MayIntroduce(r, c) ==> IsSpokenChar(c)
  {
    DotMembersSpoken0();
    DotMembersSpoken1();
    DotMembersSpoken2();
    DotMembersSpoken3();
    SpokenGroup(DotMembers);
  }

  lemma DotMethodsSpoken()
    ensures forall r, c :: r in DotMethods && MayIntroduce(r, c) ==> IsSpokenChar(c)
  {
    DotCallsSpoken();
    DotMembersSpoken();
  }

  lemma CleanupSpoken()
    ensures forall r, c :: r in Cleanup && MayIntroduce(r, c) ==> IsSpokenChar(c)
  {
    forall k | 0 <= k < |Cleanup| ensures SpokenText(Introduced(Cleanup[k])) { }
    SpokenGroup(Cleanup);
  }

  /** No replacement text of the table holds anything but letters, spaces
      and hyphens; in particular none holds a line break or a backtick. */
  lemma TableSpoken()
    ensures forall r, c :: r in PhoneticRules && MayIntroduce(r, c) ==> IsSpokenChar(c)
  {
    MarkdownSpoken();
    OperatorsSpoken();
    IdiomsSpoken();
    QualifiedSpoken();
    KeywordsSpoken();
    DotMethodsSpoken();
    CleanupSpoken();
  }

  /** The table ends with the rule that deletes every backtick. */
  lemma LastRuleDeletesBackticks(s: string)
    ensures '`' !in ApplyRules(PhoneticRules, s).text
  {
    var n := |PhoneticRules|;
    assert PhoneticRules[n - 1] == Literal("`", "");
    StrayBackticksFrom(ApplyRules(PhoneticRules[..n - 1], s).text, 0);
  }
}
