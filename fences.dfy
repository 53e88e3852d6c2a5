/** Code fences: the prefix test the sanitizer uses, the whole-line opener
    the parser and the checker use, and the in-code flag both of those keep
    while they walk the lines of a frame. */
module Fences {
  import opened Strings
  import opened Results

  /** The number of leading `c`s of `s`. */
  function RunLength(s: string, c: char): (n: nat)
    ensures n <= |s|
    ensures n == |s| || s[n] != c
  {
    if s != [] && s[0] == c then 1 + RunLength(s[1..], c) else 0
  }

  /** The run is made of `c`s only. */
  lemma {:induction false} RunLengthAll(s: string, c: char)
    ensures forall k :: 0 <= k < RunLength(s, c) ==> s[k] == c
  {
    if s != [] && s[0] == c {
      RunLengthAll(s[1..], c);
      assert forall k :: 1 <= k < RunLength(s, c) ==> s[k] == s[1..][k - 1];
    }
  }

  predicate IsFenceChar(c: char) {
    c == '`' || c == '~'
  }

  /** ``^(`{3,}|~{3,})``: the delimiter `line` starts with, the whole run of
      backticks or tildes when there are at least three. */
  function FencePrefix(line: string): Option<string> {
    if line != [] && IsFenceChar(line[0]) && RunLength(line, line[0]) >= 3
    then Some(line[..RunLength(line, line[0])])
    else None
  }

  /** There is a delimiter exactly when the line starts with three equal
      fence characters; it is then a prefix of the line made of one fence
      character and not followed by another. */
  lemma FencePrefixShape(line: string)
    ensures FencePrefix(line).None? <==>
      (|line| < 3 || !IsFenceChar(line[0]) || line[1] != line[0] || line[2] != line[0])
    ensures FencePrefix(line).Some? ==>
      var d := FencePrefix(line).value;
      3 <= |d| && StartsWith(line, d) && (|d| == |line| || line[|d|] != line[0])
      && (forall k :: 0 <= k < |d| ==> d[k] == line[0])
  {
    if line != [] {
      RunLengthAll(line, line[0]);
      if |line| >= 3 && line[1] == line[0] && line[2] == line[0] {
        assert RunLength(line[2..], line[0]) >= 1;
        assert RunLength(line[1..], line[0]) >= 2;
      }
    }
  }

  /** The longest prefix of `s` made of word characters. */
  function LeadingWord(s: string): (w: string)
    ensures |w| <= |s|
  {
    if s != [] && IsWordChar(s[0]) then [s[0]] + LeadingWord(s[1..]) else []
  }

  /** It is a prefix of word characters not followed by another. */
  lemma {:induction false} LeadingWordShape(s: string)
    ensures var w := LeadingWord(s);
      StartsWith(s, w) && (|w| == |s| || !IsWordChar(s[|w|]))
      && (forall k :: 0 <= k < |w| ==> IsWordChar(w[k]))
  {
    if s != [] && IsWordChar(s[0]) {
      LeadingWordShape(s[1..]);
      var w := LeadingWord(s);
      assert w == [s[0]] + LeadingWord(s[1..]);
      assert forall k :: 1 <= k < |w| ==> w[k] == LeadingWord(s[1..])[k - 1];
    }
  }

  lemma {:induction false} LeadingWordOfWord(w: string, tail: string)
    requires forall k :: 0 <= k < |w| ==> IsWordChar(w[k])
    requires tail == [] || !IsWordChar(tail[0])
    ensures LeadingWord(w + tail) == w
  {
    if w != [] {
      assert (w + tail)[1..] == w[1..] + tail;
      LeadingWordOfWord(w[1..], tail);
    } else {
      assert w + tail == tail;
    }
  }

  /** The delimiter of an opening fence and its language tag. */
  datatype Fence = Fence(delimiter: string, tag: string)

  /** ``^(`{3,}|~{3,})(\w*)\s*$``: a line that is a fence delimiter, an
      optional tag of word characters and nothing but whitespace after it. */
  function FenceOpen(line: string): Option<Fence> {
    match FencePrefix(line)
    case None => None
    case Some(d) =>
      var rest := line[|d|..];
      var tag := LeadingWord(rest);
      if AllSpace(rest[|tag|..]) then Some(Fence(d, tag)) else None
  }

  /** An opener is a fence delimiter, a tag of word characters and nothing
      but whitespace. */
  lemma FenceOpenSound(line: string)
    requires FenceOpen(line).Some?
    ensures var f := FenceOpen(line).value;
      var n := |f.delimiter| + |f.tag|;
      FencePrefix(line) == Some(f.delimiter)
      && n <= |line| && line[..n] == f.delimiter + f.tag && AllSpace(line[n..])
      && (forall k :: 0 <= k < |f.tag| ==> IsWordChar(f.tag[k]))
  {
    FencePrefixShape(line);
    var d := FencePrefix(line).value;
    var rest := line[|d|..];
    var tag := LeadingWord(rest);
    LeadingWordShape(rest);
    assert line[..|d| + |tag|] == d + tag by {
      assert line[..|d|] == d;
      assert rest[..|tag|] == tag;
    }
  }

  /** The converse: a fence delimiter, a run of word characters and trailing
      whitespace always make an opener, with that run as its tag. */
  lemma FenceOpenComplete(d: string, tag: string, tail: string)
    requires FencePrefix(d + tag + tail) == Some(d)
    requires forall k :: 0 <= k < |tag| ==> IsWordChar(tag[k])
    requires AllSpace(tail)
    ensures FenceOpen(d + tag + tail) == Some(Fence(d, tag))
  {
    var line := d + tag + tail;
    FencePrefixShape(line);
    var rest := line[|d|..];
    assert rest == tag + tail;
    LeadingWordOfWord(tag, tail);
    assert rest[|tag|..] == tail;
  }

  lemma TrailingWordsPrefix()
    ensures FencePrefix("```js extra") == Some("```")
  {
    var line := "```js extra";
    assert RunLength(line[3..], '`') == 0;
    assert RunLength(line[2..], '`') == 1;
    assert RunLength(line[1..], '`') == 2;
    assert line[..3] == "```";
  }

  lemma TrailingWordsTag()
    ensures LeadingWord("js extra") == "js"
  {
    var rest := "js extra";
    assert LeadingWord(rest[2..]) == [];
    assert LeadingWord(rest[1..]) == "s";
  }

  /** A line with more after the tag than whitespace starts with a fence for
      the sanitizer's prefix test but is no opener for the whole-line test. */
  lemma FenceWithTrailingWords()
    ensures FencePrefix("```js extra").Some?
    ensures FenceOpen("```js extra").None?
  {
    var line := "```js extra";
    TrailingWordsPrefix();
    TrailingWordsTag();
    assert line[3..] == "js extra";
    assert !IsSpace(line[3..][2..][1]);
  }

  // ── The in-code flag of the parser and the checker ─────────────────────────

  /** Whether the walk is inside a code block, and which delimiter closes
      it. */
  datatype Scan = Outside | InCode(fence: string)

  /** What a line is to the walk. */
  datatype Role = Plain | Opener(fence: Fence) | Code | Closer

  /** The role of `line` when the walk is in state `st`. Inside a block only
      a line whose `trimEnd()` is the opening delimiter closes it. */
  function RoleOf(st: Scan, line: string): Role {
    match st
    case Outside => (match FenceOpen(line) case Some(f) => Opener(f) case None => Plain)
    case InCode(fence) => if TrimEnd(line) == fence then Closer else Code
  }

  /** The state after `line`. */
  function Next(st: Scan, line: string): (r: Scan)
    ensures r.InCode? <==> RoleOf(st, line).Opener? || RoleOf(st, line).Code?
    ensures RoleOf(st, line).Opener? ==> r == InCode(RoleOf(st, line).fence.delimiter)
    ensures RoleOf(st, line).Code? ==> r == st
  {
    match RoleOf(st, line)
    case Opener(f) => InCode(f.delimiter)
    case Closer => Outside
    case Plain => st
    case Code => st
  }

  /** The walk state the flags `inCodeBlock` and `codeFence` stand for. */
  function ScanState(inCodeBlock: bool, codeFence: string): Scan {
    if inCodeBlock then InCode(codeFence) else Outside
  }

  /** The state after walking `lines` from `st`. */
  function ScanFrom(st: Scan, lines: seq<string>): Scan {
    if lines == [] then st else Next(ScanFrom(st, lines[..|lines| - 1]), lines[|lines| - 1])
  }

  /** The role of each of `lines`, walking from `st`. */
  function RolesFrom(st: Scan, lines: seq<string>): (roles: seq<Role>)
    ensures |roles| == |lines|
  {
    if lines == [] then []
    else
      var init := lines[..|lines| - 1];
      RolesFrom(st, init) + [RoleOf(ScanFrom(st, init), lines[|lines| - 1])]
  }

  /** The roles of the lines of a frame, which starts outside code. */
  function Roles(lines: seq<string>): (roles: seq<Role>)
    ensures |roles| == |lines|
  {
    RolesFrom(Outside, lines)
  }

  /** Walking `a + b` is walking `a` and then `b`. */
  lemma {:induction false} WalkAppend(st: Scan, a: seq<string>, b: seq<string>)
    ensures ScanFrom(st, a + b) == ScanFrom(ScanFrom(st, a), b)
    ensures RolesFrom(st, a + b) == RolesFrom(st, a) + RolesFrom(ScanFrom(st, a), b)
    decreases |b|
  {
    if b == [] {
      assert a + b == a;
    } else {
      var b' := b[..|b| - 1];
      assert (a + b)[..|a + b| - 1] == a + b';
      WalkAppend(st, a, b');
    }
  }

  /** Lines none of which closes the current block are all code and leave
      the walk inside it. */
  lemma {:induction false} WalkBody(fence: string, body: seq<string>)
    requires forall k :: 0 <= k < |body| ==> TrimEnd(body[k]) != fence
    ensures ScanFrom(InCode(fence), body) == InCode(fence)
    ensures forall k :: 0 <= k < |body| ==> RolesFrom(InCode(fence), body)[k] == Code
    decreases |body|
  {
    if body != [] {
      WalkBody(fence, body[..|body| - 1]);
    }
  }

  /** A code block: an opener, lines none of which closes it, and the
      closing line. Walked from outside code, the opener is the opener, the
      body is code, the closer closes, and the walk is outside again. */
  lemma CodeBlock(opener: string, body: seq<string>, closer: string)
    requires FenceOpen(opener).Some?
    requires forall k :: 0 <= k < |body| ==> TrimEnd(body[k]) != FenceOpen(opener).value.delimiter
    requires TrimEnd(closer) == FenceOpen(opener).value.delimiter
    ensures var roles := Roles([opener] + body + [closer]);
      roles[0] == Opener(FenceOpen(opener).value) && roles[|body| + 1] == Closer
      && (forall k :: 1 <= k <= |body| ==> roles[k] == Code)
    ensures ScanFrom(Outside, [opener] + body + [closer]) == Outside
  {
    var f := FenceOpen(opener).value;
    assert [opener][..0] == [];
    assert ScanFrom(Outside, [opener]) == InCode(f.delimiter);
    assert RolesFrom(Outside, [opener]) == [Opener(f)];
    WalkBody(f.delimiter, body);
    WalkAppend(Outside, [opener], body);
    var head := [opener] + body;
    WalkAppend(Outside, head, [closer]);
    assert [closer][..0] == [];
    assert RolesFrom(InCode(f.delimiter), [closer]) == [Closer];
  }
}
