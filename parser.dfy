/** `parseFrame` of parse-frames.js: the `key: value` metadata, the code
    blocks and the file tree of one frame. */
module Parser {
  import opened Strings
  import opened Results
  import opened Numbers
  import opened Fences
  import opened Tree
  import opened Order

  /** One frame of the JSON output. `scrollLine` is `None` where `parseInt`
      gives `NaN`. */
  datatype Frame = Frame(
    text: string,
    tree: seq<Entry>,
    selectedFile: string,
    content: string,
    language: string,
    scrollLine: Option<int>,
    highlights: seq<int>)

  /** Why the script stops. `frame` counts from 1, as its messages do. */
  datatype ParseError =
    | MissingField(frame: nat, field: string)
    | Diverges(frame: nat)
    | NoFrames

  // ── Metadata lines ─────────────────────────────────────────────────────────

  /** `/^\w+$/`. */
  predicate IsWord(s: string) {
    s != [] && forall i :: 0 <= i < |s| ==> IsWordChar(s[i])
  }

  /** The key and value of a `key: value` line: the text before the first
      colon, which must not be the first character, trimmed and a bare word,
      and the trimmed text after it. */
  function KeyValue(line: string): Option<(string, string)> {
    if ':' !in line then None
    else
      var i := IndexOf(line, ':');
      if i == 0 then None
      else
        var key := Trim(line[..i]);
        if IsWord(key) then Some((key, Trim(line[i + 1..]))) else None
  }

  /** `meta[key] = val` on a plain object: `__proto__` names the prototype,
      and giving it a string changes nothing. */
  function Assign(meta: map<string, string>, key: string, val: string): (r: map<string, string>)
    ensures "__proto__" !in meta ==> "__proto__" !in r
  {
    if key == "__proto__" then meta else meta[key := val]
  }

  /** What one line does to the metadata, given its role. */
  function MetaStep(meta: map<string, string>, role: Role, line: string): map<string, string> {
    if role == Plain then
      match KeyValue(line)
      case None => meta
      case Some(kv) => Assign(meta, kv.0, kv.1)
    else meta
  }

  /** The metadata of `lines` walked with `roles`. */
  function MetaIn(lines: seq<string>, roles: seq<Role>): (m: map<string, string>)
    requires |lines| == |roles|
    ensures "__proto__" !in m
  {
    if lines == [] then map[]
    else
      var n := |lines| - 1;
      MetaStep(MetaIn(lines[..n], roles[..n]), roles[n], lines[n])
  }

  /** The lines of `lines` that are code. */
  function CodeIn(lines: seq<string>, roles: seq<Role>): seq<string>
    requires |lines| == |roles|
  {
    if lines == [] then []
    else
      var n := |lines| - 1;
      CodeIn(lines[..n], roles[..n]) + (if roles[n] == Code then [lines[n]] else [])
  }

  /** The tag of the last opener, or nothing. */
  function LangIn(roles: seq<Role>): string {
    if roles == [] then ""
    else
      var n := |roles| - 1;
      if roles[n].Opener? then roles[n].fence.tag else LangIn(roles[..n])
  }

  predicate HasOpener(roles: seq<Role>) {
    exists i :: 0 <= i < |roles| && roles[i].Opener?
  }

  /** The metadata, the code lines and the language of a frame's lines. */
  function MetaOf(lines: seq<string>): map<string, string> {
    MetaIn(lines, Roles(lines))
  }

  function CodeOf(lines: seq<string>): seq<string> {
    CodeIn(lines, Roles(lines))
  }

  function LanguageOf(lines: seq<string>): string {
    LangIn(Roles(lines))
  }

  /** One more line: its role, the new walk state, metadata, code and
      language. */
  lemma OfSnoc(x: seq<string>, l: string)
    ensures var role := RoleOf(ScanFrom(Outside, x), l);
      Roles(x + [l]) == Roles(x) + [role]
      && ScanFrom(Outside, x + [l]) == Next(ScanFrom(Outside, x), l)
      && MetaOf(x + [l]) == MetaStep(MetaOf(x), role, l)
      && CodeOf(x + [l]) == CodeOf(x) + (if role == Code then [l] else [])
      && LanguageOf(x + [l]) == (if role.Opener? then role.fence.tag else LanguageOf(x))
  {
    var y := x + [l];
    assert y[..|x|] == x;
    var rs := Roles(y);
    assert rs[..|x|] == Roles(x);
  }

  // ── Joining walks ──────────────────────────────────────────────────────────

  lemma {:induction false} MetaInAppend(a: seq<string>, ra: seq<Role>, b: seq<string>, rb: seq<Role>)
    requires |a| == |ra| && |b| == |rb|
    ensures MetaIn(a + b, ra + rb) == MetaIn(a, ra) + MetaIn(b, rb)
    decreases |b|
  {
    if b == [] {
      assert a + b == a && ra + rb == ra;
    } else {
      var n := |b| - 1;
      AppendFront(a, b);
      AppendFront(ra, rb);
      MetaInAppend(a, ra, b[..n], rb[..n]);
      MetaStepUnion(MetaIn(a, ra), MetaIn(b[..n], rb[..n]), rb[n], b[n]);
    }
  }

  /** A line's effect on later keys does not depend on earlier ones. */
  lemma MetaStepUnion(m1: map<string, string>, m2: map<string, string>, role: Role, line: string)
    ensures MetaStep(m1 + m2, role, line) == m1 + MetaStep(m2, role, line)
  {
  }

  lemma {:induction false} CodeInAppend(a: seq<string>, ra: seq<Role>, b: seq<string>, rb: seq<Role>)
    requires |a| == |ra| && |b| == |rb|
    ensures CodeIn(a + b, ra + rb) == CodeIn(a, ra) + CodeIn(b, rb)
    decreases |b|
  {
    if b == [] {
      assert a + b == a && ra + rb == ra;
    } else {
      var n := |b| - 1;
      AppendFront(a, b);
      AppendFront(ra, rb);
      CodeInAppend(a, ra, b[..n], rb[..n]);
    }
  }

  lemma {:induction false} LangInAppend(ra: seq<Role>, rb: seq<Role>)
    ensures LangIn(ra + rb) == if HasOpener(rb) then LangIn(rb) else LangIn(ra)
    decreases |rb|
  {
    if rb == [] {
      assert ra + rb == ra;
    } else {
      var n := |rb| - 1;
      AppendFront(ra, rb);
      LangInAppend(ra, rb[..n]);
      if !rb[n].Opener? {
        assert HasOpener(rb) <==> HasOpener(rb[..n]) by {
          if HasOpener(rb) {
            var i :| 0 <= i < |rb| && rb[i].Opener?;
            assert rb[..n][i] == rb[i];
          }
          if HasOpener(rb[..n]) {
            var i :| 0 <= i < n && rb[..n][i].Opener?;
            assert rb[i] == rb[..n][i];
          }
        }
      }
    }
  }

  /** A walk through a whole code block is code except its fences: no
      metadata, the body as code, and the opener's tag. */
  lemma {:induction false} BlockIn(lines: seq<string>, roles: seq<Role>, f: Fence)
    requires |lines| == |roles| >= 2
    requires roles[0] == Opener(f) && roles[|roles| - 1] == Closer
    requires forall k :: 1 <= k < |roles| - 1 ==> roles[k] == Code
    ensures MetaIn(lines, roles) == map[]
    ensures CodeIn(lines, roles) == lines[1..|lines| - 1]
    ensures LangIn(roles) == f.tag
  {
    var n := |lines| - 1;
    BodyIn(lines[..n], roles[..n], f);
    assert lines[..n][1..] == lines[1..n];
  }

  lemma {:induction false} BodyIn(lines: seq<string>, roles: seq<Role>, f: Fence)
    requires |lines| == |roles| >= 1
    requires roles[0] == Opener(f)
    requires forall k :: 1 <= k < |roles| ==> roles[k] == Code
    ensures MetaIn(lines, roles) == map[]
    ensures CodeIn(lines, roles) == lines[1..]
    ensures LangIn(roles) == f.tag
    decreases |lines|
  {
    var n := |lines| - 1;
    if n > 0 {
      BodyIn(lines[..n], roles[..n], f);
      assert lines[1..] == lines[..n][1..] + [lines[n]];
    }
  }

  /** The roles of a frame around a code block: the block walked from
      outside code leaves the walk outside again, so the lines after it are
      walked as if on their own. */
  lemma FencedRoles(pre: seq<string>, opener: string, body: seq<string>, closer: string, post: seq<string>)
    requires ScanFrom(Outside, pre) == Outside
    requires FenceOpen(opener).Some?
    requires forall k :: 0 <= k < |body| ==> TrimEnd(body[k]) != FenceOpen(opener).value.delimiter
    requires TrimEnd(closer) == FenceOpen(opener).value.delimiter
    ensures var block := [opener] + body + [closer];
      var rb := Roles(block);
      Roles(pre + block + post) == (Roles(pre) + rb) + Roles(post)
      && MetaIn(block, rb) == map[] && CodeIn(block, rb) == body
      && LangIn(rb) == FenceOpen(opener).value.tag && HasOpener(rb)
  {
    var f := FenceOpen(opener).value;
    var block := [opener] + body + [closer];
    CodeBlock(opener, body, closer);
    var rb := Roles(block);
    BlockIn(block, rb, f);
    assert block[1..|block| - 1] == body;
    WalkAppend(Outside, pre, block);
    WalkAppend(Outside, pre + block, post);
    assert rb[0].Opener?;
  }

  /** A frame with a code block: lines before it that leave the walk outside
      code, the opener, a body none of whose lines closes it, the closing
      line, then any lines. The body is the code between what comes before
      and after, the metadata is that of the lines around the block, and the
      language is the block's tag unless a later block opens. */
  lemma FencedFrame(pre: seq<string>, opener: string, body: seq<string>, closer: string, post: seq<string>)
    requires ScanFrom(Outside, pre) == Outside
    requires FenceOpen(opener).Some?
    requires forall k :: 0 <= k < |body| ==> TrimEnd(body[k]) != FenceOpen(opener).value.delimiter
    requires TrimEnd(closer) == FenceOpen(opener).value.delimiter
    ensures var lines := pre + ([opener] + body + [closer]) + post;
      CodeOf(lines) == CodeOf(pre) + body + CodeOf(post)
      && MetaOf(lines) == MetaOf(pre) + MetaOf(post)
      && LanguageOf(lines) == (if HasOpener(Roles(post)) then LanguageOf(post) else FenceOpen(opener).value.tag)
  {
    FencedRoles(pre, opener, body, closer, post);
    var block := [opener] + body + [closer];
    FencedCode(pre, block, post, body);
    FencedMeta(pre, block, post);
    FencedLang(pre, block, post, FenceOpen(opener).value.tag);
  }

  lemma FencedCode(pre: seq<string>, block: seq<string>, post: seq<string>, body: seq<string>)
    requires Roles(pre + block + post) == (Roles(pre) + Roles(block)) + Roles(post)
    requires CodeIn(block, Roles(block)) == body
    ensures CodeOf(pre + block + post) == CodeOf(pre) + body + CodeOf(post)
  {
    CodeInAppend(pre, Roles(pre), block, Roles(block));
    CodeInAppend(pre + block, Roles(pre) + Roles(block), post, Roles(post));
  }

  lemma FencedMeta(pre: seq<string>, block: seq<string>, post: seq<string>)
    requires Roles(pre + block + post) == (Roles(pre) + Roles(block)) + Roles(post)
    requires MetaIn(block, Roles(block)) == map[]
    ensures MetaOf(pre + block + post) == MetaOf(pre) + MetaOf(post)
  {
    MetaInAppend(pre, Roles(pre), block, Roles(block));
    MetaInAppend(pre + block, Roles(pre) + Roles(block), post, Roles(post));
    assert MetaOf(pre) + map[] == MetaOf(pre);
  }

  lemma FencedLang(pre: seq<string>, block: seq<string>, post: seq<string>, tag: string)
    requires Roles(pre + block + post) == (Roles(pre) + Roles(block)) + Roles(post)
    requires LangIn(Roles(block)) == tag && HasOpener(Roles(block))
    ensures LanguageOf(pre + block + post) == (if HasOpener(Roles(post)) then LanguageOf(post) else tag)
  {
    LangInAppend(Roles(pre), Roles(block));
    LangInAppend(Roles(pre) + Roles(block), Roles(post));
  }

  // ── Metadata ───────────────────────────────────────────────────────────────

  /** The metadata line a value comes from: a key has a value exactly when a
      line outside code carries it, and the value is the last such line's. */
  lemma {:induction false} MetaSource(lines: seq<string>, roles: seq<Role>, key: string)
    requires |lines| == |roles|
    requires key in MetaIn(lines, roles)
    ensures exists k :: 0 <= k < |lines| && roles[k] == Plain
                    && KeyValue(lines[k]) == Some((key, MetaIn(lines, roles)[key]))
    decreases |lines|
  {
    var n := |lines| - 1;
    var m := MetaIn(lines[..n], roles[..n]);
    if roles[n] == Plain && KeyValue(lines[n]).Some? && KeyValue(lines[n]).value.0 == key {
      assert KeyValue(lines[n]) == Some((key, MetaIn(lines, roles)[key]));
    } else {
      assert MetaIn(lines, roles)[key] == m[key];
      MetaSource(lines[..n], roles[..n], key);
      var k :| 0 <= k < n && roles[..n][k] == Plain
        && KeyValue(lines[..n][k]) == Some((key, m[key]));
      assert roles[k] == Plain && lines[k] == lines[..n][k];
    }
  }

  /** The converse: the last line outside code carrying a key gives its
      value. */
  lemma {:induction false} MetaLastWins(lines: seq<string>, roles: seq<Role>, k: nat, key: string, val: string)
    requires |lines| == |roles|
    requires k < |lines| && roles[k] == Plain && KeyValue(lines[k]) == Some((key, val))
    requires key != "__proto__"
    requires forall j :: k < j < |lines| && roles[j] == Plain && KeyValue(lines[j]).Some? ==>
      KeyValue(lines[j]).value.0 != key
    ensures key in MetaIn(lines, roles) && MetaIn(lines, roles)[key] == val
    decreases |lines|
  {
    var n := |lines| - 1;
    if k < n {
      MetaLastWins(lines[..n], roles[..n], k, key, val);
    }
  }

  /** A line written as `key: value` reads back as that key and value. */
  lemma KeyValueOf(key: string, val: string)
    requires IsWord(key)
    requires val == [] || (!IsSpace(val[0]) && !IsSpace(val[|val| - 1]))
    ensures KeyValue(key + ": " + val) == Some((key, val))
  {
    var line := key + ": " + val;
    assert line[|key|] == ':';
    assert forall j :: 0 <= j < |key| ==> line[j] == key[j];
    assert IndexOf(line, ':') == |key|;
    assert line[..|key|] == key;
    TrimNothing(key);
    assert line[|key| + 1..] == " " + val;
    assert TrimStart(" " + val) == TrimStart(val) by { assert (" " + val)[1..] == val; }
    TrimNothing(val);
    assert TrimStart(val) == val;
  }

  // ── Scroll line and highlights ─────────────────────────────────────────────

  /** `scrollLine`: `parseInt` of the value, `0` without one. */
  function ScrollLine(meta: map<string, string>): Option<int> {
    if "scrollLine" in meta then ParseInt(meta["scrollLine"]) else Some(0)
  }

  /** `/\[([^\]]*)\]/`: the text between the first `[` and the first `]`
      after it. */
  function Bracketed(v: string): Option<string> {
    if '[' !in v then None
    else
      var rest := v[IndexOf(v, '[') + 1..];
      if ']' in rest then Some(rest[..IndexOf(rest, ']')]) else None
  }

  /** Each piece trimmed and read by `parseInt`, the `NaN`s dropped. */
  function ParsedNumbers(parts: seq<string>): seq<int> {
    if parts == [] then []
    else ParsedNumbers(parts[..|parts| - 1]) + ParsedNumber(parts[|parts| - 1])
  }

  /** One piece trimmed and read by `parseInt`: nothing for a `NaN`. */
  function ParsedNumber(part: string): seq<int> {
    match ParseInt(Trim(part))
    case None => []
    case Some(x) => [x]
  }

  /** The line numbers of a `highlights: [a, b, …]` value. */
  function HighlightList(v: string): seq<int> {
    match Bracketed(v)
    case None => []
    case Some(inner) => if Trim(inner) == [] then [] else ParsedNumbers(Split(inner, ','))
  }

  function Highlights(meta: map<string, string>): seq<int> {
    if "highlights" in meta && meta["highlights"] != [] then HighlightList(meta["highlights"]) else []
  }

  function Rendered(ns: seq<nat>): (r: seq<string>)
    ensures |r| == |ns|
  {
    seq(|ns|, i requires 0 <= i < |ns| => NatToString(ns[i]))
  }

  lemma {:induction false} ParsedRendered(ns: seq<nat>)
    ensures ParsedNumbers(Rendered(ns)) == ns
    decreases |ns|
  {
    if ns != [] {
      assert Rendered(ns)[..|ns| - 1] == Rendered(ns[..|ns| - 1]);
      ParsedRendered(ns[..|ns| - 1]);
      ParsedNumberOf(ns[|ns| - 1]);
      FrontLast(ns);
    }
  }

  /** A number written out in decimal reads back as itself. */
  lemma ParsedNumberOf(x: nat)
    ensures ParsedNumber(NatToString(x)) == [x]
  {
    var s := NatToString(x);
    assert !IsSpace(s[0]) && !IsSpace(s[|s| - 1]);
    TrimNothing(s);
    ParseIntOfNatToString(x);
  }

  /** The digits of the numbers and the commas between them hold no
      bracket and start with a digit. */
  lemma RenderedChars(ns: seq<nat>)
    requires |ns| >= 1
    ensures var j := Join(Rendered(ns), ',');
      '[' !in j && ']' !in j && j != [] && IsDigit(j[0])
      && forall i :: 0 <= i < |ns| ==> ',' !in Rendered(ns)[i]
  {
    var parts := Rendered(ns);
    var j := Join(parts, ',');
    JoinChars(parts, ',', ']');
    JoinChars(parts, ',', '[');
    assert |parts| == 1 ==> j == parts[0];
    assert |parts| > 1 ==> j == parts[0] + [','] + Join(parts[1..], ',');
    assert IsDigit(parts[0][0]) && j[0] == parts[0][0];
  }

  /** What lies between `[` and `]` when the brackets hold no other bracket. */
  lemma BracketedOf(j: string)
    requires '[' !in j && ']' !in j
    ensures Bracketed("[" + j + "]") == Some(j)
  {
    var v := "[" + j + "]";
    assert IndexOf(v, '[') == 0;
    var rest := v[1..];
    assert rest == j + "]";
    assert rest[|j|] == ']';
    assert IndexOf(rest, ']') == |j|;
    assert rest[..|j|] == j;
  }

  /** A list of line numbers written `[a,b,…]` reads back as those numbers;
      `[]` reads back as no numbers. */
  lemma HighlightsRoundTrip(ns: seq<nat>)
    ensures HighlightList("[" + Join(Rendered(ns), ',') + "]") == ns
  {
    var j := Join(Rendered(ns), ',');
    if ns == [] {
      BracketedOf(j);
      return;
    }
    RenderedChars(ns);
    BracketedOf(j);
    assert Trim(j) != [] by {
      TrimShape(j);
      assert !IsSpace(j[0]);
    }
    assert Split(j, ',') == Rendered(ns) by {
      SplitJoin(Rendered(ns), ',');
    }
    ParsedRendered(ns);
  }

  // ── The frame ──────────────────────────────────────────────────────────────

  predicate HasField(meta: map<string, string>, key: string) {
    key in meta && meta[key] != []
  }

  /** `parseFrame(raw, index, seen)`: the frame and the selected files with
      this frame's appended. */
  function ParseFrameOf(raw: string, index: nat, seen: seq<string>): Result<(Frame, seq<string>), ParseError> {
    var lines := Split(raw, '\n');
    var meta := MetaOf(lines);
    if !HasField(meta, "text") then Err(MissingField(index + 1, "text"))
    else if !HasField(meta, "selectedFile") then Err(MissingField(index + 1, "selectedFile"))
    else
      var selected := seen + [meta["selectedFile"]];
      match TreeOf(Elements(selected))
      case None => Err(Diverges(index + 1))
      case Some(tree) =>
        Ok((Frame(meta["text"], tree, meta["selectedFile"], Join(CodeOf(lines), '\n'),
                  LanguageOf(lines), ScrollLine(meta), Highlights(meta)), selected))
  }

  /** The body of the loop of `parseFrame`: the flags, metadata, code and
      language after one line, in terms of the line's role. */
  method ReadLine(line: string, inCodeBlock: bool, codeFence: string,
                  meta: map<string, string>, codeLines: seq<string>, codeLang: string)
    returns (inCodeBlock': bool, codeFence': string,
             meta': map<string, string>, codeLines': seq<string>, codeLang': string)
    ensures ScanState(inCodeBlock', codeFence') == Next(ScanState(inCodeBlock, codeFence), line)
    ensures meta' == MetaStep(meta, RoleOf(ScanState(inCodeBlock, codeFence), line), line)
    ensures codeLines' == codeLines + (if RoleOf(ScanState(inCodeBlock, codeFence), line) == Code then [line] else [])
    ensures codeLang' == (if RoleOf(ScanState(inCodeBlock, codeFence), line).Opener?
                          then RoleOf(ScanState(inCodeBlock, codeFence), line).fence.tag else codeLang)
  {
    inCodeBlock', codeFence', meta', codeLines', codeLang' := inCodeBlock, codeFence, meta, codeLines, codeLang;
    if !inCodeBlock {
      var fenceMatch := FenceOpen(line);
      if fenceMatch.Some? {
        codeFence' := fenceMatch.value.delimiter;
        codeLang' := fenceMatch.value.tag;
        inCodeBlock' := true;
      } else if ':' in line {
        var colonIdx := IndexOf(line, ':');
        if colonIdx > 0 {
          var key := Trim(line[..colonIdx]);
          var val := Trim(line[colonIdx + 1..]);
          if IsWord(key) {
            meta' := Assign(meta, key, val);
          }
        }
      }
    } else if TrimEnd(line) == codeFence {
      inCodeBlock' := false;
    } else {
      codeLines' := codeLines + [line];
    }
  }

  /** The loop of `parseFrame` over the lines, with its in-code flag and
      fence. */
  method ReadLines(lines: seq<string>) returns (meta: map<string, string>, codeLines: seq<string>, codeLang: string)
    ensures meta == MetaOf(lines) && codeLines == CodeOf(lines) && codeLang == LanguageOf(lines)
  {
    meta := map[];
    codeLines := [];
    codeLang := "";
    var inCodeBlock := false;
    var codeFence := "";
    for k := 0 to |lines|
      invariant ScanFrom(Outside, lines[..k]) == ScanState(inCodeBlock, codeFence)
      invariant meta == MetaOf(lines[..k])
      invariant codeLines == CodeOf(lines[..k])
      invariant codeLang == LanguageOf(lines[..k])
    {
      assert lines[..k + 1] == lines[..k] + [lines[k]];
      OfSnoc(lines[..k], lines[k]);
      inCodeBlock, codeFence, meta, codeLines, codeLang :=
        ReadLine(lines[k], inCodeBlock, codeFence, meta, codeLines, codeLang);
    }
    assert lines[..|lines|] == lines;
  }

  /** `parseFrame`: `seen` is the caller's list of selected files, returned
      with this frame's file appended. */
  method ParseFrame(raw: string, index: nat, seen: seq<string>) returns (r: Result<(Frame, seq<string>), ParseError>)
    ensures r == ParseFrameOf(raw, index, seen)
  {
    var lines := Split(raw, '\n');
    var meta, codeLines, codeLang := ReadLines(lines);
    if !HasField(meta, "text") {
      return Err(MissingField(index + 1, "text"));
    }
    if !HasField(meta, "selectedFile") {
      return Err(MissingField(index + 1, "selectedFile"));
    }
    var scrollLine := if "scrollLine" in meta then ParseInt(meta["scrollLine"]) else Some(0);
    var highlights := Highlights(meta);
    var selected := seen + [meta["selectedFile"]];
    var tree := BuildTree(selected);
    if tree.None? {
      return Err(Diverges(index + 1));
    }
    var frame := Frame(meta["text"], tree.value, meta["selectedFile"], Join(codeLines, '\n'),
                       codeLang, scrollLine, highlights);
    return Ok((frame, selected));
  }

  /** The checks of `parseFrame` in order: `text` first, then
      `selectedFile`, then the tree; a frame that passes them has both
      fields non-empty and the tree of every file selected so far. */
  lemma ParseFrameOutcome(raw: string, index: nat, seen: seq<string>)
    ensures var meta := MetaOf(Split(raw, '\n'));
      var r := ParseFrameOf(raw, index, seen);
      (r == Err(MissingField(index + 1, "text")) <==> !HasField(meta, "text"))
      && (r == Err(MissingField(index + 1, "selectedFile")) <==>
            HasField(meta, "text") && !HasField(meta, "selectedFile"))
      && (r.Ok? <==>
            (HasField(meta, "text") && HasField(meta, "selectedFile")
             && TreeOf(Elements(seen + [meta["selectedFile"]])).Some?))
      && (r.Ok? ==>
            var frame := r.value.0;
            frame.text != [] && frame.selectedFile != []
            && r.value.1 == seen + [frame.selectedFile]
            && Some(frame.tree) == TreeOf(Elements(r.value.1)))
  {
  }

  /** With well-formed paths, a frame's tree shows every file selected so
      far, its own among them, and no other file. */
  lemma FrameTreeFiles(raw: string, index: nat, seen: seq<string>)
    requires ParseFrameOf(raw, index, seen).Ok?
    requires WellFormed(Elements(ParseFrameOf(raw, index, seen).value.1))
    ensures var (frame, selected) := ParseFrameOf(raw, index, seen).value;
      Entry(frame.selectedFile, File) in frame.tree
      && forall p :: Entry(p, File) in frame.tree <==> p in selected
  {
    var (frame, selected) := ParseFrameOf(raw, index, seen).value;
    TreeMembers(Elements(selected));
    assert frame.selectedFile in selected by { assert selected[|selected| - 1] == frame.selectedFile; }
  }
}
