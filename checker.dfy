/** check-frames.js: the frame file is sanitised again, then checked for a
    closing `---` line, and each frame for its `text:` and `selectedFile:`
    lines, for the deprecated `highlights:` field and for a code block of at
    most 24 lines. */
module Checker {
  import opened Strings
  import opened Results
  import opened Numbers
  import opened Fences
  import Parser
  import Document
  import FileSanitizer

  /** The most code lines a frame may show. */
  const MaxCodeLines: nat := 24

  const Deprecated := "highlights: field is deprecated \U{2014} use // hl markers inside code lines instead"
  const TextKey := "text:"
  const SelectedFileKey := "selectedFile:"
  const HighlightsKey := "highlights:"
  const MissingText := "missing text:"
  const MissingSelectedFile := "missing selectedFile:"
  const EndMissing := "File does not end with --- \U{2717}"

  /** `${n}/24 lines (${n - 24} over)`. */
  function OverMessage(n: nat): string
    requires n > MaxCodeLines
  {
    NatToString(n) + "/24 lines (" + NatToString(n - MaxCodeLines) + " over)"
  }

  /** The field tests see the lines walked outside code: plain lines and
      openers. */
  predicate SeenOutside(role: Role) {
    role == Plain || role.Opener?
  }

  // ── One frame ──────────────────────────────────────────────────────────────

  /** Some line seen outside code starts with `prefix`. */
  function KeyLineIn(lines: seq<string>, roles: seq<Role>, prefix: string): bool
    requires |lines| == |roles|
  {
    if lines == [] then false
    else
      var n := |lines| - 1;
      KeyLineIn(lines[..n], roles[..n], prefix) || (SeenOutside(roles[n]) && StartsWith(lines[n], prefix))
  }

  /** One deprecation message per `highlights:` line seen outside code. */
  function DeprecatedIn(lines: seq<string>, roles: seq<Role>): seq<string>
    requires |lines| == |roles|
  {
    if lines == [] then []
    else
      var n := |lines| - 1;
      DeprecatedIn(lines[..n], roles[..n])
      + (if SeenOutside(roles[n]) && StartsWith(lines[n], HighlightsKey) then [Deprecated] else [])
  }

  /** The errors of one frame, in the order the script reports them. The
      code lines it counts are those the parser puts in the frame's
      `content`. */
  function FrameErrors(frame: string): seq<string> {
    LineErrors(Split(frame, '\n'))
  }

  function LineErrors(lines: seq<string>): seq<string> {
    Verdict(DeprecatedIn(lines, Roles(lines)), KeyLineIn(lines, Roles(lines), TextKey),
      KeyLineIn(lines, Roles(lines), SelectedFileKey), |Parser.CodeOf(lines)|)
  }

  /** The errors after the walk: those it found, then the missing keys,
      then the line count when it is over the limit. */
  function Verdict(deprecated: seq<string>, hasText: bool, hasSelectedFile: bool, codeLines: nat): seq<string> {
    PushOver(PushIf(PushIf(deprecated, !hasText, MissingText), !hasSelectedFile, MissingSelectedFile), codeLines)
  }

  /** The over-length error pushed when there are too many code lines. */
  function PushOver(errors: seq<string>, codeLines: nat): seq<string> {
    if codeLines > MaxCodeLines then errors + [OverMessage(codeLines)] else errors
  }

  /** `errors.push(error)` when `cond` holds. */
  function PushIf(errors: seq<string>, cond: bool, error: string): seq<string> {
    if cond then errors + [error] else errors
  }

  /** One more line and its role: the checks of the longer frame. */
  lemma CheckSnoc(x: seq<string>, rs: seq<Role>, l: string, r: Role)
    requires |x| == |rs|
    ensures Parser.CodeIn(x + [l], rs + [r]) == Parser.CodeIn(x, rs) + (if r == Code then [l] else [])
    ensures KeyLineIn(x + [l], rs + [r], TextKey) ==
      (KeyLineIn(x, rs, TextKey) || (SeenOutside(r) && StartsWith(l, TextKey)))
    ensures KeyLineIn(x + [l], rs + [r], SelectedFileKey) ==
      (KeyLineIn(x, rs, SelectedFileKey) || (SeenOutside(r) && StartsWith(l, SelectedFileKey)))
    ensures DeprecatedIn(x + [l], rs + [r]) ==
      DeprecatedIn(x, rs) + (if SeenOutside(r) && StartsWith(l, HighlightsKey) then [Deprecated] else [])
  {
    assert (x + [l])[..|x|] == x;
    assert (rs + [r])[..|x|] == rs;
  }

  lemma PrefixSnoc(lines: seq<string>, k: nat)
    requires k < |lines|
    ensures lines[..k + 1] == lines[..k] + [lines[k]]
  {
  }

  /** One more line: its role and the walk state after it. */
  lemma RolesSnoc(x: seq<string>, l: string)
    ensures Roles(x + [l]) == Roles(x) + [RoleOf(ScanFrom(Outside, x), l)]
    ensures ScanFrom(Outside, x + [l]) == Next(ScanFrom(Outside, x), l)
  {
    assert (x + [l])[..|x|] == x;
  }

  /** The body of the loop of check-frames.js over a frame's lines: the
      flags and counters after one line, in terms of the line's role. */
  method CheckLine(line: string, inCodeBlock: bool, codeFence: string, hasText: bool, hasSelectedFile: bool,
                   errors: seq<string>, lineCount: nat)
    returns (inCodeBlock': bool, codeFence': string, hasText': bool, hasSelectedFile': bool,
             errors': seq<string>, lineCount': nat)
    ensures var st := ScanState(inCodeBlock, codeFence);
      ScanState(inCodeBlock', codeFence') == Next(st, line)
    ensures var role := RoleOf(ScanState(inCodeBlock, codeFence), line);
      && hasText' == (hasText || (SeenOutside(role) && StartsWith(line, TextKey)))
      && hasSelectedFile' == (hasSelectedFile || (SeenOutside(role) && StartsWith(line, SelectedFileKey)))
      && errors' == errors + (if SeenOutside(role) && StartsWith(line, HighlightsKey) then [Deprecated] else [])
      && lineCount' == lineCount + (if role == Code then 1 else 0)
  {
    inCodeBlock', codeFence', hasText', hasSelectedFile', errors', lineCount' :=
      inCodeBlock, codeFence, hasText, hasSelectedFile, errors, lineCount;
    if !inCodeBlock {
      if StartsWith(line, TextKey) {
        hasText' := true;
      }
      if StartsWith(line, SelectedFileKey) {
        hasSelectedFile' := true;
      }
      if StartsWith(line, HighlightsKey) {
        errors' := errors' + [Deprecated];
      }
      var fenceMatch := FenceOpen(line);
      if fenceMatch.Some? {
        inCodeBlock' := true;
        codeFence' := fenceMatch.value.delimiter;
      }
    } else if TrimEnd(line) == codeFence {
      inCodeBlock' := false;
    } else {
      lineCount' := lineCount' + 1;
    }
  }

  /** The loop of check-frames.js over one frame's lines. */
  method CheckFrame(frame: string) returns (errors: seq<string>, lineCount: nat)
    ensures errors == FrameErrors(frame)
    ensures lineCount == |Parser.CodeOf(Split(frame, '\n'))|
  {
    var lines := Split(frame, '\n');
    var inCodeBlock := false;
    var codeFence := "";
    var hasText := false;
    var hasSelectedFile := false;
    lineCount := 0;
    errors := [];
    ghost var roles: seq<Role> := [];
    for k := 0 to |lines|
      invariant roles == Roles(lines[..k])
      invariant ScanFrom(Outside, lines[..k]) == ScanState(inCodeBlock, codeFence)
      invariant hasText == KeyLineIn(lines[..k], roles, TextKey)
      invariant hasSelectedFile == KeyLineIn(lines[..k], roles, SelectedFileKey)
      invariant errors == DeprecatedIn(lines[..k], roles)
      invariant lineCount == |Parser.CodeIn(lines[..k], roles)|
    {
      var line := lines[k];
      ghost var role := RoleOf(ScanState(inCodeBlock, codeFence), line);
      PrefixSnoc(lines, k);
      RolesSnoc(lines[..k], line);
      CheckSnoc(lines[..k], roles, line, role);
      inCodeBlock, codeFence, hasText, hasSelectedFile, errors, lineCount :=
        CheckLine(line, inCodeBlock, codeFence, hasText, hasSelectedFile, errors, lineCount);
      roles := roles + [role];
    }
    assert lines[..|lines|] == lines;
    ghost var found := errors;
    if !hasText {
      errors := errors + [MissingText];
    }
    if !hasSelectedFile {
      errors := errors + [MissingSelectedFile];
    }
    if lineCount > MaxCodeLines {
      errors := errors + [OverMessage(lineCount)];
    }
    assert errors == Verdict(found, hasText, hasSelectedFile, lineCount);
  }

  // ── What a frame's verdict means ───────────────────────────────────────────

  lemma {:induction false} KeyLineIff(lines: seq<string>, roles: seq<Role>, prefix: string)
    requires |lines| == |roles|
    ensures KeyLineIn(lines, roles, prefix) <==>
      exists k :: 0 <= k < |lines| && SeenOutside(roles[k]) && StartsWith(lines[k], prefix)
  {
    if lines != [] {
      var n := |lines| - 1;
      KeyLineIff(lines[..n], roles[..n], prefix);
      if KeyLineIn(lines[..n], roles[..n], prefix) {
        var k :| 0 <= k < n && SeenOutside(roles[..n][k]) && StartsWith(lines[..n][k], prefix);
        assert roles[k] == roles[..n][k] && lines[k] == lines[..n][k];
      }
      if exists k :: 0 <= k < |lines| && SeenOutside(roles[k]) && StartsWith(lines[k], prefix) {
        var k :| 0 <= k < |lines| && SeenOutside(roles[k]) && StartsWith(lines[k], prefix);
        if k < n {
          assert roles[..n][k] == roles[k] && lines[..n][k] == lines[k];
        }
      }
    }
  }

  lemma {:induction false} DeprecatedNone(lines: seq<string>, roles: seq<Role>)
    requires |lines| == |roles|
    ensures DeprecatedIn(lines, roles) == [] <==>
      forall k :: 0 <= k < |lines| && SeenOutside(roles[k]) ==> !StartsWith(lines[k], HighlightsKey)
  {
    if lines != [] {
      var n := |lines| - 1;
      DeprecatedNone(lines[..n], roles[..n]);
      assert forall k :: 0 <= k < n ==> roles[..n][k] == roles[k] && lines[..n][k] == lines[k];
    }
  }

  /** A frame passes exactly when a `text:` and a `selectedFile:` line
      appear outside code, no `highlights:` line does, and it has at most 24
      code lines. */
  lemma FramePasses(frame: string)
    ensures var lines := Split(frame, '\n');
      var roles := Roles(lines);
      FrameErrors(frame) == [] <==>
        (exists k :: 0 <= k < |lines| && SeenOutside(roles[k]) && StartsWith(lines[k], TextKey))
        && (exists k :: 0 <= k < |lines| && SeenOutside(roles[k]) && StartsWith(lines[k], SelectedFileKey))
        && (forall k :: 0 <= k < |lines| && SeenOutside(roles[k]) ==> !StartsWith(lines[k], HighlightsKey))
        && |Parser.CodeOf(lines)| <= MaxCodeLines
  {
    var lines := Split(frame, '\n');
    var roles := Roles(lines);
    KeyLineIff(lines, roles, TextKey);
    KeyLineIff(lines, roles, SelectedFileKey);
    DeprecatedNone(lines, roles);
  }

  /** The lines the checker counts are the lines of the content the parser
      emits for the frame. */
  lemma CountIsContentLines(frame: string)
    requires |Parser.CodeOf(Split(frame, '\n'))| >= 1
    ensures Split(Join(Parser.CodeOf(Split(frame, '\n')), '\n'), '\n') == Parser.CodeOf(Split(frame, '\n'))
  {
    var lines := Split(frame, '\n');
    CodeUnbroken(lines, Roles(lines));
    SplitJoin(Parser.CodeOf(lines), '\n');
  }

  /** Code lines taken from lines without a line break have none either. */
  lemma {:induction false} CodeUnbroken(lines: seq<string>, roles: seq<Role>)
    requires |lines| == |roles|
    requires forall k :: 0 <= k < |lines| ==> '\n' !in lines[k]
    ensures forall i :: 0 <= i < |Parser.CodeIn(lines, roles)| ==> '\n' !in Parser.CodeIn(lines, roles)[i]
  {
    if lines != [] {
      var n := |lines| - 1;
      assert forall k :: 0 <= k < n ==> lines[..n][k] == lines[k];
      CodeUnbroken(lines[..n], roles[..n]);
    }
  }

  /** The over-length message for 25 code lines. */
  lemma OneOver()
    ensures OverMessage(25) == "25/24 lines (1 over)"
  {
    TwentyFive();
  }

  lemma TwentyFive()
    ensures NatToString(25) == "25" && NatToString(1) == "1"
  {
    assert DigitChar(2) == '2' && DigitChar(5) == '5' && DigitChar(1) == '1';
    assert NatToString(2) == "2";
  }

  // ── The document ───────────────────────────────────────────────────────────

  /** The frames checked: the non-blank pieces between `---` lines. */
  function Pieces(src: string): seq<string> {
    Document.NonBlank(Document.SplitFrames(src))
  }

  /** The last line of `src` with more than whitespace is exactly `---`. */
  predicate EndsWithRule(src: string) {
    LastIsRule(Document.NonBlank(Split(src, '\n')))
  }

  /** The last of `filled` is `---`. */
  predicate LastIsRule(filled: seq<string>) {
    filled != [] && filled[|filled| - 1] == "---"
  }

  /** `Frame ${n}: ✓`, or `Frame ${n}: ✗  → ` and the errors. */
  function ReportLine(number: nat, errors: seq<string>): string {
    if errors == [] then "Frame " + NatToString(number) + ": \U{2713}"
    else "Frame " + NatToString(number) + ": \U{2717}  \U{2192} " + JoinWith(errors, ", ")
  }

  /** The report lines of the frames, numbered from 1. */
  function FrameReports(frames: seq<string>): (r: seq<string>)
    ensures |r| == |frames|
  {
    seq(|frames|, i requires 0 <= i < |frames| => ReportLine(i + 1, FrameErrors(frames[i])))
  }

  /** What the script prints. */
  function Output(src: string): seq<string> {
    (if EndsWithRule(src) then [] else [EndMissing]) + FrameReports(Pieces(src))
  }

  /** The script exits with a failure. */
  predicate Fails(src: string) {
    !EndsWithRule(src) || AnyErrors(Pieces(src))
  }

  /** Some frame has an error. */
  predicate AnyErrors(frames: seq<string>) {
    exists j :: 0 <= j < |frames| && FrameErrors(frames[j]) != []
  }

  /** The loop of check-frames.js over the frames: one report line per
      frame, and whether any frame had an error. */
  method CheckFrames(rawFrames: seq<string>) returns (reports: seq<string>, anyErrors: bool)
    ensures reports == FrameReports(rawFrames)
    ensures anyErrors == AnyErrors(rawFrames)
  {
    reports := [];
    anyErrors := false;
    for i := 0 to |rawFrames|
      invariant |reports| == i
      invariant Reported(reports, rawFrames, FrameErrors)
      invariant anyErrors <==> exists j :: 0 <= j < i && FrameErrors(rawFrames[j]) != []
    {
      var errors, _ := CheckFrame(rawFrames[i]);
      FlagSnoc(rawFrames, i, FrameErrors);
      if errors != [] {
        anyErrors := true;
      }
      ReportedSnoc(reports, rawFrames, FrameErrors, errors);
      reports := reports + [ReportLine(i + 1, errors)];
    }
    ReportedAll(reports, rawFrames);
  }

  /** Among one more frame some check fails exactly when it fails on that
      frame or on an earlier one. */
  lemma FlagSnoc(frames: seq<string>, i: nat, check: string -> seq<string>)
    requires i < |frames|
    ensures (exists j :: 0 <= j < i + 1 && check(frames[j]) != []) <==>
      (exists j :: 0 <= j < i && check(frames[j]) != []) || check(frames[i]) != []
  {
  }

  /** `reports` are the report lines of the first frames, each with the
      errors `check` finds in it. */
  ghost predicate Reported(reports: seq<string>, frames: seq<string>, check: string -> seq<string>) {
    |reports| <= |frames|
    && forall k :: 0 <= k < |reports| ==> reports[k] == ReportLine(k + 1, check(frames[k]))
  }

  lemma ReportedSnoc(reports: seq<string>, frames: seq<string>, check: string -> seq<string>, errors: seq<string>)
    requires Reported(reports, frames, check) && |reports| < |frames|
    requires errors == check(frames[|reports|])
    ensures Reported(reports + [ReportLine(|reports| + 1, errors)], frames, check)
  {
    var r := reports + [ReportLine(|reports| + 1, errors)];
    forall k | 0 <= k < |r| ensures r[k] == ReportLine(k + 1, check(frames[k])) {
      if k < |reports| {
        assert r[k] == reports[k];
      }
    }
  }

  lemma ReportedAll(reports: seq<string>, frames: seq<string>)
    requires Reported(reports, frames, FrameErrors) && |reports| == |frames|
    ensures reports == FrameReports(frames)
  {
    var f := FrameReports(frames);
    forall k | 0 <= k < |f| ensures reports[k] == f[k] {
    }
  }

  /** The checks of check-frames.js on the sanitised text, with its
      `failed` flag. */
  method CheckDocument(src: string) returns (output: seq<string>, failed: bool)
    ensures output == Output(src)
    ensures failed == Fails(src)
  {
    failed := false;
    output := [];
    if !EndsWithRule(src) {
      output := [EndMissing];
      failed := true;
    }
    var rawFrames := Document.NonBlank(Document.SplitFrames(src));
    var reports, anyErrors := CheckFrames(rawFrames);
    output := output + reports;
    failed := failed || anyErrors;
  }

  /** check-frames.js: the file is sanitised first and the checks run on the
      result. */
  method CheckFile(src: string) returns (output: seq<string>, failed: bool)
    ensures output == Output(FileSanitizer.SanitizedFile(src).0)
    ensures failed == Fails(FileSanitizer.SanitizedFile(src).0)
  {
    var result, _ := FileSanitizer.SanitizeFile(src);
    output, failed := CheckDocument(result);
  }

  // ── What the verdict means ─────────────────────────────────────────────────

  /** A printed line that reports success: it ends with the check mark. */
  predicate Passing(line: string) {
    line != [] && line[|line| - 1] == '\U{2713}'
  }

  /** No error message ends with the check mark. */
  predicate Unmarked(e: string) {
    e != [] && e[|e| - 1] != '\U{2713}'
  }

  lemma {:induction false} DeprecatedUnmarked(lines: seq<string>, roles: seq<Role>)
    requires |lines| == |roles|
    ensures forall i :: 0 <= i < |DeprecatedIn(lines, roles)| ==> DeprecatedIn(lines, roles)[i] == Deprecated
  {
    if lines != [] {
      var n := |lines| - 1;
      DeprecatedUnmarked(lines[..n], roles[..n]);
    }
  }

  lemma ErrorsUnmarked(frame: string)
    ensures forall i :: 0 <= i < |FrameErrors(frame)| ==> Unmarked(FrameErrors(frame)[i])
  {
    var lines := Split(frame, '\n');
    DeprecatedUnmarked(lines, Roles(lines));
    assert Unmarked(Deprecated) && Unmarked(MissingText) && Unmarked(MissingSelectedFile);
    var n := |Parser.CodeOf(lines)|;
    if n > MaxCodeLines {
      assert OverMessage(n)[|OverMessage(n)| - 1] == ')';
    }
  }

  /** A join ends as its last piece does. */
  lemma {:induction false} JoinWithLast(es: seq<string>, sep: string)
    requires |es| >= 1 && es[|es| - 1] != []
    ensures var j := JoinWith(es, sep); j != [] && j[|j| - 1] == es[|es| - 1][|es[|es| - 1]| - 1]
  {
    if |es| > 1 {
      JoinWithLast(es[1..], sep);
    }
  }

  lemma ReportPassing(number: nat, errors: seq<string>)
    requires forall i :: 0 <= i < |errors| ==> Unmarked(errors[i])
    ensures Passing(ReportLine(number, errors)) <==> errors == []
  {
    if errors != [] {
      JoinWithLast(errors, ", ");
    }
  }

  /** A frame's report line passes exactly when the frame has no error. */
  lemma ReportsPassing(frames: seq<string>)
    ensures forall i :: 0 <= i < |frames| ==>
      (Passing(FrameReports(frames)[i]) <==> FrameErrors(frames[i]) == [])
  {
    forall i | 0 <= i < |frames|
      ensures Passing(FrameReports(frames)[i]) <==> FrameErrors(frames[i]) == []
    {
      ErrorsUnmarked(frames[i]);
      ReportPassing(i + 1, FrameErrors(frames[i]));
    }
  }

  /** The script fails exactly when a line it prints does not report
      success. */
  lemma FailsIffReported(src: string)
    ensures Fails(src) <==> exists k :: 0 <= k < |Output(src)| && !Passing(Output(src)[k])
  {
    var head: seq<string> := if EndsWithRule(src) then [] else [EndMissing];
    var reports := FrameReports(Pieces(src));
    ReportsPassing(Pieces(src));
    assert !Passing(EndMissing);
    assert Output(src) == head + reports;
    assert Fails(src) <==> head != [] || AnyErrors(Pieces(src));
    HeadAndReports(head, reports, Pieces(src), FrameErrors);
  }

  lemma HeadAndReports(head: seq<string>, reports: seq<string>, frames: seq<string>, check: string -> seq<string>)
    requires |reports| == |frames|
    requires forall i :: 0 <= i < |frames| ==> (Passing(reports[i]) <==> check(frames[i]) == [])
    requires forall k :: 0 <= k < |head| ==> !Passing(head[k])
    ensures (head != [] || exists j :: 0 <= j < |frames| && check(frames[j]) != []) <==>
      exists k :: 0 <= k < |head + reports| && !Passing((head + reports)[k])
  {
    var out := head + reports;
    if head != [] {
      assert !Passing(out[0]);
    }
    if exists j :: 0 <= j < |frames| && check(frames[j]) != [] {
      var i :| 0 <= i < |frames| && check(frames[i]) != [];
      assert !Passing(out[|head| + i]);
    }
    if exists k :: 0 <= k < |out| && !Passing(out[k]) {
      var k :| 0 <= k < |out| && !Passing(out[k]);
      if k >= |head| {
        assert out[k] == reports[k - |head|];
      }
    }
  }

  /** The closing-line check: some line is exactly `---` and every line
      after it is blank. */
  lemma EndsWithRuleIff(src: string)
    ensures EndsWithRule(src) <==> RuleThenBlankLines(Split(src, '\n'))
  {
    RuleThenBlank(Split(src, '\n'));
  }

  /** Some line is `---` and only blank lines follow it. */
  predicate RuleThenBlankLines(lines: seq<string>) {
    exists k :: 0 <= k < |lines| && lines[k] == "---" && BlankAfter(lines, k)
  }

  /** The last line with more than whitespace is `---` exactly when some
      line is `---` and only blank lines follow it. */
  lemma RuleThenBlank(lines: seq<string>)
    ensures LastIsRule(Document.NonBlank(lines)) <==> RuleThenBlankLines(lines)
  {
    if LastIsRule(Document.NonBlank(lines)) {
      var k := LastFilled(lines);
      assert lines[k] == "---";
    }
    if RuleThenBlankLines(lines) {
      var k :| 0 <= k < |lines| && lines[k] == "---" && BlankAfter(lines, k);
      ThreeDashes();
      FilledEndsAt(lines, k);
    }
  }

  /** Every line after line `k` is blank. */
  predicate BlankAfter(lines: seq<string>, k: nat) {
    forall j :: k < j < |lines| ==> Trim(lines[j]) == []
  }

  /** The last line with more than whitespace, and where it stands. */
  lemma {:induction false} LastFilled(lines: seq<string>) returns (k: nat)
    requires Document.NonBlank(lines) != []
    ensures k < |lines| && BlankAfter(lines, k)
    ensures lines[k] == Document.NonBlank(lines)[|Document.NonBlank(lines)| - 1]
  {
    var n := |lines| - 1;
    if Trim(lines[n]) != [] {
      k := n;
    } else {
      assert Document.NonBlank(lines) == Document.NonBlank(lines[..n]);
      k := LastFilled(lines[..n]);
      assert lines[k] == lines[..n][k];
      forall j | k < j < |lines| ensures Trim(lines[j]) == [] {
        if j < n { assert lines[j] == lines[..n][j]; }
      }
    }
  }

  /** A line with more than whitespace followed by blank lines only is the
      last one kept. */
  lemma {:induction false} FilledEndsAt(lines: seq<string>, k: nat)
    requires k < |lines| && Trim(lines[k]) != [] && BlankAfter(lines, k)
    ensures Document.NonBlank(lines) != []
    ensures Document.NonBlank(lines)[|Document.NonBlank(lines)| - 1] == lines[k]
    decreases |lines|
  {
    var n := |lines| - 1;
    if k < n {
      assert Trim(lines[n]) == [];
      assert Document.NonBlank(lines) == Document.NonBlank(lines[..n]);
      assert lines[..n][k] == lines[k];
      assert BlankAfter(lines[..n], k) by {
        forall j | k < j < n ensures Trim(lines[..n][j]) == [] { assert lines[..n][j] == lines[j]; }
      }
      FilledEndsAt(lines[..n], k);
    }
  }

  lemma ThreeDashes()
    ensures Trim("---") == "---"
  {
    assert TrimStart("---") == "---";
    assert TrimEnd("---") == "---";
  }

  /** An empty document fails: it has no closing `---` line. */
  lemma EmptyFails()
    ensures Fails("") && Output("")[0] == EndMissing
  {
    assert Split("", '\n') == [""];
    assert Trim("") == [];
    assert Document.NonBlank([""]) == [];
  }
}
