/** `sanitizeFile` of sanitize-frames.js: the line-by-line pass over a frames
    document that rewrites every `text:` block, however many lines it
    spans, into one sanitized `text:` line and copies everything else,
    code blocks included, unchanged. */
module FileSanitizer {
  import opened Strings
  import opened Results
  import Fences
  import opened Rules
  import opened Sanitizer

  /** What the pass does with a `text:` value. `sanitizeFile` uses
      `Sanitize`; the properties of the pass hold for any of them. */
  type Speaker = string -> Replaced

  /** The three states of the pass: scanning, collecting the lines of a
      `text:` value, and copying a code block up to its closing
      delimiter. */
  datatype Mode = Normal | InText(buf: seq<string>) | InCode(fence: string)

  /** Lines written out and substitutions counted. */
  datatype Emitted = Emitted(lines: seq<string>, substitutions: nat)

  function Plus(a: Emitted, b: Emitted): Emitted {
    Emitted(a.lines + b.lines, a.substitutions + b.substitutions)
  }

  const Nothing := Emitted([], 0)

  lemma PlusAssoc(a: Emitted, b: Emitted, c: Emitted)
    ensures Plus(Plus(a, b), c) == Plus(a, Plus(b, c))
  {
    assert (a.lines + b.lines) + c.lines == a.lines + (b.lines + c.lines);
  }

  lemma PlusNothing(a: Emitted)
    ensures Plus(Nothing, a) == a && Plus(a, Nothing) == a
  {
    assert [] + a.lines == a.lines && a.lines + [] == a.lines;
  }

  /** `flushText`: the collected lines joined with line breaks, sanitized,
      and written as one `text: ` line. */
  function Flush(speak: Speaker, buf: seq<string>): (e: Emitted)
    ensures |e.lines| == 1 && StartsWith(e.lines[0], "text: ")
  {
    var r := speak(Join(buf, '\n'));
    Emitted(["text: " + r.text], r.count)
  }

  // ── The line tests ─────────────────────────────────────────────────────────

  /** The value of a `text:` line, what follows the key, possibly empty. */
  function TextValue(line: string): (v: Option<string>)
    ensures v.Some? <==> StartsWith(line, "text:")
    ensures v.Some? ==> line == "text:" + v.value
  {
    if StartsWith(line, "text:") then Some(line[5..]) else None
  }

  /** `^\w+:`: a line that starts like a metadata key. */
  predicate IsKeyLine(line: string) {
    var w := Fences.LeadingWord(line);
    w != [] && |w| < |line| && line[|w|] == ':'
  }

  /** A line that ends a `text:` block: a fence, a key, a separator or a
      blank line. */
  predicate EndsText(line: string) {
    Fences.FencePrefix(line).Some? || IsKeyLine(line) || TrimEnd(line) == "---" || Trim(line) == []
  }

  /** The tests the pass puts to a line outside code: the value of a
      `text:` line, the delimiter of a fence, and whether the line ends a
      `text:` block. */
  datatype LineTests = LineTests(
    textValue: string -> Option<string>,
    fence: string -> Option<string>,
    endsText: string -> bool)

  /** The tests of `sanitizeFile`. */
  const Source := LineTests(TextValue, Fences.FencePrefix, EndsText)

  // ── The pass, as a function of the lines ──────────────────────────────────

  /** What one line writes and the state after it. */
  datatype Out = Out(emitted: Emitted, next: Mode)

  /** A line handled in the normal state: a `text:` line opens a block and
      writes nothing yet; any other line is written, and a fence opens a
      code block. */
  function NormalStep(t: LineTests, line: string): Out {
    match t.textValue(line)
    case Some(v) => Out(Nothing, InText([v]))
    case None =>
      match t.fence(line)
      case Some(d) => Out(Emitted([line], 0), InCode(d))
      case None => Out(Emitted([line], 0), Normal)
  }

  /** One line of the pass. In a code block only a line whose `trimEnd()` is
      the delimiter closes it; a line that ends a `text:` block flushes it
      and is then handled in the normal state. */
  function Step(speak: Speaker, t: LineTests, mode: Mode, line: string): Out {
    match mode
    case InCode(fence) => Out(Emitted([line], 0), if TrimEnd(line) == fence then Normal else mode)
    case InText(buf) =>
      if t.endsText(line) then
        var o := NormalStep(t, line);
        Out(Plus(Flush(speak, buf), o.emitted), o.next)
      else Out(Nothing, InText(buf + [line]))
    case Normal => NormalStep(t, line)
  }

  /** The rest of the pass over `lines` from state `mode`, including the
      flush of a `text:` block still open at the end. */
  function Run(speak: Speaker, t: LineTests, mode: Mode, lines: seq<string>): Emitted
    decreases |lines|
  {
    if lines == [] then (if mode.InText? then Flush(speak, mode.buf) else Nothing)
    else
      var o := Step(speak, t, mode, lines[0]);
      Plus(o.emitted, Run(speak, t, o.next, lines[1..]))
  }

  /** The result text and the substitution count of the pass over `src`,
      split at line breaks. */
  function PassResult(speak: Speaker, src: string): (string, nat) {
    var e := Run(speak, Source, Normal, Split(src, '\n'));
    (Join(e.lines, '\n'), e.substitutions)
  }

  /** `sanitizeFile(src)`. */
  function SanitizedFile(src: string): (string, nat) {
    PassResult(Sanitize, src)
  }

  // ── One line at a time ─────────────────────────────────────────────────────

  lemma CodeLine(speak: Speaker, t: LineTests, acc: Emitted, fence: string, lines: seq<string>)
    requires lines != []
    ensures Plus(acc, Run(speak, t, InCode(fence), lines)) == Plus(Emitted(acc.lines + [lines[0]], acc.substitutions),
      Run(speak, t, if TrimEnd(lines[0]) == fence then Normal else InCode(fence), lines[1..]))
  {
    PlusAssoc(acc, Emitted([lines[0]], 0), Run(speak, t, if TrimEnd(lines[0]) == fence then Normal else InCode(fence), lines[1..]));
  }

  /** A line that ends a `text:` block flushes it and is handled in the
      normal state; so does the end of the document. */
  lemma TextEnded(speak: Speaker, t: LineTests, buf: seq<string>, lines: seq<string>)
    requires lines == [] || t.endsText(lines[0])
    ensures Run(speak, t, InText(buf), lines) == Plus(Flush(speak, buf), Run(speak, t, Normal, lines))
  {
    if lines == [] {
      PlusNothing(Flush(speak, buf));
    } else {
      var o := NormalStep(t, lines[0]);
      assert Step(speak, t, InText(buf), lines[0]) == Out(Plus(Flush(speak, buf), o.emitted), o.next);
      PlusAssoc(Flush(speak, buf), o.emitted, Run(speak, t, o.next, lines[1..]));
    }
  }

  lemma TextEndLine(speak: Speaker, t: LineTests, acc: Emitted, buf: seq<string>, lines: seq<string>)
    requires lines != [] && t.endsText(lines[0])
    ensures Plus(acc, Run(speak, t, InText(buf), lines)) == Plus(Plus(acc, Flush(speak, buf)), Run(speak, t, Normal, lines))
  {
    TextEnded(speak, t, buf, lines);
    PlusAssoc(acc, Flush(speak, buf), Run(speak, t, Normal, lines));
  }

  /** A line that does not end a `text:` block is collected. */
  lemma TextLine(speak: Speaker, t: LineTests, buf: seq<string>, lines: seq<string>)
    requires lines != [] && !t.endsText(lines[0])
    ensures Run(speak, t, InText(buf), lines) == Run(speak, t, InText(buf + [lines[0]]), lines[1..])
  {
    assert Step(speak, t, InText(buf), lines[0]) == Out(Nothing, InText(buf + [lines[0]]));
    PlusNothing(Run(speak, t, InText(buf + [lines[0]]), lines[1..]));
  }

  /** In the normal state a `text:` line opens a block. */
  lemma TextOpenLine(speak: Speaker, t: LineTests, lines: seq<string>)
    requires lines != [] && t.textValue(lines[0]).Some?
    ensures Run(speak, t, Normal, lines) == Run(speak, t, InText([t.textValue(lines[0]).value]), lines[1..])
  {
    PlusNothing(Run(speak, t, InText([t.textValue(lines[0]).value]), lines[1..]));
  }

  /** In the normal state any other line is written. */
  lemma NormalLine(speak: Speaker, t: LineTests, acc: Emitted, lines: seq<string>)
    requires lines != [] && t.textValue(lines[0]).None?
    ensures Plus(acc, Run(speak, t, Normal, lines)) == Plus(Emitted(acc.lines + [lines[0]], acc.substitutions),
      Run(speak, t, if t.fence(lines[0]).Some? then InCode(t.fence(lines[0]).value) else Normal, lines[1..]))
  {
    PlusAssoc(acc, Emitted([lines[0]], 0),
      Run(speak, t, if t.fence(lines[0]).Some? then InCode(t.fence(lines[0]).value) else Normal, lines[1..]));
  }

  // ── The pass, as the state machine of the source ───────────────────────────

  /** The `state` variable of `sanitizeFile`. */
  datatype Phase = NormalPhase | TextPhase | CodePhase

  /** The phase together with `textBuf` and `codeFence`. */
  function ModeOf(phase: Phase, textBuf: seq<string>, codeFence: string): Mode {
    match phase
    case NormalPhase => Normal
    case TextPhase => InText(textBuf)
    case CodePhase => InCode(codeFence)
  }

  /** One iteration of the loop of `sanitizeFile` over `lines[0]`, with
      `flushText` inlined; a `continue` of the source is a `return` here.
      What has been written plus what the rest of the pass writes is the
      same before and after. */
  method Feed(speak: Speaker, lines: seq<string>,
              out: seq<string>, total: nat, state: Phase, textBuf: seq<string>, codeFence: string)
    returns (out': seq<string>, total': nat, state': Phase, textBuf': seq<string>, codeFence': string)
    requires lines != []
    ensures Plus(Emitted(out, total), Run(speak, Source, ModeOf(state, textBuf, codeFence), lines))
      == Plus(Emitted(out', total'), Run(speak, Source, ModeOf(state', textBuf', codeFence'), lines[1..]))
  {
    var line := lines[0];
    out', total', state', textBuf', codeFence' := out, total, state, textBuf, codeFence;
    if state' == CodePhase {
      CodeLine(speak, Source, Emitted(out', total'), codeFence', lines);
      out' := out' + [line];
      if TrimEnd(line) == codeFence' {
        state' := NormalPhase;
      }
      return;
    }
    if state' == TextPhase {
      if EndsText(line) {
        TextEndLine(speak, Source, Emitted(out', total'), textBuf', lines);
        var r := speak(Join(textBuf', '\n'));
        out' := out' + ["text: " + r.text];
        total' := total' + r.count;
        textBuf' := [];
        state' := NormalPhase;
      } else {
        TextLine(speak, Source, textBuf', lines);
        textBuf' := textBuf' + [line];
        return;
      }
    }
    if StartsWith(line, "text:") {
      TextOpenLine(speak, Source, lines);
      textBuf' := [line[5..]];
      state' := TextPhase;
      return;
    }
    NormalLine(speak, Source, Emitted(out', total'), lines);
    var fenceMatch := Fences.FencePrefix(line);
    if fenceMatch.Some? {
      codeFence' := fenceMatch.value;
      state' := CodePhase;
    }
    out' := out' + [line];
  }

  /** The pass of `sanitizeFile` with the `text:` values handed to
      `speak`. */
  method Pass(speak: Speaker, src: string) returns (result: string, substitutions: nat)
    ensures (result, substitutions) == PassResult(speak, src)
  {
    var lines := Split(src, '\n');
    var out: seq<string> := [];
    var state := NormalPhase;
    var textBuf: seq<string> := [];
    var codeFence := "";
    var total: nat := 0;
    for k := 0 to |lines|
      invariant Run(speak, Source, Normal, lines) ==
        Plus(Emitted(out, total), Run(speak, Source, ModeOf(state, textBuf, codeFence), lines[k..]))
    {
      assert lines[k..][1..] == lines[k + 1..];
      out, total, state, textBuf, codeFence := Feed(speak, lines[k..], out, total, state, textBuf, codeFence);
    }
    assert lines[|lines|..] == [];
    if state == TextPhase {
      var r := speak(Join(textBuf, '\n'));
      out := out + ["text: " + r.text];
      total := total + r.count;
    } else {
      PlusNothing(Emitted(out, total));
    }
    result := Join(out, '\n');
    substitutions := total;
  }

  /** `sanitizeFile`. */
  method SanitizeFile(src: string) returns (result: string, substitutions: nat)
    ensures (result, substitutions) == SanitizedFile(src)
  {
    result, substitutions := Pass(Sanitize, src);
  }

  // ── Properties of the pass ────────────────────────────────────────────────

  /** From the normal or a code state, lines none of which is a `text:`
      line are copied one for one and count no substitution. */
  lemma {:induction false} RunWithoutText(speak: Speaker, t: LineTests, mode: Mode, lines: seq<string>)
    requires !mode.InText?
    requires forall k :: 0 <= k < |lines| ==> t.textValue(lines[k]).None?
    ensures Run(speak, t, mode, lines) == Emitted(lines, 0)
    decreases |lines|
  {
    if lines != [] {
      var o := Step(speak, t, mode, lines[0]);
      RunWithoutText(speak, t, o.next, lines[1..]);
      assert lines == [lines[0]] + lines[1..];
    }
  }

  /** A document without a `text:` line comes back unchanged, with no
      substitution. */
  lemma NoTextUnchanged(src: string)
    requires forall k :: 0 <= k < |Split(src, '\n')| ==> !StartsWith(Split(src, '\n')[k], "text:")
    ensures SanitizedFile(src) == (src, 0)
  {
    RunWithoutText(Sanitize, Source, Normal, Split(src, '\n'));
    JoinSplit(src, '\n');
  }

  /** Inside a code block every line is copied verbatim, `text:` lines
      included, up to and including the first line whose `trimEnd()` is
      the delimiter. */
  lemma {:induction false} CodeCopied(speak: Speaker, t: LineTests, fence: string,
                                      body: seq<string>, closer: string, rest: seq<string>)
    requires forall k :: 0 <= k < |body| ==> TrimEnd(body[k]) != fence
    requires TrimEnd(closer) == fence
    ensures Run(speak, t, InCode(fence), body + [closer] + rest)
      == Plus(Emitted(body + [closer], 0), Run(speak, t, Normal, rest))
    decreases |body|
  {
    var lines := body + [closer] + rest;
    CodeLine(speak, t, Nothing, fence, lines);
    PlusNothing(Run(speak, t, InCode(fence), lines));
    if body == [] {
      assert lines[0] == closer && lines[1..] == rest;
    } else {
      assert lines[0] == body[0] && lines[1..] == body[1..] + [closer] + rest;
      CodeCopied(speak, t, fence, body[1..], closer, rest);
      PlusAssoc(Emitted([body[0]], 0), Emitted(body[1..] + [closer], 0), Run(speak, t, Normal, rest));
      assert [body[0]] + (body[1..] + [closer]) == body + [closer];
    }
  }

  /** In the normal state a line that starts with a fence opens a code
      block that is copied verbatim, the opener and the closing line
      included. Any line that starts with three backticks or tildes opens
      one, whatever follows them. */
  lemma FenceCopied(speak: Speaker, opener: string, body: seq<string>, closer: string, rest: seq<string>)
    requires Fences.FencePrefix(opener).Some?
    requires forall k :: 0 <= k < |body| ==> TrimEnd(body[k]) != Fences.FencePrefix(opener).value
    requires TrimEnd(closer) == Fences.FencePrefix(opener).value
    ensures Run(speak, Source, Normal, [opener] + body + [closer] + rest)
      == Plus(Emitted([opener] + body + [closer], 0), Run(speak, Source, Normal, rest))
  {
    var d := Fences.FencePrefix(opener).value;
    var lines := [opener] + body + [closer] + rest;
    Fences.FencePrefixShape(opener);
    assert !StartsWith(opener, "text:") by { assert opener[0] == '`' || opener[0] == '~'; }
    assert lines[0] == opener && lines[1..] == body + [closer] + rest;
    NormalLine(speak, Source, Nothing, lines);
    PlusNothing(Run(speak, Source, Normal, lines));
    CodeCopied(speak, Source, d, body, closer, rest);
    PlusAssoc(Emitted([opener], 0), Emitted(body + [closer], 0), Run(speak, Source, Normal, rest));
    assert [opener] + (body + [closer]) == [opener] + body + [closer];
  }

  /** Lines that do not end a `text:` block are collected; the block is
      flushed at the first line that ends it or at the end of the
      document. */
  lemma {:induction false} TextCollected(speak: Speaker, t: LineTests, buf: seq<string>,
                                         cont: seq<string>, rest: seq<string>)
    requires forall k :: 0 <= k < |cont| ==> !t.endsText(cont[k])
    requires rest == [] || t.endsText(rest[0])
    ensures Run(speak, t, InText(buf), cont + rest) == Plus(Flush(speak, buf + cont), Run(speak, t, Normal, rest))
    decreases |cont|
  {
    if cont == [] {
      assert cont + rest == rest && buf + cont == buf;
      TextEnded(speak, t, buf, rest);
    } else {
      var lines := cont + rest;
      assert lines[0] == cont[0] && lines[1..] == cont[1..] + rest;
      TextLine(speak, t, buf, lines);
      TextCollected(speak, t, buf + [cont[0]], cont[1..], rest);
      assert buf + [cont[0]] + cont[1..] == buf + cont;
    }
  }

  /** A `text:` block, from its `text:` line up to the first line that ends
      it or the end of the document, becomes the one line
      `"text: " + Sanitize(...)` of its lines joined with line breaks, the
      value of the first line first; its matches are counted; the line that
      ends it is then handled in the normal state. */
  lemma TextBlockFolded(first: string, cont: seq<string>, rest: seq<string>)
    requires StartsWith(first, "text:")
    requires forall k :: 0 <= k < |cont| ==> !EndsText(cont[k])
    requires rest == [] || EndsText(rest[0])
    ensures Run(Sanitize, Source, Normal, [first] + cont + rest) ==
      Plus(Emitted(["text: " + Sanitize(Join([first[5..]] + cont, '\n')).text],
                   Sanitize(Join([first[5..]] + cont, '\n')).count),
           Run(Sanitize, Source, Normal, rest))
  {
    var lines := [first] + cont + rest;
    ConsParts(first, cont, rest);
    TextOpenLine(Sanitize, Source, lines);
    TextCollected(Sanitize, Source, [first[5..]], cont, rest);
  }

  lemma ConsParts<T>(x: T, a: seq<T>, b: seq<T>)
    ensures ([x] + a + b)[0] == x && ([x] + a + b)[1..] == a + b
  {
  }

  /** In the normal state a line that is neither a `text:` line nor a fence
      is copied. */
  lemma PlainLineKept(speak: Speaker, line: string, rest: seq<string>)
    requires !StartsWith(line, "text:") && Fences.FencePrefix(line).None?
    ensures Run(speak, Source, Normal, [line] + rest) == Plus(Emitted([line], 0), Run(speak, Source, Normal, rest))
  {
    assert ([line] + rest)[0] == line && ([line] + rest)[1..] == rest;
    NormalLine(speak, Source, Nothing, [line] + rest);
    PlusNothing(Run(speak, Source, Normal, [line] + rest));
  }

  /** A sanitizer whose output never holds a line break. */
  ghost predicate OneLine(speak: Speaker) {
    forall x :: '\n' !in speak(x).text
  }

  /** A character outside both halves is outside their concatenation. */
  lemma NotInConcat(a: string, b: string, c: char)
    requires c !in a && c !in b
    ensures c !in a + b
  {
    forall k | 0 <= k < |a + b| ensures (a + b)[k] != c {
      if k < |a| { assert (a + b)[k] == a[k]; } else { assert (a + b)[k] == b[k - |a|]; }
    }
  }

  lemma FlushOneLine(speak: Speaker, buf: seq<string>)
    requires OneLine(speak)
    ensures '\n' !in Flush(speak, buf).lines[0]
  {
    NotInConcat("text: ", speak(Join(buf, '\n')).text, '\n');
  }

  /** The pass writes at most one line per line read (a `text:` block still
      being collected has one line owed), at least one when there is
      anything to write, and no line break inside a line. */
  lemma {:induction false} RunShape(speak: Speaker, t: LineTests, mode: Mode, lines: seq<string>)
    requires OneLine(speak)
    requires forall k :: 0 <= k < |lines| ==> '\n' !in lines[k]
    ensures |Run(speak, t, mode, lines).lines| <= |lines| + (if mode.InText? then 1 else 0)
    ensures lines != [] || mode.InText? ==> |Run(speak, t, mode, lines).lines| >= 1
    ensures forall k :: 0 <= k < |Run(speak, t, mode, lines).lines| ==> '\n' !in Run(speak, t, mode, lines).lines[k]
    decreases |lines|
  {
    if lines == [] {
      if mode.InText? { FlushOneLine(speak, mode.buf); }
    } else {
      var o := Step(speak, t, mode, lines[0]);
      RunShape(speak, t, o.next, lines[1..]);
      if mode.InText? { FlushOneLine(speak, mode.buf); }
      var all := Run(speak, t, mode, lines).lines;
      assert all == o.emitted.lines + Run(speak, t, o.next, lines[1..]).lines;
      forall k | 0 <= k < |all| ensures '\n' !in all[k] {
        if k >= |o.emitted.lines| {
          assert all[k] == Run(speak, t, o.next, lines[1..]).lines[k - |o.emitted.lines|];
        }
      }
    }
  }

  /** Every line of `out` is a line of `lines` or a `text: ` line. */
  predicate CopiedOrFlushed(out: seq<string>, lines: seq<string>) {
    forall k :: 0 <= k < |out| ==> out[k] in lines || StartsWith(out[k], "text: ")
  }

  /** The pass invents nothing: every line it writes is a line of the
      input, copied unchanged, or a `text: ` line written by `flushText`. */
  lemma {:induction false} CopiedOrFolded(speak: Speaker, t: LineTests, mode: Mode, lines: seq<string>)
    ensures CopiedOrFlushed(Run(speak, t, mode, lines).lines, lines)
    decreases |lines|
  {
    if lines != [] {
      var o := Step(speak, t, mode, lines[0]);
      CopiedOrFolded(speak, t, o.next, lines[1..]);
      StepCopiedOrFlushed(speak, t, mode, lines[0]);
      var rest := Run(speak, t, o.next, lines[1..]).lines;
      var all := Run(speak, t, mode, lines).lines;
      assert all == o.emitted.lines + rest;
      forall k | 0 <= k < |all| ensures all[k] in lines || StartsWith(all[k], "text: ") {
        if k < |o.emitted.lines| {
          assert all[k] == o.emitted.lines[k];
        } else {
          assert all[k] == rest[k - |o.emitted.lines|];
          if all[k] in lines[1..] {
            var m :| 0 <= m < |lines[1..]| && lines[1..][m] == all[k];
            assert lines[m + 1] == all[k];
          }
        }
      }
    }
  }

  /** One line writes itself, a flushed `text: ` line, or both. */
  lemma StepCopiedOrFlushed(speak: Speaker, t: LineTests, mode: Mode, line: string)
    ensures CopiedOrFlushed(Step(speak, t, mode, line).emitted.lines, [line])
  {
    if mode.InText? && t.endsText(line) {
      var f := Flush(speak, mode.buf);
      var e := NormalStep(t, line).emitted.lines;
      assert Step(speak, t, mode, line).emitted.lines == f.lines + e;
      assert forall k :: 0 <= k < |e| ==> e[k] == line;
    }
  }

  /** `sanitizeText` never returns a line break. */
  lemma SanitizeOneLine()
    ensures OneLine(Sanitize)
  {
    forall x ensures '\n' !in Sanitize(x).text { SanitizedShape(x); }
  }

  /** `sanitizeFile` never returns more lines than it was given. */
  lemma FileLineBound(src: string)
    ensures |Split(SanitizedFile(src).0, '\n')| <= |Split(src, '\n')|
  {
    var lines := Split(src, '\n');
    SanitizeOneLine();
    RunShape(Sanitize, Source, Normal, lines);
    SplitJoin(Run(Sanitize, Source, Normal, lines).lines, '\n');
  }
}
