/** The main loop of parse-frames.js: the document split at lines that are
    exactly `---`, blank pieces skipped, every other piece parsed as the next
    frame with the files the frames before it selected. */
module Document {
  import opened Strings
  import opened Results
  import opened Order
  import opened Tree
  import opened Parser

  // ── `src.split(/^---$/m)` ──────────────────────────────────────────────────

  /** `/^---$/m` matches at `i`: three dashes that start a line and end it. */
  predicate SepAt(s: string, i: nat) {
    OccursAt(s, i, "---")
    && (i == 0 || IsLineTerminator(s[i - 1]))
    && (i + 3 == |s| || IsLineTerminator(s[i + 3]))
  }

  /** The leftmost match at or after `q`. */
  function NextSep(s: string, q: nat): (r: Option<nat>)
    requires q <= |s|
    ensures r.Some? ==> q <= r.value && r.value + 3 <= |s| && SepAt(s, r.value)
    decreases |s| - q
  {
    if q == |s| then None
    else if SepAt(s, q) then Some(q)
    else NextSep(s, q + 1)
  }

  /** No match is skipped: nothing between `q` and the match found, and none
      at all after `q` when none is found. */
  lemma {:induction false} NextSepFirst(s: string, q: nat)
    requires q <= |s|
    ensures var r := NextSep(s, q);
      forall i :: q <= i <= |s| && (r.None? || i < r.value) ==> !SepAt(s, i)
    decreases |s| - q
  {
    if q < |s| && !SepAt(s, q) {
      NextSepFirst(s, q + 1);
    }
  }

  /** The split from position `p`: the text up to each match, the matches
      dropped, scanning on after each match. */
  function SplitFrom(s: string, p: nat): (parts: seq<string>)
    requires p <= |s|
    ensures |parts| >= 1
    decreases |s| - p
  {
    match NextSep(s, p)
    case None => [s[p..]]
    case Some(i) => [s[p..i]] + SplitFrom(s, i + 3)
  }

  function SplitFrames(src: string): seq<string> {
    SplitFrom(src, 0)
  }

  /** Putting the separators back gives the document back. */
  lemma {:induction false} SplitFromJoin(s: string, p: nat)
    requires p <= |s|
    ensures JoinWith(SplitFrom(s, p), "---") == s[p..]
    decreases |s| - p
  {
    match NextSep(s, p)
    case None =>
    case Some(i) =>
      var rest := SplitFrom(s, i + 3);
      SplitFromJoin(s, i + 3);
      assert SplitFrom(s, p) == [s[p..i]] + rest;
      assert ([s[p..i]] + rest)[1..] == rest;
      assert s[i..i + 3] == "---";
      assert s[p..] == s[p..i] + "---" + s[i + 3..];
  }

  lemma SplitFramesJoin(src: string)
    ensures JoinWith(SplitFrames(src), "---") == src
  {
    SplitFromJoin(src, 0);
  }

  /** A document without a `---` line is one piece. */
  lemma SplitWithoutSeparator(src: string)
    requires forall i :: 0 <= i <= |src| ==> !SepAt(src, i)
    ensures SplitFrames(src) == [src]
  {
    NextSepAbsent(src, 0);
  }

  lemma {:induction false} NextSepAbsent(s: string, q: nat)
    requires q <= |s|
    requires forall i :: q <= i <= |s| ==> !SepAt(s, i)
    ensures NextSep(s, q) == None
    decreases |s| - q
  {
    if q < |s| {
      NextSepAbsent(s, q + 1);
    }
  }

  // ── The frame loop ─────────────────────────────────────────────────────────

  /** The frames of the pieces and the files they select, or the first
      error; a blank piece is skipped. */
  function FramesOf(blocks: seq<string>): Result<(seq<Frame>, seq<string>), ParseError> {
    if blocks == [] then Ok(([], []))
    else
      var n := |blocks| - 1;
      match FramesOf(blocks[..n])
      case Err(e) => Err(e)
      case Ok((frames, seen)) =>
        if Trim(blocks[n]) == [] then Ok((frames, seen))
        else
          match ParseFrameOf(blocks[n], |frames|, seen)
          case Err(e) => Err(e)
          case Ok((frame, selected)) => Ok((frames + [frame], selected))
  }

  /** What the script prints, or why it stops. */
  function DocumentOf(src: string): Result<seq<Frame>, ParseError> {
    match FramesOf(SplitFrames(src))
    case Err(e) => Err(e)
    case Ok((frames, _)) => if frames == [] then Err(NoFrames) else Ok(frames)
  }

  /** An error stops the loop: later pieces change nothing. */
  lemma {:induction false} ErrorStops(blocks: seq<string>, k: nat)
    requires k <= |blocks| && FramesOf(blocks[..k]).Err?
    ensures FramesOf(blocks) == FramesOf(blocks[..k])
    decreases |blocks| - k
  {
    if k < |blocks| {
      assert blocks[..k + 1][..k] == blocks[..k];
      ErrorStops(blocks, k + 1);
    } else {
      assert blocks[..k] == blocks;
    }
  }

  /** One more piece: skipped when blank, otherwise parsed with the frames
      so far. */
  lemma FramesStep(blocks: seq<string>, k: nat, frames: seq<Frame>, seen: seq<string>)
    requires k < |blocks| && FramesOf(blocks[..k]) == Ok((frames, seen))
    ensures Trim(blocks[k]) == [] ==> FramesOf(blocks[..k + 1]) == Ok((frames, seen))
    ensures Trim(blocks[k]) != [] && ParseFrameOf(blocks[k], |frames|, seen).Err? ==>
      FramesOf(blocks[..k + 1]).Err? && FramesOf(blocks[..k + 1]).error == ParseFrameOf(blocks[k], |frames|, seen).error
    ensures Trim(blocks[k]) != [] && ParseFrameOf(blocks[k], |frames|, seen).Ok? ==>
      FramesOf(blocks[..k + 1])
        == Ok((frames + [ParseFrameOf(blocks[k], |frames|, seen).value.0], ParseFrameOf(blocks[k], |frames|, seen).value.1))
  {
    assert blocks[..k + 1][..k] == blocks[..k];
  }

  /** The main loop of parse-frames.js. */
  method ParseDocument(src: string) returns (r: Result<seq<Frame>, ParseError>)
    ensures r == DocumentOf(src)
  {
    var rawFrames := SplitFrames(src);
    var seenFiles: seq<string> := [];
    var frames: seq<Frame> := [];
    for i := 0 to |rawFrames|
      invariant FramesOf(rawFrames[..i]) == Ok((frames, seenFiles))
    {
      FramesStep(rawFrames, i, frames, seenFiles);
      if Trim(rawFrames[i]) != [] {
        var parsed := ParseFrame(rawFrames[i], |frames|, seenFiles);
        if parsed.Err? {
          ErrorStops(rawFrames, i + 1);
          return Err(parsed.error);
        }
        frames := frames + [parsed.value.0];
        seenFiles := parsed.value.1;
      }
    }
    assert rawFrames[..|rawFrames|] == rawFrames;
    if |frames| == 0 {
      return Err(NoFrames);
    }
    return Ok(frames);
  }

  // ── What the loop promises ─────────────────────────────────────────────────

  /** The pieces that are not blank. */
  function NonBlank(blocks: seq<string>): (r: seq<string>)
    ensures |r| <= |blocks|
  {
    if blocks == [] then []
    else
      var n := |blocks| - 1;
      NonBlank(blocks[..n]) + (if Trim(blocks[n]) == [] then [] else [blocks[n]])
  }

  lemma {:induction false} NonBlankNone(blocks: seq<string>)
    ensures NonBlank(blocks) == [] <==> forall i :: 0 <= i < |blocks| ==> Trim(blocks[i]) == []
  {
    if blocks != [] {
      var n := |blocks| - 1;
      NonBlankNone(blocks[..n]);
      assert forall i :: 0 <= i < n ==> blocks[..n][i] == blocks[i];
    }
  }

  /** Blank pieces do not count: the loop gives what it gives on the other
      pieces alone. */
  lemma {:induction false} SkipsBlank(blocks: seq<string>)
    ensures FramesOf(blocks) == FramesOf(NonBlank(blocks))
  {
    if blocks != [] {
      var n := |blocks| - 1;
      SkipsBlank(blocks[..n]);
      var rest := NonBlank(blocks[..n]);
      if Trim(blocks[n]) != [] {
        assert (rest + [blocks[n]])[..|rest|] == rest;
      } else {
        assert NonBlank(blocks) == rest;
      }
    }
  }

  /** Frame `i` is `parseFrame` of the `i`-th non-blank piece, numbered `i`,
      with the files of the frames before it; the files are those the
      frames select, in order. */
  lemma {:induction false} FramesInOrder(blocks: seq<string>)
    requires FramesOf(blocks).Ok?
    ensures InOrder(NonBlank(blocks), FramesOf(blocks).value.0, FramesOf(blocks).value.1)
  {
    if blocks != [] {
      var n := |blocks| - 1;
      FramesInOrder(blocks[..n]);
      if Trim(blocks[n]) != [] {
        InOrderStep(NonBlank(blocks[..n]), FramesOf(blocks[..n]).value.0, FramesOf(blocks[..n]).value.1, blocks[n]);
      }
    }
  }

  /** Frame `i` is `parseFrame` of the `i`-th piece, numbered `i`, with the
      files of the frames before it, and the files are those the frames
      select, in order. */
  ghost predicate InOrder(pieces: seq<string>, frames: seq<Frame>, seen: seq<string>) {
    Chained(pieces, frames, seen, ParseFrameOf)
  }

  /** Frame `i` is what `step` makes of the `i`-th piece with the files of
      the frames before it, for any parsing `step`. */
  ghost predicate Chained(pieces: seq<string>, frames: seq<Frame>, seen: seq<string>,
                          step: (string, nat, seq<string>) -> Result<(Frame, seq<string>), ParseError>) {
    |frames| == |seen| == |pieces|
    && forall i :: 0 <= i < |frames| ==>
         frames[i].selectedFile == seen[i]
         && step(pieces[i], i, seen[..i]) == Ok((frames[i], seen[..i + 1]))
  }

  lemma InOrderStep(pieces: seq<string>, frames: seq<Frame>, seen: seq<string>, piece: string)
    requires InOrder(pieces, frames, seen)
    requires ParseFrameOf(piece, |frames|, seen).Ok?
    ensures InOrder(pieces + [piece], frames + [ParseFrameOf(piece, |frames|, seen).value.0],
                    ParseFrameOf(piece, |frames|, seen).value.1)
  {
    ParseFrameOutcome(piece, |frames|, seen);
    ChainedStep(pieces, frames, seen, piece, ParseFrameOf,
                ParseFrameOf(piece, |frames|, seen).value.0, ParseFrameOf(piece, |frames|, seen).value.1);
  }

  lemma ChainedStep(pieces: seq<string>, frames: seq<Frame>, seen: seq<string>, piece: string,
                    step: (string, nat, seq<string>) -> Result<(Frame, seq<string>), ParseError>,
                    frame: Frame, selected: seq<string>)
    requires Chained(pieces, frames, seen, step)
    requires step(piece, |frames|, seen) == Ok((frame, selected))
    requires selected == seen + [frame.selectedFile]
    ensures Chained(pieces + [piece], frames + [frame], selected, step)
  {
    var frames' := frames + [frame];
    var pieces' := pieces + [piece];
    assert selected[..|seen|] == seen && selected[..|selected|] == selected;
    forall i | 0 <= i < |frames'|
      ensures frames'[i].selectedFile == selected[i]
      ensures step(pieces'[i], i, selected[..i]) == Ok((frames'[i], selected[..i + 1]))
    {
      if i < |frames| {
        assert selected[..i] == seen[..i] && selected[..i + 1] == seen[..i + 1];
      }
    }
  }

  /** Every frame has its text and its file, and its tree is that of the
      files selected up to and including it. */
  lemma FrameFields(blocks: seq<string>)
    requires FramesOf(blocks).Ok?
    ensures |FramesOf(blocks).value.1| == |FramesOf(blocks).value.0|
    ensures forall i :: 0 <= i < |FramesOf(blocks).value.0| ==>
      FramesOf(blocks).value.0[i].text != [] && FramesOf(blocks).value.0[i].selectedFile != []
      && Some(FramesOf(blocks).value.0[i].tree) == TreeOf(Elements(FramesOf(blocks).value.1[..i + 1]))
  {
    FramesInOrder(blocks);
    ChainedFields(NonBlank(blocks), FramesOf(blocks).value.0, FramesOf(blocks).value.1);
  }

  lemma ChainedFields(pieces: seq<string>, frames: seq<Frame>, seen: seq<string>)
    requires InOrder(pieces, frames, seen)
    ensures forall i :: 0 <= i < |frames| ==>
      frames[i].text != [] && frames[i].selectedFile != []
      && Some(frames[i].tree) == TreeOf(Elements(seen[..i + 1]))
  {
    forall i | 0 <= i < |frames|
      ensures frames[i].text != [] && frames[i].selectedFile != []
      ensures Some(frames[i].tree) == TreeOf(Elements(seen[..i + 1]))
    {
      FieldsOf(pieces[i], i, seen[..i], frames[i], seen[..i + 1]);
    }
  }

  /** A frame `parseFrame` returns has both fields and the tree of the files
      it returns. */
  lemma FieldsOf(piece: string, index: nat, before: seq<string>, frame: Frame, after: seq<string>)
    requires ParseFrameOf(piece, index, before) == Ok((frame, after))
    ensures frame.text != [] && frame.selectedFile != [] && Some(frame.tree) == TreeOf(Elements(after))
  {
    ParseFrameOutcome(piece, index, before);
  }

  /** Well-formed paths: a later frame's tree keeps every row of an earlier
      one. */
  lemma TreesGrow(blocks: seq<string>, i: nat, j: nat)
    requires FramesOf(blocks).Ok?
    requires WellFormed(Elements(FramesOf(blocks).value.1))
    requires i <= j < |FramesOf(blocks).value.0|
    ensures var frames := FramesOf(blocks).value.0;
      forall e :: e in frames[i].tree ==> e in frames[j].tree
  {
    var (frames, seen) := FramesOf(blocks).value;
    FrameFields(blocks);
    var small := Elements(seen[..i + 1]);
    var large := Elements(seen[..j + 1]);
    assert Some(frames[i].tree) == TreeOf(small);
    assert Some(frames[j].tree) == TreeOf(large);
    PrefixElements(seen, i + 1, j + 1);
    PrefixElements(seen, j + 1, |seen|);
    assert seen[..|seen|] == seen;
    ListingsGrow(small, large, Elements(seen), frames[i].tree, frames[j].tree);
  }

  lemma ListingsGrow(small: set<string>, large: set<string>, all: set<string>, a: seq<Entry>, b: seq<Entry>)
    requires small <= large <= all && WellFormed(all)
    requires TreeOf(small) == Some(a) && TreeOf(large) == Some(b)
    ensures forall e :: e in a ==> e in b
  {
    TreeGrows(small, large);
  }

  /** The files of a shorter prefix are among those of a longer one. */
  lemma PrefixElements(seen: seq<string>, a: nat, b: nat)
    requires a <= b <= |seen|
    ensures Elements(seen[..a]) <= Elements(seen[..b])
  {
    forall x | x in Elements(seen[..a]) ensures x in Elements(seen[..b]) {
      var k :| 0 <= k < a && seen[..a][k] == x;
      assert seen[..b][k] == x;
    }
  }

  function FrameNumber(e: ParseError): nat {
    match e
    case MissingField(n, _) => n
    case Diverges(n) => n
    case NoFrames => 0
  }

  /** A frame's error carries its number, counted from 1. */
  lemma FrameErrorNumber(raw: string, index: nat, seen: seq<string>)
    requires ParseFrameOf(raw, index, seen).Err?
    ensures var e := ParseFrameOf(raw, index, seen).error;
      e != NoFrames && FrameNumber(e) == index + 1
  {
  }

  /** An error names the non-blank piece it comes from: the frames before it
      parse, and it is that piece's error. */
  ghost predicate ErrorFrom(pieces: seq<string>, e: ParseError) {
    var n := FrameNumber(e);
    e != NoFrames && 1 <= n <= |pieces|
    && FramesOf(pieces[..n - 1]).Ok?
    && ParseFrameOf(pieces[n - 1], n - 1, FramesOf(pieces[..n - 1]).value.1) == Err(e)
  }

  lemma {:induction false} ErrorAt(blocks: seq<string>)
    requires FramesOf(blocks).Err?
    ensures ErrorFrom(NonBlank(blocks), FramesOf(blocks).error)
  {
    var n := |blocks| - 1;
    var init := blocks[..n];
    if FramesOf(init).Err? {
      ErrorAt(init);
      assert FramesOf(blocks) == FramesOf(init);
      if Trim(blocks[n]) != [] {
        ErrorFromLonger(NonBlank(init), blocks[n], FramesOf(init).error);
      } else {
        assert NonBlank(blocks) == NonBlank(init);
      }
    } else {
      var (frames, seen) := FramesOf(init).value;
      FramesInOrder(init);
      SkipsBlank(init);
      ErrorFromLast(NonBlank(init), blocks[n], frames, seen);
    }
  }

  lemma ErrorFromLonger(pieces: seq<string>, piece: string, e: ParseError)
    requires ErrorFrom(pieces, e)
    ensures ErrorFrom(pieces + [piece], e)
  {
    var m := FrameNumber(e);
    assert (pieces + [piece])[..m - 1] == pieces[..m - 1];
  }

  lemma ErrorFromLast(pieces: seq<string>, piece: string, frames: seq<Frame>, seen: seq<string>)
    requires FramesOf(pieces) == Ok((frames, seen)) && |frames| == |pieces|
    requires ParseFrameOf(piece, |frames|, seen).Err?
    ensures ErrorFrom(pieces + [piece], ParseFrameOf(piece, |frames|, seen).error)
  {
    FrameErrorNumber(piece, |frames|, seen);
    assert (pieces + [piece])[..|pieces|] == pieces;
  }

  /** The script finds no frames exactly when every piece is blank. */
  lemma NoFramesIff(src: string)
    ensures DocumentOf(src) == Err(NoFrames) <==>
      forall i :: 0 <= i < |SplitFrames(src)| ==> Trim(SplitFrames(src)[i]) == []
  {
    var blocks := SplitFrames(src);
    NonBlankNone(blocks);
    SkipsBlank(blocks);
    if FramesOf(blocks).Ok? {
      FramesInOrder(blocks);
    } else {
      ErrorAt(blocks);
    }
  }

  /** A document of whitespace only has no frames. */
  lemma BlankDocument(src: string)
    requires AllSpace(src)
    ensures DocumentOf(src) == Err(NoFrames)
  {
    forall i | 0 <= i <= |src| ensures !OccursAt(src, i, "---") {
      if i + 3 <= |src| {
        assert src[i..i + 3][0] == src[i];
        assert IsSpace(src[i]);
      }
    }
    SplitWithoutSeparator(src);
    TrimShape(src);
    NoFramesIff(src);
  }

  /** Two pieces around a `---` line; the line breaks stay with them. */
  lemma SplitExample()
    ensures SplitFrames("a\n---\nb") == ["a\n", "\nb"]
  {
    var s := "a\n---\nb";
    assert !SepAt(s, 0) && !SepAt(s, 1) && SepAt(s, 2);
    assert NextSep(s, 0) == Some(2);
    assert forall i :: 5 <= i <= |s| ==> !SepAt(s, i);
    NextSepAbsent(s, 5);
    assert s[..2] == "a\n" && s[5..] == "\nb";
  }

  /** Four dashes, or three after other text, are no separator. */
  lemma NotSeparators()
    ensures SplitFrames("----") == ["----"]
    ensures SplitFrames("x---") == ["x---"]
  {
    var s := "----";
    assert forall i :: 0 <= i <= |s| ==> !SepAt(s, i) by {
      assert !SepAt(s, 0);
    }
    SplitWithoutSeparator(s);
    var t := "x---";
    assert forall i :: 0 <= i <= |t| ==> !SepAt(t, i) by {
      assert !SepAt(t, 1);
    }
    SplitWithoutSeparator(t);
  }
}
