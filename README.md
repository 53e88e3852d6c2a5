# CodeDeck frame pipeline, modelled in Dafny

CodeDeck turns a markdown "frames" document into a code walkthrough. Each
frame is a block between `---` lines. A frame holds:

- a narration `text:`;
- a `selectedFile:`;
- optional metadata;
- a fenced code block.

Three scripts process the document. This project models the core of each
one and proves what it does.

- **sanitize-frames.js** rewrites narration into speakable prose for
  text-to-speech.
  - `sanitizeText` flattens line breaks to spaces and trims, applies the
    ordered table `PHONETIC_RULES` counting matches, then collapses runs of
    spaces and trims again.
  - `sanitizeFile` is a line-by-line state machine (`normal`, `in_text`,
    `in_code`). It folds each multi-line `text:` block into one sanitised
    line and copies every other line.
- **parse-frames.js** turns the document into frames.
  - `parseFrame` walks one block with an in-code flag. It collects
    `key: value` metadata outside code and the code lines inside it, and
    reads the highlights list.
  - `buildTree` derives a folders-first, sorted, depth-first file listing
    from every file selected so far.
  - The main loop splits on `---` lines, skips blank blocks and fails when
    there are no frames.
- **check-frames.js** checks every frame. A frame fails on:
  - a missing `text:` or `selectedFile:` line;
  - a deprecated `highlights:` line;
  - more than 24 code lines.

  The whole document fails when its last non-blank line is not `---`.

## Modules

- **Rules** (`rules.dfy`). The rule table as data. Each regular expression
  has the source's own rule kinds rather than a regex engine:
  - lazy delimiter strips for the Markdown rules;
  - the link rule;
  - literals;
  - word-bounded literals;
  - word-character-dot-method rules.

  Global replace-all is a left-to-right scan: where a rule matches, the
  match is replaced and the scan resumes after it; elsewhere one character
  is copied.
- **Sanitizer** (`sanitizer.dfy`). `sanitizeText`: a specification function
  and the loop proved against it.
- **FileSanitizer** (`file_sanitizer.dfy`). `sanitizeFile`:
  - the pass as a function `Run` over the remaining lines;
  - one loop iteration as the method `Feed`;
  - the loop itself as `Pass`.
- **Fences** (`fences.dfy`). The two fence patterns: the sanitizer's prefix
  test and the whole-line opener shared by the parser and the checker. Also
  the walk that gives every line of a frame its role (plain, opener, code,
  closer).
- **Tree**, **Order** (`tree.dfy`, `order.dfy`). `buildTree`: the node map,
  `getChildren`, `dfs` and the listing order.
- **Parser**, **Document** (`parser.dfy`, `document.dfy`). `parseFrame` and
  the main loop. A thrown `Error` becomes an `Err` of a `Result`.
- **Checker** (`checker.dfy`). The per-frame loop, the closing-line check
  and the `failed` flag.
- **Strings**, **Numbers**, **Results** (`strings.dfy`, `numbers.dfy`,
  `results.dfy`). The JavaScript string operations the scripts use:
  - `trim`, `trimStart` and `trimEnd`, over the ECMAScript whitespace set;
  - `split` and `join`;
  - `indexOf`;
  - `parseInt`;
  - number rendering.
- **TreeExample**, **SanitizerExamples** (`tree_example.dfy`,
  `sanitizer_examples.dfy`). Worked inputs and their proved outputs.

## Model

| member | source | states |
|---|---|---|
| Rules.MatchAt | sanitize-frames.js:8-76 | a match of any rule kind at a position is at least one character long and stays inside the text, so the global scan always advances |
| Rules.LazyEnd | sanitize-frames.js:10-11 | lazy `+?`: the position found is one where the closing delimiter occurs, and every character before it is outside the excluded set |
| Rules.LazyFirst | sanitize-frames.js:10-11 | lazy `+?` takes the first closer: no closer occurs between the start and the position found, and when nothing is found every closer is preceded by an excluded character (a line terminator, for `.`) |
| Rules.FindFrom | sanitize-frames.js:12-13 | the position found holds the character and is the first one at or after the start; absent when no later position holds it |
| Rules.LiteralOnce | sanitize-frames.js:16-23 | a literal whose first character occurs nowhere else in the text is replaced exactly once, count 1 |
| Rules.DotOnce | sanitize-frames.js:47-69 | `w.name` with a word character `w`, followed by a non-word character and no other dot, becomes `w` plus the spoken form, count 1: the preceding word character is kept |
| Rules.Inert | sanitize-frames.js:84-86 | a rule cannot fire on a text lacking a character every match needs: the text comes back unchanged, count 0 |
| Rules.InertRules | sanitize-frames.js:83-87 | rules that all need a character the text lacks leave it unchanged and count nothing |
| Rules.ApplyRulesAppend | sanitize-frames.js:83-87 | applying two stretches of the table one after the other is applying them together; the counts add up |
| Rules.UncountedRules | sanitize-frames.js:83-87 | if no rule matched (count 0), the text is unchanged |
| Rules.CharsRules | sanitize-frames.js:83-87 | a character that is not in the input and that no rule brings in is not in the output |
| Rules.TableSpoken | sanitize-frames.js:8-76 | every replacement text of the table is made only of ASCII letters, spaces and hyphens |
| Rules.LastRuleDeletesBackticks | sanitize-frames.js:75 | after the table no backtick is left, whatever the input |
| Sanitizer.CollapseRemoves | sanitize-frames.js:80 | flattening runs of line breaks to spaces leaves no line break |
| Sanitizer.CollapseSpaces | sanitize-frames.js:89 | collapsing runs of spaces leaves no two spaces in a row |
| Sanitizer.ApplyEach | sanitize-frames.js:83-87 | the loop's final text and count are the table applied in order, counts summed |
| Sanitizer.SanitizeText | sanitize-frames.js:78-90 | `sanitizeText` returns the specification `Sanitize`: flatten and trim, apply the table, collapse spaces and trim |
| Sanitizer.SanitizedShape | sanitize-frames.js:80-89 | the result has no line break and no backtick, never two spaces in a row, and no whitespace at either end |
| Sanitizer.UnmatchedOnlyNormalised | sanitize-frames.js:78-90 | when no rule matched (count 0), the result is the input whitespace-normalised only |
| SanitizerExamples.OperatorsOnEquals | sanitize-frames.js:15-18 | the operator rules turn `a === b` into `a strictly equals b` with one match; the shorter `==` finds nothing afterwards |
| SanitizerExamples.SanitizeEquals | sanitize-frames.js:7-18 | `sanitizeText("a === b")` is `a strictly equals b` with count 1 |
| SanitizerExamples.JsonOnCall | sanitize-frames.js:46-54 | the `.json` rule turns `response.json()` into `response dot json()`, keeping the `e` |
| SanitizerExamples.ParensOnCall | sanitize-frames.js:71-72 | the empty-parentheses rule turns `response dot json()` into `response dot json` |
| SanitizerExamples.SanitizeCall | sanitize-frames.js:46-72 | `sanitizeText("response.json()")` is `response dot json` with count 2 |
| FileSanitizer.Flush | sanitize-frames.js:116-121 | `flushText` writes exactly one line, starting with `text: ` |
| FileSanitizer.TextValue | sanitize-frames.js:148-149 | a line has a `text:` value exactly when it starts with `text:`, and the value is the rest of the line |
| FileSanitizer.Feed | sanitize-frames.js:123-160 | one loop iteration preserves what has been written plus what the rest of the pass writes |
| FileSanitizer.Pass | sanitize-frames.js:107-166 | the loop, the final flush and the join give the specification's text and substitution count |
| FileSanitizer.SanitizeFile | sanitize-frames.js:107-166 | `sanitizeFile` returns the specification `SanitizedFile(src)`: the line walk `Run` from the normal state over the lines of `src`, joined with line breaks, with the counts of every flushed block summed |
| FileSanitizer.RunWithoutText | sanitize-frames.js:123-160 | outside a `text:` block, lines none of which starts with `text:` are copied one for one, with no substitution |
| FileSanitizer.NoTextUnchanged | sanitize-frames.js:107-166 | a document without a `text:` line comes back identical, with 0 substitutions |
| FileSanitizer.CodeCopied | sanitize-frames.js:124-127 | inside a code block every line is copied verbatim, `text:` lines included, through the first line whose `trimEnd()` is the delimiter; then the state is normal |
| FileSanitizer.FenceCopied | sanitize-frames.js:124-159 | a line that starts with three or more backticks or tildes opens a block that is copied verbatim, with its opener and its closing line |
| FileSanitizer.TextCollected | sanitize-frames.js:130-145 | lines that end no block are collected, and the block is flushed at the first line that ends it or at the end of the document |
| FileSanitizer.TextBlockFolded | sanitize-frames.js:130-163 | a `text:` block becomes the one line `text: ` + `sanitizeText` of its lines joined with line breaks; its count is added; the terminating line is then handled normally and kept |
| FileSanitizer.CopiedOrFolded | sanitize-frames.js:116-163 | the pass invents nothing: every line it writes is a line of the input, copied unchanged, or a `text: ` line written by `flushText` |
| FileSanitizer.RunShape | sanitize-frames.js:123-163 | the pass writes at most one line per line read (one more for an open `text:` block) and no line break inside a line |
| FileSanitizer.SanitizeOneLine | sanitize-frames.js:80-89 | `sanitizeText` never returns a line break |
| FileSanitizer.FileLineBound | sanitize-frames.js:107-166 | the output of `sanitizeFile` never has more lines than its input |
| Fences.FencePrefixShape | sanitize-frames.js:154 | the prefix pattern matches exactly when the line starts with three equal backticks or tildes; the delimiter is the whole run |
| Fences.FenceOpenSound | parse-frames.js:76 | an opener is a delimiter, a tag of word characters, then only whitespace |
| Fences.FenceOpenComplete | parse-frames.js:76 | conversely, any delimiter, word-character tag and trailing whitespace make an opener with that tag |
| Fences.FenceWithTrailingWords | check-frames.js:49 | a line such as ```` ```js extra ```` is a fence for the sanitizer's prefix test but no opener for the checker's or the parser's whole-line test |
| Fences.Next | parse-frames.js:73-98 | the walk state is inside code exactly after an opener or a code line; an opener records its delimiter; code lines keep it |
| Fences.WalkAppend | parse-frames.js:73-98 | walking two stretches of lines is walking the first and then the second from where it left off |
| Fences.WalkBody | parse-frames.js:90-97 | inside a block, lines none of which closes it are all code and leave the walk inside |
| Fences.CodeBlock | parse-frames.js:73-98 | opener, body and closer walked from outside code: opener, code lines, closer, and outside again |
| Tree.AncestorIff | parse-frames.js:22-26 | a path is one of the folders added for `p` exactly when `p` starts with it followed by `/` |
| Tree.CollectNodes | parse-frames.js:18-27 | the nested loops fill the node map of the set of selected paths, whatever their order or repetition |
| Tree.NodesShape | parse-frames.js:18-27 | the nodes are the selected paths and their folders; a node is a file exactly when it was selected |
| Tree.RootChild | parse-frames.js:29-39 | a child of the root is a node without a `/` |
| Tree.FolderChild | parse-frames.js:29-39 | a child of a folder is a node whose parts without the last are that folder |
| Tree.Dfs | parse-frames.js:43-58 | `dfs` appends the listing of its parent to what has been pushed |
| Tree.PushFolders | parse-frames.js:51-54 | the folder loop pushes each folder and then its listing |
| Tree.PushFiles | parse-frames.js:55-57 | the file loop pushes each file in turn |
| Tree.BuildTree | parse-frames.js:17-62 | `buildTree` returns `TreeOf` of the set of selected paths: it depends on the set only |
| Tree.ListingElements | parse-frames.js:43-58 | exactly the child folders and files of a parent are listed under it, together with what is listed under each child folder |
| Tree.ListingSound | parse-frames.js:43-58 | every listed entry is a node inside the parent, with its kind |
| Tree.ListingComplete | parse-frames.js:43-58 | when every folder of a node is a folder node, every node inside the parent is listed under it |
| Tree.ListingSorted | parse-frames.js:43-58 | the listing is in listing order |
| Tree.BeforeSiblings | parse-frames.js:45-50 | of two paths under different children of one parent, the one under a folder comes before the one under a file; with equal kinds, the one whose child sorts first comes first |
| Tree.WellFormedNodes | parse-frames.js:20-27 | for selections with no leading `/` and no selected path inside another, `dfs('')` ends and every folder of a node is a folder node |
| Tree.TreeDiverges | parse-frames.js:43-60 | `dfs('')` recurses without end exactly when a selected path starts with `/` and the empty path is not itself selected |
| Tree.TreeMembers | parse-frames.js:17-62 | for well-formed selections, the tree lists every selected path as a file, every proper `/`-prefix of one as a folder, nothing else, and no path twice |
| Tree.TreeOrdered | parse-frames.js:15-60 | folders before what lies in them; at each level folders before files, each group by path |
| Tree.TreeGrows | parse-frames.js:17-62 | selecting more paths keeps every entry of the listing |
| Order.SortedPathsShape | parse-frames.js:45-50 | the sorted listing of a set lists each element once, in ascending order |
| Order.SortedUnique | parse-frames.js:45-50 | a set has exactly one strictly ascending listing, so the sort's result is determined by the set |
| Order.LexIrreflexive | parse-frames.js:47 | the path comparison never puts a path before itself |
| Order.LexTransitive | parse-frames.js:47 | the path comparison is transitive |
| Order.LexTotal | parse-frames.js:47 | any two distinct paths are ordered one way or the other |
| TreeExample.ExampleListingOfRoot | parse-frames.js:43-58 | for `a/b.js`, `a/c.js` and `d.js`, the root's listing is `a`, `a/b.js`, `a/c.js`, `d.js` |
| TreeExample.TreeOfExample | parse-frames.js:15-62 | `buildTree(["a/b.js","a/c.js","d.js"])` is folder `a`, then its files `a/b.js` and `a/c.js`, then the file `d.js` |
| Strings.TrimShape | parse-frames.js:85-86 | `trim` leaves no whitespace at either end, and gives the empty string exactly when the input is all whitespace |
| Strings.TrimStartShape | parse-frames.js:85-86 | `trimStart` removes exactly the leading whitespace |
| Strings.TrimEndShape | parse-frames.js:92 | `trimEnd` removes exactly the trailing whitespace |
| Strings.IndexOf | parse-frames.js:83 | the position returned holds the character, and no earlier position does |
| Strings.Split | parse-frames.js:66 | `split` of a one-character separator gives at least one piece, none holding the separator |
| Strings.JoinSplit | sanitize-frames.js:108-165 | joining the pieces of a split gives the string back |
| Strings.SplitJoin | sanitize-frames.js:108-165 | splitting a join of pieces without the separator gives the pieces back |
| Numbers.LeadingDigits | parse-frames.js:115 | the digits `parseInt` reads are the longest run of digits at the start |
| Numbers.NatToString | check-frames.js:67 | a rendered number is a non-empty run of decimal digits |
| Numbers.ParseIntOfNatToString | parse-frames.js:115 | `parseInt` of a rendered number gives the number back |
| Parser.Assign | parse-frames.js:87 | `meta[key] = val` never creates a `__proto__` entry: a string assigned to `__proto__` changes nothing |
| Parser.MetaIn | parse-frames.js:82-88 | the metadata gathered from a frame never holds the key `__proto__` |
| Parser.ReadLine | parse-frames.js:74-97 | one line updates the in-code flag and fence as the walk does; outside code a `key: value` line with a bare-word key sets the metadata; inside code a line is kept unless it closes the block; an opener sets the language |
| Parser.ReadLines | parse-frames.js:73-98 | the line loop yields the metadata, the code lines and the language of the specification functions |
| Parser.MetaSource | parse-frames.js:82-88 | a key has a value only when a line outside code carries that key and value |
| Parser.MetaLastWins | parse-frames.js:82-88 | the last line outside code with a key gives its value, so a later duplicate overwrites an earlier one |
| Parser.KeyValueOf | parse-frames.js:83-87 | a line `key: value` with a bare-word key reads back as that key and the value |
| Parser.MetaInAppend | parse-frames.js:82-88 | the metadata of two stretches of lines is the first's overridden by the second's |
| Parser.CodeInAppend | parse-frames.js:92-96 | the code lines of two stretches are the first's followed by the second's |
| Parser.LangInAppend | parse-frames.js:76-80 | the language is the last opener's tag: the later stretch's when it has an opener |
| Parser.BlockIn | parse-frames.js:73-98 | a whole code block gives no metadata, its body as code and the opener's tag as language |
| Parser.FencedFrame | parse-frames.js:73-98 | around a code block, the code is the body between the code before and after, the metadata is that of the lines around it, and the language is the block's tag unless a later block opens |
| Parser.ParsedRendered | parse-frames.js:113-116 | numbers rendered in decimal and read back by the `split`, `map` and `filter` chain give the numbers |
| Parser.HighlightsRoundTrip | parse-frames.js:109-118 | a list `[a,b,…]` of line numbers reads back as those numbers, and `[]` as none |
| Parser.ParseFrame | parse-frames.js:65-131 | `parseFrame` returns `ParseFrameOf` and appends its file to the caller's list |
| Parser.ParseFrameOutcome | parse-frames.js:100-124 | a missing or empty `text` fails first (frame number `index + 1`), then `selectedFile`; otherwise the frame has both fields and the tree of every file selected so far, its own included |
| Parser.FrameTreeFiles | parse-frames.js:120-124 | with well-formed paths, a frame's tree shows exactly the files selected so far as files, its own among them |
| Document.NextSep | parse-frames.js:135 | a separator match is three dashes that start and end a line |
| Document.NextSepFirst | parse-frames.js:135 | the split takes the leftmost `---` line and skips none |
| Document.SplitFramesJoin | parse-frames.js:135 | putting the `---` separators back between the pieces gives the document back |
| Document.SplitWithoutSeparator | parse-frames.js:135 | a document without a `---` line is one piece |
| Document.SplitExample | parse-frames.js:135 | `a\n---\nb` splits into `a\n` and `\nb`: the line breaks stay with the pieces |
| Document.NotSeparators | parse-frames.js:135 | four dashes, or three after other text, do not separate |
| Document.ParseDocument | parse-frames.js:135-147 | the main loop returns the specification `DocumentOf(src)`: the non-blank `---` pieces parsed in order, threading the selected files, stopping at the first error, and `NoFrames` when nothing was parsed |
| Document.ErrorStops | parse-frames.js:139-142 | once a piece fails, later pieces change nothing |
| Document.SkipsBlank | parse-frames.js:140 | the frames of the document are those of its non-blank pieces alone |
| Document.FramesInOrder | parse-frames.js:139-142 | frame `i` is `parseFrame` of the `i`-th non-blank piece, numbered `i`, with the files of the frames before it |
| Document.FrameFields | parse-frames.js:120-142 | every frame has its text and its file, and its tree is `buildTree` of the files of frames 1..i |
| Document.TreesGrow | parse-frames.js:120-124 | with well-formed paths, a later frame's tree keeps every entry of an earlier one |
| Document.FrameErrorNumber | parse-frames.js:100-105 | a frame's error carries its number counted from 1 |
| Document.ErrorAt | parse-frames.js:139-142 | an error is that of the first failing non-blank piece; the pieces before it parse |
| Document.NoFramesIff | parse-frames.js:144-147 | the document fails with no frames exactly when every piece is blank |
| Document.BlankDocument | parse-frames.js:144-147 | a document of whitespace only has no frames |
| Checker.CheckLine | check-frames.js:41-61 | one line updates the walk state as the parser's walk does; it sets the key flags, adds a deprecation message and counts a code line exactly as its role says |
| Checker.CheckFrame | check-frames.js:33-67 | a frame's errors are its deprecations, then `missing text:`, then `missing selectedFile:`, then the overage; its count is the parser's number of code lines |
| Checker.KeyLineIff | check-frames.js:43-44 | a key flag is set exactly when some line seen outside code starts with that exact prefix, untrimmed |
| Checker.DeprecatedNone | check-frames.js:45-47 | there is no deprecation message exactly when no line seen outside code starts with `highlights:` |
| Checker.FramePasses | check-frames.js:41-70 | a frame passes exactly when `text:` and `selectedFile:` lines appear outside code, no `highlights:` line does, and it has at most 24 code lines |
| Checker.CountIsContentLines | check-frames.js:55-58 | for a frame with at least one code line, the lines the checker counts are the lines of the `content` the parser emits; with none, `Checker.CheckFrame` gives a count of 0 |
| Checker.OneOver | check-frames.js:66-67 | 25 code lines give `25/24 lines (1 over)` |
| Checker.CheckFrames | check-frames.js:31-74 | every frame is checked, one report line each, and the loop records whether any frame had an error |
| Checker.ErrorsUnmarked | check-frames.js:63-67 | no error message ends with the check mark |
| Checker.ReportsPassing | check-frames.js:68-73 | a frame's report line shows the check mark exactly when the frame has no error |
| Checker.EndsWithRuleIff | check-frames.js:24-29 | the closing-line check passes exactly when some line is exactly `---`, untrimmed, and only blank lines follow it |
| Checker.RuleThenBlank | check-frames.js:25-26 | the last non-blank line is `---` exactly when some line is `---` and only blank lines follow it |
| Checker.LastFilled | check-frames.js:25 | the last non-blank line exists when some line is non-blank, and only blank lines follow it |
| Checker.EmptyFails | check-frames.js:24-29 | an empty document fails, reporting the missing `---` first |
| Checker.CheckDocument | check-frames.js:20-76 | the script's report lines are `Output(src)`: the closing-line message when that check fails, then one line per non-blank piece. Its failure flag is `Fails(src)`: the closing-line check failed or some frame has an error |
| Checker.FailsIffReported | check-frames.js:22-76 | the script fails exactly when a line it prints does not report success: a document defect or any frame defect |
| Checker.CheckFile | check-frames.js:13-20 | the checker's report and failure flag are those of the document after `sanitizeFile` |

## Left out

- Input and output are left out: they are glue with no logic to prove. That covers command-line arguments, reading and writing files, the sanitizer's and the parser's console messages, exit codes, and the JSON printing of the frames (sanitize-frames.js:168-184, parse-frames.js:6-12 and 144-149, check-frames.js:7-18 and 76). The sanitizer returns its text and count, and the parser a `Result`. The checker's report lines are returned as a sequence of strings, and its exit status as the `failed` flag.
- Checker.CheckFile: models the intended composition, sanitise then check, not the script as written. check-frames.js:5 loads sanitize-frames.js, which has no `module.exports`. Loading it runs the sanitizer's own command line (sanitize-frames.js:168-184) on the same file, which may rewrite it, and then yields an empty object. `sanitizeFile` is therefore `undefined`, so the call at check-frames.js:14 throws a `TypeError`. None of check-frames.js:15-76 runs: no frame is checked, no report is printed, and the exit status is that of the uncaught exception. The write-back of check-frames.js:15-18 is file I/O in either case.
- Order.LexIrreflexive, Order.LexTransitive, Order.LexTotal: `localeCompare` is locale-dependent collation. Paths are compared in code-point order instead, which is a strict total order like any collation.
- Strings are sequences of Unicode scalar values. JavaScript's UTF-16 code units, and surrogate pairs in `\w`, `.` and lengths, are not modelled.
- Numbers.ParseIntOfNatToString: `parseInt` is modelled as whitespace skipped at the start, an optional sign and the longest run of decimal digits after it. `NaN` is `None`, where the JSON would print `null`. Floating-point precision loss on very long numbers is not modelled.
- Tree.TreeDiverges: the endless recursion of `dfs('')` when a path starts with `/` is the `Err(Diverges)` result of `parseFrame` rather than a stack overflow.
- Tree.WellFormedNodes: the tree's properties are proved for selections with no leading `/` and no selected path inside another. The behaviour outside that case is modelled but not characterised further.
- Parser.ParseFrame: the caller's `seenFiles` array, which `parseFrame` pushes onto, is passed in and returned as a value. That array is not shared by reference.
- frames.js (a static fixture) and generate_voices.py (speech synthesis through foreign libraries) are not part of this model.
- Sanitizer.SanitizeText: not proved idempotent, because it is not. `=()=` loses its parentheses to the rule of sanitize-frames.js:72 and becomes `==`, which a second run rewrites with the rule of line 18. check-frames.js:13-18 re-sanitises a document that may already be sanitised, so a second pass can still change narration.
- The deprecation message of check-frames.js:46 points to inline `// hl` markers, but no script here reads them. parse-frames.js also has no 24-line cap, no `language:` override and no continuation lines for metadata. The model follows the scripts as they are; the 24-line rule exists only in the checker.
