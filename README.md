# Unity2Markdown, modelled in Dafny

Unity2Markdown converts saved pages of the Unity documentation from HTML to
Markdown. For each selected file, its `ConversionThread`:

1. picks the page's `main` element, or else its `body`;
2. sanitises that element's descendants in four passes:
   - drop `script`, `style`, `nav` and `footer` elements;
   - rename elements with the `unity-code-block` class to `pre` and those with `unity-note` to `blockquote`;
   - replace each anchor by its text;
   - drop images;
3. renders the result with html2text;
4. tidies the Markdown with regular-expression passes: links become their text, `![](url)` images go away, runs of three or more newlines shrink to two, the text is stripped, and heading lines get a blank line on each side.

Depending on the merge setting, the thread then does one of two things:

- **separate mode:** it writes each text to `<output dir>/<stem>.md`;
- **merge mode:** it keeps the texts, which are later joined behind horizontal rules into one file under a name the user enters.

The project models that core:

- `tree.dfy`: the parsed document as a tree of elements and text runs, with paths as node references and document-order search.
- `selection.dfy`: the content selection.
- `preprocess.dfy`: the four sanitising passes. Each pass is:
  - a loop that edits the tree one node at a time, as the source does;
  - proved equal to a recursive definition of the whole pass.
- `strings.dfy`: the Python string operations used: whitespace, `split`, `join`, `endswith`.
- `postprocess.dfy`: the five text passes.
  - Each regular expression is a scanning function with the leftmost match semantics of `re.sub`.
  - The per-line loop is a method proved against its definition.
- `naming.dfy`: the output-name rule, the merge-name rule and the merged text.
- `conversion.dfy`:
  - `convert_to_markdown`;
  - the batch loop `run`, as a class whose methods update the thread's outputs and signals.
- `wrappers.dfy`: `Option` and `Result`.

What the code does in some cases that are easy to get wrong:

- Only descendants of the selected element are visited, because `find_all` does not return the node it is called on. So a `<main class="unity-note">` is not itself renamed to `blockquote`; see `Preprocess.PreprocessHtml`.
- Renaming runs before the anchor and image passes. An `a` or `img` element marked `unity-code-block` or `unity-note` therefore survives as `pre` or `blockquote` (`Preprocess.MarkedElementSurvives`), unless it sits inside an anchor that is not itself marked: that anchor is replaced by its text and everything inside it goes with it (`Preprocess.MarkedInsideAnchorFlattened`).
- The link pattern runs first and also matches the bracketed part of an image:
  - `![alt](u)` with non-empty alt text becomes `!alt` (`Postprocess.StripLinksImage`);
  - a lone `![](u)` is kept by the link pass and removed by the image pass (`Postprocess.EmptyImageRemoved`);
  - a linked image vanishes whatever its alt text. In `[![a](b)](c)` the link match runs from the outer `[` to the first `)` and leaves `![a](c)`, which the image pass then removes (`Postprocess.LinkedImageVanishes`).
- `postprocess_markdown` is not idempotent:
  - the heading pass reintroduces runs of three newlines and a leading and trailing newline;
  - the link pass alone is not idempotent either: `[[t](u)](v)` leaves `[t](v)`.
- The whole of `run` is inside one `try`. The first file that cannot be read or written ends the loop, and `error` is emitted instead of `finished`.

## Model

| member | source | states |
|---|---|---|
| Selection.SelectContent | unity2markdown.py:55-57 | the chosen node is a `main` or `body` element; it is a `main` whenever the document has one; nothing is chosen exactly when there is neither |
| Selection.IsMain | unity2markdown.py:55 | defines the filter of `find('main')`: the tag name is `main` |
| Selection.IsBody | unity2markdown.py:55 | defines the filter of `find('body')`: the tag name is `body` |
| Selection.SelectionInDocumentOrder | unity2markdown.py:55 | the choice is the first `main` met in a document-order walk, and only if there is none, the first `body` |
| Tree.FindFirstInDocumentOrder | unity2markdown.py:55 | the path search finds the node a document-order walk meets first among those the filter selects, and finds nothing exactly when the walk does |
| Tree.FindFirst | unity2markdown.py:55 | `find`: the path of an element the filter selects, with no selected element above it; none exactly when the forest holds no selected element |
| Tree.TextOf | unity2markdown.py:75 | defines `.text`: the concatenation of every text run of the forest, in document order |
| Tree.ReplaceAt | unity2markdown.py:75 | `replace_with`: the node at the path is the new node; every other sibling is unchanged; an element on the way keeps its name, classes and number of children |
| Tree.RemoveAt | unity2markdown.py:66 | `decompose`: a top-level node is taken out, the siblings before it kept and those after it moved down one place; deeper down, every other sibling is unchanged and the element on the way keeps its name and classes |
| Tree.CountRemoveAt | unity2markdown.py:66 | `decompose` takes away exactly the selected elements of the detached subtree and no others |
| Tree.CountReplaceAt | unity2markdown.py:70 | replacing a node changes the count of selected elements only by what the old and new subtrees hold |
| Preprocess.Chrome | unity2markdown.py:65 | defines the filter of `soup(['script', 'style', 'nav', 'footer'])` |
| Preprocess.Anchor | unity2markdown.py:74 | defines the filter of `find_all('a')` |
| Preprocess.Image | unity2markdown.py:77 | defines the filter of `find_all('img')` |
| Preprocess.UnityMarked | unity2markdown.py:68 | defines the filter of `class_=re.compile('unity-')`: some class token contains `unity-` |
| Preprocess.RetagName | unity2markdown.py:68-72 | defines the name an element has after the renaming loop |
| Preprocess.Pruned | unity2markdown.py:65-66 | defines a decompose pass (lines 65-66 and 77-78): every selected element is taken out with its subtree, everything else kept in order |
| Preprocess.Retagged | unity2markdown.py:68-72 | defines the renaming pass: every element renamed by RetagName, classes and children kept, the forest the same length |
| Preprocess.AnchorsFlattened | unity2markdown.py:74-75 | defines the anchor pass: every anchor replaced in its place by one text run of its text, the forest the same length |
| Preprocess.Preprocessed | unity2markdown.py:64-78 | defines `preprocess_html` on the descendants: the four passes in their order |
| Preprocess.RetagNameRule | unity2markdown.py:68-72 | the `unity-` filter adds nothing: `unity-code-block` gives `pre` even beside `unity-note`, `unity-note` alone gives `blockquote`, every other name is kept |
| Preprocess.RetagNameSettled | unity2markdown.py:68-72 | a renamed element is not renamed again, so one visit per element suffices |
| Preprocess.DecomposeAll | unity2markdown.py:65-66 | the decompose loop (used for lines 65-66 and 77-78) yields the forest with every selected element removed together with its subtree |
| Preprocess.RetagMarked | unity2markdown.py:68-72 | the renaming loop yields the forest with every element renamed by the rule and classes and children unchanged |
| Preprocess.ReplaceAnchors | unity2markdown.py:74-75 | the anchor loop yields the forest with every anchor replaced in place by one text run holding its text |
| Preprocess.PreprocessHtml | unity2markdown.py:64-78 | the selected element keeps its own name and classes; its children go through the four passes in their order |
| Preprocess.PrunedRemoveAt | unity2markdown.py:65-66 | detaching one selected element does not change what the whole decompose pass yields, which keeps the loop's invariant |
| Preprocess.RetaggedReplaceAt | unity2markdown.py:68-72 | renaming one element does not change what the whole renaming pass yields |
| Preprocess.AnchorsFlattenedReplaceAt | unity2markdown.py:74-75 | replacing one anchor by its text does not change what the whole anchor pass yields |
| Preprocess.PrunedLeavesNone | unity2markdown.py:65-66 | after a decompose pass no selected element is left at any depth |
| Preprocess.PrunedCountBound | unity2markdown.py:77-78 | a decompose pass never adds elements of any kind |
| Preprocess.RetaggedChromeBound | unity2markdown.py:68-72 | renaming creates no script, style, nav or footer element |
| Preprocess.AnchorsFlattenedCountBound | unity2markdown.py:74-75 | flattening anchors never adds elements of any kind |
| Preprocess.AnchorsFlattenedLeavesNone | unity2markdown.py:74-75 | after the anchor pass no anchor is left at any depth |
| Preprocess.PreprocessedIsClean | unity2markdown.py:64-78 | after all four passes no descendant is a script, style, nav, footer, img or a element |
| Preprocess.RetaggedKeepsText | unity2markdown.py:68-72 | renaming keeps the text of the forest |
| Preprocess.AnchorsFlattenedKeepsText | unity2markdown.py:74-75 | flattening anchors keeps every character of text in order |
| Preprocess.RetaggedIdempotent | unity2markdown.py:68-72 | renaming twice is renaming once |
| Preprocess.AnchorReplacedInPlace | unity2markdown.py:74-75 | an anchor at sibling position `i` becomes, at position `i`, the text run of its concatenated text |
| Preprocess.MarkedElementSurvives | unity2markdown.py:68-78 | a kept element marked `unity-code-block` or `unity-note`, an anchor or image included, comes out as a `pre` or `blockquote` element with its classes |
| Preprocess.MarkedInsideAnchorFlattened | unity2markdown.py:64-78 | an anchor not marked `unity-code-block` or `unity-note`, with any classes and any contents, comes out as one text run of the text of its contents without the chrome; every element inside it, marked or not, goes with it |
| Strings.IndexOf | unity2markdown.py:81 | the first occurrence of a character, as the `[^\]]` and `[^\)]` classes force the match to end at it |
| Strings.SplitOn | unity2markdown.py:86 | `split('\n')` gives at least one piece, and no piece holds a newline |
| Strings.JoinSplitOn | unity2markdown.py:86-90 | joining the pieces of a split with the separator gives the string back |
| Strings.SplitOnJoin | unity2markdown.py:86-90 | splitting a join of separator-free pieces gives the pieces back |
| Strings.SplitOnCons | unity2markdown.py:86 | a separator-free piece before the separator is the first piece of the split |
| Strings.Join | unity2markdown.py:90 | defines `sep.join(parts)` (also line 198) |
| Strings.EndsWith | unity2markdown.py:194 | defines `str.endswith` |
| Strings.IsSpace | unity2markdown.py:84 | defines the whitespace of `str.strip()` and of `\s` in line 88 |
| Postprocess.LinkAt | unity2markdown.py:81 | a link match at the start begins with `[` and its closing bracket and end lie inside the text |
| Postprocess.LinkSyntax | unity2markdown.py:81 | defines the text `[text](url)` |
| Postprocess.LinkParts | unity2markdown.py:81 | defines what the link pattern demands of its parts: non-empty text without `]`, non-empty url without `)` |
| Postprocess.StripLinks | unity2markdown.py:81 | defines the link pass: scanning from the left, each match is replaced by its text and the scan goes on after it; every other character is kept |
| Postprocess.LinkAtShape | unity2markdown.py:81 | a match is exactly `[text](url)` with non-empty text free of `]` and non-empty url free of `)` |
| Postprocess.LinkAtFinds | unity2markdown.py:81 | conversely, every such `[text](url)` at the start is matched, ending right after its `)` |
| Postprocess.StripLinksPlain | unity2markdown.py:81 | text with no `[` is kept unchanged in front of the rest |
| Postprocess.StripLinksLinkFirst | unity2markdown.py:81 | a leading link is replaced by its text, the rest is processed on |
| Postprocess.StripLinksLink | unity2markdown.py:81 | `a + [text](url) + b` with no `[` in `a` becomes `a + text` followed by the processed `b` |
| Postprocess.StripLinksImage | unity2markdown.py:81 | `![alt](url)` with non-empty alt becomes `!alt` |
| Postprocess.StripLinksKeepsFirst | unity2markdown.py:81 | a character where no link starts is kept |
| Postprocess.StripLinksNotIdempotent | unity2markdown.py:81 | `[[t](u)](v)` becomes the link `[t](v)`, which a second pass turns into `t` |
| Postprocess.ImageAt | unity2markdown.py:82 | an image match at the start begins with `!` and ends inside the text |
| Postprocess.ImageSyntax | unity2markdown.py:82 | defines the text `![alt](url)` |
| Postprocess.ImageParts | unity2markdown.py:82 | defines what the image pattern demands of its parts: alt text without `]`, possibly empty, and a non-empty url without `)` |
| Postprocess.DropImages | unity2markdown.py:82 | defines the image pass: scanning from the left, each match is dropped; every other character is kept |
| Postprocess.ImageAtShape | unity2markdown.py:82 | a match is exactly `![alt](url)` with alt free of `]` and non-empty url free of `)` |
| Postprocess.ImageAtFinds | unity2markdown.py:82 | conversely, every such image at the start is matched, ending right after its `)` |
| Postprocess.DropImagesPlain | unity2markdown.py:82 | text with no `!` is kept unchanged in front of the rest |
| Postprocess.DropImagesImage | unity2markdown.py:82 | an image after `!`-free text disappears and nothing else changes |
| Postprocess.EmptyImageSurvivesLinks | unity2markdown.py:81 | `![](url)` holds no link, so the link pass keeps it whole |
| Postprocess.StripLinksAroundEmptyImage | unity2markdown.py:81 | the link pass keeps `![](url)` and the link-free text before it |
| Postprocess.EmptyImageRemoved | unity2markdown.py:81-82 | the first two passes together remove `![](url)` entirely and keep the text around it |
| Postprocess.LinkedImageVanishes | unity2markdown.py:81-82 | the link pass turns `[![alt](u)](v)` into `![alt](v)` for any alt text, empty or not, and the image pass removes that entirely |
| Strings.LeadingRun | unity2markdown.py:83 | the length of the run of one character a text starts with (newlines in line 83, `#` in line 88): all that character, followed by another one or the end |
| Postprocess.CollapseNewlines | unity2markdown.py:83 | defines the collapse pass: each maximal run of three or more newlines becomes two; everything else is kept |
| Postprocess.Unbroken | unity2markdown.py:83 | defines a text with its newlines taken out, used to say that a pass changes only newlines |
| Postprocess.CollapseLeading | unity2markdown.py:83 | a leading run of three or more newlines becomes two, shorter runs are kept |
| Postprocess.CollapseLeavesNoTriple | unity2markdown.py:83 | after the collapse pass no three newlines in a row are left |
| Postprocess.CollapseUnchanged | unity2markdown.py:83 | text without three newlines in a row is unchanged |
| Postprocess.CollapseKeepsText | unity2markdown.py:83 | the collapse pass changes only newlines: every other character is kept in order |
| Postprocess.CollapseSkipsLine | unity2markdown.py:83 | a newline-free prefix is kept in front of the rest |
| Postprocess.LeadingSpace | unity2markdown.py:84 | the leading whitespace run: all whitespace, followed by a non-whitespace character or the end |
| Postprocess.Strip | unity2markdown.py:84 | the result is the slice of the input between its leading and trailing whitespace, neither end is whitespace, and it is empty exactly when the input is all whitespace |
| Postprocess.StripUnchanged | unity2markdown.py:84 | text without whitespace at either end is unchanged |
| Postprocess.StripIdempotent | unity2markdown.py:84 | stripping twice is stripping once |
| Postprocess.StripKeepsNoTriple | unity2markdown.py:84 | stripping cannot create three newlines in a row |
| Postprocess.HeadingPattern | unity2markdown.py:88 | defines `^#{1,6}\s` as written: one to six `#` at the start, then whitespace |
| Postprocess.IsHeading | unity2markdown.py:88 | defines the heading test the loop uses: the whole leading run of `#` has one to six characters and whitespace follows |
| Postprocess.PadHeading | unity2markdown.py:88-89 | defines the replacement of one line: `"\n" + line + "\n"` for a heading, the line itself otherwise |
| Postprocess.PaddedLines | unity2markdown.py:87-89 | defines the lines after the loop: each line padded, in the same order and number |
| Postprocess.HeadingRule | unity2markdown.py:88 | `^#{1,6}\s` matches exactly when the whole leading run of `#` has one to six characters and whitespace follows |
| Postprocess.SevenHashesNoHeading | unity2markdown.py:88 | seven or more `#` never make a heading |
| Postprocess.HeadingStart | unity2markdown.py:88 | a heading line starts with `#` |
| Postprocess.PaddedLinesAt | unity2markdown.py:87-89 | line `i` of the result is line `i` padded when it is a heading and unchanged otherwise; the line count is kept |
| Postprocess.Tidied | unity2markdown.py:81-84 | defines the text after lines 81-84: strip of collapse of the image pass of the link pass |
| Postprocess.Postprocessed | unity2markdown.py:80-92 | defines `postprocess_markdown`: the padded lines of the tidied text, joined by newlines |
| Postprocess.PostprocessMarkdown | unity2markdown.py:80-92 | the method, which reassigns the text pass by pass and updates the line list in place, returns the join of the padded lines of the tidied text |
| Postprocess.TidiedIsTidy | unity2markdown.py:81-84 | after lines 81-84 there are no three newlines in a row and no whitespace at either end |
| Postprocess.TidiedUnchanged | unity2markdown.py:81-84 | tidy text with no `[` or `!` passes lines 81-84 unchanged |
| Postprocess.PostprocessedWithoutHeadings | unity2markdown.py:86-90 | without heading lines the padding pass gives the tidied text back |
| Postprocess.PaddingKeepsText | unity2markdown.py:86-90 | padding only adds newlines |
| Postprocess.PostprocessedKeepsText | unity2markdown.py:86-90 | apart from newlines, the result holds exactly the tidied text, in order |
| Postprocess.NoTripleWithoutPair | unity2markdown.py:83 | text without two adjacent newlines holds no run of three |
| Postprocess.TidyHeadingPair | unity2markdown.py:81-84 | two plain heading lines joined by a newline are already tidy |
| Postprocess.PaddingReintroducesBreaks | unity2markdown.py:86-90 | two such headings come out as `\n h1 \n\n\n h2 \n`: three newlines in a row and a newline at both ends |
| Postprocess.TidyPaddedPair | unity2markdown.py:81-84 | tidying that output takes one newline out of the run and both ends |
| Postprocess.PostprocessNotIdempotent | unity2markdown.py:80-92 | running `postprocess_markdown` on its own output changes it again |
| Naming.Basename | unity2markdown.py:40 | `basename`: a `/`-free suffix of the path that starts right after a `/` or at the start |
| Naming.LastDot | unity2markdown.py:40 | the last `.`: none exactly when the name has no dot |
| Naming.SplitExt | unity2markdown.py:40 | `splitext`: stem plus extension is the name; an extension starts with its only dot and has something other than dots before it |
| Naming.SplitExtEmpty | unity2markdown.py:40 | there is no extension exactly when every dot has only dots before it |
| Naming.OutputName | unity2markdown.py:40 | the output name ends in `.md` and holds no `/` |
| Naming.OutputNameDropsExtension | unity2markdown.py:40 | `dir/stem.ext` gives `stem.md`: only the last extension goes |
| Naming.OutputNameKeepsLeadingDot | unity2markdown.py:40 | `dir/.x` gives `.x.md` |
| Naming.PathJoin | unity2markdown.py:196 | `os.path.join` ends with the joined name |
| Conversion.OutputPath | unity2markdown.py:40 | the separate-mode output path ends with the output name |
| Naming.MergeName | unity2markdown.py:194-195 | the name ends in `.md`; `.md` is appended exactly when the entered name does not already end with it |
| Naming.MergeNameIdempotent | unity2markdown.py:194-195 | naming twice is naming once |
| Naming.MergeTarget | unity2markdown.py:193-196 | a path is produced exactly when the dialog was accepted with a non-empty name, and it ends with the merge name |
| Naming.MergedContent | unity2markdown.py:198 | defines the merged document: the kept texts joined by `"\n\n---\n\n"` |
| Naming.MergedContentAppend | unity2markdown.py:198 | one text alone has no rule; one more text adds a rule and that text at the end |
| Naming.MergedContentPrefix | unity2markdown.py:198 | texts stay in input order: the merge of the first `k` texts, then a rule and text `k`, is a prefix of the whole merge |
| Naming.JoinSplitAt | unity2markdown.py:198 | a join splits at any piece boundary into the two joins around a separator |
| Conversion.RenderedTree | unity2markdown.py:55-59 | the tree handed to html2text exists exactly when content was selected; it has the selected `main` or `body` element's own name and classes, and holds no script, style, nav, footer, img or a element |
| Conversion.Converted | unity2markdown.py:50-62 | defines what `convert_to_markdown` returns for a parsed document: `""` without content, else the post-processed rendering of the sanitised selection |
| Conversion.ConvertToMarkdown | unity2markdown.py:50-62 | the method yields `""` without content, else the post-processed rendering of the sanitised selection |
| Conversion.ConvertedWithoutContent | unity2markdown.py:57-62 | without `main` and `body` the result is `""`, whatever the renderer does |
| Conversion.ConvertedWithoutHeadingsIsTidy | unity2markdown.py:50-62 | when the rendering has no heading line, the result has no three newlines in a row and no whitespace at either end |
| Conversion.Completed | unity2markdown.py:33-36 | the number of files got through lies between the start and the number of files |
| Conversion.CompletedStops | unity2markdown.py:33-36 | every file before the stopping point passed its cancellation check and raised nothing; at the stopping point, unless at the end, the check was true or the file raised |
| Conversion.CompletedAll | unity2markdown.py:33-36 | without cancellation and exceptions every file is got through |
| Conversion.CompletedBeforeCancel | unity2markdown.py:34-35 | no file from the cancelling check on is got through |
| Conversion.StepError | unity2markdown.py:36-42 | defines the exception one file raises: the reading or parsing one, else in separate mode the writing one |
| Conversion.Proceeds | unity2markdown.py:36-42 | defines a file that raises nothing |
| Conversion.FileText | unity2markdown.py:36 | defines the text `run` gets for a file, through the thread's conversion |
| Conversion.ConvertedFile | unity2markdown.py:36 | defines that text through `convert_to_markdown` itself |
| Conversion.Texts | unity2markdown.py:38 | one kept text per file got through |
| Conversion.Outputs | unity2markdown.py:40-42 | one written file per file got through |
| Conversion.Progress | unity2markdown.py:43 | one progress signal per file got through |
| Conversion.ProgressAt | unity2markdown.py:43 | signal `k` reports `k + 1` files done out of the total |
| Conversion.TextsAt | unity2markdown.py:38 | kept text `k` is the text of file `k` |
| Conversion.OutputsAt | unity2markdown.py:40-42 | written file `k` is the output path of file `k` with its text |
| Conversion.ThreadFile | unity2markdown.py:36-40 | for a thread as its constructor sets it up, the text of a file is `convert_to_markdown` of it and its output path is the line-40 path |
| Conversion.Step | unity2markdown.py:36-43 | defines one loop turn that raises nothing: keep the text or record the written file, then one progress signal |
| Conversion.Replay | unity2markdown.py:33-43 | defines the outputs after the first `n` turns |
| Conversion.ReplayParts | unity2markdown.py:33-43 | after `n` files the kept texts are their texts in merge mode, the written files are their paths and texts otherwise, and there are `n` progress signals |
| Conversion.ConversionThread.constructor | unity2markdown.py:14-29 | the thread holds its settings, no outputs or signals, and its conversion and naming are `convert_to_markdown` and the line-40 rule |
| Conversion.ConversionThread.ProcessFile | unity2markdown.py:36-43 | one loop turn raises what loading or writing raises; otherwise it keeps or writes the text and signals progress; on an exception nothing changes |
| Conversion.ConversionThread.ConvertFiles | unity2markdown.py:33-43 | the loop gets through exactly `Completed` files, returns the exception that ended it, if any, and leaves the outputs of those files |
| Conversion.ConversionThread.Run | unity2markdown.py:30-48 | the outputs and progress signals are those of the files got through; `error` carries the exception that stopped the loop; `finished` is emitted exactly when every file was done and the final check is false |

## Left out

- The PyQt6 window of `Unity2Markdown` (lines 97-230) is not modelled. That covers the dialogs, message boxes, buttons, `reset_application` and the percentage display of `update_progress`. Only the naming and joining of `get_merge_filename` (lines 193-198) is modelled.
- Threads and signals are not modelled; `run` is a plain sequential method.
  - Emitted signals become fields the method appends to or sets.
  - `cancel()` (lines 94-95) and the `is_cancelled` flag are one number, `cancelledAt`: the first check that reads true. The flag is never reset, so every later check reads true as well.
- File input and output are parameters of `run`.
  - `load` reads and parses one file, or gives the message of the exception it raises.
  - `writeError` gives the message of the exception that opening or writing an output path raises, if any.
  - Opening with mode `'w'` on line 41 creates or truncates the file before a write can fail. An empty or partial file may therefore remain on disk after an error, and `written` does not record it.
  - Writing the merged file (lines 197-198) is represented by its path and content only.
- HTML parsing by BeautifulSoup's `html.parser` (line 54) is not modelled. The model starts from the parsed tree.
  - Comments, CDATA, doctypes and attributes other than `class` are not represented.
  - Tree.TextOf: it concatenates every text run, whereas BeautifulSoup's `.text` (line 75) skips the strings inside `rt`, `rp` and `template` elements.
  - Serialisation by `str(main_content)` (line 59) is not modelled either.
- Rendering by `html2text`, with the configuration of lines 19-26, is an uninterpreted function `Renderer`, given to the thread's constructor.
- BeautifulSoup node identity is not modelled. Nodes are referred to by their path of child indices. Each pass loop re-finds the first node still to be handled, instead of walking a list collected beforehand. The effect is the same: a node nested in an already detached or replaced node goes away with it.
- A nested anchor is not modelled in BeautifulSoup's own terms. Library behaviour on an anchor already detached with its outer anchor, such as `replace_with` on a node without a parent, is out of scope.
- Paths follow `posixpath`. Windows separators and drive letters are not modelled.
- Conversion.ConversionThread.Run: its ensures state the outputs through the thread's `convert` and `outputPath` fields, not through `Converted` and `OutputPath` directly. `Run` does not require `Valid()` itself. The constructor establishes `Valid()`: those fields are that conversion and that naming rule. `Conversion.ThreadFile` together with `Conversion.TextsAt` and `Conversion.OutputsAt` carries `Run`'s ensures over to `Converted` and `OutputPath` file by file. On the conversion's own terms, `Conversion.ConvertToMarkdown` is the step-by-step method proved to compute `Converted`.
- Conversion.ConversionThread.ProcessFile: the same applies to its `convert` and `outputPath` fields.
