/**
 * `ConversionThread.convert_to_markdown` on an already-parsed document, and
 * the batch loop `ConversionThread.run` over the selected files. Reading and
 * parsing a file, rendering Markdown with html2text, writing an output file
 * and the moment the user cancels come from the outside and are parameters.
 */
module Conversion {
  import opened Wrappers
  import opened Strings
  import opened Tree
  import opened Selection
  import opened Preprocess
  import opened Postprocess
  import opened Naming

  /** `html2text.HTML2Text.handle` applied to the serialised subtree, left uninterpreted. */
  type Renderer = Node -> string

  /**
   * The tree handed to html2text: the selected element with its descendants
   * sanitised. None of them is a script, style, nav, footer, img or a element.
   */
  function RenderedTree(document: seq<Node>): (r: Option<Node>)
    ensures r.None? <==> SelectContent(document).None?
    ensures r.Some? ==> r.value.Element? && (r.value.name == "main" || r.value.name == "body")
    ensures r.Some? ==>
      r.value.name == SelectContent(document).value.name && r.value.classes == SelectContent(document).value.classes
    ensures r.Some? ==>
      (Count(r.value.children, Chrome) == 0 && Count(r.value.children, Image) == 0
       && Count(r.value.children, Anchor) == 0)
  {
    match SelectContent(document)
    case None => None
    case Some(content) =>
      PreprocessedIsClean(content.children);
      Some(Element(content.name, content.classes, Preprocessed(content.children)))
  }

  /** What `convert_to_markdown` returns: `""` without content, else the post-processed rendering. */
  function Converted(document: seq<Node>, render: Renderer): string
  {
    match RenderedTree(document)
    case None => ""
    case Some(tree) => Postprocessed(render(tree))
  }

  /**
   * `convert_to_markdown` after the file has been read and parsed: select,
   * sanitise in place, render, post-process.
   */
  method ConvertToMarkdown(document: seq<Node>, render: Renderer) returns (markdown: string)
    ensures markdown == Converted(document, render)
  {
    var selected := SelectContent(document);
    if selected.None? {
      return "";
    }
    var content := PreprocessHtml(selected.value);
    markdown := render(content);
    markdown := PostprocessMarkdown(markdown);
  }

  /** A document with neither `main` nor `body` converts to the empty text, whatever the renderer does. */
  lemma ConvertedWithoutContent(document: seq<Node>, render: Renderer)
    requires Count(document, IsMain) == 0 && Count(document, IsBody) == 0
    ensures Converted(document, render) == ""
  {
  }

  /**
   * When no line of the rendering is a heading, the converted text holds no
   * run of three newlines and neither starts nor ends with whitespace.
   */
  lemma ConvertedWithoutHeadingsIsTidy(document: seq<Node>, render: Renderer)
    requires RenderedTree(document).Some?
    requires forall line :: line in SplitOn(Tidied(render(RenderedTree(document).value)), '\n') ==> !IsHeading(line)
    ensures !Contains(Converted(document, render), "\n\n\n")
    ensures var r := Converted(document, render); r != [] ==> !IsSpace(r[0]) && !IsSpace(r[|r| - 1])
  {
    var text := render(RenderedTree(document).value);
    PostprocessedWithoutHeadings(text);
    TidiedIsTidy(text);
  }

  /**
   * The outside world `run` meets: `load` opens, reads and parses a file or
   * gives the message of the exception it raises; `writeError` gives the
   * message of the exception opening or writing an output path raises, if
   * any; `cancelledAt` is the first check of `is_cancelled` (one before each
   * file, one after the loop) that reads true.
   */
  datatype Environment = Environment(
    load: string -> Result<seq<Node>>,
    writeError: string -> Option<string>,
    cancelledAt: nat)

  /** What converting one parsed document gives. */
  type Converter = seq<Node> -> string

  /** The separate-mode output path of one input file. */
  function OutputPath(outputDir: string, file: string): (r: string)
    ensures EndsWith(r, OutputName(file))
  {
    PathJoin(outputDir, OutputName(file))
  }

  /** The message of the exception that processing one file raises, if any. */
  function StepError(env: Environment, outputPath: string -> string, merge: bool, file: string): Option<string>
  {
    match env.load(file)
    case Err(message) => Some(message)
    case Ok(_) => if merge then None else env.writeError(outputPath(file))
  }

  /** Processing one file raises nothing. */
  predicate Proceeds(env: Environment, outputPath: string -> string, merge: bool, file: string)
  {
    StepError(env, outputPath, merge, file).None?
  }

  /**
   * The number of files `run` gets through, counting from file `i`: it stops
   * at the first cancellation check that reads true or at the first file that
   * raises, and otherwise at the end of the list.
   */
  function Completed(files: seq<string>, env: Environment, outputPath: string -> string, merge: bool, i: nat): (r: nat)
    requires i <= |files|
    ensures i <= r <= |files|
    decreases |files| - i
  {
    if i == |files| || env.cancelledAt <= i || !Proceeds(env, outputPath, merge, files[i]) then i
    else Completed(files, env, outputPath, merge, i + 1)
  }

  /** Without a cancellation and an exception, every file is converted. */
  lemma {:induction false} CompletedAll(files: seq<string>, env: Environment, outputPath: string -> string, merge: bool, i: nat)
    requires i <= |files| <= env.cancelledAt
    requires forall k :: i <= k < |files| ==> Proceeds(env, outputPath, merge, files[k])
    ensures Completed(files, env, outputPath, merge, i) == |files|
    decreases |files| - i
  {
    if i < |files| {
      CompletedAll(files, env, outputPath, merge, i + 1);
    }
  }

  /** A run that is cancelled before file `cancelledAt` gets through no file from there on. */
  lemma {:induction false} CompletedBeforeCancel(files: seq<string>, env: Environment, outputPath: string -> string, merge: bool, i: nat)
    requires i <= |files| && i <= env.cancelledAt
    ensures Completed(files, env, outputPath, merge, i) <= env.cancelledAt
    decreases |files| - i
  {
    if i < |files| && i < env.cancelledAt && Proceeds(env, outputPath, merge, files[i]) {
      CompletedBeforeCancel(files, env, outputPath, merge, i + 1);
    }
  }

  /**
   * Every file before the stopping point passed its cancellation check and
   * raised nothing; at the stopping point, unless it is the end of the list,
   * the check read true or the file raised.
   */
  lemma {:induction false} CompletedStops(files: seq<string>, env: Environment, outputPath: string -> string, merge: bool, i: nat)
    requires i <= |files|
    ensures var r := Completed(files, env, outputPath, merge, i);
      && (forall k :: i <= k < r ==> k < env.cancelledAt && Proceeds(env, outputPath, merge, files[k]))
      && (r < |files| ==> env.cancelledAt <= r || !Proceeds(env, outputPath, merge, files[r]))
    decreases |files| - i
  {
    if i < |files| && i < env.cancelledAt && Proceeds(env, outputPath, merge, files[i]) {
      CompletedStops(files, env, outputPath, merge, i + 1);
      assert Completed(files, env, outputPath, merge, i) == Completed(files, env, outputPath, merge, i + 1);
    }
  }

  /** The text `run` gets for one file that raises nothing. */
  function FileText(env: Environment, convert: Converter, file: string): string
  {
    match env.load(file)
    case Ok(document) => convert(document)
    case Err(_) => ""
  }

  /** The converted texts of the first `n` files, in order. */
  function Texts(env: Environment, convert: Converter, files: seq<string>, n: nat): (r: seq<string>)
    requires n <= |files|
    ensures |r| == n
  {
    if n == 0 then [] else Texts(env, convert, files, n - 1) + [FileText(env, convert, files[n - 1])]
  }

  /** The files written in separate mode for the first `n` files: each output path with its text, in order. */
  function Outputs(env: Environment, convert: Converter, outputPath: string -> string, files: seq<string>, n: nat): (r: seq<(string, string)>)
    requires n <= |files|
    ensures |r| == n
  {
    if n == 0 then []
    else Outputs(env, convert, outputPath, files, n - 1) + [(outputPath(files[n - 1]), FileText(env, convert, files[n - 1]))]
  }

  /** The progress signals for the first `n` files out of `total`. */
  function Progress(n: nat, total: nat): (r: seq<(nat, nat)>)
    ensures |r| == n
  {
    if n == 0 then [] else Progress(n - 1, total) + [(n, total)]
  }

  /** The `k`-th progress signal reports `k + 1` files done out of `total`. */
  lemma {:induction false} ProgressAt(n: nat, total: nat, k: nat)
    requires k < n
    ensures Progress(n, total)[k] == (k + 1, total)
    decreases n
  {
    if k < n - 1 {
      ProgressAt(n - 1, total, k);
    }
  }

  /** What `run` has produced so far: the kept texts, the written files and the progress signals. */
  datatype Record = Record(merged: seq<string>, written: seq<(string, string)>, progress: seq<(nat, nat)>)

  /** What processing file `i` of `total`, which raises nothing, adds to the record. */
  function Step(r: Record, env: Environment, convert: Converter, outputPath: string -> string, merge: bool,
                file: string, i: nat, total: nat): Record
  {
    var text := FileText(env, convert, file);
    Record(
      r.merged + (if merge then [text] else []),
      r.written + (if merge then [] else [(outputPath(file), text)]),
      r.progress + [(i + 1, total)])
  }

  /** The record after the first `n` files have been processed, starting from `start`. */
  function Replay(start: Record, env: Environment, convert: Converter, outputPath: string -> string, merge: bool,
                  files: seq<string>, n: nat): Record
    requires n <= |files|
  {
    if n == 0 then start
    else Step(Replay(start, env, convert, outputPath, merge, files, n - 1), env, convert, outputPath, merge, files[n - 1], n - 1, |files|)
  }

  /**
   * After `n` files, the kept texts are the texts of those files in merge
   * mode, the written files are their paths and texts otherwise, and there is
   * one progress signal per file.
   */
  lemma {:induction false} ReplayParts(start: Record, env: Environment, convert: Converter, outputPath: string -> string,
                                       merge: bool, files: seq<string>, n: nat)
    requires n <= |files|
    ensures Replay(start, env, convert, outputPath, merge, files, n)
      == Record(start.merged + (if merge then Texts(env, convert, files, n) else []),
                start.written + (if merge then [] else Outputs(env, convert, outputPath, files, n)),
                start.progress + Progress(n, |files|))
  {
    if n > 0 {
      ReplayParts(start, env, convert, outputPath, merge, files, n - 1);
      var text := FileText(env, convert, files[n - 1]);
      assert start.merged + (if merge then Texts(env, convert, files, n - 1) else []) + (if merge then [text] else [])
        == start.merged + (if merge then Texts(env, convert, files, n) else []);
      assert start.written + (if merge then [] else Outputs(env, convert, outputPath, files, n - 1))
          + (if merge then [] else [(outputPath(files[n - 1]), text)])
        == start.written + (if merge then [] else Outputs(env, convert, outputPath, files, n));
      assert start.progress + Progress(n - 1, |files|) + [(n, |files|)] == start.progress + Progress(n, |files|);
    }
  }

  /** The text `run` gets for one file, in terms of `convert_to_markdown` itself. */
  function ConvertedFile(env: Environment, render: Renderer, file: string): string
  {
    match env.load(file)
    case Ok(document) => Converted(document, render)
    case Err(_) => ""
  }

  /** Text `k` kept in merge mode is the text of file `k`. */
  lemma {:induction false} TextsAt(env: Environment, convert: Converter, files: seq<string>, n: nat)
    requires n <= |files|
    ensures forall k :: 0 <= k < n ==> Texts(env, convert, files, n)[k] == FileText(env, convert, files[k])
  {
    if n > 0 {
      TextsAt(env, convert, files, n - 1);
    }
  }

  /** File `k` written in separate mode goes to the output path of file `k`, with its text. */
  lemma {:induction false} OutputsAt(env: Environment, convert: Converter, outputPath: string -> string, files: seq<string>, n: nat)
    requires n <= |files|
    ensures forall k :: 0 <= k < n ==>
      Outputs(env, convert, outputPath, files, n)[k] == (outputPath(files[k]), FileText(env, convert, files[k]))
  {
    if n > 0 {
      OutputsAt(env, convert, outputPath, files, n - 1);
    }
  }

  /**
   * For a thread whose conversion and naming are those its constructor sets,
   * the text of a file is `convert_to_markdown` of it and its output path is
   * the line-40 path.
   */
  lemma ThreadFile(t: ConversionThread, env: Environment, file: string)
    requires t.Valid()
    ensures FileText(env, t.convert, file) == ConvertedFile(env, t.render, file)
    ensures t.outputPath(file) == OutputPath(t.outputDir, file)
  {
    if env.load(file).Ok? {
      assert t.convert(env.load(file).value) == Converted(env.load(file).value, t.render);
    }
  }

  /** The conversion thread: its settings and the signals and outputs it produces. */
  class ConversionThread {
    const files: seq<string>
    const outputDir: string
    const merge: bool
    /** `self.h.handle`: the html2text instance the constructor configures. */
    const render: Renderer
    /** `convert_to_markdown` after the file is read and parsed, with this thread's renderer. */
    const convert: Converter
    /** The separate-mode naming rule for this thread's output directory. */
    const outputPath: string -> string
    /** `merged_content`: the converted texts, kept for the merged file. */
    var mergedContent: seq<string>
    /** The output files written in separate mode, as (path, text), in order. */
    var written: seq<(string, string)>
    /** The `progress` signals emitted, as (files done, total). */
    var progress: seq<(nat, nat)>
    /** Whether `finished` was emitted. */
    var finished: bool
    /** The message of the `error` signal, if it was emitted. */
    var error: Option<string>

    /** `convert` and `outputPath` are the conversion and the naming rule of this thread. */
    ghost predicate Valid()
    {
      && (forall document {:trigger Converted(document, render)} :: convert(document) == Converted(document, render))
      && (forall file {:trigger OutputPath(outputDir, file)} :: outputPath(file) == OutputPath(outputDir, file))
    }

    /** The thread's outputs so far. */
    function Recorded(): Record
      reads this
    {
      Record(mergedContent, written, progress)
    }

    constructor (files: seq<string>, outputDir: string, merge: bool, render: Renderer)
      ensures this.files == files && this.outputDir == outputDir && this.merge == merge && this.render == render
      ensures Valid()
      ensures mergedContent == [] && written == [] && progress == []
      ensures !finished && error.None?
    {
      this.files := files;
      this.outputDir := outputDir;
      this.merge := merge;
      this.render := render;
      this.convert := document => Converted(document, render);
      this.outputPath := file => OutputPath(outputDir, file);
      mergedContent := [];
      written := [];
      progress := [];
      finished := false;
      error := None;
    }

    /**
     * One turn of the loop in `run` for file `i`: load and convert it, then
     * keep its text (merge mode) or write it to its output path, then signal
     * progress. An exception leaves the outputs and the signals as they were.
     */
    method ProcessFile(env: Environment, i: nat) returns (raised: Option<string>)
      requires i < |files|
      modifies this
      ensures raised == StepError(env, outputPath, merge, files[i])
      ensures Recorded() == if raised.Some? then old(Recorded()) else Step(old(Recorded()), env, convert, outputPath, merge, files[i], i, |files|)
      ensures error == old(error) && finished == old(finished)
    {
      var file := files[i];
      var loaded := env.load(file);
      if loaded.Err? {
        raised := Some(loaded.message);
      } else {
        var content := convert(loaded.value);
        raised := None;
        if merge {
          mergedContent := mergedContent + [content];
        } else {
          var path := outputPath(file);
          raised := env.writeError(path);
          if raised.None? {
            written := written + [(path, content)];
          }
        }
        if raised.None? {
          progress := progress + [(i + 1, |files|)];
        }
      }
    }

    /**
     * The loop of `run`: convert the files in order until a cancellation
     * check reads true or a file raises. `done` is the number of files got
     * through and `raised` the message of the exception that ended the loop,
     * if any.
     */
    method ConvertFiles(env: Environment) returns (done: nat, raised: Option<string>)
      modifies this
      ensures done == Completed(files, env, outputPath, merge, 0)
      ensures raised == (if done < |files| && done < env.cancelledAt then StepError(env, outputPath, merge, files[done]) else None)
      ensures Recorded() == Replay(old(Recorded()), env, convert, outputPath, merge, files, done)
      ensures error == old(error) && finished == old(finished)
    {
      done := 0;
      raised := None;
      while done < |files|
        invariant done <= |files|
        invariant Completed(files, env, outputPath, merge, done) == Completed(files, env, outputPath, merge, 0)
        invariant Recorded() == Replay(old(Recorded()), env, convert, outputPath, merge, files, done)
        invariant error == old(error) && finished == old(finished)
        invariant raised.None?
      {
        if env.cancelledAt <= done {
          return;
        }
        raised := ProcessFile(env, done);
        if raised.Some? {
          return;
        }
        done := done + 1;
      }
    }

    /**
     * `run`: the loop over the files, then the error signal if a file raised,
     * or else `finished` unless the last cancellation check reads true. In
     * merge mode each text is kept; otherwise it is written to its own file.
     * A progress signal follows every converted file.
     */
    method Run(env: Environment)
      modifies this
      ensures var n := Completed(files, env, outputPath, merge, 0);
        && mergedContent == old(mergedContent) + (if merge then Texts(env, convert, files, n) else [])
        && written == old(written) + (if merge then [] else Outputs(env, convert, outputPath, files, n))
        && progress == old(progress) + Progress(n, |files|)
        && error == (if n < |files| && n < env.cancelledAt then StepError(env, outputPath, merge, files[n]) else old(error))
        && finished == (old(finished) || (n == |files| && |files| < env.cancelledAt))
    {
      var done, raised := ConvertFiles(env);
      ReplayParts(old(Recorded()), env, convert, outputPath, merge, files, done);
      CompletedStops(files, env, outputPath, merge, 0);
      if raised.Some? {
        error := raised;
      } else if |files| < env.cancelledAt {
        finished := true;
      }
    }
  }
}
