/**
 * Output file names and the merged document: the separate-mode name
 * `splitext(basename(file))[0] + ".md"` and `os.path.join` in
 * `ConversionThread.run`, and the `.md` suffix rule and the separator join in
 * `Unity2Markdown.get_merge_filename`. Paths follow `posixpath`.
 */
module Naming {
  import opened Wrappers
  import opened Strings

  /** `os.path.basename`: what follows the last `/`, or all of `path` when it has none. */
  function Basename(path: string): (r: string)
    ensures '/' !in r && EndsWith(path, r)
    ensures |r| < |path| ==> path[|path| - |r| - 1] == '/'
    decreases |path|
  {
    if path == [] || path[|path| - 1] == '/' then []
    else
      var front := path[..|path| - 1];
      var b := Basename(front);
      SnocSuffix(path, |b|);
      b + [path[|path| - 1]]
  }

  /** The position of the last `.` in `s`. */
  function LastDot(s: string): (r: Option<nat>)
    ensures r.None? <==> '.' !in s
    ensures r.Some? ==> r.value < |s| && s[r.value] == '.' && '.' !in s[r.value + 1..]
    decreases |s|
  {
    if s == [] then None
    else if s[|s| - 1] == '.' then Some(|s| - 1)
    else
      var front := s[..|s| - 1];
      assert s == front + [s[|s| - 1]];
      match LastDot(front)
      case None => None
      case Some(i) =>
        assert s[i + 1..] == front[i + 1..] + [s[|s| - 1]];
        Some(i)
  }

  predicate AllDots(s: string)
  {
    forall k :: 0 <= k < |s| ==> s[k] == '.'
  }

  /**
   * `os.path.splitext` on a name without `/`: the extension runs from the last
   * `.` to the end, unless nothing but dots comes before that `.`, in which
   * case there is no extension (so `.x` and `..` keep their dots).
   */
  function SplitExt(name: string): (r: (string, string))
    ensures r.0 + r.1 == name
    ensures r.1 != [] ==> r.1[0] == '.' && '.' !in r.1[1..] && !AllDots(r.0)
  {
    match LastDot(name)
    case Some(i) =>
      if AllDots(name[..i]) then (name, [])
      else
        assert name[..i] + name[i..] == name;
        assert name[i..][1..] == name[i + 1..];
        (name[..i], name[i..])
    case None => (name, [])
  }

  /** The extension is empty exactly when every `.` in the name has only dots before it. */
  lemma SplitExtEmpty(name: string)
    ensures SplitExt(name).1 == [] <==> forall i :: 0 <= i < |name| && name[i] == '.' ==> AllDots(name[..i])
  {
    match LastDot(name)
    case None =>
    case Some(j) =>
      if !AllDots(name[..j]) {
        assert name[j] == '.';
      } else {
        forall i | 0 <= i < |name| && name[i] == '.'
          ensures AllDots(name[..i])
        {
          assert forall k :: 0 <= k < i ==> name[..i][k] == name[..j][k];
        }
      }
  }

  /** The separate-mode output name of one input file (line 40). */
  function OutputName(file: string): (r: string)
    ensures EndsWith(r, ".md") && '/' !in r
  {
    SplitExt(Basename(file)).0 + ".md"
  }

  /** For `dir/stem.ext` with a real stem, the output name is `stem.md`: only the last extension goes. */
  lemma OutputNameDropsExtension(dir: string, stem: string, ext: string)
    requires dir == [] || dir[|dir| - 1] == '/'
    requires '/' !in stem && !AllDots(stem)
    requires '/' !in ext && '.' !in ext
    ensures OutputName(dir + stem + "." + ext) == stem + ".md"
  {
    var name := stem + "." + ext;
    assert dir + stem + "." + ext == dir + name;
    assert Basename(dir + name) == name by {
      BasenameAfter(dir, name);
    }
    SplitExtAt(stem, ext);
  }

  lemma SplitExtAt(stem: string, ext: string)
    requires !AllDots(stem) && '.' !in ext
    ensures SplitExt(stem + "." + ext) == (stem, "." + ext)
  {
    var name := stem + "." + ext;
    LastDotAfter(stem, ext);
    assert name[..|stem|] == stem;
    assert name[|stem|..] == "." + ext;
  }

  /** A name made of dots and then a dot-free word keeps its dots, as in `.x` becoming `.x.md`. */
  lemma OutputNameKeepsLeadingDot(dir: string, word: string)
    requires dir == [] || dir[|dir| - 1] == '/'
    requires '/' !in word && '.' !in word
    ensures OutputName(dir + "." + word) == "." + word + ".md"
  {
    var name := "." + word;
    assert dir + "." + word == dir + name;
    assert Basename(dir + name) == name by {
      BasenameAfter(dir, name);
    }
    SplitExtLeadingDot(word);
  }

  lemma SplitExtLeadingDot(word: string)
    requires '.' !in word
    ensures SplitExt("." + word) == ("." + word, "")
  {
    var name := "." + word;
    LastDotAfter("", word);
    assert "" + "." + word == name;
    assert AllDots(name[..0]);
  }

  lemma {:induction false} BasenameAfter(dir: string, name: string)
    requires dir == [] || dir[|dir| - 1] == '/'
    requires '/' !in name
    ensures Basename(dir + name) == name
    decreases |name|
  {
    if name == [] {
      assert dir + name == dir;
    } else {
      var last := name[|name| - 1];
      assert (dir + name)[..|dir + name| - 1] == dir + name[..|name| - 1];
      BasenameAfter(dir, name[..|name| - 1]);
      assert name[..|name| - 1] + [last] == name;
    }
  }

  lemma {:induction false} LastDotAfter(stem: string, ext: string)
    requires '.' !in ext
    ensures LastDot(stem + "." + ext) == Some(|stem|)
    decreases |ext|
  {
    var s := stem + "." + ext;
    if ext == [] {
      assert s[|s| - 1] == '.';
    } else {
      assert s[..|s| - 1] == stem + "." + ext[..|ext| - 1];
      LastDotAfter(stem, ext[..|ext| - 1]);
    }
  }

  /** `os.path.join(directory, name)` for a relative `name`. */
  function PathJoin(directory: string, name: string): (r: string)
    ensures EndsWith(r, name)
  {
    if |name| > 0 && name[0] == '/' then name
    else if directory == [] || directory[|directory| - 1] == '/' then directory + name
    else directory + "/" + name
  }

  /** The name of the merged file: `.md` is appended unless the entered name already ends with it. */
  function MergeName(filename: string): (r: string)
    ensures EndsWith(r, ".md")
    ensures r == filename || r == filename + ".md"
    ensures EndsWith(filename, ".md") ==> r == filename
  {
    if EndsWith(filename, ".md") then filename
    else
      assert (filename + ".md")[|filename|..] == ".md";
      filename + ".md"
  }

  /** A name already ending in `.md` is kept, so naming twice is naming once. */
  lemma MergeNameIdempotent(filename: string)
    ensures MergeName(MergeName(filename)) == MergeName(filename)
  {
  }

  /**
   * The path the merged document is written to, when the dialog was accepted
   * with a non-empty name; nothing is written otherwise.
   */
  function MergeTarget(directory: string, filename: string, ok: bool): (r: Option<string>)
    ensures r.None? <==> !ok || filename == []
    ensures r.Some? ==> EndsWith(r.value, MergeName(filename))
  {
    if ok && filename != [] then Some(PathJoin(directory, MergeName(filename))) else None
  }

  const MergeSeparator: string := "\n\n---\n\n"

  /** The merged document: the converted texts in input order, separated by a horizontal rule. */
  function MergedContent(parts: seq<string>): string
  {
    Join(parts, MergeSeparator)
  }

  /** Converting one more file appends a rule and its text; one text alone has no rule. */
  lemma MergedContentAppend(parts: seq<string>, text: string)
    ensures MergedContent([text]) == text
    ensures |parts| >= 1 ==> MergedContent(parts + [text]) == MergedContent(parts) + MergeSeparator + text
  {
    if |parts| >= 1 {
      JoinSnoc(parts, text, MergeSeparator);
    }
  }

  /**
   * The texts stay in input order: the merge of the first `k` texts is a
   * prefix of the merge of all of them, and the next text follows it behind a rule.
   */
  lemma MergedContentPrefix(parts: seq<string>, k: nat)
    requires 0 < k <= |parts|
    ensures MergedContent(parts[..k]) <= MergedContent(parts)
    ensures k < |parts| ==> MergedContent(parts[..k]) + MergeSeparator + parts[k] <= MergedContent(parts)
  {
    if k < |parts| {
      JoinSplitAt(parts, k, MergeSeparator);
      assert parts[k..] == [parts[k]] + parts[k + 1..];
      if k + 1 < |parts| {
        assert Join(parts[k..], MergeSeparator) == parts[k] + MergeSeparator + Join(parts[k + 1..], MergeSeparator);
      }
    } else {
      assert parts[..k] == parts;
    }
  }

  lemma {:induction false} JoinSplitAt(parts: seq<string>, k: nat, sep: string)
    requires 0 < k < |parts|
    ensures Join(parts, sep) == Join(parts[..k], sep) + sep + Join(parts[k..], sep)
    decreases k
  {
    if k > 1 {
      JoinSplitAt(parts[1..], k - 1, sep);
      assert parts[1..][..k - 1] == parts[..k][1..];
      assert parts[1..][k - 1..] == parts[k..];
    } else {
      assert parts[..1] == [parts[0]];
    }
  }
}
