/**
 * `ConversionThread.preprocess_html`: four passes that rewrite the descendants
 * of the selected node in place, in this order: detach every script, style,
 * nav and footer element with its subtree; rename elements marked with the
 * documentation's `unity-` classes; replace every anchor by its text; detach
 * every image. The selected node itself is never visited.
 *
 * Each pass is a loop that edits the tree one node at a time, at the path of
 * the first node in document order still to be handled, and is proved equal
 * to a recursive definition of what the whole pass does.
 */
module Preprocess {
  import opened Wrappers
  import opened Tree
  import opened Strings

  /** The filter of `soup(['script', 'style', 'nav', 'footer'])`. */
  predicate Chrome(name: string, classes: seq<string>)
  {
    name == "script" || name == "style" || name == "nav" || name == "footer"
  }

  /** The filter of `soup.find_all('a')`. */
  predicate Anchor(name: string, classes: seq<string>)
  {
    name == "a"
  }

  /** The filter of `soup.find_all('img')`. */
  predicate Image(name: string, classes: seq<string>)
  {
    name == "img"
  }

  /** The filter of `soup.find_all(class_=re.compile('unity-'))`: some class token contains `unity-`. */
  predicate UnityMarked(name: string, classes: seq<string>)
  {
    exists i :: 0 <= i < |classes| && Contains(classes[i], "unity-")
  }

  /** The tag name an element has after the retagging pass. */
  function RetagName(name: string, classes: seq<string>): string
  {
    if UnityMarked(name, classes) then
      if "unity-code-block" in classes then "pre"
      else if "unity-note" in classes then "blockquote"
      else name
    else name
  }

  /** An element that the retagging pass still has to rename. */
  predicate Mislabelled(name: string, classes: seq<string>)
  {
    RetagName(name, classes) != name
  }

  // ---------------------------------------------------------------------------
  // What each pass does, as a recursive definition over the forest of descendants

  /** The forest without every element that `f` selects, each taken away with its subtree. */
  function Pruned(ns: seq<Node>, f: TagFilter): seq<Node>
    decreases ns
  {
    if ns == [] then []
    else
      (match ns[0]
       case Text(_) => [ns[0]]
       case Element(name, classes, children) =>
         if f(name, classes) then [] else [Element(name, classes, Pruned(children, f))])
      + Pruned(ns[1..], f)
  }

  /** The forest with every element renamed by RetagName, and nothing else changed. */
  function Retagged(ns: seq<Node>): (r: seq<Node>)
    ensures |r| == |ns|
    decreases ns
  {
    if ns == [] then []
    else
      [match ns[0]
       case Text(_) => ns[0]
       case Element(name, classes, children) =>
         Element(RetagName(name, classes), classes, Retagged(children))]
      + Retagged(ns[1..])
  }

  /** The forest with every anchor replaced, in its place, by one text run holding the anchor's text. */
  function AnchorsFlattened(ns: seq<Node>): (r: seq<Node>)
    ensures |r| == |ns|
    decreases ns
  {
    if ns == [] then []
    else
      [match ns[0]
       case Text(_) => ns[0]
       case Element(name, classes, children) =>
         if Anchor(name, classes) then Text(TextOf(children))
         else Element(name, classes, AnchorsFlattened(children))]
      + AnchorsFlattened(ns[1..])
  }

  /** The four passes of `preprocess_html`, in their order. */
  function Preprocessed(ns: seq<Node>): seq<Node>
  {
    Pruned(AnchorsFlattened(Retagged(Pruned(ns, Chrome))), Image)
  }

  // ---------------------------------------------------------------------------
  // Each definition works sibling by sibling

  lemma {:induction false} PrunedAppend(a: seq<Node>, b: seq<Node>, f: TagFilter)
    ensures Pruned(a + b, f) == Pruned(a, f) + Pruned(b, f)
    decreases a
  {
    if a == [] {
      assert a + b == b;
    } else {
      assert (a + b)[0] == a[0] && (a + b)[1..] == a[1..] + b;
      PrunedAppend(a[1..], b, f);
    }
  }

  lemma {:induction false} RetaggedAppend(a: seq<Node>, b: seq<Node>)
    ensures Retagged(a + b) == Retagged(a) + Retagged(b)
    decreases a
  {
    if a == [] {
      assert a + b == b;
    } else {
      assert (a + b)[0] == a[0] && (a + b)[1..] == a[1..] + b;
      RetaggedAppend(a[1..], b);
    }
  }

  lemma {:induction false} AnchorsFlattenedAppend(a: seq<Node>, b: seq<Node>)
    ensures AnchorsFlattened(a + b) == AnchorsFlattened(a) + AnchorsFlattened(b)
    decreases a
  {
    if a == [] {
      assert a + b == b;
    } else {
      assert (a + b)[0] == a[0] && (a + b)[1..] == a[1..] + b;
      AnchorsFlattenedAppend(a[1..], b);
    }
  }

  // ---------------------------------------------------------------------------
  // One step of a pass leaves the outcome of the whole pass unchanged

  /** Detaching an element the filter selects does not change what pruning yields. */
  lemma {:induction false} PrunedRemoveAt(ns: seq<Node>, p: Path, f: TagFilter)
    requires ValidPath(ns, p) && Matches(f, At(ns, p))
    ensures Pruned(RemoveAt(ns, p), f) == Pruned(ns, f)
    decreases p
  {
    var i := p[0];
    Around(ns, i, ns[i]);
    PrunedAppend(ns[..i] + [ns[i]], ns[i + 1..], f);
    PrunedAppend(ns[..i], [ns[i]], f);
    if |p| == 1 {
      PrunedAppend(ns[..i], ns[i + 1..], f);
      assert Pruned([ns[i]], f) == [];
    } else {
      var x := Element(ns[i].name, ns[i].classes, RemoveAt(ns[i].children, p[1..]));
      Around(ns, i, x);
      PrunedAppend(ns[..i] + [x], ns[i + 1..], f);
      PrunedAppend(ns[..i], [x], f);
      PrunedRemoveAt(ns[i].children, p[1..], f);
      assert Pruned([x], f) == Pruned([ns[i]], f);
    }
  }

  /** Replacing a node by one that retags to the same thing does not change what retagging yields. */
  lemma {:induction false} RetaggedReplaceAt(ns: seq<Node>, p: Path, n: Node)
    requires ValidPath(ns, p) && Retagged([n]) == Retagged([At(ns, p)])
    ensures Retagged(ReplaceAt(ns, p, n)) == Retagged(ns)
    decreases p
  {
    var i := p[0];
    var x := if |p| == 1 then n else
      Element(ns[i].name, ns[i].classes, ReplaceAt(ns[i].children, p[1..], n));
    assert ReplaceAt(ns, p, n) == ns[i := x];
    Around(ns, i, x);
    RetaggedAppend(ns[..i] + [ns[i]], ns[i + 1..]);
    RetaggedAppend(ns[..i], [ns[i]]);
    RetaggedAppend(ns[..i] + [x], ns[i + 1..]);
    RetaggedAppend(ns[..i], [x]);
    if |p| > 1 {
      RetaggedReplaceAt(ns[i].children, p[1..], n);
      assert Retagged([x]) == Retagged([ns[i]]);
    }
  }

  /** Replacing a node by one that flattens to the same thing does not change what flattening yields. */
  lemma {:induction false} AnchorsFlattenedReplaceAt(ns: seq<Node>, p: Path, n: Node)
    requires ValidPath(ns, p) && AnchorsFlattened([n]) == AnchorsFlattened([At(ns, p)])
    requires AncestorsAvoid(ns, p, Anchor)
    ensures AnchorsFlattened(ReplaceAt(ns, p, n)) == AnchorsFlattened(ns)
    decreases p
  {
    var i := p[0];
    var x := if |p| == 1 then n else
      Element(ns[i].name, ns[i].classes, ReplaceAt(ns[i].children, p[1..], n));
    assert ReplaceAt(ns, p, n) == ns[i := x];
    Around(ns, i, x);
    AnchorsFlattenedAppend(ns[..i] + [ns[i]], ns[i + 1..]);
    AnchorsFlattenedAppend(ns[..i], [ns[i]]);
    AnchorsFlattenedAppend(ns[..i] + [x], ns[i + 1..]);
    AnchorsFlattenedAppend(ns[..i], [x]);
    if |p| > 1 {
      AnchorsFlattenedReplaceAt(ns[i].children, p[1..], n);
      assert AnchorsFlattened([x]) == AnchorsFlattened([ns[i]]);
    }
  }

  // ---------------------------------------------------------------------------
  // A pass with nothing left to handle changes nothing

  lemma {:induction false} PrunedNothing(ns: seq<Node>, f: TagFilter)
    requires Count(ns, f) == 0
    ensures Pruned(ns, f) == ns
    decreases ns
  {
    if ns != [] {
      if ns[0].Element? {
        PrunedNothing(ns[0].children, f);
      }
      PrunedNothing(ns[1..], f);
      assert ns == [ns[0]] + ns[1..];
    }
  }

  lemma {:induction false} RetaggedNothing(ns: seq<Node>)
    requires Count(ns, Mislabelled) == 0
    ensures Retagged(ns) == ns
    decreases ns
  {
    if ns != [] {
      if ns[0].Element? {
        RetaggedNothing(ns[0].children);
      }
      RetaggedNothing(ns[1..]);
      assert ns == [ns[0]] + ns[1..];
    }
  }

  lemma {:induction false} AnchorsFlattenedNothing(ns: seq<Node>)
    requires Count(ns, Anchor) == 0
    ensures AnchorsFlattened(ns) == ns
    decreases ns
  {
    if ns != [] {
      if ns[0].Element? {
        AnchorsFlattenedNothing(ns[0].children);
      }
      AnchorsFlattenedNothing(ns[1..]);
      assert ns == [ns[0]] + ns[1..];
    }
  }

  // ---------------------------------------------------------------------------
  // The retagging rule

  /**
   * The `unity-` filter adds nothing to the two exact tests: an element whose
   * class tokens include `unity-code-block` becomes `pre` (whether or not they
   * also include `unity-note`), one with `unity-note` and no `unity-code-block`
   * becomes `blockquote`, and every other element keeps its name.
   */
  lemma RetagNameRule(name: string, classes: seq<string>)
    ensures RetagName(name, classes) ==
      if "unity-code-block" in classes then "pre"
      else if "unity-note" in classes then "blockquote"
      else name
  {
    if "unity-code-block" in classes {
      var i :| 0 <= i < |classes| && classes[i] == "unity-code-block";
      assert classes[i][..6] == "unity-";
      assert UnityMarked(name, classes);
    } else if "unity-note" in classes {
      var i :| 0 <= i < |classes| && classes[i] == "unity-note";
      assert classes[i][..6] == "unity-";
      assert UnityMarked(name, classes);
    }
  }

  /** Renaming an element once is enough: a renamed element is not renamed again. */
  lemma RetagNameSettled(name: string, classes: seq<string>)
    ensures !Mislabelled(RetagName(name, classes), classes)
  {
    RetagNameRule(name, classes);
    RetagNameRule(RetagName(name, classes), classes);
  }

  // ---------------------------------------------------------------------------
  // The passes, as loops over the nodes they handle, in document order

  /**
   * `for element in soup(names): element.decompose()`: detach, one at a time,
   * the first element in document order that `f` selects, until none is left.
   */
  method DecomposeAll(nodes: seq<Node>, f: TagFilter) returns (r: seq<Node>)
    ensures r == Pruned(nodes, f)
  {
    r := nodes;
    var hit := FindFirst(r, f);
    while hit.Some?
      invariant hit == FindFirst(r, f)
      invariant Pruned(r, f) == Pruned(nodes, f)
      decreases Count(r, f)
    {
      PrunedRemoveAt(r, hit.value, f);
      CountRemoveAt(r, hit.value, f);
      r := RemoveAt(r, hit.value);
      hit := FindFirst(r, f);
    }
    PrunedNothing(r, f);
  }

  /**
   * The `unity-` loop: rename, one at a time, the first element in document
   * order whose name is not yet the one RetagName gives it.
   */
  method RetagMarked(nodes: seq<Node>) returns (r: seq<Node>)
    ensures r == Retagged(nodes)
  {
    r := nodes;
    var hit := FindFirst(r, Mislabelled);
    while hit.Some?
      invariant hit == FindFirst(r, Mislabelled)
      invariant Retagged(r) == Retagged(nodes)
      decreases Count(r, Mislabelled)
    {
      var e := At(r, hit.value);
      var renamed := Element(RetagName(e.name, e.classes), e.classes, e.children);
      RetagNameSettled(e.name, e.classes);
      RetagNameRule(e.name, e.classes);
      RetaggedReplaceAt(r, hit.value, renamed);
      CountReplaceAt(r, hit.value, renamed, Mislabelled);
      r := ReplaceAt(r, hit.value, renamed);
      hit := FindFirst(r, Mislabelled);
    }
    RetaggedNothing(r);
  }

  /**
   * `for a in soup.find_all('a'): a.replace_with(a.text)`: replace, one at a
   * time, the first anchor in document order by a text run holding its text.
   * Anchors nested in it go away with it, as they do when the outer anchor is
   * detached first.
   */
  method ReplaceAnchors(nodes: seq<Node>) returns (r: seq<Node>)
    ensures r == AnchorsFlattened(nodes)
  {
    r := nodes;
    var hit := FindFirst(r, Anchor);
    while hit.Some?
      invariant hit == FindFirst(r, Anchor)
      invariant AnchorsFlattened(r) == AnchorsFlattened(nodes)
      decreases Count(r, Anchor)
    {
      var a := At(r, hit.value);
      var flat := Text(TextOf(a.children));
      AnchorsFlattenedReplaceAt(r, hit.value, flat);
      CountReplaceAt(r, hit.value, flat, Anchor);
      r := ReplaceAt(r, hit.value, flat);
      hit := FindFirst(r, Anchor);
    }
    AnchorsFlattenedNothing(r);
  }

  /** `preprocess_html` on the selected element: its descendants go through the four passes. */
  method PreprocessHtml(content: Node) returns (r: Node)
    requires content.Element?
    ensures r == Element(content.name, content.classes, Preprocessed(content.children))
  {
    var nodes := DecomposeAll(content.children, Chrome);
    nodes := RetagMarked(nodes);
    nodes := ReplaceAnchors(nodes);
    nodes := DecomposeAll(nodes, Image);
    r := Element(content.name, content.classes, nodes);
  }

  // ---------------------------------------------------------------------------
  // What the passes guarantee

  /** After pruning, no element the filter selects is left at any depth. */
  lemma {:induction false} PrunedLeavesNone(ns: seq<Node>, f: TagFilter)
    ensures Count(Pruned(ns, f), f) == 0
    decreases ns
  {
    if ns != [] {
      var head := match ns[0]
        case Text(_) => [ns[0]]
        case Element(name, classes, children) =>
          if f(name, classes) then [] else [Element(name, classes, Pruned(children, f))];
      CountAppend(head, Pruned(ns[1..], f), f);
      if ns[0].Element? {
        PrunedLeavesNone(ns[0].children, f);
      }
      PrunedLeavesNone(ns[1..], f);
    }
  }

  /** Pruning only takes nodes away: no filter selects more elements afterwards. */
  lemma {:induction false} PrunedCountBound(ns: seq<Node>, f: TagFilter, g: TagFilter)
    ensures Count(Pruned(ns, f), g) <= Count(ns, g)
    decreases ns
  {
    if ns != [] {
      var head := match ns[0]
        case Text(_) => [ns[0]]
        case Element(name, classes, children) =>
          if f(name, classes) then [] else [Element(name, classes, Pruned(children, f))];
      CountAppend(head, Pruned(ns[1..], f), g);
      if ns[0].Element? {
        PrunedCountBound(ns[0].children, f, g);
      }
      PrunedCountBound(ns[1..], f, g);
    }
  }

  /** Flattening only turns elements into text: no filter selects more elements afterwards. */
  lemma {:induction false} AnchorsFlattenedCountBound(ns: seq<Node>, g: TagFilter)
    ensures Count(AnchorsFlattened(ns), g) <= Count(ns, g)
    decreases ns
  {
    if ns != [] {
      CountAppend([AnchorsFlattened(ns)[0]], AnchorsFlattened(ns[1..]), g);
      assert AnchorsFlattened(ns) == [AnchorsFlattened(ns)[0]] + AnchorsFlattened(ns[1..]);
      if ns[0].Element? {
        AnchorsFlattenedCountBound(ns[0].children, g);
      }
      AnchorsFlattenedCountBound(ns[1..], g);
    }
  }

  /** After flattening, no anchor is left at any depth. */
  lemma {:induction false} AnchorsFlattenedLeavesNone(ns: seq<Node>)
    ensures Count(AnchorsFlattened(ns), Anchor) == 0
    decreases ns
  {
    if ns != [] {
      CountAppend([AnchorsFlattened(ns)[0]], AnchorsFlattened(ns[1..]), Anchor);
      assert AnchorsFlattened(ns) == [AnchorsFlattened(ns)[0]] + AnchorsFlattened(ns[1..]);
      if ns[0].Element? {
        AnchorsFlattenedLeavesNone(ns[0].children);
      }
      AnchorsFlattenedLeavesNone(ns[1..]);
    }
  }

  /** Retagging names elements `pre` or `blockquote`, so it creates no script, style, nav or footer. */
  lemma {:induction false} RetaggedChromeBound(ns: seq<Node>)
    ensures Count(Retagged(ns), Chrome) <= Count(ns, Chrome)
    decreases ns
  {
    if ns != [] {
      CountAppend([Retagged(ns)[0]], Retagged(ns[1..]), Chrome);
      assert Retagged(ns) == [Retagged(ns)[0]] + Retagged(ns[1..]);
      if ns[0].Element? {
        RetagNameRule(ns[0].name, ns[0].classes);
        RetaggedChromeBound(ns[0].children);
      }
      RetaggedChromeBound(ns[1..]);
    }
  }

  /**
   * After `preprocess_html` no descendant of the selected node is a script,
   * style, nav, footer, image or anchor element.
   */
  lemma PreprocessedIsClean(ns: seq<Node>)
    ensures Count(Preprocessed(ns), Chrome) == 0
    ensures Count(Preprocessed(ns), Image) == 0
    ensures Count(Preprocessed(ns), Anchor) == 0
  {
    var stripped := Pruned(ns, Chrome);
    var flat := AnchorsFlattened(Retagged(stripped));
    PrunedLeavesNone(ns, Chrome);
    RetaggedChromeBound(stripped);
    AnchorsFlattenedCountBound(Retagged(stripped), Chrome);
    PrunedCountBound(flat, Image, Chrome);
    PrunedLeavesNone(flat, Image);
    AnchorsFlattenedLeavesNone(Retagged(stripped));
    PrunedCountBound(flat, Image, Anchor);
  }

  /** Retagging renames only: the text of the forest is what it was. */
  lemma {:induction false} RetaggedKeepsText(ns: seq<Node>)
    ensures TextOf(Retagged(ns)) == TextOf(ns)
    decreases ns
  {
    if ns != [] {
      TextOfAppend([Retagged(ns)[0]], Retagged(ns[1..]));
      assert Retagged(ns) == [Retagged(ns)[0]] + Retagged(ns[1..]);
      if ns[0].Element? {
        RetaggedKeepsText(ns[0].children);
      }
      RetaggedKeepsText(ns[1..]);
    }
  }

  /** Flattening anchors keeps every character of text, in order: only the markup goes. */
  lemma {:induction false} AnchorsFlattenedKeepsText(ns: seq<Node>)
    ensures TextOf(AnchorsFlattened(ns)) == TextOf(ns)
    decreases ns
  {
    if ns != [] {
      TextOfAppend([AnchorsFlattened(ns)[0]], AnchorsFlattened(ns[1..]));
      assert AnchorsFlattened(ns) == [AnchorsFlattened(ns)[0]] + AnchorsFlattened(ns[1..]);
      if ns[0].Element? {
        AnchorsFlattenedKeepsText(ns[0].children);
      }
      AnchorsFlattenedKeepsText(ns[1..]);
    }
  }

  /** Retagging a second time changes nothing. */
  lemma {:induction false} RetaggedIdempotent(ns: seq<Node>)
    ensures Retagged(Retagged(ns)) == Retagged(ns)
    decreases ns
  {
    if ns != [] {
      assert Retagged(ns) == [Retagged(ns)[0]] + Retagged(ns[1..]);
      RetaggedAppend([Retagged(ns)[0]], Retagged(ns[1..]));
      if ns[0].Element? {
        RetagNameSettled(ns[0].name, ns[0].classes);
        RetaggedIdempotent(ns[0].children);
      }
      RetaggedIdempotent(ns[1..]);
    }
  }

  /** Each anchor is replaced by exactly one text run, at the anchor's own position among its siblings. */
  lemma {:induction false} AnchorReplacedInPlace(ns: seq<Node>, i: nat)
    requires i < |ns| && Matches(Anchor, ns[i])
    ensures |AnchorsFlattened(ns)| == |ns|
    ensures AnchorsFlattened(ns)[i] == Text(TextOf(ns[i].children))
    decreases i
  {
    if i > 0 {
      AnchorReplacedInPlace(ns[1..], i - 1);
    }
  }

  /**
   * An element marked `unity-code-block` or `unity-note` that the first pass
   * keeps is renamed before the anchor and image passes run, so an anchor or
   * an image so marked stays an element, now `pre` or `blockquote`, with its
   * classes, instead of becoming a text run or being detached.
   */
  lemma MarkedElementSurvives(name: string, classes: seq<string>, children: seq<Node>)
    requires !Chrome(name, classes)
    requires "unity-code-block" in classes || "unity-note" in classes
    ensures var r := Preprocessed([Element(name, classes, children)]);
      |r| == 1 && r[0].Element? && r[0].classes == classes
      && r[0].name == (if "unity-code-block" in classes then "pre" else "blockquote")
  {
    var tag := if "unity-code-block" in classes then "pre" else "blockquote";
    RetagNameRule(name, classes);
    var kept := Pruned(children, Chrome);
    assert Pruned([Element(name, classes, children)], Chrome) == [Element(name, classes, kept)] by {
      assert [Element(name, classes, children)][1..] == [];
    }
    var renamed := Element(tag, classes, Retagged(kept));
    assert Retagged([Element(name, classes, kept)]) == [renamed] by {
      assert [Element(name, classes, kept)][1..] == [];
    }
    var flat := Element(tag, classes, AnchorsFlattened(Retagged(kept)));
    assert AnchorsFlattened([renamed]) == [flat] by {
      assert [renamed][1..] == [];
    }
    assert Pruned([flat], Image) == [Element(tag, classes, Pruned(flat.children, Image))] by {
      assert [flat][1..] == [];
    }
  }

  /**
   * Inside an anchor that is not itself marked nothing survives as an element,
   * a marked one included: once the chrome is gone, the anchor pass replaces
   * the whole anchor, with all it holds, by one text run of its text.
   */
  lemma MarkedInsideAnchorFlattened(classes: seq<string>, children: seq<Node>)
    requires "unity-code-block" !in classes && "unity-note" !in classes
    ensures Preprocessed([Element("a", classes, children)]) == [Text(TextOf(Pruned(children, Chrome)))]
  {
    var kept := Pruned(children, Chrome);
    assert Pruned([Element("a", classes, children)], Chrome) == [Element("a", classes, kept)] by {
      assert [Element("a", classes, children)][1..] == [];
    }
    RetagNameRule("a", classes);
    assert Retagged([Element("a", classes, kept)]) == [Element("a", classes, Retagged(kept))] by {
      assert [Element("a", classes, kept)][1..] == [];
    }
    RetaggedKeepsText(kept);
    var t := Text(TextOf(kept));
    assert AnchorsFlattened([Element("a", classes, Retagged(kept))]) == [t] by {
      assert [Element("a", classes, Retagged(kept))][1..] == [];
    }
    assert Pruned([t], Image) == [t] by {
      assert [t][1..] == [];
    }
  }

}
