/**
 * An already-parsed HTML document: elements carry their tag name, their class
 * tokens and their children in document order; text runs are leaves.
 * A reference to a node inside a forest is a path of child indices, and the
 * searches below visit nodes in document order (pre-order), as
 * BeautifulSoup's `find` and `find_all` do over a node's descendants.
 */
module Tree {
  import opened Wrappers

  datatype Node =
    | Element(name: string, classes: seq<string>, children: seq<Node>)
    | Text(text: string)

  /** A search filter over an element's tag name and class tokens. */
  type TagFilter = (string, seq<string>) -> bool

  predicate Matches(f: TagFilter, n: Node)
  {
    n.Element? && f(n.name, n.classes)
  }

  /** Child indices leading from a forest to one of its nodes. */
  type Path = seq<nat>

  predicate ValidPath(ns: seq<Node>, p: Path)
    decreases p
  {
    |p| > 0 && p[0] < |ns| &&
    (|p| > 1 ==> ns[p[0]].Element? && ValidPath(ns[p[0]].children, p[1..]))
  }

  function At(ns: seq<Node>, p: Path): Node
    requires ValidPath(ns, p)
    decreases p
  {
    if |p| == 1 then ns[p[0]] else At(ns[p[0]].children, p[1..])
  }

  /** No element strictly above the end of `p` is selected by `f`. */
  predicate AncestorsAvoid(ns: seq<Node>, p: Path, f: TagFilter)
    requires ValidPath(ns, p)
    decreases p
  {
    |p| > 1 ==> !Matches(f, ns[p[0]]) && AncestorsAvoid(ns[p[0]].children, p[1..], f)
  }

  /** The forest with the node at `p` replaced by `n` (BeautifulSoup's `replace_with`). */
  function ReplaceAt(ns: seq<Node>, p: Path, n: Node): (r: seq<Node>)
    requires ValidPath(ns, p)
    ensures |r| == |ns| && ValidPath(r, p) && At(r, p) == n
    ensures forall i :: 0 <= i < |ns| && i != p[0] ==> r[i] == ns[i]
    ensures |p| > 1 ==>
      r[p[0]].Element? && r[p[0]].name == ns[p[0]].name && r[p[0]].classes == ns[p[0]].classes
      && |r[p[0]].children| == |ns[p[0]].children|
    decreases p
  {
    if |p| == 1 then ns[p[0] := n]
    else
      var e := ns[p[0]];
      ns[p[0] := Element(e.name, e.classes, ReplaceAt(e.children, p[1..], n))]
  }

  /** The forest with the node at `p` and its subtree detached (BeautifulSoup's `decompose`). */
  function RemoveAt(ns: seq<Node>, p: Path): (r: seq<Node>)
    requires ValidPath(ns, p)
    ensures |p| == 1 ==> |r| == |ns| - 1
    ensures |p| == 1 ==> (forall i :: 0 <= i < p[0] ==> r[i] == ns[i]) && (forall i :: p[0] <= i < |r| ==> r[i] == ns[i + 1])
    ensures |p| > 1 ==> |r| == |ns| && forall i :: 0 <= i < |ns| && i != p[0] ==> r[i] == ns[i]
    ensures |p| > 1 ==> r[p[0]].Element? && r[p[0]].name == ns[p[0]].name && r[p[0]].classes == ns[p[0]].classes
    decreases p
  {
    if |p| == 1 then ns[..p[0]] + ns[p[0] + 1..]
    else
      var e := ns[p[0]];
      ns[p[0] := Element(e.name, e.classes, RemoveAt(e.children, p[1..]))]
  }

  /** All nodes of the forest in document order. */
  function Preorder(ns: seq<Node>): seq<Node>
    decreases ns
  {
    if ns == [] then []
    else
      [ns[0]]
      + (if ns[0].Element? then Preorder(ns[0].children) else [])
      + Preorder(ns[1..])
  }

  /** Number of elements of the forest, at any depth, that `f` selects. */
  function Count(ns: seq<Node>, f: TagFilter): nat
    decreases ns
  {
    if ns == [] then 0
    else
      (if Matches(f, ns[0]) then 1 else 0)
      + (if ns[0].Element? then Count(ns[0].children, f) else 0)
      + Count(ns[1..], f)
  }

  /** The concatenation of every text run of the forest (BeautifulSoup's `.text`). */
  function TextOf(ns: seq<Node>): string
    decreases ns
  {
    if ns == [] then ""
    else
      (match ns[0]
       case Text(t) => t
       case Element(_, _, children) => TextOf(children))
      + TextOf(ns[1..])
  }

  /** The first node of a flat sequence that `f` selects. */
  function FirstWhere(s: seq<Node>, f: TagFilter): (r: Option<Node>)
    ensures r.Some? ==> r.value in s && Matches(f, r.value)
    ensures r.None? ==> forall i :: 0 <= i < |s| ==> !Matches(f, s[i])
  {
    if s == [] then None
    else if Matches(f, s[0]) then Some(s[0])
    else FirstWhere(s[1..], f)
  }

  /**
   * The path of the first element in document order that `f` selects, or
   * None when the forest has no such element.
   */
  function FindFirst(ns: seq<Node>, f: TagFilter): (r: Option<Path>)
    ensures r.Some? ==> ValidPath(ns, r.value) && Matches(f, At(ns, r.value))
    ensures r.Some? ==> AncestorsAvoid(ns, r.value, f)
    ensures r.None? <==> Count(ns, f) == 0
    decreases ns
  {
    if ns == [] then None
    else if Matches(f, ns[0]) then Some([0])
    else
      var inner := if ns[0].Element? then FindFirst(ns[0].children, f) else None;
      if inner.Some? then Some([0] + inner.value)
      else
        match FindFirst(ns[1..], f)
        case None => None
        case Some(q) => Some(Shift(ns, q, f))
  }

  /** A path into `ns[1..]`, seen from `ns`. */
  function Shift(ns: seq<Node>, q: Path, f: TagFilter): (p: Path)
    requires |ns| > 0 && ValidPath(ns[1..], q)
    ensures ValidPath(ns, p) && At(ns, p) == At(ns[1..], q)
    ensures AncestorsAvoid(ns[1..], q, f) ==> AncestorsAvoid(ns, p, f)
  {
    var p := [q[0] + 1] + q[1..];
    assert p[1..] == q[1..];
    p
  }

  lemma {:induction false} CountAppend(a: seq<Node>, b: seq<Node>, f: TagFilter)
    ensures Count(a + b, f) == Count(a, f) + Count(b, f)
    decreases a
  {
    if a != [] {
      assert (a + b)[0] == a[0] && (a + b)[1..] == a[1..] + b;
      CountAppend(a[1..], b, f);
    } else {
      assert a + b == b;
    }
  }

  lemma {:induction false} TextOfAppend(a: seq<Node>, b: seq<Node>)
    ensures TextOf(a + b) == TextOf(a) + TextOf(b)
    decreases a
  {
    if a != [] {
      assert (a + b)[0] == a[0] && (a + b)[1..] == a[1..] + b;
      TextOfAppend(a[1..], b);
    } else {
      assert a + b == b;
    }
  }

  /** Splits a forest around position `i`. */
  lemma Around(ns: seq<Node>, i: nat, x: Node)
    requires i < |ns|
    ensures ns == ns[..i] + [ns[i]] + ns[i + 1..]
    ensures ns[i := x] == ns[..i] + [x] + ns[i + 1..]
  {
  }

  /** Replacing one node changes the count by what the two nodes' subtrees hold. */
  lemma {:induction false} CountReplaceAt(ns: seq<Node>, p: Path, n: Node, f: TagFilter)
    requires ValidPath(ns, p)
    ensures Count(ReplaceAt(ns, p, n), f) + Count([At(ns, p)], f) == Count(ns, f) + Count([n], f)
    decreases p
  {
    var i := p[0];
    var x := if |p| == 1 then n else
      Element(ns[i].name, ns[i].classes, ReplaceAt(ns[i].children, p[1..], n));
    assert ReplaceAt(ns, p, n) == ns[i := x];
    Around(ns, i, x);
    CountAppend(ns[..i] + [ns[i]], ns[i + 1..], f);
    CountAppend(ns[..i], [ns[i]], f);
    CountAppend(ns[..i] + [x], ns[i + 1..], f);
    CountAppend(ns[..i], [x], f);
    if |p| > 1 {
      CountReplaceAt(ns[i].children, p[1..], n, f);
    }
  }

  /** Detaching one node takes away exactly what its subtree holds. */
  lemma {:induction false} CountRemoveAt(ns: seq<Node>, p: Path, f: TagFilter)
    requires ValidPath(ns, p)
    ensures Count(RemoveAt(ns, p), f) + Count([At(ns, p)], f) == Count(ns, f)
    decreases p
  {
    var i := p[0];
    Around(ns, i, ns[i]);
    CountAppend(ns[..i] + [ns[i]], ns[i + 1..], f);
    CountAppend(ns[..i], [ns[i]], f);
    if |p| == 1 {
      CountAppend(ns[..i], ns[i + 1..], f);
    } else {
      var x := Element(ns[i].name, ns[i].classes, RemoveAt(ns[i].children, p[1..]));
      Around(ns, i, x);
      CountAppend(ns[..i] + [x], ns[i + 1..], f);
      CountAppend(ns[..i], [x], f);
      CountRemoveAt(ns[i].children, p[1..], f);
    }
  }

  lemma {:induction false} FirstWhereAppend(a: seq<Node>, b: seq<Node>, f: TagFilter)
    ensures FirstWhere(a + b, f) == if FirstWhere(a, f).Some? then FirstWhere(a, f) else FirstWhere(b, f)
    decreases a
  {
    if a != [] {
      assert (a + b)[0] == a[0] && (a + b)[1..] == a[1..] + b;
      FirstWhereAppend(a[1..], b, f);
    } else {
      assert a + b == b;
    }
  }

  /**
   * FindFirst finds the node that a walk over all nodes in document order
   * meets first among those `f` selects, and finds nothing exactly when that walk does.
   */
  lemma {:induction false} FindFirstInDocumentOrder(ns: seq<Node>, f: TagFilter)
    ensures FindFirst(ns, f).None? <==> FirstWhere(Preorder(ns), f).None?
    ensures FindFirst(ns, f).Some? ==> At(ns, FindFirst(ns, f).value) == FirstWhere(Preorder(ns), f).value
    decreases ns
  {
    if ns != [] {
      var inner := if ns[0].Element? then Preorder(ns[0].children) else [];
      assert Preorder(ns) == [ns[0]] + (inner + Preorder(ns[1..]));
      FirstWhereAppend([ns[0]], inner + Preorder(ns[1..]), f);
      FirstWhereAppend(inner, Preorder(ns[1..]), f);
      FindFirstInDocumentOrder(ns[1..], f);
      if ns[0].Element? {
        FindFirstInDocumentOrder(ns[0].children, f);
        var q := FindFirst(ns[0].children, f);
        if !Matches(f, ns[0]) && q.Some? {
          assert ([0] + q.value)[1..] == q.value;
        }
      }
    }
  }
}
