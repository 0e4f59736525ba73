/**
 * `ConversionThread.postprocess_markdown`: five passes over the rendered
 * Markdown text. Each `re.sub` is a scan from left to right that, at every
 * position, either takes the (unique) match starting there and continues after
 * it, or keeps one character and moves on; matches never overlap.
 */
module Postprocess {
  import opened Wrappers
  import opened Strings

  // ---------------------------------------------------------------------------
  // Pass 1: re.sub(r'\[([^\]]+)\]\([^\)]+\)', r'\1', content)

  function LinkSyntax(text: string, url: string): string
  {
    "[" + text + "](" + url + ")"
  }

  /** What the link pattern demands of its two parts: non-empty, no `]` in the text, no `)` in the URL. */
  predicate LinkParts(text: string, url: string)
  {
    |text| > 0 && ']' !in text && |url| > 0 && ')' !in url
  }

  /**
   * The match of the link pattern that starts at the first character of `s`:
   * the index of its closing bracket and the index just past it. The bracketed
   * part runs to the first `]` and the URL to the first `)`, since neither may
   * hold its closing character, so there is at most one such match.
   */
  function LinkAt(s: string): (r: Option<(nat, nat)>)
    ensures r.Some? ==> |s| > 0 && s[0] == '[' && 1 < r.value.0 && r.value.0 + 3 < r.value.1 <= |s|
  {
    if |s| == 0 || s[0] != '[' || ']' !in s[1..] then None
    else
      var j := 1 + IndexOf(s[1..], ']');
      if j == 1 || j + 1 >= |s| || s[j + 1] != '(' || ')' !in s[j + 2..] then None
      else
        var k := j + 2 + IndexOf(s[j + 2..], ')');
        if k == j + 2 then None else Some((j, k + 1))
  }

  /** A match found by LinkAt is a link whose parts meet the pattern. */
  lemma LinkAtShape(s: string)
    requires LinkAt(s).Some?
    ensures var (j, e) := LinkAt(s).value;
      LinkParts(s[1..j], s[j + 2..e - 1]) && s[..e] == LinkSyntax(s[1..j], s[j + 2..e - 1])
  {
    var j := 1 + IndexOf(s[1..], ']');
    var k := j + 2 + IndexOf(s[j + 2..], ')');
    assert LinkAt(s).value == (j, k + 1);
    SuffixSlice(s, 1, j - 1);
    SuffixSlice(s, j + 2, k - j - 2);
    LinkSlices(s, j, k);
  }

  /** A string with `[`, `](` and `)` at the given places begins with the link made of the pieces between them. */
  lemma LinkSlices(s: string, j: nat, k: nat)
    requires 1 < j && j + 2 < k < |s|
    requires s[0] == '[' && s[j] == ']' && s[j + 1] == '(' && s[k] == ')'
    ensures s[..k + 1] == LinkSyntax(s[1..j], s[j + 2..k])
  {
    assert s[..k + 1] == "[" + s[1..j] + "](" + s[j + 2..k] + ")";
  }

  /** Every link `[text](url)` becomes its text; everything else is kept. */
  function StripLinks(s: string): string
    decreases |s|
  {
    if s == [] then []
    else
      match LinkAt(s)
      case Some((j, e)) => s[1..j] + StripLinks(s[e..])
      case None => [s[0]] + StripLinks(s[1..])
  }

  /** A string that starts with a link has that match at its start. */
  lemma LinkAtFinds(text: string, url: string, rest: string)
    requires LinkParts(text, url)
    ensures LinkAt(LinkSyntax(text, url) + rest) == Some((|text| + 1, |text| + |url| + 4))
  {
    LinkSyntaxPieces(text, url, rest);
    IndexOfAfter(text, ']', "(" + url + ")" + rest);
    IndexOfAfter(url, ')', rest);
  }

  lemma LinkSyntaxPieces(text: string, url: string, rest: string)
    ensures var s := LinkSyntax(text, url) + rest;
      s[1..] == text + "]" + ("(" + url + ")" + rest) && s[|text| + 2] == '(' && s[|text| + 3..] == url + ")" + rest
  {
    var s := LinkSyntax(text, url) + rest;
    assert s[1..] == text + "]" + ("(" + url + ")" + rest);
    assert s[|text| + 3..] == url + ")" + rest;
  }

  /** Text with no `[` passes through the link pass unchanged. */
  lemma {:induction false} StripLinksPlain(a: string, b: string)
    requires '[' !in a
    ensures StripLinks(a + b) == a + StripLinks(b)
    decreases |a|
  {
    if a == [] {
      assert a + b == b;
    } else {
      ConcatTail(a, b);
      assert LinkAt(a + b) == None;
      assert StripLinks(a + b) == [a[0]] + StripLinks(a[1..] + b);
      StripLinksPlain(a[1..], b);
      ConsTail(a, StripLinks(b));
    }
  }

  /** A link at the very start is replaced by its text. */
  lemma StripLinksLinkFirst(text: string, url: string, b: string)
    requires LinkParts(text, url)
    ensures StripLinks(LinkSyntax(text, url) + b) == text + StripLinks(b)
  {
    var s := LinkSyntax(text, url) + b;
    LinkAtFinds(text, url, b);
    assert s[1..|text| + 1] == text;
    assert s[|text| + |url| + 4..] == b;
  }

  /** `[text](url)` is replaced by `text`; what precedes it without a `[` is kept as it is. */
  lemma StripLinksLink(a: string, text: string, url: string, b: string)
    requires '[' !in a && LinkParts(text, url)
    ensures StripLinks(a + LinkSyntax(text, url) + b) == a + text + StripLinks(b)
  {
    assert a + LinkSyntax(text, url) + b == a + (LinkSyntax(text, url) + b);
    StripLinksLinkFirst(text, url, b);
    StripLinksPlain(a, LinkSyntax(text, url) + b);
  }

  /** Because the link pass runs first, an image `![alt](url)` with some alt text leaves `!alt`. */
  lemma StripLinksImage(a: string, alt: string, url: string, b: string)
    requires '[' !in a && LinkParts(alt, url)
    ensures StripLinks(a + "!" + LinkSyntax(alt, url) + b) == a + "!" + alt + StripLinks(b)
  {
    assert a + "!" + LinkSyntax(alt, url) + b == (a + "!") + LinkSyntax(alt, url) + b;
    StripLinksLink(a + "!", alt, url, b);
  }

  /** Where no link starts at the first character, that character is kept. */
  lemma StripLinksKeepsFirst(c: char, rest: string)
    requires LinkAt([c] + rest) == None
    ensures StripLinks([c] + rest) == [c] + StripLinks(rest)
  {
    assert ([c] + rest)[1..] == rest;
  }

  /**
   * The link pass is not idempotent: in `[[t](u)](v)` the first `[` opens the
   * match, which leaves the link `[t](v)` for a second pass to strip.
   */
  lemma StripLinksNotIdempotent(t: string, u: string, v: string)
    requires LinkParts(t, u) && LinkParts(t, v) && '[' !in v
    ensures StripLinks(LinkSyntax("[" + t, u) + "](" + v + ")") == LinkSyntax(t, v)
    ensures StripLinks(LinkSyntax(t, v)) == t
  {
    var rest := "](" + v + ")";
    NestedLinkPieces(t, u, v);
    assert StripLinks(LinkSyntax("[" + t, u) + rest) == ("[" + t) + StripLinks(rest) by {
      StripLinksLinkFirst("[" + t, u, rest);
    }
    assert StripLinks(rest) == rest by {
      StripLinksPlain(rest, "");
    }
    assert StripLinks(LinkSyntax(t, v)) == t by {
      StripLinksLinkFirst(t, v, "");
    }
  }

  lemma NestedLinkPieces(t: string, u: string, v: string)
    ensures LinkSyntax("[" + t, u) + "](" + v + ")" == LinkSyntax("[" + t, u) + ("](" + v + ")")
    ensures ("[" + t) + ("](" + v + ")") == LinkSyntax(t, v)
    ensures "](" + v + ")" + "" == "](" + v + ")" && LinkSyntax(t, v) + "" == LinkSyntax(t, v)
  {
  }

  // ---------------------------------------------------------------------------
  // Pass 2: re.sub(r'!\[([^\]]*)\]\([^\)]+\)', '', content)

  function ImageSyntax(alt: string, url: string): string
  {
    "![" + alt + "](" + url + ")"
  }

  /** What the image pattern demands of its parts: no `]` in the alt text (which may be empty), a non-empty URL with no `)`. */
  predicate ImageParts(alt: string, url: string)
  {
    ']' !in alt && |url| > 0 && ')' !in url
  }

  /** The end of the match of the image pattern that starts at the first character of `s`. */
  function ImageAt(s: string): (r: Option<nat>)
    ensures r.Some? ==> |s| > 1 && s[0] == '!' && 5 < r.value <= |s|
  {
    if |s| < 2 || s[0] != '!' || s[1] != '[' || ']' !in s[2..] then None
    else
      var j := 2 + IndexOf(s[2..], ']');
      if j + 1 >= |s| || s[j + 1] != '(' || ')' !in s[j + 2..] then None
      else
        var k := j + 2 + IndexOf(s[j + 2..], ')');
        if k == j + 2 then None else Some(k + 1)
  }

  /** A match found by ImageAt is an image whose parts meet the pattern. */
  lemma ImageAtShape(s: string)
    requires ImageAt(s).Some?
    ensures exists j :: (2 <= j < ImageAt(s).value - 3 &&
      ImageParts(s[2..j], s[j + 2..ImageAt(s).value - 1]) &&
      s[..ImageAt(s).value] == ImageSyntax(s[2..j], s[j + 2..ImageAt(s).value - 1]))
  {
    var j := 2 + IndexOf(s[2..], ']');
    var k := j + 2 + IndexOf(s[j + 2..], ')');
    assert ImageAt(s).value == k + 1;
    SuffixSlice(s, 2, j - 2);
    SuffixSlice(s, j + 2, k - j - 2);
    ImageSlices(s, j, k);
    assert 2 <= j < k + 1 - 3 && ImageParts(s[2..j], s[j + 2..k]) && s[..k + 1] == ImageSyntax(s[2..j], s[j + 2..k]);
  }

  /** A string with `![`, `](` and `)` at the given places begins with the image made of the pieces between them. */
  lemma ImageSlices(s: string, j: nat, k: nat)
    requires 2 <= j && j + 2 < k < |s|
    requires s[0] == '!' && s[1] == '[' && s[j] == ']' && s[j + 1] == '(' && s[k] == ')'
    ensures s[..k + 1] == ImageSyntax(s[2..j], s[j + 2..k])
  {
    assert s[..k + 1] == "![" + s[2..j] + "](" + s[j + 2..k] + ")";
  }

  /** Every image `![alt](url)` is removed; everything else is kept. */
  function DropImages(s: string): string
    decreases |s|
  {
    if s == [] then []
    else
      match ImageAt(s)
      case Some(e) => DropImages(s[e..])
      case None => [s[0]] + DropImages(s[1..])
  }

  /** A string that starts with an image has that match at its start. */
  lemma ImageAtFinds(alt: string, url: string, rest: string)
    requires ImageParts(alt, url)
    ensures ImageAt(ImageSyntax(alt, url) + rest) == Some(|alt| + |url| + 5)
  {
    ImageSyntaxPieces(alt, url, rest);
    IndexOfAfter(alt, ']', "(" + url + ")" + rest);
    IndexOfAfter(url, ')', rest);
  }

  lemma ImageSyntaxPieces(alt: string, url: string, rest: string)
    ensures var s := ImageSyntax(alt, url) + rest;
      s[1] == '[' && s[2..] == alt + "]" + ("(" + url + ")" + rest) && s[|alt| + 3] == '(' && s[|alt| + 4..] == url + ")" + rest
  {
    var s := ImageSyntax(alt, url) + rest;
    assert s[2..] == alt + "]" + ("(" + url + ")" + rest);
    assert s[|alt| + 4..] == url + ")" + rest;
  }

  /** Text with no `!` passes through the image pass unchanged. */
  lemma {:induction false} DropImagesPlain(a: string, b: string)
    requires '!' !in a
    ensures DropImages(a + b) == a + DropImages(b)
    decreases |a|
  {
    if a == [] {
      assert a + b == b;
    } else {
      ConcatTail(a, b);
      assert ImageAt(a + b) == None;
      assert DropImages(a + b) == [a[0]] + DropImages(a[1..] + b);
      DropImagesPlain(a[1..], b);
      ConsTail(a, DropImages(b));
    }
  }

  /** `![alt](url)` disappears with its alt text; what precedes it without a `!` is kept as it is. */
  lemma DropImagesImage(a: string, alt: string, url: string, b: string)
    requires '!' !in a && ImageParts(alt, url)
    ensures DropImages(a + ImageSyntax(alt, url) + b) == a + DropImages(b)
  {
    var s := ImageSyntax(alt, url) + b;
    ImageAtFinds(alt, url, b);
    assert s[|alt| + |url| + 5..] == b;
    assert a + ImageSyntax(alt, url) + b == a + s;
    DropImagesPlain(a, s);
  }

  /**
   * Of all image syntax, the first two passes together remove `![](url)`
   * (empty alt text) entirely; with alt text, the link pass has already left `!alt`.
   */
  lemma EmptyImageRemoved(a: string, url: string, b: string)
    requires '[' !in a && '!' !in a && ImageParts("", url) && '[' !in url
    ensures DropImages(StripLinks(a + ImageSyntax("", url) + b)) == a + DropImages(StripLinks(b))
  {
    StripLinksAroundEmptyImage(a, url, b);
    DropImagesImage(a, "", url, StripLinks(b));
  }

  lemma StripLinksAroundEmptyImage(a: string, url: string, b: string)
    requires '[' !in a && ImageParts("", url) && '[' !in url
    ensures StripLinks(a + ImageSyntax("", url) + b) == a + ImageSyntax("", url) + StripLinks(b)
  {
    EmptyImageSurvivesLinks(url, b);
    StripLinksBetween(a, ImageSyntax("", url), b);
  }

  /** A link-free prefix before a piece that the link pass keeps whole stays in front of it. */
  lemma StripLinksBetween(a: string, m: string, b: string)
    requires '[' !in a && StripLinks(m + b) == m + StripLinks(b)
    ensures StripLinks(a + m + b) == a + m + StripLinks(b)
  {
    StripLinksPlain(a, m + b);
    ConcatAssoc(a, m, b);
    ConcatAssoc(a, m, StripLinks(b));
  }

  /** `![](url)` holds no link, so the link pass keeps it whole. */
  lemma EmptyImageSurvivesLinks(url: string, b: string)
    requires ImageParts("", url) && '[' !in url
    ensures StripLinks(ImageSyntax("", url) + b) == ImageSyntax("", url) + StripLinks(b)
  {
    var rest := "](" + url + ")" + b;
    EmptyImageSplit(url, b);
    assert StripLinks(rest) == "](" + url + ")" + StripLinks(b) by {
      assert '[' !in "](" + url + ")";
      StripLinksPlain("](" + url + ")", b);
    }
    assert LinkAt("[" + rest) == None by {
      assert ("[" + rest)[1..] == "" + "]" + ("(" + url + ")" + b);
      IndexOfAfter("", ']', "(" + url + ")" + b);
    }
    assert StripLinks("[" + rest) == "[" + StripLinks(rest) by {
      StripLinksKeepsFirst('[', rest);
    }
    assert StripLinks("!" + ("[" + rest)) == "!" + StripLinks("[" + rest) by {
      StripLinksKeepsFirst('!', "[" + rest);
    }
    EmptyImageSplit(url, StripLinks(b));
  }

  lemma EmptyImageSplit(url: string, t: string)
    ensures ImageSyntax("", url) + t == "!" + ("[" + ("](" + url + ")" + t))
  {
  }

  /**
   * A linked image vanishes whatever its alt text: in `[![alt](u)](v)` the
   * link pass matches from the outer `[` to the first `)`, leaving the image
   * `![alt](v)`, which the image pass then removes.
   */
  lemma LinkedImageVanishes(alt: string, u: string, v: string)
    requires ']' !in alt && |u| > 0 && ')' !in u && ImageParts(alt, v) && '[' !in v
    ensures StripLinks("[" + ImageSyntax(alt, u) + "](" + v + ")") == ImageSyntax(alt, v)
    ensures DropImages(ImageSyntax(alt, v)) == ""
  {
    var rest := "](" + v + ")";
    LinkedImagePieces(alt, u, v);
    assert StripLinks(LinkSyntax("![" + alt, u) + rest) == ("![" + alt) + StripLinks(rest) by {
      StripLinksLinkFirst("![" + alt, u, rest);
    }
    assert StripLinks(rest) == rest by {
      StripLinksPlain(rest, "");
    }
    DropImagesImage("", alt, v, "");
  }

  lemma LinkedImagePieces(alt: string, u: string, v: string)
    ensures "[" + ImageSyntax(alt, u) + "](" + v + ")" == LinkSyntax("![" + alt, u) + ("](" + v + ")")
    ensures ("![" + alt) + ("](" + v + ")") == ImageSyntax(alt, v)
    ensures "](" + v + ")" + "" == "](" + v + ")"
    ensures "" + ImageSyntax(alt, v) + "" == ImageSyntax(alt, v)
  {
  }

  // ---------------------------------------------------------------------------
  // Pass 3: re.sub(r'\n{3,}', '\n\n', content)


  /** Every run of three or more newlines becomes exactly two; everything else is kept. */
  function CollapseNewlines(s: string): string
    decreases |s|
  {
    if s == [] then []
    else if LeadingRun(s, '\n') >= 3 then "\n\n" + CollapseNewlines(s[LeadingRun(s, '\n')..])
    else [s[0]] + CollapseNewlines(s[1..])
  }

  /** `s` with its newlines taken out. */
  function Unbroken(s: string): string
    decreases |s|
  {
    if s == [] then []
    else (if s[0] == '\n' then [] else [s[0]]) + Unbroken(s[1..])
  }

  /** Three newlines in a row occur at the start of `x` or later. */
  lemma TripleAtOrAfter(x: string)
    requires |x| > 0
    ensures Contains(x, "\n\n\n") <==> LeadingRun(x, '\n') >= 3 || Contains(x[1..], "\n\n\n")
  {
    if |x| >= 3 {
      assert x[..3] == "\n\n\n" <==> LeadingRun(x, '\n') >= 3 by {
        if LeadingRun(x, '\n') < 3 {
          assert x[LeadingRun(x, '\n')] != '\n';
          assert x[..3][LeadingRun(x, '\n')] == x[LeadingRun(x, '\n')];
        }
      }
    }
  }

  lemma LeadingNewlinesCons(c: char, y: string)
    ensures LeadingRun([c] + y, '\n') == if c == '\n' then 1 + LeadingRun(y, '\n') else 0
  {
    assert ([c] + y)[1..] == y;
  }

  /** Collapsing keeps a run of one or two leading newlines and shortens a longer one to two. */
  lemma {:induction false} CollapseLeading(s: string)
    ensures LeadingRun(CollapseNewlines(s), '\n') == if LeadingRun(s, '\n') >= 3 then 2 else LeadingRun(s, '\n')
    decreases |s|
  {
    if s != [] {
      var n := LeadingRun(s, '\n');
      if n >= 3 {
        var r := s[n..];
        CollapseLeading(r);
        assert LeadingRun(r, '\n') == 0;
        LeadingNewlinesCons('\n', CollapseNewlines(r));
        LeadingNewlinesCons('\n', "\n" + CollapseNewlines(r));
        assert "\n\n" + CollapseNewlines(r) == "\n" + ("\n" + CollapseNewlines(r));
      } else {
        CollapseLeading(s[1..]);
        LeadingNewlinesCons(s[0], s[1..]);
        assert [s[0]] + s[1..] == s;
        LeadingNewlinesCons(s[0], CollapseNewlines(s[1..]));
      }
    }
  }

  /** After the collapse pass no three newlines in a row are left. */
  lemma {:induction false} CollapseLeavesNoTriple(s: string)
    ensures !Contains(CollapseNewlines(s), "\n\n\n")
    decreases |s|
  {
    if s != [] {
      var n := LeadingRun(s, '\n');
      if n >= 3 {
        var c := CollapseNewlines(s[n..]);
        assert !Contains(c, "\n\n\n") && LeadingRun(c, '\n') == 0 by {
          CollapseLeavesNoTriple(s[n..]);
          CollapseLeading(s[n..]);
          assert LeadingRun(s[n..], '\n') == 0;
        }
        assert !Contains("\n" + c, "\n\n\n") && LeadingRun("\n" + c, '\n') == 1 by {
          LeadingNewlinesCons('\n', c);
          TripleAtOrAfter("\n" + c);
          assert ("\n" + c)[1..] == c;
        }
        var x := "\n" + ("\n" + c);
        assert !Contains(x, "\n\n\n") by {
          LeadingNewlinesCons('\n', "\n" + c);
          TripleAtOrAfter(x);
          assert x[1..] == "\n" + c;
        }
        assert CollapseNewlines(s) == "\n\n" + c;
        assert "\n\n" + c == x;
      } else {
        var c := CollapseNewlines(s[1..]);
        assert !Contains(c, "\n\n\n") by {
          CollapseLeavesNoTriple(s[1..]);
        }
        assert LeadingRun([s[0]] + c, '\n') < 3 by {
          CollapseLeading(s[1..]);
          LeadingNewlinesCons(s[0], s[1..]);
          assert [s[0]] + s[1..] == s;
          LeadingNewlinesCons(s[0], c);
        }
        TripleAtOrAfter([s[0]] + c);
        assert ([s[0]] + c)[1..] == c;
      }
    }
  }

  /** Text with no three newlines in a row passes through the collapse pass unchanged. */
  lemma {:induction false} CollapseUnchanged(s: string)
    requires !Contains(s, "\n\n\n")
    ensures CollapseNewlines(s) == s
    decreases |s|
  {
    if s != [] {
      TripleAtOrAfter(s);
      CollapseUnchanged(s[1..]);
      assert [s[0]] + s[1..] == s;
    }
  }

  lemma {:induction false} UnbrokenSkip(s: string, n: nat)
    requires n <= |s| && forall k :: 0 <= k < n ==> s[k] == '\n'
    ensures Unbroken(s) == Unbroken(s[n..])
    decreases n
  {
    if n > 0 {
      assert s[1..][n - 1..] == s[n..];
      UnbrokenSkip(s[1..], n - 1);
    }
  }

  /** The collapse pass touches only newlines: every other character is kept, in order. */
  lemma {:induction false} CollapseKeepsText(s: string)
    ensures Unbroken(CollapseNewlines(s)) == Unbroken(s)
    decreases |s|
  {
    if s != [] {
      var n := LeadingRun(s, '\n');
      if n >= 3 {
        var c := CollapseNewlines(s[n..]);
        CollapseKeepsText(s[n..]);
        UnbrokenSkip(s, n);
        assert ("\n\n" + c)[1..] == "\n" + c;
        assert ("\n" + c)[1..] == c;
      } else {
        CollapseKeepsText(s[1..]);
        assert ([s[0]] + CollapseNewlines(s[1..]))[1..] == CollapseNewlines(s[1..]);
      }
    }
  }

  // ---------------------------------------------------------------------------
  // Pass 4: content.strip()

  /** The number of whitespace characters `s` starts with. */
  function LeadingSpace(s: string): (n: nat)
    ensures n <= |s| && AllSpace(s[..n])
    ensures n < |s| ==> !IsSpace(s[n])
    decreases |s|
  {
    if s != [] && IsSpace(s[0]) then
      var m := LeadingSpace(s[1..]);
      assert s[..m + 1] == [s[0]] + s[1..][..m];
      m + 1
    else 0
  }

  /** The number of whitespace characters `s` ends with. */
  function TrailingSpace(s: string): (n: nat)
    ensures n <= |s| && AllSpace(s[|s| - n..])
    ensures n < |s| ==> !IsSpace(s[|s| - n - 1])
    decreases |s|
  {
    if s != [] && IsSpace(s[|s| - 1]) then
      var m := TrailingSpace(s[..|s| - 1]);
      TrailingSpaceStep(s, m);
      m + 1
    else 0
  }

  /**
   * `s.strip()`: `s` without its leading and trailing whitespace. The result is
   * a slice of `s` with only whitespace around it in `s`, and it neither starts
   * nor ends with whitespace; it is empty exactly when `s` is all whitespace.
   */
  function Strip(s: string): (r: string)
    ensures LeadingSpace(s) + |r| <= |s|
    ensures r == s[LeadingSpace(s)..LeadingSpace(s) + |r|]
    ensures AllSpace(s[..LeadingSpace(s)]) && AllSpace(s[LeadingSpace(s) + |r|..])
    ensures r != [] ==> !IsSpace(r[0]) && !IsSpace(r[|r| - 1])
    ensures r == [] <==> AllSpace(s)
  {
    var a := LeadingSpace(s);
    if a == |s| then
      assert s[..a] == s;
      []
    else
      var t := TrailingSpace(s);
      var r := s[a..|s| - t];
      assert s[a + |r|..] == s[|s| - t..];
      assert !IsSpace(s[a]);
      r
  }

  /** Text with no whitespace at either end passes through the strip pass unchanged. */
  lemma StripUnchanged(s: string)
    requires s == [] || (!IsSpace(s[0]) && !IsSpace(s[|s| - 1]))
    ensures Strip(s) == s
  {
    if s != [] {
      assert LeadingSpace(s) == 0;
      assert TrailingSpace(s) == 0;
    }
  }

  /** Stripping twice is stripping once. */
  lemma StripIdempotent(s: string)
    ensures Strip(Strip(s)) == Strip(s)
  {
    StripUnchanged(Strip(s));
  }

  // ---------------------------------------------------------------------------
  // Pass 5: the per-line loop with re.match(r'^#{1,6}\s', line)

  /** A run of `k` hashes followed by another character is the whole leading run. */
  lemma {:induction false} HashesThenOther(s: string, k: nat)
    requires k < |s| && (forall m :: 0 <= m < k ==> s[m] == '#') && s[k] != '#'
    ensures LeadingRun(s, '#') == k
    decreases k
  {
    if k > 0 {
      HashesThenOther(s[1..], k - 1);
    }
  }

  /** A string starting with `k` hashes has a leading run of at least `k`. */
  lemma {:induction false} HashesAtLeast(s: string, k: nat)
    requires k <= |s| && forall m :: 0 <= m < k ==> s[m] == '#'
    ensures LeadingRun(s, '#') >= k
    decreases k
  {
    if k > 0 {
      HashesAtLeast(s[1..], k - 1);
    }
  }

  /** What the heading pattern says: one to six `#` at the start, then a whitespace character. */
  ghost predicate HeadingPattern(line: string)
  {
    exists k :: 1 <= k <= 6 && k < |line| && (forall m :: 0 <= m < k ==> line[m] == '#') && IsSpace(line[k])
  }

  /** A line the padding pass treats as a heading: its run of `#` is one to six long and whitespace follows it. */
  predicate IsHeading(line: string)
  {
    var n := LeadingRun(line, '#');
    1 <= n <= 6 && n < |line| && IsSpace(line[n])
  }

  /**
   * The backtracking of `#{1,6}` adds nothing: since a whitespace character is
   * not `#`, the pattern matches exactly when the whole leading run of `#` has
   * one to six characters and whitespace comes next.
   */
  lemma HeadingRule(line: string)
    ensures HeadingPattern(line) <==> IsHeading(line)
  {
    var n := LeadingRun(line, '#');
    if HeadingPattern(line) {
      var k :| 1 <= k <= 6 && k < |line| && (forall m :: 0 <= m < k ==> line[m] == '#') && IsSpace(line[k]);
      HashesThenOther(line, k);
    }
    if IsHeading(line) {
      assert 1 <= n <= 6 && n < |line| && (forall m :: 0 <= m < n ==> line[m] == '#') && IsSpace(line[n]);
    }
  }

  /** Seven or more `#` make no heading, whatever follows them. */
  lemma SevenHashesNoHeading(line: string)
    requires |line| >= 7 && forall m :: 0 <= m < 7 ==> line[m] == '#'
    ensures !HeadingPattern(line)
  {
    HeadingRule(line);
    HashesAtLeast(line, 7);
  }

  /** The replacement of one line, `f"\n{line}\n"` for a heading. */
  function PadHeading(line: string): string
  {
    if IsHeading(line) then "\n" + line + "\n" else line
  }

  /** Every line padded, in the same order. */
  function PaddedLines(lines: seq<string>): (r: seq<string>)
    ensures |r| == |lines|
  {
    if lines == [] then [] else [PadHeading(lines[0])] + PaddedLines(lines[1..])
  }

  /** Line `i` of the padded lines is line `i` padded. */
  lemma {:induction false} PaddedLinesAt(lines: seq<string>)
    ensures forall i :: 0 <= i < |lines| ==> PaddedLines(lines)[i] == PadHeading(lines[i])
  {
    if lines != [] {
      PaddedLinesAt(lines[1..]);
    }
  }

  // ---------------------------------------------------------------------------
  // The whole of postprocess_markdown

  /** The text after the four substitution and trimming passes (lines 81-84). */
  function Tidied(content: string): string
  {
    Strip(CollapseNewlines(DropImages(StripLinks(content))))
  }

  /** The result of `postprocess_markdown`: the lines of the tidied text, padded and joined again. */
  function Postprocessed(content: string): string
  {
    Join(PaddedLines(SplitOn(Tidied(content), '\n')), "\n")
  }

  /**
   * `ConversionThread.postprocess_markdown`: `content` is reassigned pass by
   * pass, then the list of its lines is updated in place and joined.
   */
  method PostprocessMarkdown(content: string) returns (r: string)
    ensures r == Postprocessed(content)
  {
    var text := StripLinks(content);
    text := DropImages(text);
    text := CollapseNewlines(text);
    text := Strip(text);
    var lines := SplitOn(text, '\n');
    ghost var original := lines;
    var i := 0;
    while i < |lines|
      invariant 0 <= i <= |lines| == |original|
      invariant forall k :: 0 <= k < i ==> lines[k] == PadHeading(original[k])
      invariant forall k :: i <= k < |lines| ==> lines[k] == original[k]
    {
      var line := lines[i];
      if IsHeading(line) {
        lines := lines[i := "\n" + line + "\n"];
      }
      i := i + 1;
    }
    PaddedLinesAt(original);
    assert lines == PaddedLines(original);
    r := Join(lines, "\n");
  }

  // ---------------------------------------------------------------------------
  // What the passes achieve together

  /** After lines 81-84 the text holds no three newlines in a row and has no whitespace at either end. */
  lemma TidiedIsTidy(content: string)
    ensures !Contains(Tidied(content), "\n\n\n")
    ensures Tidied(content) != [] ==> !IsSpace(Tidied(content)[0]) && !IsSpace(Tidied(content)[|Tidied(content)| - 1])
  {
    CollapseLeavesNoTriple(DropImages(StripLinks(content)));
    StripKeepsNoTriple(CollapseNewlines(DropImages(StripLinks(content))));
  }

  /** Stripping takes a slice, so it cannot create three newlines in a row. */
  lemma StripKeepsNoTriple(c: string)
    requires !Contains(c, "\n\n\n")
    ensures !Contains(Strip(c), "\n\n\n")
  {
    var r := Strip(c);
    SliceAvoids(c, LeadingSpace(c), LeadingSpace(c) + |r|, "\n\n\n");
  }

  /** Text that is already tidy, with no link or image syntax in it, passes lines 81-84 unchanged. */
  lemma TidiedUnchanged(content: string)
    requires '[' !in content && '!' !in content && !Contains(content, "\n\n\n")
    requires content == [] || (!IsSpace(content[0]) && !IsSpace(content[|content| - 1]))
    ensures Tidied(content) == content
  {
    assert StripLinks(content) == content by {
      StripLinksPlain(content, []);
      assert content + [] == content;
    }
    assert DropImages(content) == content by {
      DropImagesPlain(content, []);
      assert content + [] == content;
    }
    CollapseUnchanged(content);
    StripUnchanged(content);
  }

  /** When no line is a heading, the padding pass gives back the tidied text. */
  lemma PostprocessedWithoutHeadings(content: string)
    requires forall line :: line in SplitOn(Tidied(content), '\n') ==> !IsHeading(line)
    ensures Postprocessed(content) == Tidied(content)
  {
    var lines := SplitOn(Tidied(content), '\n');
    PaddedLinesAt(lines);
    assert PaddedLines(lines) == lines;
    JoinSplitOn(Tidied(content), '\n');
  }

  lemma {:induction false} UnbrokenAppend(a: string, b: string)
    ensures Unbroken(a + b) == Unbroken(a) + Unbroken(b)
    decreases |a|
  {
    if a == [] {
      assert a + b == b;
    } else {
      assert (a + b)[1..] == a[1..] + b;
      UnbrokenAppend(a[1..], b);
    }
  }

  lemma {:induction false} PaddingKeepsText(lines: seq<string>)
    ensures Unbroken(Join(PaddedLines(lines), "\n")) == Unbroken(Join(lines, "\n"))
    decreases |lines|
  {
    var padded := PaddedLines(lines);
    if |lines| > 0 {
      assert Unbroken(padded[0]) == Unbroken(lines[0]) by {
        if IsHeading(lines[0]) {
          UnbrokenAppend("\n" + lines[0], "\n");
          UnbrokenAppend("\n", lines[0]);
        }
      }
      if |lines| > 1 {
        assert padded[1..] == PaddedLines(lines[1..]);
        PaddingKeepsText(lines[1..]);
        UnbrokenAppend(padded[0] + "\n", Join(padded[1..], "\n"));
        UnbrokenAppend(padded[0], "\n");
        UnbrokenAppend(lines[0] + "\n", Join(lines[1..], "\n"));
        UnbrokenAppend(lines[0], "\n");
      }
    }
  }

  /** The padding pass only adds newlines: every other character of the tidied text is kept, in order. */
  lemma PostprocessedKeepsText(content: string)
    ensures Unbroken(Postprocessed(content)) == Unbroken(Tidied(content))
  {
    PaddingKeepsText(SplitOn(Tidied(content), '\n'));
    JoinSplitOn(Tidied(content), '\n');
  }

  /** Text in which no two newlines are adjacent holds no run of three. */
  lemma {:induction false} NoTripleWithoutPair(s: string)
    requires forall k :: 0 <= k < |s| - 1 ==> s[k] != '\n' || s[k + 1] != '\n'
    ensures !Contains(s, "\n\n\n")
    decreases |s|
  {
    if |s| >= 3 {
      assert s[..3] != "\n\n\n" by {
        assert s[0] != '\n' || s[1] != '\n';
      }
      NoTripleWithoutPair(s[1..]);
    }
  }

  /** A prefix without newlines passes the collapse pass unchanged. */
  lemma {:induction false} CollapseSkipsLine(a: string, b: string)
    requires '\n' !in a
    ensures CollapseNewlines(a + b) == a + CollapseNewlines(b)
    decreases |a|
  {
    if a == [] {
      assert a + b == b;
    } else {
      assert (a + b)[0] == a[0];
      assert LeadingRun(a + b, '\n') == 0;
      assert (a + b)[1..] == a[1..] + b;
      CollapseSkipsLine(a[1..], b);
    }
  }

  /** What a heading line looks like: it starts with `#`, so never with whitespace or a newline. */
  lemma HeadingStart(line: string)
    requires IsHeading(line)
    ensures |line| > 0 && line[0] == '#'
  {
  }

  /** Postprocessed in terms of the lines of the tidied text. */
  lemma PostprocessedByLines(content: string, lines: seq<string>)
    requires SplitOn(Tidied(content), '\n') == lines
    ensures Postprocessed(content) == Join(PaddedLines(lines), "\n")
  {
  }

  lemma PaddedPair(a: string, b: string)
    ensures Join(PaddedLines([a, b]), "\n") == PadHeading(a) + "\n" + PadHeading(b)
  {
    assert PaddedLines([a, b]) == [PadHeading(a), PadHeading(b)];
  }

  lemma PaddedTriple(a: string, b: string, c: string)
    ensures Join(PaddedLines([a, b, c]), "\n") == PadHeading(a) + "\n" + PadHeading(b) + "\n" + PadHeading(c)
  {
    PaddedLinesAt([a, b, c]);
    assert PaddedLines([a, b, c]) == [PadHeading(a), PadHeading(b), PadHeading(c)];
    var r := [PadHeading(a), PadHeading(b), PadHeading(c)];
    assert r[1..] == [PadHeading(b), PadHeading(c)];
    assert r[1..][1..] == [PadHeading(c)];
    assert Join(r[1..], "\n") == PadHeading(b) + "\n" + PadHeading(c);
  }

  /** The conditions on the two headings of the examples below. */
  predicate PlainHeading(h: string)
  {
    IsHeading(h) && '\n' !in h && '[' !in h && '!' !in h && !IsSpace(h[|h| - 1])
  }

  /** Two plain heading lines joined by one newline are already tidy. */
  lemma TidyHeadingPair(h1: string, h2: string)
    requires PlainHeading(h1) && PlainHeading(h2)
    ensures Tidied(h1 + "\n" + h2) == h1 + "\n" + h2
  {
    var x := h1 + "\n" + h2;
    HeadingStart(h1);
    assert forall k :: 0 <= k < |x| && k != |h1| ==> x[k] != '\n' by {
      forall k | 0 <= k < |x| && k != |h1|
        ensures x[k] != '\n'
      {
        if k < |h1| {
          assert x[k] == h1[k];
        } else {
          assert x[k] == h2[k - |h1| - 1];
        }
      }
    }
    NoTripleWithoutPair(x);
    assert x[0] == h1[0];
    assert x[|x| - 1] == h2[|h2| - 1];
    TidiedUnchanged(x);
  }

  /**
   * Two heading lines in a row come out with three newlines between them and
   * a newline at each end: padding brings back what lines 83-84 removed.
   */
  lemma PaddingReintroducesBreaks(h1: string, h2: string)
    requires PlainHeading(h1) && PlainHeading(h2)
    ensures Postprocessed(h1 + "\n" + h2) == "\n" + h1 + "\n\n\n" + h2 + "\n"
    ensures Contains(Postprocessed(h1 + "\n" + h2), "\n\n\n")
  {
    var x := h1 + "\n" + h2;
    TidyHeadingPair(h1, h2);
    var r := "\n" + h1 + "\n\n\n" + h2 + "\n";
    var j := Join(PaddedLines([h1, h2]), "\n");
    assert Postprocessed(x) == j by {
      SplitOnCons(h1, '\n', h2);
      PostprocessedByLines(x, [h1, h2]);
    }
    assert j == PadHeading(h1) + "\n" + PadHeading(h2) by {
      PaddedPair(h1, h2);
    }
    assert PadHeading(h1) == "\n" + h1 + "\n" && PadHeading(h2) == "\n" + h2 + "\n";
    Regroup(h1, h2);
    RunOfThree(h1, h2);
  }

  lemma Regroup(a: string, b: string)
    ensures ("\n" + a + "\n") + "\n" + ("\n" + b + "\n") == "\n" + a + "\n\n\n" + b + "\n"
  {
    assert "\n" + "\n" + "\n" == "\n\n\n";
  }

  lemma RunOfThree(h1: string, h2: string)
    ensures Contains("\n" + h1 + "\n\n\n" + h2 + "\n", "\n\n\n")
  {
    var r := "\n" + h1 + "\n\n\n" + h2 + "\n";
    assert r[|h1| + 1..|h1| + 4] == "\n\n\n";
    ContainsSlice(r, |h1| + 1, |h1| + 4, "\n\n\n") by {
      assert r[|h1| + 1..|h1| + 4][..3] == "\n\n\n";
    }
  }

  /** Two lines with an empty line between them split into three. */
  lemma SplitAroundEmptyLine(h1: string, h2: string)
    requires '\n' !in h1 && '\n' !in h2
    ensures SplitOn(h1 + "\n\n" + h2, '\n') == [h1, "", h2]
  {
    SplitOnCons(h1, '\n', "\n" + h2);
    assert h1 + "\n\n" + h2 == h1 + "\n" + ("\n" + h2);
    SplitOnCons("", '\n', h2);
    assert "\n" + h2 == "" + "\n" + h2;
  }

  /** The tidying passes on the output of PaddingReintroducesBreaks take out one newline of the run and both ends. */
  lemma TidyPaddedPair(h1: string, h2: string)
    requires PlainHeading(h1) && PlainHeading(h2)
    ensures Tidied("\n" + h1 + "\n\n\n" + h2 + "\n") == h1 + "\n\n" + h2
  {
    var p := "\n" + h1 + "\n\n\n" + h2 + "\n";
    assert StripLinks(p) == p by {
      StripLinksPlain(p, []);
      assert p + [] == p;
    }
    assert DropImages(p) == p by {
      DropImagesPlain(p, []);
      assert p + [] == p;
    }
    CollapsePaddedPair(h1, h2);
    StripPaddedPair(h1, h2);
  }

  lemma CollapsePaddedPair(h1: string, h2: string)
    requires PlainHeading(h1) && PlainHeading(h2)
    ensures CollapseNewlines("\n" + h1 + "\n\n\n" + h2 + "\n") == "\n" + h1 + "\n\n" + h2 + "\n"
  {
    var q := "\n\n\n" + h2 + "\n";
    HeadingStart(h1);
    assert "\n" + h1 + "\n\n\n" + h2 + "\n" == "\n" + (h1 + q);
    assert CollapseNewlines("\n" + (h1 + q)) == "\n" + CollapseNewlines(h1 + q) by {
      assert (h1 + q)[0] == '#';
      CollapseOneNewline(h1 + q);
    }
    CollapseSkipsLine(h1, q);
    CollapseRunBeforeLine(h2);
    assert "\n" + (h1 + ("\n\n" + h2 + "\n")) == "\n" + h1 + "\n\n" + h2 + "\n";
  }

  /** A single newline before other text is kept as it is. */
  lemma CollapseOneNewline(x: string)
    requires x != [] && x[0] != '\n'
    ensures CollapseNewlines("\n" + x) == "\n" + CollapseNewlines(x)
  {
    var s := "\n" + x;
    assert s[1..] == x;
    assert LeadingRun(s, '\n') == 1 by {
      assert LeadingRun(x, '\n') == 0;
    }
  }

  lemma CollapseRunBeforeLine(h: string)
    requires PlainHeading(h)
    ensures CollapseNewlines("\n\n\n" + h + "\n") == "\n\n" + h + "\n"
  {
    var q := "\n\n\n" + h + "\n";
    HeadingStart(h);
    assert LeadingRun(q, '\n') == 3 by {
      assert q[3..] == h + "\n";
      assert LeadingRun(q[3..], '\n') == 0;
    }
    assert q[3..] == h + "\n";
    CollapseSkipsLine(h, "\n");
    assert CollapseNewlines("\n") == "\n";
  }

  lemma StripPaddedPair(h1: string, h2: string)
    requires PlainHeading(h1) && PlainHeading(h2)
    ensures Strip("\n" + h1 + "\n\n" + h2 + "\n") == h1 + "\n\n" + h2
  {
    var c := "\n" + h1 + "\n\n" + h2 + "\n";
    HeadingStart(h1);
    assert LeadingSpace(c) == 1 by {
      assert c[1..][0] == '#';
    }
    assert TrailingSpace(c) == 1 by {
      var t := c[..|c| - 1];
      assert t[|t| - 1] == h2[|h2| - 1];
    }
    assert c[1..|c| - 1] == h1 + "\n\n" + h2;
  }

  /** So the post-processing is not idempotent: a second run on that output changes it again. */
  lemma PostprocessNotIdempotent(h1: string, h2: string)
    requires PlainHeading(h1) && PlainHeading(h2)
    ensures Postprocessed(Postprocessed(h1 + "\n" + h2)) != Postprocessed(h1 + "\n" + h2)
  {
    var p := "\n" + h1 + "\n\n\n" + h2 + "\n";
    PaddingReintroducesBreaks(h1, h2);
    TidyPaddedPair(h1, h2);
    var t := h1 + "\n\n" + h2;
    var j := Join(PaddedLines([h1, "", h2]), "\n");
    assert Postprocessed(p) == j by {
      SplitAroundEmptyLine(h1, h2);
      PostprocessedByLines(p, [h1, "", h2]);
    }
    assert j == PadHeading(h1) + "\n" + PadHeading("") + "\n" + PadHeading(h2) by {
      PaddedTriple(h1, "", h2);
    }
    assert PadHeading(h1) == "\n" + h1 + "\n" && PadHeading(h2) == "\n" + h2 + "\n" && PadHeading("") == "";
    assert |j| == |h1| + |h2| + 6;
  }
}
