/**
 * Choice of the subtree to convert: `soup.find('main') or soup.find('body')`
 * in `ConversionThread.convert_to_markdown`. A found tag is always truthy in
 * BeautifulSoup, so the body is looked for only when there is no `main` at all.
 */
module Selection {
  import opened Wrappers
  import opened Tree

  predicate IsMain(name: string, classes: seq<string>)
  {
    name == "main"
  }

  predicate IsBody(name: string, classes: seq<string>)
  {
    name == "body"
  }

  /** The first `main` element in document order, else the first `body`, else nothing. */
  function SelectContent(document: seq<Node>): (r: Option<Node>)
    ensures r.Some? ==> r.value.Element? && (r.value.name == "main" || r.value.name == "body")
    ensures Count(document, IsMain) > 0 ==> r.Some? && r.value.name == "main"
    ensures r.None? <==> Count(document, IsMain) == 0 && Count(document, IsBody) == 0
  {
    match FindFirst(document, IsMain)
    case Some(p) => Some(At(document, p))
    case None =>
      match FindFirst(document, IsBody)
      case Some(p) => Some(At(document, p))
      case None => None
  }

  /**
   * Selection agrees with a walk over all nodes in document order: the first
   * `main` met wins; only when no `main` is met anywhere does the first `body` win.
   */
  lemma SelectionInDocumentOrder(document: seq<Node>)
    ensures var firstMain := FirstWhere(Preorder(document), IsMain);
      SelectContent(document) == if firstMain.Some? then firstMain else FirstWhere(Preorder(document), IsBody)
  {
    FindFirstInDocumentOrder(document, IsMain);
    FindFirstInDocumentOrder(document, IsBody);
  }
}
