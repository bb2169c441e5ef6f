/** The extension's content script (travis_pdf_extension/content.js): the
    case number read from the page, the four strategies that collect
    elements that may start a PDF download, the de-duplication of what they
    collect, and the loop that clicks every candidate and reports to the
    background worker. The page is given as the lists the DOM queries
    return; an element is known by an identity, as `===` compares them. */
module ContentScript {
  import opened Options
  import opened Text
  import CasePattern
  import JsObject
  import Background

  // ---------------------------------------------------------------------
  // getCaseNumber

  /** The `for (const pattern of casePatterns)` loop over one text: the first
      pattern that matches anywhere decides, and its leftmost match is taken. */
  function SearchPatterns(text: string): Option<string> {
    match CasePattern.FirstMatch(text, CasePattern.SixDigits)
    case Some(m) => Some(m)
    case None => CasePattern.FirstMatch(text, CasePattern.FiveOrSixDigits)
  }

  /** `getCaseNumber()`: the page body first, then the title and the first
      h1 and h2 (an absent heading reads as ''), else 'UNKNOWN_CASE'. */
  function GetCaseNumber(bodyText: string, title: string, h1Text: string, h2Text: string): string {
    match SearchPatterns(bodyText)
    case Some(m) => m
    case None =>
      match SearchPatterns(title + " " + h1Text + " " + h2Text)
      case Some(m) => m
      case None => Background.UnknownCase
  }

  /** SearchPatterns finds something exactly when the wider pattern matches
      somewhere, and what it finds is the leftmost match of the pattern it
      used, the six-digit one whenever that one matches. */
  lemma SearchPatternsSpec(text: string)
    ensures SearchPatterns(text).None? <==> forall i: nat, n: nat :: !CasePattern.MatchesAt(text, i, n, CasePattern.FiveOrSixDigits)
    ensures SearchPatterns(text).Some? ==>
      SearchPatterns(text) == CasePattern.FirstMatch(text, CasePattern.SixDigits) ||
      (CasePattern.FirstMatch(text, CasePattern.SixDigits).None? &&
       SearchPatterns(text) == CasePattern.FirstMatch(text, CasePattern.FiveOrSixDigits))
  {
    CasePattern.FirstMatchNone(text, CasePattern.FiveOrSixDigits);
    if CasePattern.FirstMatch(text, CasePattern.SixDigits).Some? {
      CasePattern.SixDigitsWidens(text);
    }
  }

  /** A match starts with 'C' or 'D', so it is never the fallback name. */
  lemma MatchIsNotUnknown(text: string, tail: CasePattern.Tail)
    requires CasePattern.FirstMatch(text, tail).Some?
    ensures CasePattern.FirstMatch(text, tail).value != Background.UnknownCase
  {
    var i := CasePattern.FindFrom(text, tail, 0).value;
    CasePattern.MatchLengthSound(text, i, tail);
    var w := CasePattern.FirstMatch(text, tail).value;
    var d :| CasePattern.Shape(w, d, tail);
    assert Background.UnknownCase[0] == 'U';
  }

  /** 'UNKNOWN_CASE' comes back exactly when neither the body nor the
      title-and-headings text holds a case number of either form; otherwise
      the result is what the pattern loop found in the body, or, failing
      that, in the title-and-headings text. */
  lemma GetCaseNumberSpec(bodyText: string, title: string, h1Text: string, h2Text: string)
    ensures var header := title + " " + h1Text + " " + h2Text;
      var r := GetCaseNumber(bodyText, title, h1Text, h2Text);
      (r == Background.UnknownCase <==>
         (forall i: nat, n: nat :: !CasePattern.MatchesAt(bodyText, i, n, CasePattern.FiveOrSixDigits)) &&
         (forall i: nat, n: nat :: !CasePattern.MatchesAt(header, i, n, CasePattern.FiveOrSixDigits))) &&
      (SearchPatterns(bodyText).Some? ==> Some(r) == SearchPatterns(bodyText)) &&
      (SearchPatterns(bodyText).None? && r != Background.UnknownCase ==> Some(r) == SearchPatterns(header))
  {
    var header := title + " " + h1Text + " " + h2Text;
    SearchPatternsSpec(bodyText);
    SearchPatternsSpec(header);
    if SearchPatterns(bodyText).Some? {
      if CasePattern.FirstMatch(bodyText, CasePattern.SixDigits).Some? {
        MatchIsNotUnknown(bodyText, CasePattern.SixDigits);
      } else {
        MatchIsNotUnknown(bodyText, CasePattern.FiveOrSixDigits);
      }
    } else if SearchPatterns(header).Some? {
      if CasePattern.FirstMatch(header, CasePattern.SixDigits).Some? {
        MatchIsNotUnknown(header, CasePattern.SixDigits);
      } else {
        MatchIsNotUnknown(header, CasePattern.FiveOrSixDigits);
      }
    }
  }

  // ---------------------------------------------------------------------
  // The page as the DOM queries see it

  type ElementId = nat

  /** An `img`: its `src`, `alt` and `title` ('' when missing) and the result
      of `img.closest('a, button, [onclick], td')`. */
  datatype Image = Image(id: ElementId, src: string, alt: string, title: string, clickableAncestor: Option<ElementId>)

  /** An `a`: `href`, `innerText` and the handler source ('' when none). */
  datatype Link = Link(id: ElementId, href: string, text: string, onclick: string)

  /** An `[onclick]` element with its handler source or attribute text. */
  datatype Handler = Handler(id: ElementId, onclick: string)

  /** A `td`: its `innerText` and the images, links and buttons inside it, in
      that order. */
  datatype Cell = Cell(text: string, inner: seq<ElementId>)

  datatype Page = Page(images: seq<Image>, links: seq<Link>, handlers: seq<Handler>, cells: seq<Cell>)

  datatype Kind = ImageIcon | ImageDirect | LinkEntry | OnclickHandler | TableCellElement

  datatype Candidate = Candidate(element: ElementId, kind: Kind)

  /** Strategy 1's test: the `src` names an icon, a PDF or a document
      (case-sensitive), or the lower-cased `alt` or `title` mentions a PDF
      or a document. */
  predicate LooksLikeIcon(img: Image) {
    Contains(img.src, "icon") || Contains(img.src, "pdf") || Contains(img.src, "document") ||
    Contains(ToLower(img.alt), "pdf") || Contains(ToLower(img.alt), "document") ||
    Contains(ToLower(img.title), "pdf") || Contains(ToLower(img.title), "document")
  }

  /** Strategy 1's entry for a matching image: its clickable ancestor, or
      the image itself when it has none. */
  function IconEntry(img: Image): Candidate {
    match img.clickableAncestor
    case Some(a) => Candidate(a, ImageIcon)
    case None => Candidate(img.id, ImageDirect)
  }

  /** Strategy 2's test. */
  predicate LooksLikePdfLink(link: Link) {
    Contains(link.href, "pdf") || Contains(link.href, "document") || Contains(link.href, "download") ||
    Contains(ToLower(link.text), "pdf") || Contains(ToLower(link.text), "document") ||
    Contains(link.onclick, "pdf") || Contains(link.onclick, "document")
  }

  /** Strategy 3's test (an empty handler text is falsy and fails it). */
  predicate HandlerMentionsPdf(h: Handler) {
    Contains(h.onclick, "pdf") || Contains(h.onclick, "document") || Contains(h.onclick, "download")
  }

  /** Strategy 4's test on the cell's text. */
  predicate CellMentionsDocument(text: string) {
    Contains(ToLower(text), "document") || Contains(ToLower(text), "pdf") ||
    Contains(ToLower(text), "file") || Contains(ToLower(text), "view")
  }

  // ---------------------------------------------------------------------
  // The strategies as functions of the page (the specification of the loops)

  function ImageEntries(images: seq<Image>): seq<Candidate> {
    if images == [] then []
    else
      var last := images[|images| - 1];
      ImageEntries(images[..|images| - 1]) + (if LooksLikeIcon(last) then [IconEntry(last)] else [])
  }

  function LinkEntries(links: seq<Link>): seq<Candidate> {
    if links == [] then []
    else
      var last := links[|links| - 1];
      LinkEntries(links[..|links| - 1]) + (if LooksLikePdfLink(last) then [Candidate(last.id, LinkEntry)] else [])
  }

  function HandlerEntries(handlers: seq<Handler>): seq<Candidate> {
    if handlers == [] then []
    else
      var last := handlers[|handlers| - 1];
      HandlerEntries(handlers[..|handlers| - 1]) +
        (if HandlerMentionsPdf(last) then [Candidate(last.id, OnclickHandler)] else [])
  }

  /** `pdfElements.some(pdf => pdf.element === elem)`. */
  predicate HasElement(cands: seq<Candidate>, e: ElementId) {
    exists i :: 0 <= i < |cands| && cands[i].element == e
  }

  /** Strategy 4 inside one cell: each inner element not yet collected is
      added when the cell's text mentions a document. */
  function CellStep(acc: seq<Candidate>, text: string, inner: seq<ElementId>): seq<Candidate> {
    if inner == [] then acc
    else
      var before := CellStep(acc, text, inner[..|inner| - 1]);
      var e := inner[|inner| - 1];
      if !HasElement(before, e) && CellMentionsDocument(text) then before + [Candidate(e, TableCellElement)] else before
  }

  function CellEntries(acc: seq<Candidate>, cells: seq<Cell>): seq<Candidate> {
    if cells == [] then acc
    else
      var last := cells[|cells| - 1];
      CellStep(CellEntries(acc, cells[..|cells| - 1]), last.text, last.inner)
  }

  /** Everything the four strategies push, in order. */
  function Collected(page: Page): seq<Candidate> {
    CellEntries(ImageEntries(page.images) + LinkEntries(page.links) + HandlerEntries(page.handlers), page.cells)
  }

  /** The `seen`/`unique` pass: the first entry of each element survives. */
  function Unique(cands: seq<Candidate>): seq<Candidate> {
    if cands == [] then []
    else
      var u := Unique(cands[..|cands| - 1]);
      var last := cands[|cands| - 1];
      if HasElement(u, last.element) then u else u + [last]
  }

  // ---------------------------------------------------------------------
  // Properties of the strategies and of the de-duplication

  /** Strategy 1 yields, in order, one entry per image that looks like an
      icon, and nothing else. */
  lemma {:induction false} ImageEntriesSpec(images: seq<Image>)
    ensures forall k :: 0 <= k < |images| && LooksLikeIcon(images[k]) ==> IconEntry(images[k]) in ImageEntries(images)
    ensures forall c :: c in ImageEntries(images) ==> exists k :: 0 <= k < |images| && LooksLikeIcon(images[k]) && c == IconEntry(images[k])
  {
    if images != [] {
      var init := images[..|images| - 1];
      ImageEntriesSpec(init);
      forall c | c in ImageEntries(images)
        ensures exists k :: 0 <= k < |images| && LooksLikeIcon(images[k]) && c == IconEntry(images[k])
      {
        if c in ImageEntries(init) {
          var k :| 0 <= k < |init| && LooksLikeIcon(init[k]) && c == IconEntry(init[k]);
          assert images[k] == init[k];
        }
      }
      forall k | 0 <= k < |images| && LooksLikeIcon(images[k]) ensures IconEntry(images[k]) in ImageEntries(images) {
        if k < |init| {
          assert images[k] == init[k];
        }
      }
    }
  }

  /** Strategy 2: a link yields a `link` entry for itself iff it passes the
      href/text/handler test, and every entry comes from such a link. */
  lemma {:induction false} LinkEntriesSpec(links: seq<Link>)
    ensures |LinkEntries(links)| <= |links|
    ensures forall k :: 0 <= k < |links| && LooksLikePdfLink(links[k]) ==> Candidate(links[k].id, LinkEntry) in LinkEntries(links)
    ensures forall c :: c in LinkEntries(links) ==>
      c.kind == LinkEntry && exists k :: 0 <= k < |links| && LooksLikePdfLink(links[k]) && c.element == links[k].id
  {
    if links != [] {
      var init := links[..|links| - 1];
      LinkEntriesSpec(init);
      forall c | c in LinkEntries(links)
        ensures c.kind == LinkEntry && exists k :: 0 <= k < |links| && LooksLikePdfLink(links[k]) && c.element == links[k].id
      {
        if c in LinkEntries(init) {
          var k :| 0 <= k < |init| && LooksLikePdfLink(init[k]) && c.element == init[k].id;
          assert links[k] == init[k];
        }
      }
      forall k | 0 <= k < |links| && LooksLikePdfLink(links[k]) ensures Candidate(links[k].id, LinkEntry) in LinkEntries(links) {
        if k < |init| {
          assert links[k] == init[k];
        }
      }
    }
  }

  /** Strategy 3: an `[onclick]` element yields an `onclick-handler` entry
      for itself iff its handler text mentions a PDF, a document or a
      download, and every entry comes from such an element. */
  lemma {:induction false} HandlerEntriesSpec(handlers: seq<Handler>)
    ensures |HandlerEntries(handlers)| <= |handlers|
    ensures forall k :: 0 <= k < |handlers| && HandlerMentionsPdf(handlers[k]) ==>
      Candidate(handlers[k].id, OnclickHandler) in HandlerEntries(handlers)
    ensures forall c :: c in HandlerEntries(handlers) ==>
      c.kind == OnclickHandler && exists k :: 0 <= k < |handlers| && HandlerMentionsPdf(handlers[k]) && c.element == handlers[k].id
  {
    if handlers != [] {
      var init := handlers[..|handlers| - 1];
      HandlerEntriesSpec(init);
      forall c | c in HandlerEntries(handlers)
        ensures c.kind == OnclickHandler &&
          exists k :: 0 <= k < |handlers| && HandlerMentionsPdf(handlers[k]) && c.element == handlers[k].id
      {
        if c in HandlerEntries(init) {
          var k :| 0 <= k < |init| && HandlerMentionsPdf(init[k]) && c.element == init[k].id;
          assert handlers[k] == init[k];
        }
      }
      forall k | 0 <= k < |handlers| && HandlerMentionsPdf(handlers[k])
        ensures Candidate(handlers[k].id, OnclickHandler) in HandlerEntries(handlers)
      {
        if k < |init| {
          assert handlers[k] == init[k];
        }
      }
    }
  }

  /** Strategy 4 keeps what was collected before it in front, and every entry
      it adds is a table-cell entry for an element not collected before it. */
  lemma {:induction false} CellStepSpec(acc: seq<Candidate>, text: string, inner: seq<ElementId>)
    ensures var r := CellStep(acc, text, inner);
      |acc| <= |r| && r[..|acc|] == acc &&
      forall k :: |acc| <= k < |r| ==>
        (r[k].kind == TableCellElement && !HasElement(r[..k], r[k].element) &&
         CellMentionsDocument(text) && r[k].element in inner)
  {
    if inner != [] {
      var before := CellStep(acc, text, inner[..|inner| - 1]);
      CellStepSpec(acc, text, inner[..|inner| - 1]);
      var r := CellStep(acc, text, inner);
      if r != before {
        assert r[..|before|] == before;
        assert r[..|acc|] == before[..|acc|];
        forall k | |acc| <= k < |r|
          ensures r[k].kind == TableCellElement && !HasElement(r[..k], r[k].element) &&
            CellMentionsDocument(text) && r[k].element in inner
        {
          if k < |before| {
            assert r[..k] == before[..k];
            assert r[k] == before[k];
          } else {
            assert r[..k] == before;
          }
        }
      }
    }
  }

  lemma {:induction false} CellEntriesSpec(acc: seq<Candidate>, cells: seq<Cell>)
    ensures var r := CellEntries(acc, cells);
      |acc| <= |r| && r[..|acc|] == acc &&
      forall k :: |acc| <= k < |r| ==> r[k].kind == TableCellElement && !HasElement(r[..k], r[k].element)
  {
    if cells != [] {
      var last := cells[|cells| - 1];
      var mid := CellEntries(acc, cells[..|cells| - 1]);
      CellEntriesSpec(acc, cells[..|cells| - 1]);
      CellStepSpec(mid, last.text, last.inner);
      var r := CellEntries(acc, cells);
      assert r[..|acc|] == r[..|mid|][..|acc|];
      forall k | |acc| <= k < |r| ensures r[k].kind == TableCellElement && !HasElement(r[..k], r[k].element) {
        if k < |mid| {
          assert r[..k] == mid[..k];
          assert r[k] == mid[k];
        }
      }
    }
  }

  lemma HasElementPrefix(s: seq<Candidate>, t: seq<Candidate>, e: ElementId)
    requires HasElement(s, e)
    ensures HasElement(s + t, e)
  {
    var i :| 0 <= i < |s| && s[i].element == e;
    assert (s + t)[i] == s[i];
  }

  lemma HasElementAppend(s: seq<Candidate>, c: Candidate, e: ElementId)
    ensures HasElement(s + [c], e) <==> HasElement(s, e) || c.element == e
  {
    if HasElement(s, e) {
      var i :| 0 <= i < |s| && s[i].element == e;
      assert (s + [c])[i] == s[i];
    }
    if c.element == e {
      assert (s + [c])[|s|] == c;
    }
    if HasElement(s + [c], e) {
      var i :| 0 <= i < |s + [c]| && (s + [c])[i].element == e;
      if i < |s| {
        assert s[i] == (s + [c])[i];
      }
    }
  }

  /** No element is listed twice after de-duplication, and every element any
      strategy produced is still listed. */
  lemma {:induction false} UniqueSpec(cands: seq<Candidate>)
    ensures var u := Unique(cands);
      (forall i, j :: 0 <= i < j < |u| ==> u[i].element != u[j].element) &&
      (forall e :: HasElement(u, e) <==> HasElement(cands, e))
  {
    if cands != [] {
      var init := cands[..|cands| - 1];
      var last := cands[|cands| - 1];
      UniqueSpec(init);
      assert cands == init + [last];
      forall e ensures HasElement(Unique(cands), e) <==> HasElement(cands, e) {
        HasElementAppend(init, last, e);
        HasElementAppend(Unique(init), last, e);
      }
      var u0 := Unique(init);
      if HasElement(u0, last.element) {
        assert Unique(cands) == u0;
      } else {
        var u := Unique(cands);
        assert u == u0 + [last];
        forall i, j | 0 <= i < j < |u| ensures u[i].element != u[j].element {
          assert u[i] == u0[i];
          if j < |u0| {
            assert u[j] == u0[j];
          } else {
            assert u[j] == last;
          }
        }
      }
    }
  }

  /** De-duplication keeps order and keeps each element's first entry, type
      included: the result is the entries of `cands` at increasing positions
      `idx`, each the first position holding its element. */
  lemma {:induction false} UniqueKeepsFirst(cands: seq<Candidate>) returns (idx: seq<nat>)
    ensures var u := Unique(cands);
      |idx| == |u| &&
      (forall k :: 0 <= k < |idx| ==> idx[k] < |cands| && u[k] == cands[idx[k]]) &&
      (forall k1, k2 :: 0 <= k1 < k2 < |idx| ==> idx[k1] < idx[k2]) &&
      (forall k, j :: 0 <= k < |idx| && 0 <= j < idx[k] ==> cands[j].element != u[k].element)
  {
    if cands == [] {
      idx := [];
    } else {
      var init := cands[..|cands| - 1];
      var last := cands[|cands| - 1];
      var ix := UniqueKeepsFirst(init);
      var u0 := Unique(init);
      assert forall j :: 0 <= j < |init| ==> cands[j] == init[j];
      if HasElement(u0, last.element) {
        idx := ix;
      } else {
        UniqueSpec(init);
        idx := ix + [|cands| - 1];
        var u := Unique(cands);
        assert u == u0 + [last];
        forall k | 0 <= k < |idx| ensures idx[k] < |cands| && u[k] == cands[idx[k]] {
          if k < |ix| {
            assert u[k] == u0[k];
          }
        }
        forall k, j | 0 <= k < |idx| && 0 <= j < idx[k] ensures cands[j].element != u[k].element {
          if k < |ix| {
            assert u[k] == u0[k];
          } else {
            assert !HasElement(init, last.element);
            assert cands[j] == init[j];
          }
        }
      }
    }
  }

  // ---------------------------------------------------------------------
  // findPDFElements and downloadAllPDFs

  /** The inner check of the table-cell strategy: is `elem` already among
      the candidates collected so far? */
  method AlreadyListed(pdfElements: seq<Candidate>, elem: ElementId) returns (already: bool)
    ensures already <==> HasElement(pdfElements, elem)
  {
    already := false;
    var k := 0;
    while k < |pdfElements|
      invariant 0 <= k <= |pdfElements|
      invariant already <==> exists m :: 0 <= m < k && pdfElements[m].element == elem
    {
      if pdfElements[k].element == elem {
        already := true;
      }
      k := k + 1;
    }
  }

  /** Strategy 4 for one cell: each element inside it that is not yet
      listed is pushed when the cell's text mentions a document. */
  method ScanCell(acc: seq<Candidate>, td: Cell) returns (pdfElements: seq<Candidate>)
    ensures pdfElements == CellStep(acc, td.text, td.inner)
  {
    pdfElements := acc;
    var j := 0;
    while j < |td.inner|
      invariant 0 <= j <= |td.inner|
      invariant pdfElements == CellStep(acc, td.text, td.inner[..j])
    {
      var elem := td.inner[j];
      var already := AlreadyListed(pdfElements, elem);
      if !already && CellMentionsDocument(td.text) {
        pdfElements := pdfElements + [Candidate(elem, TableCellElement)];
      }
      assert td.inner[..j + 1][..j] == td.inner[..j];
      j := j + 1;
    }
    assert td.inner[..j] == td.inner;
  }

  /** The four collection loops of `findPDFElements()`. */
  method CollectCandidates(page: Page) returns (pdfElements: seq<Candidate>)
    ensures pdfElements == Collected(page)
  {
    pdfElements := [];
    var i := 0;
    while i < |page.images|
      invariant 0 <= i <= |page.images|
      invariant pdfElements == ImageEntries(page.images[..i])
    {
      var img := page.images[i];
      if LooksLikeIcon(img) {
        match img.clickableAncestor {
          case Some(a) => pdfElements := pdfElements + [Candidate(a, ImageIcon)];
          case None => pdfElements := pdfElements + [Candidate(img.id, ImageDirect)];
        }
      }
      assert page.images[..i + 1][..i] == page.images[..i];
      i := i + 1;
    }
    assert page.images[..i] == page.images;
    ghost var afterImages := pdfElements;

    i := 0;
    while i < |page.links|
      invariant 0 <= i <= |page.links|
      invariant pdfElements == afterImages + LinkEntries(page.links[..i])
    {
      var link := page.links[i];
      if LooksLikePdfLink(link) {
        pdfElements := pdfElements + [Candidate(link.id, LinkEntry)];
      }
      assert page.links[..i + 1][..i] == page.links[..i];
      i := i + 1;
    }
    assert page.links[..i] == page.links;
    ghost var afterLinks := pdfElements;

    i := 0;
    while i < |page.handlers|
      invariant 0 <= i <= |page.handlers|
      invariant pdfElements == afterLinks + HandlerEntries(page.handlers[..i])
    {
      var h := page.handlers[i];
      if HandlerMentionsPdf(h) {
        pdfElements := pdfElements + [Candidate(h.id, OnclickHandler)];
      }
      assert page.handlers[..i + 1][..i] == page.handlers[..i];
      i := i + 1;
    }
    assert page.handlers[..i] == page.handlers;
    ghost var beforeCells := pdfElements;

    i := 0;
    while i < |page.cells|
      invariant 0 <= i <= |page.cells|
      invariant pdfElements == CellEntries(beforeCells, page.cells[..i])
    {
      pdfElements := ScanCell(pdfElements, page.cells[i]);
      assert page.cells[..i + 1][..i] == page.cells[..i];
      i := i + 1;
    }
    assert page.cells[..i] == page.cells;
  }

  /** The `seen`/`unique` pass of `findPDFElements()`. */
  method Deduplicate(pdfElements: seq<Candidate>) returns (unique: seq<Candidate>)
    ensures unique == Unique(pdfElements)
  {
    var seen: set<ElementId> := {};
    unique := [];
    var i := 0;
    while i < |pdfElements|
      invariant 0 <= i <= |pdfElements|
      invariant unique == Unique(pdfElements[..i])
      invariant forall e :: e in seen <==> HasElement(unique, e)
    {
      var pdf := pdfElements[i];
      forall e ensures HasElement(unique + [pdf], e) <==> HasElement(unique, e) || pdf.element == e {
        HasElementAppend(unique, pdf, e);
      }
      if pdf.element !in seen {
        seen := seen + {pdf.element};
        unique := unique + [pdf];
      }
      assert pdfElements[..i + 1][..i] == pdfElements[..i];
      i := i + 1;
    }
    assert pdfElements[..i] == pdfElements;
  }

  /** `findPDFElements()`: collect with the four strategies, then keep each
      element's first entry. */
  method FindPdfElements(page: Page) returns (unique: seq<Candidate>)
    ensures unique == Unique(Collected(page))
  {
    var pdfElements := CollectCandidates(page);
    unique := Deduplicate(pdfElements);
  }

  /** The messages `downloadAllPDFs` sends for `n` candidates of case `c`,
      and the count it returns. */
  function ReportMessages(c: string, n: nat): seq<Background.Message> {
    [Background.StartDownload(c, n)] + ProgressMessages(c, n, n) + [Background.DownloadComplete(c, n)]
  }

  /** One progress message per click, numbered from 1. */
  function ProgressMessages(c: string, done: nat, total: nat): (r: seq<Background.Message>)
    ensures |r| == done
  {
    if done == 0 then [] else ProgressMessages(c, done - 1, total) + [Background.DownloadProgress(done, total, c)]
  }

  /** `downloadAllPDFs()`: reads the case number, finds the candidates,
      clicks each one and counts every click whatever its outcome. */
  method DownloadAllPdfs(page: Page, bodyText: string, title: string, h1Text: string, h2Text: string)
    returns (downloadCount: nat, sent: seq<Background.Message>)
    ensures downloadCount == |Unique(Collected(page))|
    ensures sent == ReportMessages(GetCaseNumber(bodyText, title, h1Text, h2Text), downloadCount)
  {
    var caseNumber := GetCaseNumber(bodyText, title, h1Text, h2Text);
    var pdfElements := FindPdfElements(page);
    sent := [Background.StartDownload(caseNumber, |pdfElements|)];
    downloadCount := 0;
    var i := 0;
    while i < |pdfElements|
      invariant 0 <= i <= |pdfElements|
      invariant downloadCount == i
      invariant sent == [Background.StartDownload(caseNumber, |pdfElements|)] + ProgressMessages(caseNumber, i, |pdfElements|)
    {
      downloadCount := downloadCount + 1;
      sent := sent + [Background.DownloadProgress(i + 1, |pdfElements|, caseNumber)];
      i := i + 1;
    }
    sent := sent + [Background.DownloadComplete(caseNumber, downloadCount)];
  }

  /** `caseData` after the worker has received a batch of messages in order;
      `stamps[i]` is the clock reading when message `i` arrives. */
  function Deliver(caseData: JsObject.Obj<Background.CaseEntry>, msgs: seq<Background.Message>, stamps: seq<string>, tabId: int): JsObject.Obj<Background.CaseEntry>
    requires |stamps| == |msgs|
    decreases |msgs|
  {
    if msgs == [] then caseData
    else Deliver(Background.AfterMessage(caseData, msgs[0], stamps[0], tabId), msgs[1..], stamps[1..], tabId)
  }

  lemma {:induction false} ProgressLeavesCaseData(caseData: JsObject.Obj<Background.CaseEntry>, c: string, done: nat, total: nat,
                                                  stamps: seq<string>, rest: seq<Background.Message>, restStamps: seq<string>, tabId: int)
    requires |stamps| == done && |restStamps| == |rest|
    ensures Deliver(caseData, ProgressMessages(c, done, total) + rest, stamps + restStamps, tabId) == Deliver(caseData, rest, restStamps, tabId)
    decreases done
  {
    if done > 0 {
      var m := Background.DownloadProgress(done, total, c);
      var s := stamps[done - 1];
      assert ProgressMessages(c, done, total) + rest == ProgressMessages(c, done - 1, total) + ([m] + rest);
      assert stamps + restStamps == stamps[..done - 1] + ([s] + restStamps);
      ProgressLeavesCaseData(caseData, c, done - 1, total, stamps[..done - 1], [m] + rest, [s] + restStamps, tabId);
      assert ([m] + rest)[0] == m && ([m] + rest)[1..] == rest;
      assert ([s] + restStamps)[0] == s && ([s] + restStamps)[1..] == restStamps;
      assert Background.AfterMessage(caseData, m, s, tabId) == caseData;
      assert Deliver(caseData, [m] + rest, [s] + restStamps, tabId) == Deliver(caseData, rest, restStamps, tabId);
    } else {
      assert ProgressMessages(c, done, total) + rest == rest;
      assert stamps + restStamps == restStamps;
    }
  }

  /** After the worker has received the whole report of a run, the case's
      entry holds the candidate count both as `elementCount` and as
      `downloadCount`, the arrival time of the start message as `startTime`
      and that of the completion message as `endTime`. */
  lemma ReportReachesWorker(caseData: JsObject.Obj<Background.CaseEntry>, c: string, n: nat, stamps: seq<string>, tabId: int)
    requires JsObject.WellFormed(caseData)
    requires |stamps| == n + 2
    ensures var r := Deliver(caseData, ReportMessages(c, n), stamps, tabId);
      JsObject.WellFormed(r) && JsObject.Has(r, c) &&
      JsObject.Get(r, c) == Background.CaseEntry(stamps[0], n, tabId, Some(stamps[n + 1]), Some(n))
  {
    var start := Background.CaseEntry(stamps[0], n, tabId, None, None);
    var afterStart := Background.AfterMessage(caseData, Background.StartDownload(c, n), stamps[0], tabId);
    JsObject.PutSpec(caseData, c, start);
    var msgs := ReportMessages(c, n);
    var fin := [Background.DownloadComplete(c, n)];
    assert msgs[1..] == ProgressMessages(c, n, n) + fin;
    assert stamps[1..] == stamps[1..n + 1] + [stamps[n + 1]];
    ProgressLeavesCaseData(afterStart, c, n, n, stamps[1..n + 1], fin, [stamps[n + 1]], tabId);
    var done := start.(endTime := Some(stamps[n + 1]), downloadCount := Some(n));
    JsObject.PutSpec(afterStart, c, done);
    assert Deliver(afterStart, fin, [stamps[n + 1]], tabId) ==
      Background.AfterMessage(afterStart, Background.DownloadComplete(c, n), stamps[n + 1], tabId);
  }
}
