/** The download bookkeeping of the Selenium scraper
    (`travis_advanced_pdf_scraper.py`): the PDF filter over the browser's
    performance log, the click counter, the polling loop that waits for
    finished downloads, the collision-avoiding rename into the case folder,
    and the per-case tracker.

    The browser, the clock and the file system are inputs: a click or a
    script either succeeds or fails as an oracle says, the download
    directory is a list of names read once per poll, and a move either
    succeeds or is listed as failing. */
module PdfScraper {
  import opened Options
  import Text
  import Seqs
  import JsObject

  // ---------------------------------------------------------------------
  // capture_network_logs

  /** The `response` object of a `Network.responseReceived` event; a field
      the event does not carry is the empty string, as `.get(k, "")` gives. */
  datatype Response = Response(url: string, mimeType: string)

  /** One entry of the performance log, already parsed. `Malformed` is an
      entry whose message is not JSON; an `Entry` whose method mentions a
      response but has no `response` object raises inside the loop body. */
  datatype PerfEntry =
    | Malformed
    | Entry(eventMethod: string, response: Option<Response>)

  /** A record appended to `network_logs`. */
  datatype NetworkLog = NetworkLog(url: string, mimeType: string, timestamp: string)

  const ResponseReceived: string := "Network.responseReceived"

  /** The PDF test: the lower-cased MIME type mentions "pdf", or the URL
      ends in ".pdf" (case-sensitive). */
  predicate IsPdfResponse(r: Response) {
    Text.Contains(Text.ToLower(r.mimeType), "pdf") || Text.EndsWith(r.url, ".pdf")
  }

  /** The record one log entry contributes, if any. */
  function LogRecord(e: PerfEntry, now: string): Option<NetworkLog> {
    match e
    case Malformed => None
    case Entry(m, resp) =>
      if Text.Contains(m, ResponseReceived) && resp.Some? && IsPdfResponse(resp.value)
      then Some(NetworkLog(resp.value.url, resp.value.mimeType, now))
      else None
  }

  /** The records a batch of log entries contributes, in log order. */
  function PdfLogs(entries: seq<PerfEntry>, now: string): seq<NetworkLog> {
    if entries == [] then []
    else
      PdfLogs(entries[..|entries| - 1], now) +
      match LogRecord(entries[|entries| - 1], now)
      case Some(r) => [r]
      case None => []
  }

  /** Filtering a log in two parts gives the two filtered parts in order. */
  lemma {:induction false} PdfLogsAppend(a: seq<PerfEntry>, b: seq<PerfEntry>, now: string)
    ensures PdfLogs(a + b, now) == PdfLogs(a, now) + PdfLogs(b, now)
    decreases |b|
  {
    if b == [] {
      assert a + b == a;
    } else {
      var b' := b[..|b| - 1];
      assert (a + b)[..|a + b| - 1] == a + b';
      assert (a + b)[|a + b| - 1] == b[|b| - 1];
      PdfLogsAppend(a, b', now);
    }
  }

  /** A malformed entry is skipped and the entries after it are still read. */
  lemma MalformedSkipped(a: seq<PerfEntry>, b: seq<PerfEntry>, now: string)
    ensures PdfLogs(a + [Malformed] + b, now) == PdfLogs(a, now) + PdfLogs(b, now)
  {
    PdfLogsAppend(a + [Malformed], b, now);
    assert (a + [Malformed])[..|a|] == a;
  }

  /** A record is kept exactly when some entry passes the filter: its method
      mentions `Network.responseReceived`, it has a response, and that
      response looks like a PDF. */
  lemma {:induction false} PdfLogsMembers(entries: seq<PerfEntry>, now: string, x: NetworkLog)
    ensures x in PdfLogs(entries, now) <==>
      exists i :: 0 <= i < |entries| && LogRecord(entries[i], now) == Some(x)
    decreases |entries|
  {
    if entries != [] {
      var init := entries[..|entries| - 1];
      PdfLogsMembers(init, now, x);
      if exists i :: 0 <= i < |entries| && LogRecord(entries[i], now) == Some(x) {
        var i :| 0 <= i < |entries| && LogRecord(entries[i], now) == Some(x);
        if i < |init| {
          assert init[i] == entries[i];
        }
      }
      if exists i :: 0 <= i < |init| && LogRecord(init[i], now) == Some(x) {
        var i :| 0 <= i < |init| && LogRecord(init[i], now) == Some(x);
        assert entries[i] == init[i];
      }
    }
  }

  /** What a kept record says: its URL and MIME type come from a
      `Network.responseReceived` response that passes the PDF test. */
  lemma LogRecordSpec(e: PerfEntry, now: string)
    ensures LogRecord(e, now).Some? <==>
      e.Entry? && Text.Contains(e.eventMethod, ResponseReceived) && e.response.Some? && IsPdfResponse(e.response.value)
    ensures LogRecord(e, now).Some? ==>
      LogRecord(e, now).value == NetworkLog(e.response.value.url, e.response.value.mimeType, now)
  {
  }

  // ---------------------------------------------------------------------
  // find_and_click_pdf_icons

  /** The 26 CSS selectors tried in turn. */
  const ClickSelectors: seq<string> := [
    "img[src*='icon']", "img[src*='pdf']", "img[src*='document']", "img[src*='file']",
    "img[alt*='PDF']", "img[alt*='Document']", "img[title*='PDF']", "img[title*='Document']",
    "button img", "a img", "[onclick] img", "td img", "td a", "td button",
    ".icon", ".pdf-icon", ".document-icon", "[class*='icon']", "[class*='pdf']",
    "[class*='document']", "svg", "i[class*='icon']", "i[class*='pdf']",
    "span[class*='icon']", "[role='button'] img", "[role='link'] img"]

  /** What happens to one element a selector found: whether scrolling and
      highlighting it succeeded, which of the three click methods would
      succeed, and the performance-log entries read after the click. */
  datatype ElementTrial = ElementTrial(scrollOk: bool, regularOk: bool, scriptOk: bool, actionsOk: bool, logs: seq<PerfEntry>)

  /** The result of looking up one selector: the lookup raised, or the list
      of elements found. */
  datatype SelectorResult = LookupFailed | Elements(trials: seq<ElementTrial>)

  /** An image the second-strategy script visits, and whether clicking its
      target throws. */
  datatype ScriptImage = ScriptImage(src: string, clickThrows: bool)

  /** An element is counted once when it could be scrolled to and one of
      the three click methods succeeded. */
  predicate Clicked(t: ElementTrial) {
    t.scrollOk && (t.regularOk || t.scriptOk || t.actionsOk)
  }

  function TrialClicks(ts: seq<ElementTrial>): nat {
    if ts == [] then 0 else TrialClicks(ts[..|ts| - 1]) + if Clicked(ts[|ts| - 1]) then 1 else 0
  }

  /** The network records read after each element; an element that could
      not be scrolled to skips the read. */
  function TrialLogs(ts: seq<ElementTrial>, now: string): seq<NetworkLog> {
    if ts == [] then []
    else
      var t := ts[|ts| - 1];
      TrialLogs(ts[..|ts| - 1], now) + if t.scrollOk then PdfLogs(t.logs, now) else []
  }

  function SelectorClicks(found: seq<SelectorResult>): nat {
    if found == [] then 0
    else
      SelectorClicks(found[..|found| - 1]) +
      match found[|found| - 1]
      case LookupFailed => 0
      case Elements(ts) => TrialClicks(ts)
  }

  function SelectorLogs(found: seq<SelectorResult>, now: string): seq<NetworkLog> {
    if found == [] then []
    else
      SelectorLogs(found[..|found| - 1], now) +
      match found[|found| - 1]
      case LookupFailed => []
      case Elements(ts) => TrialLogs(ts, now)
  }

  /** How many elements the selectors found altogether. */
  function ElementCount(found: seq<SelectorResult>): nat {
    if found == [] then 0
    else
      ElementCount(found[..|found| - 1]) +
      match found[|found| - 1]
      case LookupFailed => 0
      case Elements(ts) => |ts|
  }

  /** The image test of the second strategy (case-sensitive). */
  predicate ScriptTarget(img: ScriptImage) {
    Text.Contains(img.src, "icon") || Text.Contains(img.src, "pdf") || Text.Contains(img.src, "document")
  }

  function ScriptClicks(images: seq<ScriptImage>): nat {
    if images == [] then 0
    else
      var img := images[|images| - 1];
      ScriptClicks(images[..|images| - 1]) + if ScriptTarget(img) && !img.clickThrows then 1 else 0
  }

  lemma {:induction false} TrialClicksBound(ts: seq<ElementTrial>)
    ensures TrialClicks(ts) <= |ts|
    ensures TrialClicks(ts) == |ts| <==> forall i :: 0 <= i < |ts| ==> Clicked(ts[i])
  {
    if ts != [] {
      var init := ts[..|ts| - 1];
      TrialClicksBound(init);
      if forall i :: 0 <= i < |ts| ==> Clicked(ts[i]) {
        assert forall i :: 0 <= i < |init| ==> init[i] == ts[i];
      }
      if TrialClicks(ts) == |ts| {
        forall i | 0 <= i < |ts| ensures Clicked(ts[i]) {
          if i < |init| {
            assert init[i] == ts[i];
          }
        }
      }
    }
  }

  /** The first strategy adds at most one per element found, whichever of
      the three click methods succeeded. */
  lemma {:induction false} SelectorClicksBound(found: seq<SelectorResult>)
    ensures SelectorClicks(found) <= ElementCount(found)
  {
    if found != [] {
      SelectorClicksBound(found[..|found| - 1]);
      match found[|found| - 1]
      case LookupFailed =>
      case Elements(ts) => TrialClicksBound(ts);
    }
  }

  /** The second strategy adds at most one per image it visits, and only
      for images whose source names an icon, a PDF or a document. */
  lemma {:induction false} ScriptClicksBound(images: seq<ScriptImage>)
    ensures ScriptClicks(images) <= |images|
    ensures (forall i :: 0 <= i < |images| ==> !ScriptTarget(images[i])) ==> ScriptClicks(images) == 0
  {
    if images != [] {
      var init := images[..|images| - 1];
      ScriptClicksBound(init);
      assert forall i :: 0 <= i < |init| ==> init[i] == images[i];
    }
  }

  /** The second-strategy script: for each matching image, click its target
      and count the clicks that do not throw. */
  method RunClickScript(images: seq<ScriptImage>) returns (clicked: nat)
    ensures clicked == ScriptClicks(images)
  {
    clicked := 0;
    var i := 0;
    while i < |images|
      invariant 0 <= i <= |images|
      invariant clicked == ScriptClicks(images[..i])
    {
      var img := images[i];
      if ScriptTarget(img) {
        if !img.clickThrows {
          clicked := clicked + 1;
        }
      }
      assert images[..i + 1][..i] == images[..i];
      i := i + 1;
    }
    assert images[..i] == images;
  }

  // ---------------------------------------------------------------------
  // wait_for_downloads

  predicate IsPdfName(n: string) {
    Text.EndsWith(n, ".pdf")
  }

  predicate IsPartial(n: string) {
    Text.EndsWith(n, ".crdownload")
  }

  /** The glob `*<case>*.pdf`: the name ends in ".pdf" and the case number
      occurs in what comes before that suffix. */
  predicate MatchesCaseGlob(n: string, caseNumber: string) {
    IsPdfName(n) && Text.Contains(n[..|n| - 4], caseNumber)
  }

  /** What one poll collects from a listing of the download directory: the
      names matching the case glob, then every ".pdf" name (so a case file
      is listed twice), with ".crdownload" names dropped. */
  function PollFiles(listing: seq<string>, caseNumber: string): seq<string> {
    Seqs.Filter(
      Seqs.Filter(listing, n => MatchesCaseGlob(n, caseNumber)) + Seqs.Filter(listing, IsPdfName),
      n => !IsPartial(n))
  }

  /** The glob `*.crdownload` finds something. */
  predicate HasPartial(listing: seq<string>) {
    exists n :: n in listing && IsPartial(n)
  }

  /** The early exit: nothing is still downloading and something was found. */
  predicate Settled(listing: seq<string>, found: seq<string>) {
    !HasPartial(listing) && |found| > 0
  }

  /** The poll loop from accumulated `found`, one listing per poll; running
      out of listings is the timeout. */
  function WaitFrom(found: seq<string>, caseNumber: string, polls: seq<seq<string>>): seq<string>
    decreases |polls|
  {
    if polls == [] then found
    else
      var f := Seqs.AddNew(found, PollFiles(polls[0], caseNumber));
      if Settled(polls[0], f) then f else WaitFrom(f, caseNumber, polls[1..])
  }

  /** The accumulation over every poll, without the early exit. */
  function Accumulate(found: seq<string>, caseNumber: string, polls: seq<seq<string>>): seq<string>
    decreases |polls|
  {
    if polls == [] then found
    else Accumulate(Seqs.AddNew(found, PollFiles(polls[0], caseNumber)), caseNumber, polls[1..])
  }

  /** Every ".pdf" name some listing shows. */
  function PdfNamesIn(polls: seq<seq<string>>): set<string> {
    if polls == [] then {} else Seqs.Elems(Seqs.Filter(polls[0], IsPdfName)) + PdfNamesIn(polls[1..])
  }

  lemma PdfNotPartial(n: string)
    requires IsPdfName(n)
    ensures !IsPartial(n)
  {
    assert n[|n| - 1] == n[|n| - 4..][3] == 'f';
    assert |n| >= 11 ==> n[|n| - 11..][10] == 'f';
  }

  /** One poll's list holds exactly the ".pdf" names of the listing: the
      case glob only puts some of them first. */
  lemma PollFilesSpec(listing: seq<string>, caseNumber: string)
    ensures forall n :: n in PollFiles(listing, caseNumber) <==> n in listing && IsPdfName(n)
  {
    forall n | n in listing && IsPdfName(n) {
      PdfNotPartial(n);
    }
  }

  /** Accumulating over polls keeps what was found in front, adds no name
      twice, and ends with exactly the ".pdf" names shown. */
  lemma {:induction false} AccumulateSpec(found: seq<string>, caseNumber: string, polls: seq<seq<string>>)
    ensures var r := Accumulate(found, caseNumber, polls);
      |found| <= |r| && r[..|found|] == found &&
      (Seqs.NoDup(found) ==> Seqs.NoDup(r)) &&
      Seqs.Elems(r) == Seqs.Elems(found) + PdfNamesIn(polls)
    decreases |polls|
  {
    if polls != [] {
      var f := Seqs.AddNew(found, PollFiles(polls[0], caseNumber));
      PollFilesSpec(polls[0], caseNumber);
      AccumulateSpec(f, caseNumber, polls[1..]);
      var r := Accumulate(found, caseNumber, polls);
      assert r[..|found|] == r[..|f|][..|found|];
      assert Seqs.Elems(PollFiles(polls[0], caseNumber)) == Seqs.Elems(Seqs.Filter(polls[0], IsPdfName));
    }
  }

  /** Accumulating over the first j + 1 listings is one poll, then the
      next j. */
  lemma AccumulateFirst(found: seq<string>, caseNumber: string, polls: seq<seq<string>>, j: nat)
    requires j < |polls|
    ensures Accumulate(found, caseNumber, polls[..j + 1]) ==
      Accumulate(Seqs.AddNew(found, PollFiles(polls[0], caseNumber)), caseNumber, polls[1..][..j])
  {
    assert polls[..j + 1][0] == polls[0];
    assert polls[..j + 1][1..] == polls[1..][..j];
  }

  /** The poll loop reads listings until one settles or they run out: the
      result is the accumulation over the first k listings, where the k-th
      is the first that settles, or k is the whole budget. */
  lemma {:induction false} WaitFromStops(found: seq<string>, caseNumber: string, polls: seq<seq<string>>) returns (k: nat)
    ensures k <= |polls| && (polls != [] ==> k >= 1)
    ensures WaitFrom(found, caseNumber, polls) == Accumulate(found, caseNumber, polls[..k])
    ensures k < |polls| ==> Settled(polls[k - 1], WaitFrom(found, caseNumber, polls))
    ensures forall j :: 0 <= j < k - 1 ==> !Settled(polls[j], Accumulate(found, caseNumber, polls[..j + 1]))
    decreases |polls|
  {
    if polls == [] {
      k := 0;
    } else {
      var f := Seqs.AddNew(found, PollFiles(polls[0], caseNumber));
      AccumulateFirst(found, caseNumber, polls, 0);
      if Settled(polls[0], f) {
        k := 1;
      } else {
        var k' := WaitFromStops(f, caseNumber, polls[1..]);
        k := k' + 1;
        AccumulateFirst(found, caseNumber, polls, k');
        assert polls[..k'] + [] == polls[..k'];
        forall j | 0 <= j < k - 1
          ensures !Settled(polls[j], Accumulate(found, caseNumber, polls[..j + 1]))
        {
          AccumulateFirst(found, caseNumber, polls, j);
          if j > 0 {
            assert polls[j] == polls[1..][j - 1];
          }
        }
      }
    }
  }

  /** The result lists no name twice, only ".pdf" names shown by some
      listing, and never a ".crdownload" name. */
  lemma {:induction false} WaitFromSpec(found: seq<string>, caseNumber: string, polls: seq<seq<string>>)
    requires Seqs.NoDup(found)
    ensures var r := WaitFrom(found, caseNumber, polls);
      Seqs.NoDup(r) && |found| <= |r| && r[..|found|] == found && Seqs.Elems(r) <= Seqs.Elems(found) + PdfNamesIn(polls)
  {
    var k := WaitFromStops(found, caseNumber, polls);
    AccumulateSpec(found, caseNumber, polls[..k]);
    PdfNamesPrefix(polls, k);
  }

  lemma {:induction false} PdfNamesPrefix(polls: seq<seq<string>>, k: nat)
    requires k <= |polls|
    ensures PdfNamesIn(polls[..k]) <= PdfNamesIn(polls)
  {
    if k > 0 {
      assert polls[..k][1..] == polls[1..][..k - 1];
      PdfNamesPrefix(polls[1..], k - 1);
    }
  }

  /** Starting from nothing, every name returned is a finished PDF. */
  lemma WaitResultNames(caseNumber: string, polls: seq<seq<string>>, n: string)
    requires n in WaitFrom([], caseNumber, polls)
    ensures IsPdfName(n) && !IsPartial(n) && n in PdfNamesIn(polls)
  {
    WaitFromSpec([], caseNumber, polls);
    assert n in Seqs.Elems(WaitFrom([], caseNumber, polls));
    PdfNamesAreNames(polls, n);
    PdfNotPartial(n);
  }

  lemma {:induction false} PdfNamesAreNames(polls: seq<seq<string>>, n: string)
    requires n in PdfNamesIn(polls)
    ensures IsPdfName(n)
  {
    if n !in Seqs.Elems(Seqs.Filter(polls[0], IsPdfName)) {
      PdfNamesAreNames(polls[1..], n);
    }
  }

  /** The wait comes back empty exactly when no listing ever showed a
      ".pdf" name: an early exit needs something found, and a full run
      collects every name shown. */
  lemma WaitEmptyIff(caseNumber: string, polls: seq<seq<string>>)
    ensures WaitFrom([], caseNumber, polls) == [] <==> PdfNamesIn(polls) == {}
  {
    var r := WaitFrom([], caseNumber, polls);
    var k := WaitFromStops([], caseNumber, polls);
    WaitFromSpec([], caseNumber, polls);
    if PdfNamesIn(polls) == {} {
      assert Seqs.Elems(r) == {};
    }
    if r != [] {
      assert r[0] in Seqs.Elems(r);
    }
    if k == |polls| {
      assert polls[..k] == polls;
      AccumulateSpec([], caseNumber, polls);
      if PdfNamesIn(polls) != {} {
        var n :| n in PdfNamesIn(polls);
        assert n in Seqs.Elems(r);
      }
    }
  }

  // ---------------------------------------------------------------------
  // organize_pdfs: the destination name

  /** Position of the last '.' of a name. */
  function LastDot(s: string): (r: Option<nat>)
    ensures r.Some? ==> r.value < |s| && s[r.value] == '.' && forall j :: r.value < j < |s| ==> s[j] != '.'
    ensures r.None? ==> '.' !in s
  {
    if s == [] then None
    else if s[|s| - 1] == '.' then Some(|s| - 1)
    else LastDot(s[..|s| - 1])
  }

  /** `Path.stem`: the name without its last suffix, where a suffix needs a
      '.' that is neither the first nor the last character. */
  function Stem(name: string): string {
    match LastDot(name)
    case Some(i) => if 0 < i < |name| - 1 then name[..i] else name
    case None => name
  }

  /** The k-th alternative name `<stem>_<k>.pdf`. */
  function Suffixed(stem: string, k: nat): string {
    stem + "_" + Text.NatToString(k) + ".pdf"
  }

  lemma SuffixedInjective(stem: string, j: nat, k: nat)
    requires Suffixed(stem, j) == Suffixed(stem, k)
    ensures j == k
  {
    var s := Suffixed(stem, j);
    var dj := Text.NatToString(j);
    var dk := Text.NatToString(k);
    assert |dj| == |dk|;
    assert s[|stem| + 1..|stem| + 1 + |dj|] == dj;
    assert Suffixed(stem, k)[|stem| + 1..|stem| + 1 + |dk|] == dk;
    Text.NatToStringInjective(j, k);
  }

  /** The first n alternative names. */
  function SuffixSet(stem: string, n: nat): set<string> {
    if n == 0 then {} else SuffixSet(stem, n - 1) + {Suffixed(stem, n)}
  }

  lemma {:induction false} SuffixSetMembers(stem: string, n: nat)
    ensures forall j :: 1 <= j <= n ==> Suffixed(stem, j) in SuffixSet(stem, n)
    ensures forall x :: x in SuffixSet(stem, n) ==> exists j :: 1 <= j <= n && x == Suffixed(stem, j)
  {
    if n > 0 {
      SuffixSetMembers(stem, n - 1);
    }
  }

  lemma {:induction false} SuffixSetSpec(stem: string, n: nat)
    ensures |SuffixSet(stem, n)| == n
    ensures forall j :: 1 <= j <= n ==> Suffixed(stem, j) in SuffixSet(stem, n)
  {
    SuffixSetMembers(stem, n);
    if n > 0 {
      SuffixSetSpec(stem, n - 1);
      SuffixSetMembers(stem, n - 1);
      if Suffixed(stem, n) in SuffixSet(stem, n - 1) {
        var j :| 1 <= j <= n - 1 && Suffixed(stem, n) == Suffixed(stem, j);
        SuffixedInjective(stem, j, n);
      }
    }
  }

  lemma {:induction false} SubsetCard<T>(a: set<T>, b: set<T>)
    requires a <= b
    ensures |a| <= |b|
    decreases |a|
  {
    if a != {} {
      var x :| x in a;
      SubsetCard(a - {x}, b - {x});
    }
  }

  /** Pigeonhole: a directory of d names cannot hold all of the first d + 1
      alternative names. */
  lemma AllTakenBound(stem: string, dir: set<string>, n: nat)
    requires forall j :: 1 <= j <= n ==> Suffixed(stem, j) in dir
    ensures n <= |dir|
  {
    SuffixSetSpec(stem, n);
    SuffixSetMembers(stem, n);
    SubsetCard(SuffixSet(stem, n), dir);
  }

  /** The first free alternative index from k on. */
  function FreeIndex(stem: string, dir: set<string>, k: nat): (r: nat)
    requires k >= 1
    requires forall j :: 1 <= j < k ==> Suffixed(stem, j) in dir
    ensures r >= k && Suffixed(stem, r) !in dir
    ensures forall j :: 1 <= j < r ==> Suffixed(stem, j) in dir
    decreases |dir| + 1 - k
  {
    if Suffixed(stem, k) !in dir then k
    else
      AllTakenBound(stem, dir, k);
      FreeIndex(stem, dir, k + 1)
  }

  /** The destination `organize_pdfs` picks for a file: its own name when
      free, otherwise the alternative with the smallest free index. */
  function PickName(name: string, dir: set<string>): (dest: string)
    ensures dest !in dir
    ensures name !in dir ==> dest == name
  {
    if name !in dir then name else Suffixed(Stem(name), FreeIndex(Stem(name), dir, 1))
  }

  /** A taken name is replaced by `<stem>_<k>.pdf` for the least k >= 1
      that is free. */
  lemma PickNameSmallest(name: string, dir: set<string>)
    requires name in dir
    ensures exists k :: (k >= 1 && PickName(name, dir) == Suffixed(Stem(name), k) &&
      forall j :: 1 <= j < k ==> Suffixed(Stem(name), j) in dir)
  {
    var k := FreeIndex(Stem(name), dir, 1);
    assert PickName(name, dir) == Suffixed(Stem(name), k);
  }

  /** The counter starts at 1 for each file: three files called "doc.pdf"
      land as "doc.pdf", "doc_1.pdf" and "doc_2.pdf". */
  lemma ThreeCopies()
    ensures PickName("doc.pdf", {}) == "doc.pdf"
    ensures PickName("doc.pdf", {"doc.pdf"}) == "doc_1.pdf"
    ensures PickName("doc.pdf", {"doc.pdf", "doc_1.pdf"}) == "doc_2.pdf"
  {
    assert LastDot("doc.pdf") == Some(3) by {
      assert "doc.pdf"[..6] == "doc.pd";
      assert "doc.pd"[..5] == "doc.p";
      assert "doc.p"[..4] == "doc.";
    }
    assert Stem("doc.pdf") == "doc";
    assert Text.NatToString(1) == "1";
    assert Text.NatToString(2) == "2";
    assert Suffixed("doc", 1) == "doc_1.pdf";
    assert Suffixed("doc", 2) == "doc_2.pdf";
    assert "doc_1.pdf" != "doc.pdf" by {
      assert "doc_1.pdf"[3] != "doc.pdf"[3];
    }
    assert "doc_2.pdf" != "doc.pdf" by {
      assert "doc_2.pdf"[3] != "doc.pdf"[3];
    }
    assert "doc_2.pdf" != "doc_1.pdf" by {
      assert "doc_2.pdf"[4] != "doc_1.pdf"[4];
    }
  }

  /** The `while dest_path.exists()` loop. */
  method PickDestination(name: string, dir: set<string>) returns (destName: string)
    ensures destName == PickName(name, dir)
  {
    destName := name;
    var counter := 1;
    while destName in dir
      invariant 1 <= counter <= |dir| + 2
      invariant counter == 1 ==> destName == name
      invariant counter > 1 ==> name in dir && destName == Suffixed(Stem(name), counter - 1)
      invariant forall j :: 1 <= j < counter - 1 ==> Suffixed(Stem(name), j) in dir
      decreases |dir| + 2 - counter
    {
      if counter > 1 {
        AllTakenBound(Stem(name), dir, counter - 1);
      }
      var stem := Stem(name);
      destName := Suffixed(stem, counter);
      counter := counter + 1;
    }
    if counter > 1 {
      var r := FreeIndex(Stem(name), dir, 1);
      assert r == counter - 1;
    }
  }

  // ---------------------------------------------------------------------
  // organize_pdfs: the moves

  /** The count returned and the two directories afterwards. */
  datatype Organized = Organized(count: nat, downloads: set<string>, caseDir: set<string>)

  /** `organize_pdfs` over the Downloads directory, the case's documents
      directory and the set of files whose move fails. */
  function OrganizeSpec(pdfFiles: seq<string>, downloads: set<string>, caseDir: set<string>, moveFails: set<string>): Organized {
    if pdfFiles == [] then Organized(0, downloads, caseDir)
    else
      var prev := OrganizeSpec(pdfFiles[..|pdfFiles| - 1], downloads, caseDir, moveFails);
      var pdf := pdfFiles[|pdfFiles| - 1];
      if pdf in prev.downloads && pdf !in moveFails then
        Organized(prev.count + 1, prev.downloads - {pdf}, prev.caseDir + {PickName(pdf, prev.caseDir)})
      else prev
  }

  /** Only successful moves are counted, so the count is at most the number
      of files; nothing already in the case folder is overwritten, each move
      adds one new name there and takes one name out of Downloads. */
  lemma {:induction false} OrganizeSpecProps(pdfFiles: seq<string>, downloads: set<string>, caseDir: set<string>, moveFails: set<string>)
    ensures var r := OrganizeSpec(pdfFiles, downloads, caseDir, moveFails);
      r.count <= |pdfFiles| &&
      caseDir <= r.caseDir && |r.caseDir| == |caseDir| + r.count &&
      r.downloads <= downloads && |r.downloads| + r.count == |downloads|
  {
    if pdfFiles != [] {
      OrganizeSpecProps(pdfFiles[..|pdfFiles| - 1], downloads, caseDir, moveFails);
    }
  }

  /** A file that is missing from Downloads, or whose move fails, leaves
      everything as it was; later files are still handled. */
  lemma SkippedFile(pdfFiles: seq<string>, pdf: string, downloads: set<string>, caseDir: set<string>, moveFails: set<string>)
    requires pdf !in OrganizeSpec(pdfFiles, downloads, caseDir, moveFails).downloads || pdf in moveFails
    ensures OrganizeSpec(pdfFiles + [pdf], downloads, caseDir, moveFails) == OrganizeSpec(pdfFiles, downloads, caseDir, moveFails)
  {
    assert (pdfFiles + [pdf])[..|pdfFiles|] == pdfFiles;
  }

  /** The loop over the files. */
  method OrganizePdfs(pdfFiles: seq<string>, downloads: set<string>, caseDir: set<string>, moveFails: set<string>)
    returns (organizedCount: nat, downloadsAfter: set<string>, caseDirAfter: set<string>)
    ensures Organized(organizedCount, downloadsAfter, caseDirAfter) == OrganizeSpec(pdfFiles, downloads, caseDir, moveFails)
  {
    organizedCount := 0;
    downloadsAfter := downloads;
    caseDirAfter := caseDir;
    var i := 0;
    while i < |pdfFiles|
      invariant 0 <= i <= |pdfFiles|
      invariant Organized(organizedCount, downloadsAfter, caseDirAfter) == OrganizeSpec(pdfFiles[..i], downloads, caseDir, moveFails)
    {
      var pdf := pdfFiles[i];
      if pdf in downloadsAfter {
        var destName := PickDestination(pdf, caseDirAfter);
        if pdf !in moveFails {
          downloadsAfter := downloadsAfter - {pdf};
          caseDirAfter := caseDirAfter + {destName};
          organizedCount := organizedCount + 1;
        }
      }
      assert pdfFiles[..i + 1][..i] == pdfFiles[..i];
      i := i + 1;
    }
    assert pdfFiles[..i] == pdfFiles;
  }

  // ---------------------------------------------------------------------
  // The scraper object

  /** `AdvancedPDFScraper`'s mutable state: the per-case download counts
      (a dict, so insertion-ordered) and the captured PDF responses. */
  class Scraper {
    var downloadTracker: JsObject.Obj<nat>
    var networkLogs: seq<NetworkLog>

    constructor ()
      ensures downloadTracker == [] && networkLogs == []
    {
      downloadTracker := [];
      networkLogs := [];
    }

    /** `capture_network_logs`: appends one record per PDF response, in log
        order, and changes nothing else. */
    method CaptureNetworkLogs(logs: seq<PerfEntry>, now: string)
      modifies this
      ensures networkLogs == old(networkLogs) + PdfLogs(logs, now)
      ensures downloadTracker == old(downloadTracker)
    {
      var i := 0;
      while i < |logs|
        invariant 0 <= i <= |logs|
        invariant networkLogs == old(networkLogs) + PdfLogs(logs[..i], now)
        invariant downloadTracker == old(downloadTracker)
      {
        match logs[i] {
          case Malformed =>
          case Entry(m, resp) =>
            if Text.Contains(m, ResponseReceived) && resp.Some? {
              var url := resp.value.url;
              var mimeType := resp.value.mimeType;
              if Text.Contains(Text.ToLower(mimeType), "pdf") || Text.EndsWith(url, ".pdf") {
                networkLogs := networkLogs + [NetworkLog(url, mimeType, now)];
              }
            }
        }
        assert logs[..i + 1][..i] == logs[..i];
        i := i + 1;
      }
      assert logs[..i] == logs;
    }

    /** The elements one selector found: try each, count it once if any
        click method succeeds, and read the network log after it. */
    method ClickElements(trials: seq<ElementTrial>, now: string) returns (clicked: nat)
      modifies this
      ensures clicked == TrialClicks(trials)
      ensures networkLogs == old(networkLogs) + TrialLogs(trials, now)
      ensures downloadTracker == old(downloadTracker)
    {
      clicked := 0;
      var i := 0;
      while i < |trials|
        invariant 0 <= i <= |trials|
        invariant clicked == TrialClicks(trials[..i])
        invariant networkLogs == old(networkLogs) + TrialLogs(trials[..i], now)
        invariant downloadTracker == old(downloadTracker)
      {
        var t := trials[i];
        if t.scrollOk {
          if t.regularOk {
            clicked := clicked + 1;
          } else if t.scriptOk {
            clicked := clicked + 1;
          } else if t.actionsOk {
            clicked := clicked + 1;
          }
          CaptureNetworkLogs(t.logs, now);
        }
        assert trials[..i + 1][..i] == trials[..i];
        i := i + 1;
      }
      assert trials[..i] == trials;
    }

    /** The selector loop of `find_and_click_pdf_icons`: a selector whose
        lookup raises is skipped. */
    method ClickAllSelectors(found: seq<SelectorResult>, now: string) returns (clickedCount: nat)
      modifies this
      ensures clickedCount == SelectorClicks(found)
      ensures networkLogs == old(networkLogs) + SelectorLogs(found, now)
      ensures downloadTracker == old(downloadTracker)
    {
      clickedCount := 0;
      var i := 0;
      while i < |found|
        invariant 0 <= i <= |found|
        invariant clickedCount == SelectorClicks(found[..i])
        invariant networkLogs == old(networkLogs) + SelectorLogs(found[..i], now)
        invariant downloadTracker == old(downloadTracker)
      {
        assert found[..i + 1][..i] == found[..i];
        match found[i] {
          case LookupFailed =>
          case Elements(trials) =>
            var n := ClickElements(trials, now);
            clickedCount := clickedCount + n;
        }
        i := i + 1;
      }
      assert found[..i] == found;
    }

    /** `find_and_click_pdf_icons`: the selectors in turn, then the
        second-strategy script, whose count is added only when it runs. */
    method FindAndClickPdfIcons(found: seq<SelectorResult>, images: seq<ScriptImage>, scriptRuns: bool, now: string)
      returns (clickedCount: nat)
      requires |found| == |ClickSelectors|
      modifies this
      ensures clickedCount == SelectorClicks(found) + (if scriptRuns then ScriptClicks(images) else 0)
      ensures networkLogs == old(networkLogs) + SelectorLogs(found, now)
      ensures downloadTracker == old(downloadTracker)
    {
      clickedCount := ClickAllSelectors(found, now);
      if scriptRuns {
        var jsClicked := RunClickScript(images);
        clickedCount := clickedCount + jsClicked;
      }
    }

    /** `scrape_case`. `pageLoads` is false when something before the clicks
        raises (navigation, the page dump); `mkdirFails` says whether
        `organize_pdfs` raises creating the case directory, before any move;
        `logSaveFails` says whether saving a non-empty network log raises.
        Each of these exceptions ends in `download_tracker[case] = 0`. */
    method ScrapeCase(caseNumber: string, pageLoads: bool,
                      found: seq<SelectorResult>, images: seq<ScriptImage>, scriptRuns: bool, now: string,
                      polls: seq<seq<string>>, downloads: set<string>, caseDir: set<string>,
                      mkdirFails: bool, moveFails: set<string>, logSaveFails: bool)
      returns (downloadsAfter: set<string>, caseDirAfter: set<string>)
      requires |found| == |ClickSelectors|
      modifies this
      ensures !pageLoads ==>
        networkLogs == old(networkLogs) && downloadsAfter == downloads && caseDirAfter == caseDir &&
        downloadTracker == JsObject.Put(old(downloadTracker), caseNumber, 0)
      ensures pageLoads ==>
        var clicked := SelectorClicks(found) + (if scriptRuns then ScriptClicks(images) else 0);
        var pdfFiles := WaitFrom([], caseNumber, polls);
        var moved := OrganizeSpec(pdfFiles, downloads, caseDir, moveFails);
        var organizes := clicked > 0 && pdfFiles != [];
        networkLogs == old(networkLogs) + SelectorLogs(found, now) &&
        downloadsAfter == (if organizes && !mkdirFails then moved.downloads else downloads) &&
        caseDirAfter == (if organizes && !mkdirFails then moved.caseDir else caseDir) &&
        downloadTracker == JsObject.Put(old(downloadTracker), caseNumber,
          if (organizes && mkdirFails) || (logSaveFails && networkLogs != []) then 0
          else if organizes then moved.count else 0)
    {
      downloadsAfter := downloads;
      caseDirAfter := caseDir;
      if !pageLoads {
        downloadTracker := JsObject.Put(downloadTracker, caseNumber, 0);
        return;
      }
      var clicked := FindAndClickPdfIcons(found, images, scriptRuns, now);
      ghost var tracked: nat := 0;
      if clicked > 0 {
        var pdfFiles := WaitForDownloads(caseNumber, polls);
        if pdfFiles != [] {
          if mkdirFails {
            // `case_dir.mkdir` raises before any file moves
            downloadTracker := JsObject.Put(downloadTracker, caseNumber, 0);
            return;
          }
          var organized;
          organized, downloadsAfter, caseDirAfter := OrganizePdfs(pdfFiles, downloads, caseDir, moveFails);
          downloadTracker := JsObject.Put(downloadTracker, caseNumber, organized);
          tracked := organized;
        } else {
          downloadTracker := JsObject.Put(downloadTracker, caseNumber, 0);
        }
      } else {
        downloadTracker := JsObject.Put(downloadTracker, caseNumber, 0);
      }
      if networkLogs != [] && logSaveFails {
        downloadTracker := JsObject.Put(downloadTracker, caseNumber, 0);
        JsObject.PutPut(old(downloadTracker), caseNumber, tracked, 0);
      }
    }
  }

  /** `wait_for_downloads`: poll the listings in order, append each new
      ".pdf" name, and stop early once nothing is still downloading and
      something has been found. */
  method WaitForDownloads(caseNumber: string, polls: seq<seq<string>>) returns (foundPdfs: seq<string>)
    ensures foundPdfs == WaitFrom([], caseNumber, polls)
  {
    foundPdfs := [];
    var i := 0;
    while i < |polls|
      invariant 0 <= i <= |polls|
      invariant WaitFrom(foundPdfs, caseNumber, polls[i..]) == WaitFrom([], caseNumber, polls)
    {
      var listing := polls[i];
      var pdfFiles := PollFiles(listing, caseNumber);
      ghost var before := foundPdfs;
      var j := 0;
      while j < |pdfFiles|
        invariant 0 <= j <= |pdfFiles|
        invariant Seqs.AddNew(foundPdfs, pdfFiles[j..]) == Seqs.AddNew(before, pdfFiles)
      {
        var pdf := pdfFiles[j];
        assert pdfFiles[j..][1..] == pdfFiles[j + 1..];
        if pdf !in foundPdfs {
          foundPdfs := foundPdfs + [pdf];
        }
        j := j + 1;
      }
      assert polls[i..][0] == listing && polls[i..][1..] == polls[i + 1..];
      if !HasPartial(listing) && |foundPdfs| > 0 {
        break;
      }
      i := i + 1;
    }
  }
}
