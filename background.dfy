/** The extension's background worker (travis_pdf_extension/background.js):
    two module-level objects, `downloadTracker` (timestamp -> list of PDF
    downloads started at that instant) and `caseData` (case number -> what
    the content script reported), the listeners that update them, and the
    case attribution and suggested path computed for a finished PDF. */
module Background {
  import opened Options
  import opened Text
  import opened JsObject
  import CasePattern

  /** The fields of a `DownloadItem` the worker records. */
  datatype DownloadItem = DownloadItem(id: int, filename: string, url: string, startTime: string)

  /** A `caseData` entry; `endTime` and `downloadCount` are added on completion. */
  datatype CaseEntry = CaseEntry(startTime: string, elementCount: int, tabId: int,
                                 endTime: Option<string>, downloadCount: Option<int>)

  /** The messages the content script sends (`request.action` and its fields). */
  datatype Message =
    | StartDownload(caseNumber: string, elementCount: int)
    | DownloadProgress(current: int, total: int, caseNumber: string)
    | DownloadComplete(caseNumber: string, downloadCount: int)
    | PageAnalysis

  /** Where a finished PDF should go and under which case. */
  datatype Suggestion = Suggestion(caseNumber: string, path: string)

  const UnknownCase: string := "UNKNOWN_CASE"
  const OutputRoot: string := "court_records/MANCUSO_GIACOMO_ANGELO/"

  // ---------------------------------------------------------------------
  // downloads.onCreated

  /** Downloads recorded under timestamp `ts`, `[]` when there are none. */
  function ListAt(tracker: Obj<seq<DownloadItem>>, ts: string): seq<DownloadItem> {
    if Has(tracker, ts) then Get(tracker, ts) else []
  }

  /** The tracker after `downloads.onCreated` fires for `item` at time `now`:
      a download whose name ends in `.pdf` is pushed onto the list under the
      timestamp key (the list is created first if absent); anything else is
      ignored. */
  function TrackCreated(tracker: Obj<seq<DownloadItem>>, item: DownloadItem, now: string): Obj<seq<DownloadItem>> {
    if EndsWith(item.filename, ".pdf") then Put(tracker, now, ListAt(tracker, now) + [item]) else tracker
  }

  /** Number of download records held under all timestamps together. */
  function TotalRecords(tracker: Obj<seq<DownloadItem>>): nat {
    if tracker == [] then 0 else |tracker[0].1| + TotalRecords(tracker[1..])
  }

  /** Replacing the value under a present key changes the total by the
      difference in list lengths. */
  lemma {:induction false} TotalRecordsReplace(tracker: Obj<seq<DownloadItem>>, ts: string, l: seq<DownloadItem>)
    requires WellFormed(tracker) && Has(tracker, ts)
    ensures TotalRecords(Put(tracker, ts, l)) + |Get(tracker, ts)| == TotalRecords(tracker) + |l|
    decreases |tracker|
  {
    var r := Put(tracker, ts, l);
    if tracker[0].0 == ts {
      assert r[1..] == tracker[1..];
    } else {
      var t := tracker[1..];
      HasCons(tracker);
      assert Get(t, ts) == Get(tracker, ts) by {
        var i :| 0 <= i < |t| && t[i] == (ts, Get(t, ts));
        assert tracker[i + 1] == t[i];
      }
      TotalRecordsReplace(t, ts, l);
      assert r[1..] == Put(t, ts, l);
    }
  }

  lemma {:induction false} TotalRecordsAppend(tracker: Obj<seq<DownloadItem>>, ts: string, l: seq<DownloadItem>)
    ensures TotalRecords(tracker + [(ts, l)]) == TotalRecords(tracker) + |l|
    decreases |tracker|
  {
    if tracker != [] {
      assert (tracker + [(ts, l)])[1..] == tracker[1..] + [(ts, l)];
      TotalRecordsAppend(tracker[1..], ts, l);
    }
  }

  /** A created PDF download adds exactly one record, under its timestamp,
      after those already there; every other timestamp keeps its list. A
      download of anything else leaves the tracker as it was. */
  lemma TrackCreatedSpec(tracker: Obj<seq<DownloadItem>>, item: DownloadItem, now: string)
    requires WellFormed(tracker)
    ensures var r := TrackCreated(tracker, item, now);
      WellFormed(r) &&
      (!EndsWith(item.filename, ".pdf") ==> r == tracker) &&
      (EndsWith(item.filename, ".pdf") ==>
         ToMap(r) == ToMap(tracker)[now := ListAt(tracker, now) + [item]] &&
         TotalRecords(r) == TotalRecords(tracker) + 1)
  {
    if EndsWith(item.filename, ".pdf") {
      var l := ListAt(tracker, now) + [item];
      PutIsMapUpdate(tracker, now, l);
      if Has(tracker, now) {
        TotalRecordsReplace(tracker, now, l);
      } else {
        TotalRecordsAppend(tracker, now, l);
      }
    }
  }

  // ---------------------------------------------------------------------
  // runtime.onMessage

  /** `caseData` after one message from the content script, received at
      time `now` from tab `tabId`. */
  function AfterMessage(caseData: Obj<CaseEntry>, msg: Message, now: string, tabId: int): Obj<CaseEntry> {
    match msg
    case StartDownload(c, n) => Put(caseData, c, CaseEntry(now, n, tabId, None, None))
    case DownloadComplete(c, n) =>
      if Has(caseData, c) then Put(caseData, c, Get(caseData, c).(endTime := Some(now), downloadCount := Some(n)))
      else caseData
    case _ => caseData
  }

  /** startDownload overwrites the entry of its case with a fresh one;
      downloadComplete stamps an existing entry and keeps what it had, and
      changes nothing when the case has no entry; the other messages leave
      `caseData` alone. No other case's entry is touched. */
  lemma AfterMessageSpec(caseData: Obj<CaseEntry>, msg: Message, now: string, tabId: int)
    requires WellFormed(caseData)
    ensures var r := AfterMessage(caseData, msg, now, tabId);
      WellFormed(r) &&
      (msg.StartDownload? ==>
         ToMap(r) == ToMap(caseData)[msg.caseNumber := CaseEntry(now, msg.elementCount, tabId, None, None)]) &&
      (msg.DownloadComplete? && !Has(caseData, msg.caseNumber) ==> r == caseData) &&
      (msg.DownloadComplete? && Has(caseData, msg.caseNumber) ==>
         var was := Get(caseData, msg.caseNumber);
         ToMap(r) == ToMap(caseData)[msg.caseNumber := CaseEntry(was.startTime, was.elementCount, was.tabId,
                                                                  Some(now), Some(msg.downloadCount))]) &&
      (msg.DownloadProgress? || msg.PageAnalysis? ==> r == caseData)
  {
    match msg
    case StartDownload(c, n) => PutIsMapUpdate(caseData, c, CaseEntry(now, n, tabId, None, None));
    case DownloadComplete(c, n) =>
      if Has(caseData, c) {
        PutIsMapUpdate(caseData, c, Get(caseData, c).(endTime := Some(now), downloadCount := Some(n)));
      }
    case _ =>
  }

  // ---------------------------------------------------------------------
  // organizeDownload

  /** JavaScript's default string order (`Array.prototype.sort` without a
      comparator): a is a prefix of b, or a is smaller at the first difference. */
  predicate LexLe(a: string, b: string) {
    a == [] || (b != [] && (a[0] < b[0] || (a[0] == b[0] && LexLe(a[1..], b[1..]))))
  }

  lemma {:induction false} LexLeTotal(a: string, b: string)
    ensures LexLe(a, b) || LexLe(b, a)
  {
    if a != [] && b != [] && a[0] == b[0] {
      LexLeTotal(a[1..], b[1..]);
    }
  }

  lemma {:induction false} LexLeReflexive(a: string)
    ensures LexLe(a, a)
  {
    if a != [] {
      LexLeReflexive(a[1..]);
    }
  }

  lemma {:induction false} LexLeTransitive(a: string, b: string, c: string)
    requires LexLe(a, b) && LexLe(b, c)
    ensures LexLe(a, c)
  {
    if a != [] && a[0] == b[0] && b[0] == c[0] {
      LexLeTransitive(a[1..], b[1..], c[1..]);
    }
  }

  /** `keys.sort().pop()`: the greatest key in JavaScript's string order. */
  function MaxKey(keys: seq<string>): (r: string)
    requires |keys| > 0
    ensures r in keys
    ensures forall k :: k in keys ==> LexLe(k, r)
  {
    if |keys| == 1 then
      LexLeReflexive(keys[0]);
      assert forall k :: k in keys ==> k == keys[0];
      keys[0]
    else
      var m := MaxKey(keys[1..]);
      LexLeTotal(m, keys[0]);
      if LexLe(m, keys[0]) then
        assert forall k :: k in keys[1..] ==> LexLe(k, keys[0]) by {
          forall k | k in keys[1..] ensures LexLe(k, keys[0]) {
            LexLeTransitive(k, m, keys[0]);
          }
        }
        LexLeReflexive(keys[0]);
        assert forall k :: k in keys ==> k == keys[0] || k in keys[1..];
        keys[0]
      else
        assert forall k :: k in keys ==> k == keys[0] || k in keys[1..];
        m
  }

  /** `toISOString().replace(/[:.]/g, '-')`. */
  function FileSafe(ts: string): (r: string)
    ensures |r| == |ts| && ':' !in r && '.' !in r
    ensures forall i :: 0 <= i < |ts| && ts[i] != ':' && ts[i] != '.' ==> r[i] == ts[i]
  {
    seq(|ts|, i requires 0 <= i < |ts| => if ts[i] == ':' || ts[i] == '.' then '-' else ts[i])
  }

  /** The case a finished PDF belongs to: the first case number in its file
      name, else the greatest case number reported so far, else
      `UNKNOWN_CASE`; and the path under the case's documents folder,
      stamped with the current time. */
  function OrganizeDownload(filename: string, caseKeys: seq<string>, now: string): (s: Suggestion)
    ensures CasePattern.FirstMatch(filename, CasePattern.SixDigits).Some? ==>
      s.caseNumber == CasePattern.FirstMatch(filename, CasePattern.SixDigits).value
    ensures CasePattern.FirstMatch(filename, CasePattern.SixDigits).None? && |caseKeys| > 0 ==>
      s.caseNumber in caseKeys && forall k :: k in caseKeys ==> LexLe(k, s.caseNumber)
    ensures CasePattern.FirstMatch(filename, CasePattern.SixDigits).None? && |caseKeys| == 0 ==>
      s.caseNumber == UnknownCase
    ensures s.path == OutputRoot + s.caseNumber + "/documents/" + s.caseNumber + "_" + FileSafe(now) + ".pdf"
  {
    var caseNumber :=
      match CasePattern.FirstMatch(filename, CasePattern.SixDigits)
      case Some(m) => m
      case None => if |caseKeys| > 0 then MaxKey(caseKeys) else UnknownCase;
    Suggestion(caseNumber, OutputRoot + caseNumber + "/documents/" + caseNumber + "_" + FileSafe(now) + ".pdf")
  }

  /** The suggested path is a PDF inside `<root>/<case>/documents/` whose
      name starts with the case number, and its time stamp carries no ':'
      or '.'. */
  lemma SuggestedPathShape(filename: string, caseKeys: seq<string>, now: string)
    ensures var s := OrganizeDownload(filename, caseKeys, now);
      var dir := OutputRoot + s.caseNumber + "/documents/";
      StartsWith(s.path, dir + s.caseNumber + "_") && EndsWith(s.path, ".pdf") &&
      var stamp := s.path[|dir| + |s.caseNumber| + 1..|s.path| - 4];
      |stamp| == |now| && ':' !in stamp && '.' !in stamp
  {
    var s := OrganizeDownload(filename, caseKeys, now);
    var dir := OutputRoot + s.caseNumber + "/documents/";
    assert s.path == (dir + s.caseNumber + "_") + FileSafe(now) + ".pdf";
    assert s.path[..|dir + s.caseNumber + "_"|] == dir + s.caseNumber + "_";
    assert s.path[|dir| + |s.caseNumber| + 1..|s.path| - 4] == FileSafe(now);
  }

  // ---------------------------------------------------------------------
  // The worker's state and listeners

  class Worker {
    var downloadTracker: Obj<seq<DownloadItem>>
    var caseData: Obj<CaseEntry>

    ghost predicate Valid()
      reads this
    {
      WellFormed(downloadTracker) && WellFormed(caseData)
    }

    /** Both objects start empty (what was persisted is not restored here). */
    constructor ()
      ensures Valid() && downloadTracker == [] && caseData == []
    {
      downloadTracker := [];
      caseData := [];
    }

    /** `chrome.downloads.onCreated`. */
    method OnCreated(item: DownloadItem, now: string)
      requires Valid()
      modifies this
      ensures Valid()
      ensures downloadTracker == TrackCreated(old(downloadTracker), item, now)
      ensures caseData == old(caseData)
    {
      TrackCreatedSpec(downloadTracker, item, now);
      if |item.filename| > 0 && EndsWith(item.filename, ".pdf") {
        var timestamp := now;
        if !Has(downloadTracker, timestamp) {
          downloadTracker := Put(downloadTracker, timestamp, []);
          PutSpec(old(downloadTracker), timestamp, []);
        }
        downloadTracker := Put(downloadTracker, timestamp, Get(downloadTracker, timestamp) + [item]);
        assert downloadTracker == Put(old(downloadTracker), now, ListAt(old(downloadTracker), now) + [item]) by {
          PutTwice(old(downloadTracker), now, item);
        }
      }
    }

    /** `chrome.runtime.onMessage`, for a message from tab `tabId` received
        at time `now`. */
    method OnMessage(msg: Message, now: string, tabId: int)
      requires Valid()
      modifies this
      ensures Valid()
      ensures caseData == AfterMessage(old(caseData), msg, now, tabId)
      ensures downloadTracker == old(downloadTracker)
    {
      AfterMessageSpec(caseData, msg, now, tabId);
      match msg {
        case StartDownload(c, n) =>
          caseData := Put(caseData, c, CaseEntry(now, n, tabId, None, None));
        case DownloadComplete(c, n) =>
          if Has(caseData, c) {
            var entry := Get(caseData, c);
            entry := entry.(endTime := Some(now));
            entry := entry.(downloadCount := Some(n));
            caseData := Put(caseData, c, entry);
          }
        case _ =>
      }
    }

    /** `chrome.downloads.onChanged` followed by its `downloads.search`
        callback: only a transition to `complete` of a download whose file
        name ends in `.pdf` reaches `organizeDownload`. */
    method OnChanged(stateCurrent: Option<string>, found: seq<DownloadItem>, now: string)
      returns (s: Option<Suggestion>)
      requires Valid()
      ensures s.Some? <==> stateCurrent == Some("complete") && |found| > 0 && EndsWith(found[0].filename, ".pdf")
      ensures s.Some? ==> s.value == OrganizeDownload(found[0].filename, Keys(caseData), now)
    {
      s := None;
      if stateCurrent.Some? && stateCurrent.value == "complete" {
        if |found| > 0 {
          var download := found[0];
          if EndsWith(download.filename, ".pdf") {
            s := Some(OrganizeDownload(download.filename, Keys(caseData), now));
          }
        }
      }
    }
  }

  /** Creating the list first and then pushing onto it is the same as
      putting the extended list at once. */
  lemma PutTwice(tracker: Obj<seq<DownloadItem>>, ts: string, item: DownloadItem)
    requires WellFormed(tracker)
    ensures var t := if Has(tracker, ts) then tracker else Put(tracker, ts, []);
      Has(t, ts) && Put(t, ts, Get(t, ts) + [item]) == Put(tracker, ts, ListAt(tracker, ts) + [item])
  {
    PutSpec(tracker, ts, []);
    if !Has(tracker, ts) {
      var t := Put(tracker, ts, []);
      assert t == tracker + [(ts, [])];
      assert Get(t, ts) == [];
    }
  }
}
