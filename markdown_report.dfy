/** The Markdown scraper (`travis_scraper_with_markdown.py`): the record its
    in-page script extracts from a case page (case information from
    two-cell rows, header-indexed events, parties, de-duplicated text
    blocks), the Markdown report built from that record, and the capped
    click loop that triggers the PDF downloads.

    The page is abstract: the rows of its tables as lists of cell texts,
    the event table's header row and data rows, and the texts of the party
    and text elements, each as `innerText` gives it. */
module MarkdownReport {
  import opened Options
  import Text
  import Seqs
  import JsObject

  // ---------------------------------------------------------------------
  // The page and the extracted record

  /** A table cell: `th` or `td`, and its text. */
  datatype Cell = Cell(isHeader: bool, text: string)

  datatype Row = Row(cells: seq<Cell>)

  /** The table the script reads events from: its header row, if any, and
      the rows it treats as data. */
  datatype EventTable = EventTable(headerRow: Option<Row>, dataRows: seq<Row>)

  datatype Page = Page(
    title: string,
    url: string,
    timestamp: string,
    tableRows: seq<Row>,              // every row of every table, in document order
    eventTable: Option<EventTable>,
    partyTexts: seq<string>,          // elements whose class or id mentions "party"
    textBlocks: seq<string>)          // p, div, span, td and li elements

  /** The record the script returns. */
  datatype Content = Content(
    title: string,
    url: string,
    timestamp: string,
    caseInfo: JsObject.Obj<string>,
    events: seq<JsObject.Obj<string>>,
    parties: seq<string>,
    allText: seq<string>)

  /** The texts of a row's `td` cells, in order. */
  function TdTexts(cells: seq<Cell>): (r: seq<string>)
    ensures |r| <= |cells|
  {
    if cells == [] then []
    else
      var last := cells[|cells| - 1];
      TdTexts(cells[..|cells| - 1]) + if last.isHeader then [] else [last.text]
  }

  /** `s.map(t => t.trim())`. */
  function TrimAll(s: seq<string>): (r: seq<string>)
    ensures |r| == |s| && forall i :: 0 <= i < |s| ==> r[i] == Text.Trim(s[i])
  {
    seq(|s|, i requires 0 <= i < |s| => Text.Trim(s[i]))
  }

  // -- case information

  /** The pair a row contributes to `caseInfo`: a row with at least two
      `td` cells whose trimmed first and second texts are both non-empty,
      keyed by the label with its first ':' removed. */
  function RowEntry(row: Row): Option<(string, string)> {
    var tds := TdTexts(row.cells);
    if |tds| >= 2 && Text.Trim(tds[0]) != "" && Text.Trim(tds[1]) != ""
    then Some((Text.RemoveFirst(Text.Trim(tds[0]), ':'), Text.Trim(tds[1])))
    else None
  }

  function CaseInfoOf(rows: seq<Row>): JsObject.Obj<string> {
    if rows == [] then []
    else
      var info := CaseInfoOf(rows[..|rows| - 1]);
      match RowEntry(rows[|rows| - 1])
      case Some(p) => JsObject.Put(info, p.0, p.1)
      case None => info
  }

  /** Row i of the table rows contributes the key k. */
  predicate KeyedAt(rows: seq<Row>, i: int, k: string)
    requires 0 <= i < |rows|
  {
    RowEntry(rows[i]).Some? && RowEntry(rows[i]).value.0 == k
  }

  lemma KeyedSnoc(rows: seq<Row>, init: seq<Row>, k: string)
    requires rows != [] && init == rows[..|rows| - 1]
    ensures (exists i :: 0 <= i < |rows| && KeyedAt(rows, i, k)) <==>
      (exists i :: 0 <= i < |init| && KeyedAt(init, i, k)) || KeyedAt(rows, |rows| - 1, k)
  {
    if exists i :: 0 <= i < |rows| && KeyedAt(rows, i, k) {
      var i :| 0 <= i < |rows| && KeyedAt(rows, i, k);
      if i < |init| {
        assert KeyedAt(init, i, k);
      }
    }
    if exists i :: 0 <= i < |init| && KeyedAt(init, i, k) {
      var i :| 0 <= i < |init| && KeyedAt(init, i, k);
      assert KeyedAt(rows, i, k);
    }
  }

  /** The keys of `caseInfo` are exactly the keys of the qualifying rows,
      each once. */
  lemma {:induction false} CaseInfoKeys(rows: seq<Row>)
    ensures JsObject.WellFormed(CaseInfoOf(rows))
    ensures forall k :: JsObject.Has(CaseInfoOf(rows), k) <==> exists i :: 0 <= i < |rows| && KeyedAt(rows, i, k)
  {
    if rows != [] {
      var init := rows[..|rows| - 1];
      var prev := CaseInfoOf(init);
      CaseInfoKeys(init);
      match RowEntry(rows[|rows| - 1]) {
        case None =>
        case Some(p) => JsObject.PutSpec(prev, p.0, p.1);
      }
      forall k ensures JsObject.Has(CaseInfoOf(rows), k) <==> exists i :: 0 <= i < |rows| && KeyedAt(rows, i, k) {
        KeyedSnoc(rows, init, k);
      }
    }
  }

  /** A later row with the same label overwrites an earlier one: each key
      holds the value of the last row that contributes it. */
  lemma {:induction false} CaseInfoLastWins(rows: seq<Row>, i: nat)
    requires i < |rows| && RowEntry(rows[i]).Some?
    requires forall j :: i < j < |rows| ==> !KeyedAt(rows, j, RowEntry(rows[i]).value.0)
    ensures JsObject.Has(CaseInfoOf(rows), RowEntry(rows[i]).value.0)
    ensures JsObject.Get(CaseInfoOf(rows), RowEntry(rows[i]).value.0) == RowEntry(rows[i]).value.1
  {
    var init := rows[..|rows| - 1];
    var prev := CaseInfoOf(init);
    var k := RowEntry(rows[i]).value.0;
    CaseInfoKeys(init);
    if i == |rows| - 1 {
      JsObject.PutSpec(prev, k, RowEntry(rows[i]).value.1);
    } else {
      assert init[i] == rows[i];
      forall j | i < j < |init| ensures !KeyedAt(init, j, k) {
        assert init[j] == rows[j];
        assert !KeyedAt(rows, j, k);
      }
      CaseInfoLastWins(init, i);
      assert !KeyedAt(rows, |rows| - 1, k);
      match RowEntry(rows[|rows| - 1]) {
        case None =>
        case Some(p) => JsObject.PutKeepsOthers(prev, p.0, p.1, k);
      }
    }
  }

  /** A row's contribution: present exactly when it has two `td` cells
      with a non-empty trimmed label and value; only the first ':' of the
      label goes. */
  lemma RowEntrySpec(row: Row)
    ensures var tds := TdTexts(row.cells);
      RowEntry(row).Some? <==> |tds| >= 2 && Text.Trim(tds[0]) != "" && Text.Trim(tds[1]) != ""
    ensures RowEntry(row).Some? ==>
      RowEntry(row).value.1 == Text.Trim(TdTexts(row.cells)[1]) &&
      |RowEntry(row).value.0| == |Text.Trim(TdTexts(row.cells)[0])| - (if ':' in Text.Trim(TdTexts(row.cells)[0]) then 1 else 0)
    ensures RowEntry(row).Some? ==>
      (var cell0 := Text.Trim(TdTexts(row.cells)[0]);
       var key := RowEntry(row).value.0;
       (':' !in cell0 ==> key == cell0) &&
       (':' in cell0 ==> exists i :: 0 <= i < |cell0| && cell0[i] == ':' && ':' !in cell0[..i] && key == cell0[..i] + cell0[i + 1..]))
  {
  }

  // -- events

  /** The headers: the trimmed texts of every `th` and `td` of the header
      row, or none without a header row. */
  function HeadersOf(t: EventTable): seq<string> {
    match t.headerRow
    case Some(r) => HeaderTexts(r.cells)
    case None => []
  }

  function HeaderTexts(cells: seq<Cell>): (r: seq<string>)
    ensures |r| == |cells| && forall i :: 0 <= i < |cells| ==> r[i] == Text.Trim(cells[i].text)
  {
    if cells == [] then [] else HeaderTexts(cells[..|cells| - 1]) + [Text.Trim(cells[|cells| - 1].text)]
  }

  /** One event: cell i is stored under `headers[i]` when that header
      exists and is non-empty; a repeated header keeps the later cell. */
  function EventOf(headers: seq<string>, tds: seq<string>): JsObject.Obj<string> {
    if tds == [] then []
    else
      var i := |tds| - 1;
      var e := EventOf(headers, tds[..i]);
      if i < |headers| && headers[i] != "" then JsObject.Put(e, headers[i], Text.Trim(tds[i])) else e
  }

  function EventsOf(headers: seq<string>, rows: seq<Row>): seq<JsObject.Obj<string>> {
    if rows == [] then []
    else
      var e := EventOf(headers, TdTexts(rows[|rows| - 1].cells));
      EventsOf(headers, rows[..|rows| - 1]) + if e != [] then [e] else []
  }

  /** An event has a field exactly for each non-empty header that has a
      cell under it. */
  lemma {:induction false} EventOfKeys(headers: seq<string>, tds: seq<string>)
    ensures JsObject.WellFormed(EventOf(headers, tds))
    ensures forall k :: JsObject.Has(EventOf(headers, tds), k) <==>
      exists i :: 0 <= i < |tds| && i < |headers| && headers[i] == k && k != ""
  {
    if tds != [] {
      var i := |tds| - 1;
      EventOfKeys(headers, tds[..i]);
      var e := EventOf(headers, tds[..i]);
      if i < |headers| && headers[i] != "" {
        JsObject.PutSpec(e, headers[i], Text.Trim(tds[i]));
      }
    }
  }

  /** Hence a row yields an event, and is kept, exactly when some cell sits
      under a non-empty header. */
  lemma EventKeptIff(headers: seq<string>, tds: seq<string>)
    ensures EventOf(headers, tds) != [] <==> exists i :: 0 <= i < |tds| && i < |headers| && headers[i] != ""
  {
    EventOfKeys(headers, tds);
    var e := EventOf(headers, tds);
    if e != [] {
      assert JsObject.Has(e, e[0].0);
    }
    if exists i :: 0 <= i < |tds| && i < |headers| && headers[i] != "" {
      var i :| 0 <= i < |tds| && i < |headers| && headers[i] != "";
      assert JsObject.Has(e, headers[i]);
    }
  }

  // -- parties and text blocks

  function PartiesOf(texts: seq<string>): seq<string> {
    if texts == [] then []
    else
      var t := Text.Trim(texts[|texts| - 1]);
      PartiesOf(texts[..|texts| - 1]) + if t != "" then [t] else []
  }

  /** The trimmed texts longer than 5 characters, before de-duplication.
      The page script measures `text.length`, in UTF-16 code units. */
  function LongTexts(texts: seq<string>): seq<string> {
    if texts == [] then []
    else
      var t := Text.Trim(texts[|texts| - 1]);
      LongTexts(texts[..|texts| - 1]) + if Text.JsLength(t) > 5 then [t] else []
  }

  predicate NonEmpty(t: string) {
    t != ""
  }

  predicate LongerThan5(t: string) {
    Text.JsLength(t) > 5
  }

  /** `[...new Set(allText)]`. */
  function AllTextOf(texts: seq<string>): seq<string> {
    Seqs.Distinct(LongTexts(texts))
  }

  lemma TrimAllSnoc(s: seq<string>, x: string)
    ensures TrimAll(s + [x]) == TrimAll(s) + [Text.Trim(x)]
  {
    assert forall i :: 0 <= i < |s| ==> (s + [x])[i] == s[i];
  }

  /** The parties are the non-empty trimmed texts, in order. */
  lemma {:induction false} PartiesSpec(texts: seq<string>)
    ensures PartiesOf(texts) == Seqs.Filter(TrimAll(texts), NonEmpty)
  {
    if texts != [] {
      var init := texts[..|texts| - 1];
      PartiesSpec(init);
      FilterSnoc(TrimAll(init), Text.Trim(texts[|texts| - 1]), NonEmpty);
      assert texts == init + [texts[|texts| - 1]];
      TrimAllSnoc(init, texts[|texts| - 1]);
    }
  }

  /** Before de-duplication: the trimmed texts longer than 5 characters,
      in order. */
  lemma {:induction false} LongTextsSpec(texts: seq<string>)
    ensures LongTexts(texts) == Seqs.Filter(TrimAll(texts), LongerThan5)
  {
    if texts != [] {
      var init := texts[..|texts| - 1];
      LongTextsSpec(init);
      FilterSnoc(TrimAll(init), Text.Trim(texts[|texts| - 1]), LongerThan5);
      assert texts == init + [texts[|texts| - 1]];
      TrimAllSnoc(init, texts[|texts| - 1]);
    }
  }

  /** The text blocks are the trimmed texts longer than 5 characters,
      without repeats, in order of first appearance. */
  lemma AllTextSpec(texts: seq<string>)
    ensures Seqs.NoDup(AllTextOf(texts))
    ensures forall t :: t in AllTextOf(texts) <==> t in TrimAll(texts) && Text.JsLength(t) > 5
  {
    LongTextsSpec(texts);
    var all := AllTextOf(texts);
    forall t ensures t in all <==> t in TrimAll(texts) && Text.JsLength(t) > 5 {
      assert t in all <==> t in Seqs.Elems(all);
      assert t in LongTexts(texts) <==> t in Seqs.Elems(LongTexts(texts));
    }
  }

  /** Three emoji make a six-unit block that the page script keeps, though
      it has only three characters. */
  lemma AstralBlockKept()
    ensures LongTexts(["\U{1F600}\U{1F600}\U{1F600}"]) == ["\U{1F600}\U{1F600}\U{1F600}"]
  {
    var t := "\U{1F600}\U{1F600}\U{1F600}";
    assert !Text.IsJsSpace(t[0]) && !Text.IsJsSpace(t[|t| - 1]);
    assert Text.TrimStart(t) == t && Text.TrimEnd(t) == t;
    assert Text.JsLength(t) == 6;
  }

  lemma {:induction false} FilterSnoc(s: seq<string>, x: string, p: string -> bool)
    ensures Seqs.Filter(s + [x], p) == Seqs.Filter(s, p) + if p(x) then [x] else []
    decreases |s|
  {
    if s == [] {
      assert [x][1..] == [];
    } else {
      assert (s + [x])[1..] == s[1..] + [x];
      FilterSnoc(s[1..], x, p);
    }
  }

  /** The whole record the in-page script returns. */
  function ExtractContent(page: Page): Content {
    var events := match page.eventTable
      case Some(t) => EventsOf(HeadersOf(t), t.dataRows)
      case None => [];
    Content(page.title, page.url, page.timestamp, CaseInfoOf(page.tableRows), events,
            PartiesOf(page.partyTexts), AllTextOf(page.textBlocks))
  }

  // ---------------------------------------------------------------------
  // The extraction script, step by step

  /** The `caseInfo` loop over every table row. */
  method ExtractCaseInfo(rows: seq<Row>) returns (caseInfo: JsObject.Obj<string>)
    ensures caseInfo == CaseInfoOf(rows)
  {
    caseInfo := [];
    var i := 0;
    while i < |rows|
      invariant 0 <= i <= |rows|
      invariant caseInfo == CaseInfoOf(rows[..i])
    {
      var cells := TdTexts(rows[i].cells);
      if |cells| >= 2 {
        var labelText := Text.Trim(cells[0]);
        var value := Text.Trim(cells[1]);
        if labelText != "" && value != "" {
          caseInfo := JsObject.Put(caseInfo, Text.RemoveFirst(labelText, ':'), value);
        }
      }
      assert rows[..i + 1][..i] == rows[..i];
      i := i + 1;
    }
    assert rows[..i] == rows;
  }

  /** One data row: store each cell under its header. */
  method ExtractEvent(headers: seq<string>, cells: seq<string>) returns (event: JsObject.Obj<string>)
    ensures event == EventOf(headers, cells)
  {
    event := [];
    var index := 0;
    while index < |cells|
      invariant 0 <= index <= |cells|
      invariant event == EventOf(headers, cells[..index])
    {
      if index < |headers| && headers[index] != "" {
        event := JsObject.Put(event, headers[index], Text.Trim(cells[index]));
      }
      assert cells[..index + 1][..index] == cells[..index];
      index := index + 1;
    }
    assert cells[..index] == cells;
  }

  /** The header loop. */
  method ReadHeaders(row: Row) returns (headers: seq<string>)
    ensures headers == HeaderTexts(row.cells)
  {
    headers := [];
    var j := 0;
    while j < |row.cells|
      invariant 0 <= j <= |row.cells|
      invariant headers == HeaderTexts(row.cells[..j])
    {
      headers := headers + [Text.Trim(row.cells[j].text)];
      assert row.cells[..j + 1][..j] == row.cells[..j];
      j := j + 1;
    }
    assert row.cells[..j] == row.cells;
  }

  /** The data-row loop: keep each non-empty event, in row order. */
  method CollectEvents(headers: seq<string>, rows: seq<Row>) returns (events: seq<JsObject.Obj<string>>)
    ensures events == EventsOf(headers, rows)
  {
    events := [];
    var i := 0;
    while i < |rows|
      invariant 0 <= i <= |rows|
      invariant events == EventsOf(headers, rows[..i])
    {
      assert rows[..i + 1][..i] == rows[..i];
      var event := ExtractEvent(headers, TdTexts(rows[i].cells));
      if event != [] {
        events := events + [event];
      }
      i := i + 1;
    }
    assert rows[..i] == rows;
  }

  /** The events loop: read the headers, then keep each non-empty event. */
  method ExtractEvents(table: EventTable) returns (events: seq<JsObject.Obj<string>>)
    ensures events == EventsOf(HeadersOf(table), table.dataRows)
  {
    var headers: seq<string> := [];
    if table.headerRow.Some? {
      headers := ReadHeaders(table.headerRow.value);
    }
    assert headers == HeadersOf(table);
    events := CollectEvents(headers, table.dataRows);
  }

  /** The parties loop. */
  method ExtractParties(partyTexts: seq<string>) returns (parties: seq<string>)
    ensures parties == PartiesOf(partyTexts)
  {
    parties := [];
    var i := 0;
    while i < |partyTexts|
      invariant 0 <= i <= |partyTexts|
      invariant parties == PartiesOf(partyTexts[..i])
    {
      var text := Text.Trim(partyTexts[i]);
      if text != "" {
        parties := parties + [text];
      }
      assert partyTexts[..i + 1][..i] == partyTexts[..i];
      i := i + 1;
    }
    assert partyTexts[..i] == partyTexts;
  }

  /** The text-block loop followed by the set conversion. */
  method ExtractAllText(textBlocks: seq<string>) returns (allText: seq<string>)
    ensures allText == AllTextOf(textBlocks)
  {
    var long: seq<string> := [];
    var i := 0;
    while i < |textBlocks|
      invariant 0 <= i <= |textBlocks|
      invariant long == LongTexts(textBlocks[..i])
    {
      var text := Text.Trim(textBlocks[i]);
      if Text.JsLength(text) > 5 {
        long := long + [text];
      }
      assert textBlocks[..i + 1][..i] == textBlocks[..i];
      i := i + 1;
    }
    assert textBlocks[..i] == textBlocks;
    allText := Seqs.Distinct(long);
  }

  /** `extractPageContent()`. */
  method ExtractPageContent(page: Page) returns (content: Content)
    ensures content == ExtractContent(page)
  {
    var caseInfo := ExtractCaseInfo(page.tableRows);
    var events: seq<JsObject.Obj<string>> := [];
    if page.eventTable.Some? {
      events := ExtractEvents(page.eventTable.value);
    }
    var parties := ExtractParties(page.partyTexts);
    var allText := ExtractAllText(page.textBlocks);
    content := Content(page.title, page.url, page.timestamp, caseInfo, events, parties, allText);
  }

  // ---------------------------------------------------------------------
  // The Markdown report

  /** `e.get(k1, e.get(k2, e.get(k3, '')))`: the value of the first key
      present, even an empty one, or "" when none is. */
  function Fallback(e: JsObject.Obj<string>, keys: seq<string>): (r: string)
    ensures (forall i :: 0 <= i < |keys| ==> !JsObject.Has(e, keys[i])) ==> r == ""
    ensures forall i :: (0 <= i < |keys| && JsObject.Has(e, keys[i]) &&
      (forall j :: 0 <= j < i ==> !JsObject.Has(e, keys[j]))) ==> r == JsObject.Get(e, keys[i])
  {
    if keys == [] then ""
    else if JsObject.Has(e, keys[0]) then JsObject.Get(e, keys[0])
    else
      var r := Fallback(e, keys[1..]);
      assert forall i :: 1 <= i < |keys| ==> keys[i] == keys[1..][i - 1];
      r
  }

  const DateKeys: seq<string> := ["Date", "Filed Date", "Event Date"]
  const EventKeys: seq<string> := ["Event", "Type", "Action"]
  const DescriptionKeys: seq<string> := ["Description", "Text", "Comment"]
  const InfoKeys: seq<string> := ["Party", "Judge", "Amount"]

  const TableHead: string := "| Date | Event | Description | Additional Info |\n"
  const TableRule: string := "|------|-------|-------------|----------------|\n"

  function HeaderBlock(caseNumber: string, c: Content): string {
    "# Court Case: " + caseNumber + "\n\n" +
    "**URL:** " + c.url + "\n\n" +
    "**Extracted:** " + c.timestamp + "\n\n" +
    "---\n\n"
  }

  function InfoLine(p: (string, string)): string {
    "- **" + p.0 + ":** " + p.1 + "\n"
  }

  function InfoLines(info: JsObject.Obj<string>): string {
    if info == [] then "" else InfoLines(info[..|info| - 1]) + InfoLine(info[|info| - 1])
  }

  function EventRow(e: JsObject.Obj<string>): string {
    "| " + Fallback(e, DateKeys) + " | " + Fallback(e, EventKeys) + " | " +
    Fallback(e, DescriptionKeys) + " | " + Fallback(e, InfoKeys) + " |\n"
  }

  function EventRows(events: seq<JsObject.Obj<string>>): string {
    if events == [] then "" else EventRows(events[..|events| - 1]) + EventRow(events[|events| - 1])
  }

  function PartyLines(parties: seq<string>): string {
    if parties == [] then "" else PartyLines(parties[..|parties| - 1]) + "- " + parties[|parties| - 1] + "\n"
  }

  /** The text blocks printed, each followed by a blank line; blocks of 10
      characters or fewer are skipped. */
  function TextLines(blocks: seq<string>): string {
    if blocks == [] then ""
    else
      var t := blocks[|blocks| - 1];
      TextLines(blocks[..|blocks| - 1]) + if |t| > 10 then t + "\n\n" else ""
  }

  function Take<T>(s: seq<T>, n: nat): seq<T> {
    if |s| <= n then s else s[..n]
  }

  function InfoSection(info: JsObject.Obj<string>): string {
    if info == [] then "" else "## Case Information\n\n" + InfoLines(info) + "\n"
  }

  function EventsSection(events: seq<JsObject.Obj<string>>): string {
    if events == [] then "" else "## Case Events\n\n" + TableHead + TableRule + EventRows(events) + "\n"
  }

  function PartiesSection(parties: seq<string>): string {
    if parties == [] then "" else "## Parties Involved\n\n" + PartyLines(parties) + "\n"
  }

  function TextSection(allText: seq<string>): string {
    if allText == [] then "" else "## Full Page Content\n\n" + "```\n" + TextLines(Take(allText, 100)) + "```\n"
  }

  /** The report for a case. */
  function Render(caseNumber: string, c: Content): string {
    HeaderBlock(caseNumber, c) + InfoSection(c.caseInfo) + EventsSection(c.events) +
    PartiesSection(c.parties) + TextSection(c.allText)
  }

  /** The `- **key:** value` lines, one per pair, in order. */
  method WriteInfoLines(info: JsObject.Obj<string>) returns (lines: string)
    ensures lines == InfoLines(info)
  {
    lines := "";
    var i := 0;
    while i < |info|
      invariant 0 <= i <= |info|
      invariant lines == InfoLines(info[..i])
    {
      assert info[..i + 1][..i] == info[..i];
      lines := lines + ("- **" + info[i].0 + ":** " + info[i].1 + "\n");
      i := i + 1;
    }
    assert info[..i] == info;
  }

  /** The case-information section, appended to the report so far. */
  method AppendInfo(markdown: string, info: JsObject.Obj<string>) returns (out: string)
    ensures out == markdown + InfoSection(info)
  {
    out := markdown;
    if info != [] {
      var lines := WriteInfoLines(info);
      out := out + ("## Case Information\n\n" + lines + "\n");
    }
  }

  /** The rows of the events table, one per event, in order. */
  method WriteEventRows(events: seq<JsObject.Obj<string>>) returns (rows: string)
    ensures rows == EventRows(events)
  {
    rows := "";
    var i := 0;
    while i < |events|
      invariant 0 <= i <= |events|
      invariant rows == EventRows(events[..i])
    {
      assert events[..i + 1][..i] == events[..i];
      rows := rows + EventRow(events[i]);
      i := i + 1;
    }
    assert events[..i] == events;
  }

  /** The events table, appended to the report so far. */
  method AppendEvents(markdown: string, events: seq<JsObject.Obj<string>>) returns (out: string)
    ensures out == markdown + EventsSection(events)
  {
    out := markdown;
    if events != [] {
      var rows := WriteEventRows(events);
      out := out + ("## Case Events\n\n" + TableHead + TableRule + rows + "\n");
    }
  }

  /** The `- party` lines, one per party, in order. */
  method WritePartyLines(parties: seq<string>) returns (lines: string)
    ensures lines == PartyLines(parties)
  {
    lines := "";
    var i := 0;
    while i < |parties|
      invariant 0 <= i <= |parties|
      invariant lines == PartyLines(parties[..i])
    {
      assert parties[..i + 1][..i] == parties[..i];
      lines := lines + "- " + parties[i] + "\n";
      i := i + 1;
    }
    assert parties[..i] == parties;
  }

  /** The parties list, appended to the report so far. */
  method AppendParties(markdown: string, parties: seq<string>) returns (out: string)
    ensures out == markdown + PartiesSection(parties)
  {
    out := markdown;
    if parties != [] {
      var lines := WritePartyLines(parties);
      out := out + ("## Parties Involved\n\n" + lines + "\n");
    }
  }

  /** The text blocks longer than 10 characters, each followed by a blank
      line, in order. */
  method WriteTextLines(blocks: seq<string>) returns (lines: string)
    ensures lines == TextLines(blocks)
  {
    lines := "";
    var i := 0;
    while i < |blocks|
      invariant 0 <= i <= |blocks|
      invariant lines == TextLines(blocks[..i])
    {
      assert blocks[..i + 1][..i] == blocks[..i];
      var text := blocks[i];
      if |text| > 10 {
        lines := lines + (text + "\n\n");
      }
      i := i + 1;
    }
    assert blocks[..i] == blocks;
  }

  /** The page text, appended to the report so far. */
  method AppendText(markdown: string, allText: seq<string>) returns (out: string)
    ensures out == markdown + TextSection(allText)
  {
    out := markdown;
    if allText != [] {
      var lines := WriteTextLines(Take(allText, 100));
      out := out + ("## Full Page Content\n\n" + "```\n" + lines + "```\n");
    }
  }

  /** The `markdown +=` sequence of `extract_page_content_to_markdown`. */
  method BuildMarkdown(caseNumber: string, content: Content) returns (markdown: string)
    ensures markdown == Render(caseNumber, content)
  {
    markdown := "# Court Case: " + caseNumber + "\n\n";
    markdown := markdown + "**URL:** " + content.url + "\n\n";
    markdown := markdown + "**Extracted:** " + content.timestamp + "\n\n";
    markdown := markdown + "---\n\n";
    assert markdown == HeaderBlock(caseNumber, content);
    markdown := AppendInfo(markdown, content.caseInfo);
    markdown := AppendEvents(markdown, content.events);
    markdown := AppendParties(markdown, content.parties);
    markdown := AppendText(markdown, content.allText);
  }

  /** `extract_page_content_to_markdown`: the report text, or nothing when
      the in-page script raises or when `writeFails` says that creating the
      case directory or writing the Markdown or JSON file raises. */
  method ExtractPageContentToMarkdown(caseNumber: string, page: Page, scriptRaises: bool, writeFails: bool)
    returns (report: Option<string>)
    ensures scriptRaises || writeFails ==> report == None
    ensures !scriptRaises && !writeFails ==> report == Some(Render(caseNumber, ExtractContent(page)))
  {
    if scriptRaises {
      return None;
    }
    var content := ExtractPageContent(page);
    var markdown := BuildMarkdown(caseNumber, content);
    if writeFails {
      return None;
    }
    report := Some(markdown);
  }

  // ---------------------------------------------------------------------
  // Properties of the report

  function CountChar(s: string, c: char): nat {
    if s == [] then 0 else CountChar(s[..|s| - 1], c) + if s[|s| - 1] == c then 1 else 0
  }

  lemma {:induction false} CountCharAppend(a: string, b: string, c: char)
    ensures CountChar(a + b, c) == CountChar(a, c) + CountChar(b, c)
    decreases |b|
  {
    if b == [] {
      assert a + b == a;
    } else {
      assert (a + b)[..|a + b| - 1] == a + b[..|b| - 1];
      CountCharAppend(a, b[..|b| - 1], c);
    }
  }

  lemma {:induction false} CountCharAbsent(s: string, c: char)
    requires c !in s
    ensures CountChar(s, c) == 0
  {
    if s != [] {
      CountCharAbsent(s[..|s| - 1], c);
    }
  }

  /** The report opens with the case title, the URL line, the extraction
      time and a rule (`HeaderBlock`), whatever the record holds. */
  lemma ReportOpening(caseNumber: string, c: Content)
    ensures Text.StartsWith(Render(caseNumber, c), HeaderBlock(caseNumber, c))
    ensures Text.StartsWith(Render(caseNumber, c), "# Court Case: " + caseNumber + "\n\n")
  {
    var title := "# Court Case: " + caseNumber + "\n\n";
    var h1 := title + "**URL:** ";
    var h2 := h1 + c.url;
    var h3 := h2 + "\n\n";
    var h4 := h3 + "**Extracted:** ";
    var h5 := h4 + c.timestamp;
    var h6 := h5 + "\n\n";
    Text.StartsWithAppend(title, "**URL:** ");
    Text.StartsWithExtend(h1, title, c.url);
    Text.StartsWithExtend(h2, title, "\n\n");
    Text.StartsWithExtend(h3, title, "**Extracted:** ");
    Text.StartsWithExtend(h4, title, c.timestamp);
    Text.StartsWithExtend(h5, title, "\n\n");
    Text.StartsWithExtend(h6, title, "---\n\n");
    var h := HeaderBlock(caseNumber, c);
    assert h == h6 + "---\n\n";
    var s1 := h + InfoSection(c.caseInfo);
    var s2 := s1 + EventsSection(c.events);
    var s3 := s2 + PartiesSection(c.parties);
    Text.StartsWithAppend(h, InfoSection(c.caseInfo));
    Text.StartsWithExtend(s1, h, EventsSection(c.events));
    Text.StartsWithExtend(s2, h, PartiesSection(c.parties));
    Text.StartsWithExtend(s3, h, TextSection(c.allText));
    Text.StartsWithTrans(Render(caseNumber, c), h, title);
  }

  /** With no case information, no events, no parties and no text the
      report is the opening alone; each section appears only when its part
      of the record is non-empty. */
  lemma SectionsOnlyWhenPresent(caseNumber: string, c: Content)
    ensures InfoSection(c.caseInfo) == "" <==> c.caseInfo == []
    ensures EventsSection(c.events) == "" <==> c.events == []
    ensures PartiesSection(c.parties) == "" <==> c.parties == []
    ensures TextSection(c.allText) == "" <==> c.allText == []
    ensures c.caseInfo == [] && c.events == [] && c.parties == [] && c.allText == [] ==>
      Render(caseNumber, c) == HeaderBlock(caseNumber, c)
  {
  }

  /** One `- **key:** value` line per case-information entry: with keys and
      values free of line breaks, the section's list has exactly as many
      line breaks as entries. */
  lemma {:induction false} InfoLinesCount(info: JsObject.Obj<string>)
    requires forall i :: 0 <= i < |info| ==> '\n' !in info[i].0 && '\n' !in info[i].1
    ensures CountChar(InfoLines(info), '\n') == |info|
  {
    if info != [] {
      var p := info[|info| - 1];
      InfoLinesCount(info[..|info| - 1]);
      CountCharAppend(InfoLines(info[..|info| - 1]), InfoLine(p), '\n');
      CountCharAppend("- **" + p.0 + ":** " + p.1, "\n", '\n');
      CountCharAbsent("- **" + p.0 + ":** " + p.1, '\n');
    }
  }

  /** The cells of a row are values of the event or empty. */
  lemma FallbackIsValue(e: JsObject.Obj<string>, keys: seq<string>)
    ensures Fallback(e, keys) == "" || exists i :: 0 <= i < |e| && e[i].1 == Fallback(e, keys)
    decreases |keys|
  {
    if keys != [] && !JsObject.Has(e, keys[0]) {
      FallbackIsValue(e, keys[1..]);
    }
  }

  /** An event's values are free of line breaks. */
  predicate SingleLine(e: JsObject.Obj<string>) {
    forall j :: 0 <= j < |e| ==> '\n' !in e[j].1
  }

  lemma EventRowCount(e: JsObject.Obj<string>)
    requires SingleLine(e)
    ensures CountChar(EventRow(e), '\n') == 1
  {
    var d := Fallback(e, DateKeys);
    var t := Fallback(e, EventKeys);
    var x := Fallback(e, DescriptionKeys);
    var f := Fallback(e, InfoKeys);
    FallbackIsValue(e, DateKeys);
    FallbackIsValue(e, EventKeys);
    FallbackIsValue(e, DescriptionKeys);
    FallbackIsValue(e, InfoKeys);
    var body := "| " + d + " | " + t + " | " + x + " | " + f + " |";
    assert '\n' !in d && '\n' !in t && '\n' !in x && '\n' !in f;
    assert '\n' !in body;
    CountCharAbsent(body, '\n');
    assert EventRow(e) == body + "\n";
    CountCharAppend(body, "\n", '\n');
  }

  /** One table row per event: with field values free of line breaks the
      rows hold exactly one line break per event. */
  lemma {:induction false} EventRowsCount(events: seq<JsObject.Obj<string>>)
    requires forall i :: 0 <= i < |events| ==> SingleLine(events[i])
    ensures CountChar(EventRows(events), '\n') == |events|
  {
    if events != [] {
      var e := events[|events| - 1];
      EventRowsCount(events[..|events| - 1]);
      EventRowCount(e);
      CountCharAppend(EventRows(events[..|events| - 1]), EventRow(e), '\n');
    }
  }

  /** A missing field gives an empty cell: an event with none of the date
      keys has an empty date cell, and the first date key present wins even
      when its value is empty. */
  lemma DateCell(e: JsObject.Obj<string>)
    ensures !JsObject.Has(e, "Date") && !JsObject.Has(e, "Filed Date") && !JsObject.Has(e, "Event Date") ==>
      Fallback(e, DateKeys) == ""
    ensures JsObject.Has(e, "Date") ==> Fallback(e, DateKeys) == JsObject.Get(e, "Date")
    ensures !JsObject.Has(e, "Date") && JsObject.Has(e, "Filed Date") ==>
      Fallback(e, DateKeys) == JsObject.Get(e, "Filed Date")
  {
    assert DateKeys[0] == "Date" && DateKeys[1] == "Filed Date" && DateKeys[2] == "Event Date";
  }

  predicate Printable(t: string) {
    |t| > 10
  }

  /** The joined text blocks, by an independent route: first select the
      blocks longer than 10 characters, then print each. */
  function JoinBlocks(blocks: seq<string>): string {
    if blocks == [] then "" else JoinBlocks(blocks[..|blocks| - 1]) + (blocks[|blocks| - 1] + "\n\n")
  }

  lemma {:induction false} JoinBlocksSnoc(s: seq<string>, x: string)
    ensures JoinBlocks(s + [x]) == JoinBlocks(s) + (x + "\n\n")
  {
    assert (s + [x])[..|s|] == s;
  }

  lemma {:induction false} FilterSnocLen(s: seq<string>, x: string)
    ensures Seqs.Filter(s + [x], Printable) == Seqs.Filter(s, Printable) + if |x| > 10 then [x] else []
  {
    FilterSnoc(s, x, Printable);
  }

  /** "Full Page Content" considers only the first 100 blocks and prints
      only those longer than 10 characters, in order. */
  lemma {:induction false} TextLinesSpec(blocks: seq<string>)
    ensures TextLines(blocks) == JoinBlocks(Seqs.Filter(blocks, Printable))
  {
    if blocks != [] {
      var init := blocks[..|blocks| - 1];
      var x := blocks[|blocks| - 1];
      var f := Seqs.Filter(init, Printable);
      TextLinesSpec(init);
      assert blocks == init + [x];
      FilterSnocLen(init, x);
      if |x| > 10 {
        assert Seqs.Filter(blocks, Printable) == f + [x];
        JoinBlocksSnoc(f, x);
        assert TextLines(blocks) == TextLines(init) + (x + "\n\n");
      } else {
        assert Seqs.Filter(blocks, Printable) == f + [];
        assert f + [] == f;
        assert TextLines(blocks) == TextLines(init) + "";
        assert TextLines(init) + "" == TextLines(init);
      }
    }
  }

  lemma TextSectionSpec(allText: seq<string>)
    ensures allText != [] ==> (TextSection(allText) ==
      "## Full Page Content\n\n" + "```\n" + JoinBlocks(Seqs.Filter(Take(allText, 100), Printable)) + "```\n")
    ensures |allText| > 100 ==> TextSection(allText) == TextSection(allText[..100])
  {
    TextLinesSpec(Take(allText, 100));
  }

  // ---------------------------------------------------------------------
  // find_and_download_pdfs

  /** The six selectors tried in turn. */
  const DownloadSelectors: seq<string> := [
    "img[src*='icon']", "img[src*='pdf']", "img[src*='document']",
    "a[href*='pdf']", "button img", "td img"]

  /** The elements one selector found, each with whether scrolling to it
      and clicking it by script both succeed; or the lookup raised. */
  datatype Lookup = LookupFailed | Found(clickOk: seq<bool>)

  function CountTrue(bs: seq<bool>): (n: nat)
    ensures n <= |bs|
  {
    if bs == [] then 0 else CountTrue(bs[..|bs| - 1]) + if bs[|bs| - 1] then 1 else 0
  }

  /** Clicks counted over the selectors: only the first five elements of
      each are tried. */
  function DownloadClicks(found: seq<Lookup>): nat {
    if found == [] then 0
    else
      DownloadClicks(found[..|found| - 1]) +
      match found[|found| - 1]
      case LookupFailed => 0
      case Found(bs) => CountTrue(Take(bs, 5))
  }

  lemma {:induction false} DownloadClicksBound(found: seq<Lookup>)
    ensures DownloadClicks(found) <= 5 * |found|
  {
    if found != [] {
      DownloadClicksBound(found[..|found| - 1]);
    }
  }

  /** `find_and_download_pdfs`: at most five clicks per selector, so at most
      30 over the six. */
  method FindAndDownloadPdfs(found: seq<Lookup>) returns (pdfCount: nat)
    requires |found| == |DownloadSelectors|
    ensures pdfCount == DownloadClicks(found)
    ensures pdfCount <= 30
  {
    pdfCount := 0;
    var i := 0;
    while i < |found|
      invariant 0 <= i <= |found|
      invariant pdfCount == DownloadClicks(found[..i])
    {
      match found[i] {
        case LookupFailed =>
        case Found(bs) =>
          var elements := Take(bs, 5);
          var j := 0;
          var clicked := 0;
          while j < |elements|
            invariant 0 <= j <= |elements|
            invariant clicked == CountTrue(elements[..j])
          {
            if elements[j] {
              clicked := clicked + 1;
            }
            assert elements[..j + 1][..j] == elements[..j];
            j := j + 1;
          }
          assert elements[..j] == elements;
          pdfCount := pdfCount + clicked;
      }
      assert found[..i + 1][..i] == found[..i];
      i := i + 1;
    }
    assert found[..i] == found;
    DownloadClicksBound(found);
  }
}
