/**
 * The CSV export of the query page: `escapeCsvCell` (App.js:606-613) and the document
 * `downloadExcel` builds (App.js:615-644). The quoting follows section 2 of RFC 4180 (items 5-7);
 * a parser for the fields of one record, written from that section, is the parser the escaping
 * is checked against.
 */
module CsvExport {
  import opened Wrappers
  import opened Strings
  import opened Lists
  import opened Records
  import opened FeeTotals
  import opened TopStats

  /** A value handed to `escapeCsvCell`: `null`/`undefined`, a string, or a number. */
  datatype Cell = Null | Text(s: string) | Number(n: int)

  /** `String(cellData)`; and "" for a null cell, which is what a reader gets back from an empty field. */
  function CellText(c: Cell): string {
    match c
    case Null => ""
    case Text(s) => s
    case Number(n) => IntToString(n)
  }

  /** The characters that force quoting: comma, double quote, LF and CR. */
  predicate IsSpecial(ch: char) {
    ch == ',' || ch == '"' || ch == '\n' || ch == '\r'
  }

  predicate NeedsQuoting(s: string) {
    exists i :: 0 <= i < |s| && IsSpecial(s[i])
  }

  /** `s.replace(/"/g, '""')` */
  function DoubleQuotes(s: string): (r: string)
    ensures |r| >= |s|
    ensures '"' !in s ==> r == s
  {
    if s == [] then []
    else (if s[0] == '"' then "\"\"" else [s[0]]) + DoubleQuotes(s[1..])
  }

  /**
   * `escapeCsvCell`: "" for null; the text in double quotes with every quote doubled when it holds
   * a special character; otherwise the text unchanged. The result is empty exactly for a null cell
   * or empty text, and it is wrapped in quotes exactly when quoting is needed.
   */
  function EscapeCsvCell(c: Cell): (r: string)
    ensures c == Null ==> r == ""
    ensures c != Null && !NeedsQuoting(CellText(c)) ==> r == CellText(c)
    ensures r == [] <==> CellText(c) == []
    ensures |r| >= 2 && r[0] == '"' && r[|r| - 1] == '"' <==> c != Null && NeedsQuoting(CellText(c))
  {
    match c
    case Null => ""
    case _ =>
      var s := CellText(c);
      if NeedsQuoting(s) then "\"" + DoubleQuotes(s) + "\"" else s
  }

  // ---- Reading a record back, as section 2 of RFC 4180 describes it ----

  /**
   * The inside of a quoted field, after its opening quote: a doubled quote stands for one quote,
   * a single quote closes the field. Gives the field's text and what follows the closing quote.
   */
  function ParseQuoted(s: string): (r: Option<(string, string)>)
    ensures r.Some? ==> |r.value.1| < |s|
  {
    if s == [] then None
    else if s[0] == '"' then
      if |s| >= 2 && s[1] == '"' then
        match ParseQuoted(s[2..])
        case None => None
        case Some(p) => Some(("\"" + p.0, p.1))
      else Some(("", s[1..]))
    else
      match ParseQuoted(s[1..])
      case None => None
      case Some(p) => Some(([s[0]] + p.0, p.1))
  }

  /** An unquoted field: the longest prefix without a special character, and the rest. */
  function ParseUnquoted(s: string): (r: (string, string))
    ensures r.0 + r.1 == s
    ensures !NeedsQuoting(r.0)
    ensures r.1 == [] || IsSpecial(r.1[0])
  {
    if s == [] || IsSpecial(s[0]) then ([], s)
    else
      var p := ParseUnquoted(s[1..]);
      PlainCons(s[0], p.0);
      assert [s[0]] + p.0 + p.1 == [s[0]] + s[1..] == s;
      ([s[0]] + p.0, p.1)
  }

  /** A plain character in front of a plain text keeps it plain. */
  lemma PlainCons(c: char, t: string)
    requires !IsSpecial(c) && !NeedsQuoting(t)
    ensures !NeedsQuoting([c] + t)
  {
    forall i | 0 < i < |[c] + t| ensures !IsSpecial(([c] + t)[i]) {
      assert ([c] + t)[i] == t[i - 1];
    }
  }

  function ParseField(s: string): (r: Option<(string, string)>)
    ensures r.Some? ==> |r.value.1| <= |s|
  {
    if s != [] && s[0] == '"' then ParseQuoted(s[1..]) else Some(ParseUnquoted(s))
  }

  /** The fields of one record: fields separated by commas, up to the end of the text. */
  function ParseRecord(s: string): Option<seq<string>>
    decreases |s|
  {
    match ParseField(s)
    case None => None
    case Some(p) =>
      if p.1 == [] then Some([p.0])
      else if p.1[0] == ',' then
        match ParseRecord(p.1[1..])
        case None => None
        case Some(fs) => Some([p.0] + fs)
      else None
  }

  lemma {:induction false} QuotedRoundTrip(t: string, rest: string)
    requires rest == [] || rest[0] != '"'
    ensures ParseQuoted(DoubleQuotes(t) + "\"" + rest) == Some((t, rest))
  {
    if t == [] {
      assert DoubleQuotes(t) + "\"" + rest == "\"" + rest;
    } else {
      QuotedRoundTrip(t[1..], rest);
      QuotedCons(t, DoubleQuotes(t[1..]) + "\"" + rest, rest);
    }
  }

  /** One more character in front of a quoted field's text reads back in front of it. */
  lemma QuotedCons(t: string, tail: string, rest: string)
    requires t != [] && tail == DoubleQuotes(t[1..]) + "\"" + rest
    requires ParseQuoted(tail) == Some((t[1..], rest))
    ensures ParseQuoted(DoubleQuotes(t) + "\"" + rest) == Some((t, rest))
  {
    var d := DoubleQuotes(t[1..]);
    var head := if t[0] == '"' then "\"\"" else [t[0]];
    assert DoubleQuotes(t) == head + d;
    assert DoubleQuotes(t) + "\"" + rest == head + tail;
    assert [t[0]] + t[1..] == t;
    if t[0] == '"' {
      QuotedStepQuote(tail, t[1..], rest);
    } else {
      QuotedStepChar(t[0], tail, t[1..], rest);
    }
  }

  /** A doubled quote inside a quoted field reads as one quote. */
  lemma QuotedStepQuote(tail: string, u: string, rest: string)
    requires ParseQuoted(tail) == Some((u, rest))
    ensures ParseQuoted("\"\"" + tail) == Some(("\"" + u, rest))
  {
    assert ("\"\"" + tail)[2..] == tail;
  }

  /** Any other character inside a quoted field reads as itself. */
  lemma QuotedStepChar(c: char, tail: string, u: string, rest: string)
    requires c != '"' && ParseQuoted(tail) == Some((u, rest))
    ensures ParseQuoted([c] + tail) == Some(([c] + u, rest))
  {
    assert ([c] + tail)[1..] == tail;
  }

  lemma {:induction false} UnquotedRoundTrip(t: string, rest: string)
    requires !NeedsQuoting(t)
    requires rest == [] || IsSpecial(rest[0])
    ensures ParseUnquoted(t + rest) == (t, rest)
  {
    if t != [] {
      assert !IsSpecial(t[0]);
      assert (t + rest)[1..] == t[1..] + rest;
      assert !NeedsQuoting(t[1..]) by {
        forall i | 0 <= i < |t[1..]| ensures !IsSpecial(t[1..][i]) {
          assert t[1..][i] == t[i + 1];
        }
      }
      UnquotedRoundTrip(t[1..], rest);
      assert [t[0]] + t[1..] == t;
    } else {
      assert t + rest == rest;
    }
  }

  /** An escaped cell followed by a comma or the end reads back as the cell's text. */
  lemma FieldRoundTrip(c: Cell, rest: string)
    requires rest == [] || rest[0] == ','
    ensures ParseField(EscapeCsvCell(c) + rest) == Some((CellText(c), rest))
  {
    var t := CellText(c);
    if c != Null && NeedsQuoting(t) {
      assert EscapeCsvCell(c) == "\"" + DoubleQuotes(t) + "\"";
      QuotedFieldRoundTrip(t, rest);
    } else {
      assert EscapeCsvCell(c) == t;
      PlainFieldRoundTrip(t, rest);
    }
  }

  lemma QuotedFieldRoundTrip(t: string, rest: string)
    requires rest == [] || rest[0] == ','
    ensures ParseField("\"" + DoubleQuotes(t) + "\"" + rest) == Some((t, rest))
  {
    var inner := DoubleQuotes(t) + "\"" + rest;
    var s := "\"" + DoubleQuotes(t) + "\"" + rest;
    assert s == "\"" + inner;
    assert s[0] == '"' && s[1..] == inner;
    QuotedRoundTrip(t, rest);
  }

  lemma PlainFieldRoundTrip(t: string, rest: string)
    requires !NeedsQuoting(t)
    requires rest == [] || rest[0] == ','
    ensures ParseField(t + rest) == Some((t, rest))
  {
    UnquotedRoundTrip(t, rest);
    assert t + rest == [] || (t + rest)[0] != '"' by {
      if t != [] {
        assert !IsSpecial(t[0]);
      }
    }
  }

  function EscapeAll(cells: seq<Cell>): (r: seq<string>)
    ensures |r| == |cells|
  {
    seq(|cells|, i requires 0 <= i < |cells| => EscapeCsvCell(cells[i]))
  }

  function CellTexts(cells: seq<Cell>): (r: seq<string>)
    ensures |r| == |cells|
  {
    seq(|cells|, i requires 0 <= i < |cells| => CellText(cells[i]))
  }

  /** `cells.map(escapeCsvCell).join(",")` */
  function Row(cells: seq<Cell>): string {
    Join(EscapeAll(cells), ",")
  }

  /** A row reads back, field by field, as the texts of its cells: the escaping loses nothing. */
  lemma {:induction false} RowRoundTrip(cells: seq<Cell>)
    requires |cells| >= 1
    ensures ParseRecord(Row(cells)) == Some(CellTexts(cells))
  {
    if |cells| == 1 {
      RowOfOne(cells);
    } else {
      RowRoundTrip(cells[1..]);
      RowOfMore(cells);
    }
  }

  lemma RowOfOne(cells: seq<Cell>)
    requires |cells| == 1
    ensures ParseRecord(Row(cells)) == Some(CellTexts(cells))
  {
    var first := EscapeCsvCell(cells[0]);
    assert EscapeAll(cells)[0] == first;
    FieldRoundTrip(cells[0], []);
    assert Row(cells) == first + [];
    ParseRecordLast(Row(cells), CellText(cells[0]));
    assert CellTexts(cells) == [CellText(cells[0])];
  }

  lemma RowOfMore(cells: seq<Cell>)
    requires |cells| >= 2
    requires ParseRecord(Row(cells[1..])) == Some(CellTexts(cells[1..]))
    ensures ParseRecord(Row(cells)) == Some(CellTexts(cells))
  {
    RowSplit(cells);
    TextsSplit(cells);
    FieldThenRecord(cells[0], Row(cells[1..]), CellTexts(cells[1..]));
  }

  lemma RowSplit(cells: seq<Cell>)
    requires |cells| >= 2
    ensures Row(cells) == EscapeCsvCell(cells[0]) + "," + Row(cells[1..])
  {
    assert EscapeAll(cells)[1..] == EscapeAll(cells[1..]);
  }

  lemma TextsSplit(cells: seq<Cell>)
    requires |cells| >= 1
    ensures CellTexts(cells) == [CellText(cells[0])] + CellTexts(cells[1..])
  {
  }

  /** An escaped cell, a comma, and a readable record read as one more field in front. */
  lemma FieldThenRecord(c: Cell, rest: string, fs: seq<string>)
    requires ParseRecord(rest) == Some(fs)
    ensures ParseRecord(EscapeCsvCell(c) + "," + rest) == Some([CellText(c)] + fs)
  {
    FieldRoundTrip(c, "," + rest);
    FieldThen(EscapeCsvCell(c), CellText(c), rest, fs);
  }

  lemma FieldThen(e: string, t: string, rest: string, fs: seq<string>)
    requires ParseField(e + ("," + rest)) == Some((t, "," + rest))
    requires ParseRecord(rest) == Some(fs)
    ensures ParseRecord(e + "," + rest) == Some([t] + fs)
  {
    assert e + "," + rest == e + ("," + rest);
    ParseRecordNext(e + ("," + rest), t, rest, fs);
  }

  lemma ParseRecordLast(s: string, f: string)
    requires ParseField(s) == Some((f, []))
    ensures ParseRecord(s) == Some([f])
  {
  }

  lemma ParseRecordNext(s: string, f: string, rest: string, fs: seq<string>)
    requires ParseField(s) == Some((f, "," + rest))
    requires ParseRecord(rest) == Some(fs)
    ensures ParseRecord(s) == Some([f] + fs)
  {
    assert ("," + rest)[1..] == rest;
  }

  // ---- The document ----

  const Bom := "\U{FEFF}"
  const Crlf := "\r\n"
  const Headers: seq<string> := ["날짜", "이름", "직분", "주차장소", "주차시간(시간)", "시간당요금(원)", "계산된요금(원)", "계좌정보"]
  const TotalsHeader := "이름,계좌정보,해당 기간 주차비 합계"

  /** `record.parkingDurationHours + (record.isCustomDuration ? ` (${detail})` : '')` */
  function DurationText(r: ParkingRecord): string {
    IntToString(r.parkingDurationHours) + (if r.isCustomDuration then " (" + r.customDurationDetail + ")" else "")
  }

  function FeeCell(fee: Option<int>): Cell {
    match fee
    case None => Null
    case Some(n) => Number(n)
  }

  /** The eight cells of a record's row, in header order. */
  function RecordCells(r: ParkingRecord): (cells: seq<Cell>)
    ensures |cells| == |Headers|
  {
    [Text(r.parkingDate.text), Text(r.name), Text(r.position), Text(r.parkingLocation),
     Text(DurationText(r)), Number(r.hourlyRate), FeeCell(r.calculatedFee), Text(r.accountInfo)]
  }

  function GroupCells(g: GroupTotal): seq<Cell> {
    [Text(g.name), Text(g.accountInfo), Number(g.totalFee)]
  }

  /** One line per item, each ended by CRLF, in the order of the items. */
  function Lines<T>(xs: seq<T>, line: T -> string): string {
    if xs == [] then "" else Lines(xs[..|xs| - 1], line) + line(xs[|xs| - 1]) + Crlf
  }

  /** The row of a record, and of a group in the totals section. */
  function RecordLine(r: ParkingRecord): string {
    Row(RecordCells(r))
  }

  function GroupLine(g: GroupTotal): string {
    Row(GroupCells(g))
  }

  /** The comparator at App.js:634-638: name ascending, then account ascending. */
  predicate GroupBefore(a: GroupTotal, b: GroupTotal) {
    || StrLess(a.name, b.name)
    || (a.name == b.name && StrLess(a.accountInfo, b.accountInfo))
  }

  lemma GroupOrderStrict()
    ensures StrictOrder(GroupBefore)
  {
    forall a: GroupTotal ensures !GroupBefore(a, a) {
      StrLessIrreflexive(a.name);
      StrLessIrreflexive(a.accountInfo);
    }
    forall a: GroupTotal, b: GroupTotal, c: GroupTotal | GroupBefore(a, b) && GroupBefore(b, c)
      ensures GroupBefore(a, c)
    {
      if StrLess(a.name, b.name) && StrLess(b.name, c.name) {
        StrLessTransitive(a.name, b.name, c.name);
      } else if a.name == b.name == c.name {
        StrLessTransitive(a.accountInfo, b.accountInfo, c.accountInfo);
      }
    }
  }

  /** The groups as the totals section lists them. */
  function SortGroups(gs: seq<GroupTotal>): seq<GroupTotal> {
    SortBy(gs, GroupBefore)
  }

  /** The totals section lists every group once, by name and then by account, both ascending. */
  lemma SortGroupsSpec(gs: seq<GroupTotal>)
    ensures multiset(SortGroups(gs)) == multiset(gs)
    ensures var s := SortGroups(gs);
      forall i, j :: 0 <= i < j < |s| ==>
        || StrLess(s[i].name, s[j].name)
        || (s[i].name == s[j].name && (s[i].accountInfo == s[j].accountInfo || StrLess(s[i].accountInfo, s[j].accountInfo)))
  {
    var s := SortGroups(gs);
    GroupOrderStrict();
    SortBySorted(gs, GroupBefore);
    forall i, j | 0 <= i < j < |s|
      ensures
        || StrLess(s[i].name, s[j].name)
        || (s[i].name == s[j].name && (s[i].accountInfo == s[j].accountInfo || StrLess(s[i].accountInfo, s[j].accountInfo)))
    {
      assert !GroupBefore(s[j], s[i]);
      if s[i].name != s[j].name {
        StrLessTotal(s[i].name, s[j].name);
      } else if s[i].accountInfo != s[j].accountInfo {
        StrLessTotal(s[i].accountInfo, s[j].accountInfo);
      }
    }
  }

  /** The line of the grand total: a label cell and the formatted, escaped amount. */
  function TotalLine(totalFee: int): string {
    "총 주차비용 합계:," + EscapeCsvCell(Text(FormatCurrency(totalFee))) + Crlf + Crlf
  }

  /** The totals section: nothing without groups, else its header and one line per group, sorted. */
  function TotalsSection(totals: seq<GroupTotal>): string {
    if totals == [] then "" else TotalsHeader + Crlf + Lines(SortGroups(totals), GroupLine)
  }

  /** The whole CSV text for non-empty results. */
  function CsvDocument(results: seq<ParkingRecord>, totalFee: int, totals: seq<GroupTotal>): string {
    Bom + Join(Headers, ",") + Crlf + Lines(results, RecordLine) + Crlf + TotalLine(totalFee) + TotalsSection(totals)
  }

  /** The lines of a concatenation are the lines of each part, in order. */
  lemma {:induction false} LinesAppend<T>(a: seq<T>, b: seq<T>, line: T -> string)
    ensures Lines(a + b, line) == Lines(a, line) + Lines(b, line)
  {
    if b == [] {
      assert a + b == a;
    } else {
      var q, y := b[..|b| - 1], b[|b| - 1];
      assert (a + b)[..|a + b| - 1] == a + q;
      assert (a + b)[|a + b| - 1] == y;
      LinesAppend(a, q, line);
    }
  }

  /** Every record's row reads back as its eight texts, one per header. */
  lemma RecordRowReadsBack(r: ParkingRecord)
    ensures ParseRecord(RecordLine(r)) == Some(CellTexts(RecordCells(r)))
    ensures |CellTexts(RecordCells(r))| == |Headers|
    ensures CellTexts(RecordCells(r))[1] == r.name && CellTexts(RecordCells(r))[7] == r.accountInfo
  {
    RowRoundTrip(RecordCells(r));
  }

  /** Every group's row reads back as its name, account and total. */
  lemma GroupRowReadsBack(g: GroupTotal)
    ensures ParseRecord(GroupLine(g)) == Some([g.name, g.accountInfo, IntToString(g.totalFee)])
  {
    RowRoundTrip(GroupCells(g));
    assert CellTexts(GroupCells(g)) == [g.name, g.accountInfo, IntToString(g.totalFee)];
  }

  /** `downloadExcel`: nothing when there are no results, else the document built row by row. */
  method DownloadExcel(results: seq<ParkingRecord>, totalFee: int, totals: seq<GroupTotal>)
    returns (csv: Option<string>)
    ensures results == [] ==> csv == None
    ensures results != [] ==> csv == Some(CsvDocument(results, totalFee, totals))
  {
    if |results| == 0 {
      return None;
    }
    var content := AppendLines(Bom + Join(Headers, ",") + Crlf, results, RecordLine);
    content := content + Crlf + TotalLine(totalFee);
    var section := "";
    if |totals| > 0 {
      section := AppendLines(TotalsHeader + Crlf, SortGroups(totals), GroupLine);
    }
    csv := Some(content + section);
  }

  /** The `forEach` loops of `downloadExcel`: `csvContent += row + "\r\n"` for each item. */
  method AppendLines<T>(content: string, xs: seq<T>, line: T -> string) returns (r: string)
    ensures r == content + Lines(xs, line)
  {
    r := content;
    for n := 0 to |xs|
      invariant r == content + Lines(xs[..n], line)
    {
      assert xs[..n + 1][..n] == xs[..n];
      r := r + line(xs[n]) + Crlf;
    }
    assert xs[..|xs|] == xs;
  }
}
