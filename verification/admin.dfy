/** The admin page's derived data: the status-plus-search filter over the
    loaded submissions and the CSV export of the filtered rows. */
module Admin {
  import opened Wrappers
  import opened Text
  import Seqs
  import Csv
  import Store
  import Contacts

  type Row = Store.Doc<Contacts.Contact>

  /** The status drop-down: everything, or one status. */
  datatype StatusFilter = All | Only(status: Contacts.Status)

  predicate MatchesStatus(c: Row, f: StatusFilter) {
    f.All? || c.value.status == f.status
  }

  /** The normalised query: trimmed, then lower-cased. */
  function Query(search: string): string {
    ToLower(Trim(search))
  }

  /** The fields the search box looks in, lower-cased; a missing company
      counts as the empty string. Phone and status are not searched. */
  function SearchedFields(c: Row): seq<string> {
    [ToLower(c.value.name), ToLower(c.value.email), ToLower(c.value.company.GetOr([])),
     ToLower(c.value.subject), ToLower(c.value.message)]
  }

  /** The search predicate: an empty (or blank) query matches everything;
      otherwise the query must occur in one of the searched fields. */
  predicate MatchesSearch(c: Row, search: string) {
    var q := Query(search);
    var fs := SearchedFields(c);
    || q == []
    || Includes(fs[0], q) || Includes(fs[1], q) || Includes(fs[2], q)
    || Includes(fs[3], q) || Includes(fs[4], q)
  }

  /** Both filters must pass. */
  predicate Keep(c: Row, f: StatusFilter, search: string) {
    MatchesStatus(c, f) && MatchesSearch(c, search)
  }

  /** The `filtered` memo: `undefined` while the list is loading; otherwise
      the loaded rows that pass both filters, in list order. A row is kept
      exactly when its status passes the drop-down and the normalised query
      is empty or occurs in one of its searched fields. */
  function Filtered(contacts: Option<seq<Row>>, f: StatusFilter, search: string): (r: Option<seq<Row>>)
    ensures r.None? <==> contacts.None?
    ensures r.Some? ==> Seqs.IsSubsequence(r.value, contacts.value)
    ensures r.Some? ==> forall c :: c in r.value <==>
      && c in contacts.value
      && (f.All? || c.value.status == f.status)
      && (Query(search) == [] || exists i :: 0 <= i < 5 && IsInfix(Query(search), SearchedFields(c)[i]))
  {
    match contacts
    case None => None
    case Some(cs) =>
      var r := Seqs.Filter((c: Row) => Keep(c, f, search), cs);
      assert forall c :: c in r <==> c in cs && Keep(c, f, search);
      forall c ensures MatchesSearch(c, search) <==>
        (Query(search) == [] || exists i :: 0 <= i < 5 && IsInfix(Query(search), SearchedFields(c)[i])) {
        MatchesSearchIff(c, search);
      }
      Some(r)
  }

  /** The search predicate against the reference substring relation. */
  lemma MatchesSearchIff(c: Row, search: string)
    ensures MatchesSearch(c, search) <==>
      (Query(search) == [] || exists i :: 0 <= i < 5 && IsInfix(Query(search), SearchedFields(c)[i]))
  {
    SomeFieldIff(SearchedFields(c), Query(search));
  }

  /** `includes` on one of five fields, against the substring relation. */
  lemma SomeFieldIff(fs: seq<string>, q: string)
    requires |fs| == 5
    ensures (|| Includes(fs[0], q) || Includes(fs[1], q) || Includes(fs[2], q)
             || Includes(fs[3], q) || Includes(fs[4], q))
      <==> exists i :: 0 <= i < 5 && IsInfix(q, fs[i])
  {
    if exists i :: 0 <= i < 5 && IsInfix(q, fs[i]) {
      var i :| 0 <= i < 5 && IsInfix(q, fs[i]);
      assert Includes(fs[i], q);
    }
  }

  /** Filtering keeps each kept row as often as it occurs in the list. */
  lemma FilteredCount(cs: seq<Row>, f: StatusFilter, search: string)
    ensures forall c :: (multiset(Filtered(Some(cs), f, search).value)[c] ==
      if Keep(c, f, search) then multiset(cs)[c] else 0)
  {
    Seqs.FilterCount((c: Row) => Keep(c, f, search), cs);
  }

  /** "All" with a blank query shows the whole list. */
  lemma ShowAllWhenUnfiltered(cs: seq<Row>, search: string)
    requires AllWhitespace(search)
    ensures Filtered(Some(cs), All, search) == Some(cs)
  {
    assert Query(search) == [];
    Seqs.FilterAll((c: Row) => Keep(c, All, search), cs);
  }

  /** The search ignores case on the query side: upper-casing letters of
      the query never changes which rows are kept. */
  lemma SearchIgnoresQueryCase(c: Row, search: string)
    ensures MatchesSearch(c, search) == MatchesSearch(c, ToLower(search))
  {
    TrimToLowerCommute(search);
    ToLowerIdempotent(Trim(search));
  }

  /** The phone number and the status are never searched. */
  lemma SearchIgnoresPhoneAndStatus(c: Row, phone: Option<string>, s: Contacts.Status, search: string)
    ensures MatchesSearch(c, search) == MatchesSearch(c.(value := c.value.(phone := phone, status := s)), search)
  {
  }

  /** What the Export button does: nothing to export, or a CSV text. */
  datatype Export = NoRowsToExport | CsvText(text: string)

  /** The fixed header line. */
  const Headers: seq<string> := ["Name", "Email", "Company", "Phone", "Subject", "Message", "Status", "Created At"]

  function StatusText(s: Contacts.Status): string {
    match s
    case New => "new"
    case Contacted => "contacted"
    case Closed => "closed"
  }

  /** The seven text values of one exported row, before escaping: a
      missing company or phone becomes the empty string. */
  function TextCells(c: Row): seq<string> {
    [c.value.name, c.value.email, c.value.company.GetOr([]), c.value.phone.GetOr([]),
     c.value.subject, c.value.message, StatusText(c.value.status)]
  }

  /** All eight values of one exported row; `iso` renders a creation time
      as an ISO-8601 string. */
  function Cells(c: Row, iso: nat -> string): seq<string> {
    TextCells(c) + [iso(c.creationTime)]
  }

  /** One exported line as the page builds it: the seven text cells
      escaped, the timestamp written as is, joined by commas. */
  function RowLine(c: Row, iso: nat -> string): string {
    Csv.Join(Csv.EscapeAll(TextCells(c)) + [iso(c.creationTime)], ',')
  }

  function RowLines(rows: seq<Row>, iso: nat -> string): (r: seq<string>)
    ensures |r| == |rows|
    ensures forall i :: 0 <= i < |rows| ==> r[i] == RowLine(rows[i], iso)
  {
    if rows == [] then [] else [RowLine(rows[0], iso)] + RowLines(rows[1..], iso)
  }

  /** `exportCSV`: with nothing loaded or nothing left after filtering, only
      a "No rows to export" notice; otherwise the header line followed by
      one line per filtered row, in filter order, joined by `\n`. */
  function ExportCsv(filtered: Option<seq<Row>>, iso: nat -> string): (r: Export)
    ensures r.NoRowsToExport? <==> filtered.None? || filtered.value == []
    ensures r.CsvText? ==> Csv.Join(Headers, ',') <= r.text
  {
    if filtered.None? || |filtered.value| == 0 then NoRowsToExport
    else
      var lines := [Csv.Join(Headers, ',')] + RowLines(filtered.value, iso);
      assert Csv.Join(lines, '\n') == lines[0] + ['\n'] + Csv.Join(lines[1..], '\n');
      CsvText(Csv.Join(lines, '\n'))
  }

  function AllCells(rows: seq<Row>, iso: nat -> string): (r: seq<seq<string>>)
    ensures |r| == |rows|
    ensures forall i :: 0 <= i < |rows| ==> r[i] == Cells(rows[i], iso)
  {
    if rows == [] then [] else [Cells(rows[0], iso)] + AllCells(rows[1..], iso)
  }

  /** A timestamp rendering that never needs quoting (ISO-8601 never does). */
  ghost predicate PlainTimestamps(iso: nat -> string) {
    forall t: nat :: !Csv.NeedsQuotes(iso(t))
  }

  lemma HeaderEncoding()
    ensures Csv.EncodeRow(Headers) == Csv.Join(Headers, ',')
  {
    var h := Headers;
    assert forall i :: 0 <= i < |h| ==> !Csv.NeedsQuotes(h[i]) by {
      assert !Csv.NeedsQuotes(h[0]);
      assert !Csv.NeedsQuotes(h[1]);
      assert !Csv.NeedsQuotes(h[2]);
      assert !Csv.NeedsQuotes(h[3]);
      assert !Csv.NeedsQuotes(h[4]);
      assert !Csv.NeedsQuotes(h[5]);
      assert !Csv.NeedsQuotes(h[6]);
      assert !Csv.NeedsQuotes(h[7]);
    }
    Csv.EscapeAllPlain(h);
  }

  lemma RowEncoding(c: Row, iso: nat -> string)
    requires PlainTimestamps(iso)
    ensures Csv.EncodeRow(Cells(c, iso)) == RowLine(c, iso)
  {
    Csv.EscapeAllAppend(TextCells(c), [iso(c.creationTime)]);
    Csv.EscapeAllPlain([iso(c.creationTime)]);
  }

  lemma {:induction false} RowLinesEncoding(rows: seq<Row>, iso: nat -> string)
    requires PlainTimestamps(iso)
    ensures Csv.EncodeRows(AllCells(rows, iso)) == RowLines(rows, iso)
  {
    if rows != [] {
      RowEncoding(rows[0], iso);
      RowLinesEncoding(rows[1..], iso);
      assert AllCells(rows, iso)[1..] == AllCells(rows[1..], iso);
    }
  }

  /** The exported text is the CSV encoding of the header and the rows'
      values. */
  lemma ExportIsEncoding(filtered: seq<Row>, iso: nat -> string)
    requires filtered != [] && PlainTimestamps(iso)
    ensures ExportCsv(Some(filtered), iso) == CsvText(Csv.EncodeDocument([Headers] + AllCells(filtered, iso)))
  {
    var rows := [Headers] + AllCells(filtered, iso);
    HeaderEncoding();
    RowLinesEncoding(filtered, iso);
    assert rows[1..] == AllCells(filtered, iso);
    assert Csv.EncodeRows(rows)[1..] == Csv.EncodeRows(rows[1..]);
    assert Csv.EncodeRows(rows) == [Csv.Join(Headers, ',')] + RowLines(filtered, iso);
  }

  lemma RowsReadable(filtered: seq<Row>, iso: nat -> string)
    ensures var rows := [Headers] + AllCells(filtered, iso);
      forall i :: 0 <= i < |rows| ==> Csv.ReadableRow(rows[i])
  {
    var rows := [Headers] + AllCells(filtered, iso);
    forall i | 0 <= i < |rows| ensures Csv.ReadableRow(rows[i]) {
      if i > 0 {
        assert rows[i] == Cells(filtered[i - 1], iso);
        assert |TextCells(filtered[i - 1])| == 7;
      }
    }
  }

  /** Reading the exported CSV back (honouring the quote escaping) gives the
      header and then, for each filtered row in order, its eight values:
      a missing company or phone reads back as an empty cell. */
  lemma ExportRoundTrip(filtered: seq<Row>, iso: nat -> string)
    requires filtered != [] && PlainTimestamps(iso)
    ensures ExportCsv(Some(filtered), iso).CsvText?
    ensures Csv.ParseDocument(ExportCsv(Some(filtered), iso).text) == [Headers] + AllCells(filtered, iso)
  {
    var rows := [Headers] + AllCells(filtered, iso);
    ExportIsEncoding(filtered, iso);
    RowsReadable(filtered, iso);
    Csv.DocumentRoundTrip(rows);
  }
}
