/** The CSV dialect the admin export writes: fields quoted in the style of
    section 2 of RFC 4180, cells joined by `,`, rows joined by a bare `\n`
    (no CRLF, no trailing line break). The parser here is the reader the
    round-trip property is stated against. */
module Csv {
  import Seqs

  /** The characters that force a field into quotes: `"`, `,` and `\n`.
      A carriage return does not, unlike rule 6 of RFC 4180. */
  predicate NeedsQuotes(v: string) {
    '"' in v || ',' in v || '\n' in v
  }

  /** Every `"` written twice, every other character kept. */
  function DoubleQuotes(v: string): string {
    Seqs.FlatMap(DoubleChar, v)
  }

  /** Text without a `"` is left alone by the doubling. */
  lemma {:induction false} DoubleQuotesPlain(v: string)
    requires '"' !in v
    ensures DoubleQuotes(v) == v
  {
    if v != [] {
      assert v[0] in v;
      assert forall k :: 0 <= k < |v| - 1 ==> v[1..][k] == v[k + 1];
      DoubleQuotesPlain(v[1..]);
    }
  }

  /** One character of the doubled text. */
  function DoubleChar(c: char): string {
    if c == '"' then "\"\"" else [c]
  }

  /** The field encoder: quotes the doubled text when the value holds a
      `"`, `,` or `\n`; otherwise the value is written unchanged. */
  function EscapeCsv(v: string): (r: string)
    ensures !NeedsQuotes(v) ==> r == v
    ensures (|r| > 0 && r[0] == '"') <==> NeedsQuotes(v)
    ensures NeedsQuotes(v) ==> |r| >= 2 && r[|r| - 1] == '"'
  {
    var escaped := DoubleQuotes(v);
    if NeedsQuotes(v) then "\"" + escaped + "\""
    else DoubleQuotesPlain(v); escaped
  }

  /** `items` joined with `sep` between neighbours (`Array.prototype.join`). */
  function Join(items: seq<string>, sep: char): string {
    if |items| == 0 then []
    else if |items| == 1 then items[0]
    else items[0] + [sep] + Join(items[1..], sep)
  }

  /** One CSV line from already encoded cells. */
  function EncodeRow(cells: seq<string>): string {
    Join(EscapeAll(cells), ',')
  }

  /** Every cell through the field encoder. */
  function EscapeAll(cells: seq<string>): (r: seq<string>)
    ensures |r| == |cells|
    ensures forall i :: 0 <= i < |cells| ==> r[i] == EscapeCsv(cells[i])
  {
    Seqs.Map(EscapeCsv, cells)
  }

  /** Cells that need no quoting are written unchanged. */
  lemma EscapeAllPlain(cells: seq<string>)
    requires forall i :: 0 <= i < |cells| ==> !NeedsQuotes(cells[i])
    ensures EscapeAll(cells) == cells
  {
  }

  lemma EscapeAllAppend(a: seq<string>, b: seq<string>)
    ensures EscapeAll(a + b) == EscapeAll(a) + EscapeAll(b)
  {
    Seqs.MapAppend(EscapeCsv, a, b);
  }

  function EncodeRows(rows: seq<seq<string>>): (r: seq<string>)
    ensures |r| == |rows|
    ensures forall i :: 0 <= i < |rows| ==> r[i] == EncodeRow(rows[i])
  {
    if rows == [] then [] else [EncodeRow(rows[0])] + EncodeRows(rows[1..])
  }

  /** A whole document: encoded rows joined by `\n`. */
  function EncodeDocument(rows: seq<seq<string>>): string {
    Join(EncodeRows(rows), '\n')
  }

  /** Reads an unquoted field: everything up to the next `,` or `\n`. */
  function ParsePlain(s: string): (res: (string, string))
    ensures |res.1| <= |s|
  {
    if s == [] || s[0] == ',' || s[0] == '\n' then ([], s)
    else
      var (v, rest) := ParsePlain(s[1..]);
      ([s[0]] + v, rest)
  }

  /** Reads the inside of a quoted field (after its opening quote): `""`
      stands for one `"`, a lone `"` closes the field. An unterminated field
      runs to the end of the text. */
  function ParseQuoted(s: string): (res: (string, string))
    ensures |res.1| <= |s|
  {
    if s == [] then ([], [])
    else if s[0] == '"' then
      if |s| > 1 && s[1] == '"' then
        var (v, rest) := ParseQuoted(s[2..]);
        (['"'] + v, rest)
      else
        ([], s[1..])
    else
      var (v, rest) := ParseQuoted(s[1..]);
      ([s[0]] + v, rest)
  }

  /** Reads one field and returns it with the text after it. */
  function ParseField(s: string): (res: (string, string))
    ensures |res.1| <= |s|
  {
    if |s| > 0 && s[0] == '"' then ParseQuoted(s[1..]) else ParsePlain(s)
  }

  /** Reads the fields of one line; stops before the `\n` that ends it. */
  function ParseRow(s: string): (res: (seq<string>, string))
    ensures |res.1| <= |s|
    decreases |s|
  {
    var (f, rest) := ParseField(s);
    if rest != [] && rest[0] == ',' then
      var (fs, rest') := ParseRow(rest[1..]);
      ([f] + fs, rest')
    else
      ([f], rest)
  }

  /** Reads a whole document, one row per line. */
  function ParseDocument(s: string): seq<seq<string>>
    decreases |s|
  {
    if s == [] then []
    else
      var (row, rest) := ParseRow(s);
      if rest == [] then [row] else [row] + ParseDocument(rest[1..])
  }

  /** A field value is decoded from its encoding alone. */
  function DecodeField(f: string): string {
    ParseField(f).0
  }

  /** What may follow a field: nothing, or the delimiter before the next
      field or line. */
  predicate FieldEnd(t: string) {
    t == [] || t[0] == ',' || t[0] == '\n'
  }

  lemma {:induction false} ParsePlainRoundTrip(v: string, t: string)
    requires ',' !in v && '\n' !in v && FieldEnd(t)
    ensures ParsePlain(v + t) == (v, t)
  {
    if v == [] {
      assert v + t == t;
    } else {
      assert v[0] in v;
      assert v == [v[0]] + v[1..];
      assert (v + t)[1..] == v[1..] + t;
      ParsePlainRoundTrip(v[1..], t);
    }
  }

  lemma {:induction false} ParseQuotedRoundTrip(v: string, t: string)
    requires t == [] || t[0] != '"'
    ensures ParseQuoted(DoubleQuotes(v) + "\"" + t) == (v, t)
  {
    var s := DoubleQuotes(v) + "\"" + t;
    if v == [] {
      assert s == "\"" + t;
      assert s[1..] == t;
    } else if v[0] == '"' {
      assert s == "\"\"" + (DoubleQuotes(v[1..]) + "\"" + t);
      assert s[2..] == DoubleQuotes(v[1..]) + "\"" + t;
      ParseQuotedRoundTrip(v[1..], t);
      assert v == [v[0]] + v[1..];
    } else {
      assert s == [v[0]] + (DoubleQuotes(v[1..]) + "\"" + t);
      assert s[1..] == DoubleQuotes(v[1..]) + "\"" + t;
      ParseQuotedRoundTrip(v[1..], t);
      assert v == [v[0]] + v[1..];
    }
  }

  /** Reading back an encoded field yields the value and stops right at the
      delimiter that follows it. */
  lemma ParseFieldRoundTrip(v: string, t: string)
    requires FieldEnd(t)
    ensures ParseField(EscapeCsv(v) + t) == (v, t)
  {
    if NeedsQuotes(v) {
      var s := EscapeCsv(v) + t;
      assert s == "\"" + (DoubleQuotes(v) + "\"" + t);
      assert s[1..] == DoubleQuotes(v) + "\"" + t;
      ParseQuotedRoundTrip(v, t);
    } else {
      ParsePlainRoundTrip(v, t);
      if v != [] {
        assert v[0] != '"' by {
          assert v[0] in v;
        }
      }
    }
  }

  /** Decoding inverts the field encoder, e.g. `He said, "hello"` is written
      as `"He said, ""hello"""` and read back as the original text. */
  lemma EscapeRoundTrip(v: string)
    ensures DecodeField(EscapeCsv(v)) == v
  {
    ParseFieldRoundTrip(v, []);
    assert EscapeCsv(v) + [] == EscapeCsv(v);
  }

  lemma {:induction false} ParseRowRoundTrip(cells: seq<string>, t: string)
    requires |cells| >= 1
    requires t == [] || t[0] == '\n'
    ensures ParseRow(EncodeRow(cells) + t) == (cells, t)
  {
    var enc := EscapeAll(cells);
    if |cells| == 1 {
      assert EncodeRow(cells) == EscapeCsv(cells[0]);
      ParseFieldRoundTrip(cells[0], t);
      assert cells == [cells[0]];
    } else {
      assert EscapeAll(cells[1..]) == enc[1..];
      var tail := EncodeRow(cells[1..]) + t;
      assert EncodeRow(cells) + t == EscapeCsv(cells[0]) + ([','] + tail);
      ParseFieldRoundTrip(cells[0], [','] + tail);
      assert ([','] + tail)[1..] == tail;
      ParseRowRoundTrip(cells[1..], t);
      assert cells == [cells[0]] + cells[1..];
    }
  }

  /** A row that reads back as itself: at least one cell, and not a lone
      empty cell (whose line would be empty). */
  predicate ReadableRow(cells: seq<string>) {
    |cells| > 1 || (|cells| == 1 && cells[0] != [])
  }

  lemma EncodeRowNonEmpty(cells: seq<string>)
    requires ReadableRow(cells)
    ensures EncodeRow(cells) != []
  {
    if |cells| == 1 {
      assert EncodeRow(cells) == EscapeCsv(cells[0]);
      if !NeedsQuotes(cells[0]) {
        assert EscapeCsv(cells[0]) == cells[0];
      }
    }
  }

  /** Reading back an encoded document yields its rows, cell for cell. */
  lemma {:induction false} DocumentRoundTrip(rows: seq<seq<string>>)
    requires forall i :: 0 <= i < |rows| ==> ReadableRow(rows[i])
    ensures ParseDocument(EncodeDocument(rows)) == rows
  {
    if rows != [] {
      var lines := EncodeRows(rows);
      EncodeRowNonEmpty(rows[0]);
      if |rows| == 1 {
        ParseRowRoundTrip(rows[0], []);
        assert EncodeRow(rows[0]) + [] == EncodeRow(rows[0]);
      } else {
        assert EncodeRows(rows[1..]) == lines[1..];
        var tail := EncodeDocument(rows[1..]);
        assert EncodeDocument(rows) == EncodeRow(rows[0]) + (['\n'] + tail);
        ParseRowRoundTrip(rows[0], ['\n'] + tail);
        assert (['\n'] + tail)[1..] == tail;
        DocumentRoundTrip(rows[1..]);
        assert rows == [rows[0]] + rows[1..];
      }
    }
  }

  /** A value with a comma and one quoted word: the quotes are doubled and
      the whole is wrapped in quotes. */
  lemma EscapeQuotedWord(a: string, h: string, v: string, r: string)
    requires '"' !in a && '"' !in h && ',' in a
    requires v == a + "\"" + h + "\""
    requires r == "\"" + a + "\"\"" + h + "\"\"" + "\""
    ensures EscapeCsv(v) == r
  {
    var q := "\"";
    DoubleQuotesPlain(a);
    DoubleQuotesPlain(h);
    assert DoubleQuotes(q) == q + q;
    DoubleQuotesAppend(a + q + h, q);
    DoubleQuotesAppend(a + q, h);
    DoubleQuotesAppend(a, q);
    assert DoubleQuotes(v) == a + q + q + h + q + q;
    assert NeedsQuotes(v);
  }

  /** The worked example: `He said, "hello"` is written as
      `"He said, ""hello"""`. */
  lemma EscapeExample(v: string)
    requires v == "He said, \"hello\""
    ensures EscapeCsv(v) == "\"He said, \"\"hello\"\"\""
    ensures DecodeField(EscapeCsv(v)) == v
  {
    var a := "He said, ";
    assert a[7] == ',';
    EscapeQuotedWord(a, "hello", v, "\"He said, \"\"hello\"\"\"");
    EscapeRoundTrip(v);
  }

  /** Quote doubling works character by character. */
  lemma DoubleQuotesAppend(a: string, b: string)
    ensures DoubleQuotes(a + b) == DoubleQuotes(a) + DoubleQuotes(b)
  {
    Seqs.FlatMapAppend(DoubleChar, a, b);
  }

  /** A carriage return alone does not trigger quoting. */
  lemma LoneCarriageReturnUnquoted(v: string)
    requires v == "a\rb"
    ensures EscapeCsv(v) == v
  {
  }
}
