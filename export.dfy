/**
 * The CSV export: the text of the downloaded file and its name. A cell that
 * contains a comma, a double quote or a line feed is quoted with its quotes
 * doubled, as rules 6 and 7 of section 2 of RFC 4180 ask; records are
 * separated by a bare line feed rather than RFC 4180's CR LF, and a carriage
 * return on its own does not cause quoting.
 */
module Export {
  import opened Journal
  import Dates

  /** The fixed column titles, in column order. */
  const Headers: seq<string> :=
    ["No", "Category", "Activity Details", "Activity Start", "Activity End", "Hours Spent", "Activity Owner"]

  /** `Array.prototype.join` with a one-character separator. */
  function Join(parts: seq<string>, sep: char): (r: string)
    ensures parts == [] ==> r == []
    ensures |parts| == 1 ==> r == parts[0]
  {
    if parts == [] then []
    else if |parts| == 1 then parts[0]
    else parts[0] + [sep] + Join(parts[1..], sep)
  }

  /** A cell is quoted exactly when it holds a comma, a double quote or a line feed. */
  predicate NeedsQuotes(cell: string) {
    ',' in cell || '"' in cell || '\n' in cell
  }

  /** `replace(/"/g, '""')`: every double quote doubled, every other character kept. */
  function DoubleQuotes(s: string): (r: string)
    ensures |r| >= |s|
    ensures forall ch :: ch in r <==> ch in s
  {
    if s == [] then []
    else (if s[0] == '"' then "\"\"" else [s[0]]) + DoubleQuotes(s[1..])
  }

  /** A text enclosed in double quotes. */
  predicate Quoted(t: string) {
    |t| >= 2 && t[0] == '"' && t[|t| - 1] == '"'
  }

  /**
   * One exported cell. Quoting is decided by the three characters alone (a
   * bare carriage return does not count), and an unquoted cell is verbatim.
   */
  function EscapeCell(cell: string): (r: string)
    ensures NeedsQuotes(cell) <==> Quoted(r)
    ensures !NeedsQuotes(cell) ==> r == cell
    ensures NeedsQuotes(cell) ==> |r| >= |cell| + 2
  {
    assert !NeedsQuotes(cell) ==> !Quoted(cell) by {
      if cell != [] {
        assert cell[0] in cell;
      }
    }
    if NeedsQuotes(cell) then "\"" + DoubleQuotes(cell) + "\"" else cell
  }

  /** Examples: a comma or a line feed forces quotes, quotes are doubled, a bare carriage return is left alone. */
  lemma EscapeCellExamples()
    ensures EscapeCell("a,b") == "\"a,b\""
    ensures EscapeCell("a\nb") == "\"a\nb\""
    ensures EscapeCell("a\"b") == "\"a\"\"b\""
    ensures EscapeCell("a\rb") == "a\rb"
  {
    assert NeedsQuotes("a,b") by { assert "a,b"[1] == ','; }
    assert NeedsQuotes("a\nb") by { assert "a\nb"[1] == '\n'; }
    assert NeedsQuotes("a\"b") by { assert "a\"b"[1] == '"'; }
  }

  /** `""` read back as `"`: the inverse of `DoubleQuotes`. */
  function HalveQuotes(s: string): (r: string)
    ensures |r| <= |s|
  {
    if s == [] then []
    else if |s| >= 2 && s[0] == '"' && s[1] == '"' then "\"" + HalveQuotes(s[2..])
    else [s[0]] + HalveQuotes(s[1..])
  }

  /** Reverses `EscapeCell`: strips the outer quotes and halves the doubled ones. */
  function UnescapeCell(text: string): (r: string)
  {
    if |text| >= 2 && text[0] == '"' && text[|text| - 1] == '"' then HalveQuotes(text[1..|text| - 1])
    else text
  }

  /** Halving the doubled quotes gives the text back: `HalveQuotes` inverts `DoubleQuotes`. */
  lemma {:induction false} HalveDoubleQuotes(s: string)
    ensures HalveQuotes(DoubleQuotes(s)) == s
    decreases |s|
  {
    if s != [] {
      var d := DoubleQuotes(s);
      HalveDoubleQuotes(s[1..]);
      if s[0] == '"' {
        assert d == "\"\"" + DoubleQuotes(s[1..]);
        assert d[2..] == DoubleQuotes(s[1..]);
      } else {
        assert d == [s[0]] + DoubleQuotes(s[1..]);
        assert d[1..] == DoubleQuotes(s[1..]);
      }
    }
  }

  /** Unescaping an escaped cell gives back the cell. */
  lemma UnescapeEscapeCell(cell: string)
    ensures UnescapeCell(EscapeCell(cell)) == cell
  {
    var e := EscapeCell(cell);
    if NeedsQuotes(cell) {
      assert e[1..|e| - 1] == DoubleQuotes(cell);
      HalveDoubleQuotes(cell);
    }
  }

  /**
   * `String(n)` for an integer: the decimal digits of `n`, with no leading
   * zero, after a minus sign when `n` is negative.
   */
  function IntToString(n: int): (r: string)
    ensures |r| > 0
    ensures forall i :: 0 <= i < |r| ==> Dates.IsDigit(r[i]) || (i == 0 && r[i] == '-')
    ensures n >= 0 ==> Dates.AllDigits(r) && Dates.DecimalValue(r) == n
    ensures n < 0 ==> r[0] == '-' && Dates.AllDigits(r[1..]) && Dates.DecimalValue(r[1..]) == -n
    ensures n >= 0 ==> (r[0] == '0' <==> n == 0)
    ensures n < 0 ==> r[1] != '0'
    ensures n == 0 ==> r == "0"
  {
    if n < 0 then
      var digits := Dates.Decimal(-n);
      Dates.DecimalValueOfDecimal(-n);
      assert ("-" + digits)[1..] == digits;
      "-" + digits
    else
      Dates.DecimalValueOfDecimal(n);
      Dates.Decimal(n)
  }

  /** The seven cells of an entry's row, in column order; `showHours` renders the hours number. */
  function RowCells(e: JournalEntry, showHours: real -> string): (r: seq<string>)
    ensures |r| == |Headers|
  {
    [IntToString(e.no), CategoryName(e.category), e.activityDetails, e.activityStart,
     e.activityEnd, showHours(e.hoursSpent), e.activityOwner]
  }

  /** The rows of cells of all entries, in order. */
  function AllRowCells(entries: seq<JournalEntry>, showHours: real -> string): (r: seq<seq<string>>)
    ensures |r| == |entries|
    ensures forall i :: 0 <= i < |r| ==> |r[i]| == |Headers|
  {
    seq(|entries|, i requires 0 <= i < |entries| => RowCells(entries[i], showHours))
  }

  /** The cells escaped one by one. */
  function Escaped(cells: seq<string>): (r: seq<string>)
    ensures |r| == |cells| && forall i :: 0 <= i < |cells| ==> r[i] == EscapeCell(cells[i])
  {
    seq(|cells|, i requires 0 <= i < |cells| => EscapeCell(cells[i]))
  }

  /** One line of the file: the escaped cells joined by commas. */
  function EncodeRecord(cells: seq<string>): string
  {
    Join(Escaped(cells), ',')
  }

  /** Every record encoded as one line. */
  function EncodeAll(records: seq<seq<string>>): (r: seq<string>)
    ensures |r| == |records| && forall k :: 0 <= k < |records| ==> r[k] == EncodeRecord(records[k])
  {
    seq(|records|, k requires 0 <= k < |records| => EncodeRecord(records[k]))
  }

  /** The header line: the column titles joined by commas, unescaped; it is one line. */
  function HeaderLine(): (r: string)
    ensures '\n' !in r
  {
    HeaderCellsPlain();
    JoinAvoids(Headers, ',', '\n');
    Join(Headers, ',')
  }

  /** The data lines of the file, one per entry in the given order. */
  function DataLines(entries: seq<JournalEntry>, showHours: real -> string): (r: seq<string>)
    ensures |r| == |entries|
  {
    EncodeAll(AllRowCells(entries, showHours))
  }

  /** The text of the exported file: the header line, then one line per entry, joined by line feeds. */
  function CsvContent(entries: seq<JournalEntry>, showHours: real -> string): (r: string)
    ensures r == HeaderLine() + (if entries == [] then "" else "\n" + Join(DataLines(entries, showHours), '\n'))
  {
    JoinCons(HeaderLine(), DataLines(entries, showHours), '\n');
    Join([HeaderLine()] + DataLines(entries, showHours), '\n')
  }

  lemma JoinCons(first: string, rest: seq<string>, sep: char)
    ensures Join([first] + rest, sep) == first + (if rest == [] then [] else [sep] + Join(rest, sep))
  {
    assert ([first] + rest)[1..] == rest;
  }

  /** No column title needs quoting. */
  lemma HeaderCellsPlain()
    ensures forall i :: 0 <= i < |Headers| ==> !NeedsQuotes(Headers[i])
  {
    forall i | 0 <= i < |Headers| ensures !NeedsQuotes(Headers[i]) {
      if i == 0 { assert !NeedsQuotes("No"); }
      else if i == 1 { assert !NeedsQuotes("Category"); }
      else if i == 2 { assert !NeedsQuotes("Activity Details"); }
      else if i == 3 { assert !NeedsQuotes("Activity Start"); }
      else if i == 4 { assert !NeedsQuotes("Activity End"); }
      else if i == 5 { assert !NeedsQuotes("Hours Spent"); }
      else { assert !NeedsQuotes("Activity Owner"); }
    }
  }

  lemma {:induction false} JoinAvoids(parts: seq<string>, sep: char, ch: char)
    requires ch != sep && forall i :: 0 <= i < |parts| ==> ch !in parts[i]
    ensures ch !in Join(parts, sep)
    decreases |parts|
  {
    if |parts| > 1 {
      JoinAvoids(parts[1..], sep, ch);
      assert ch !in parts[0];
    }
  }

  lemma JoinStep(parts: seq<string>, sep: char, k: nat)
    requires k + 1 < |parts|
    ensures Join(parts[k..], sep) == parts[k] + ([sep] + Join(parts[k + 1..], sep))
  {
    assert parts[k..][1..] == parts[k + 1..];
  }

  /** The first line of the file: the seven column titles in order, separated by commas. */
  lemma HeaderLineText()
    ensures HeaderLine() == Headers[0] + ("," + (Headers[1] + ("," + (Headers[2] + ("," + (Headers[3]
                          + ("," + (Headers[4] + ("," + (Headers[5] + ("," + Headers[6])))))))))))
  {
    var h := Headers;
    var j6 := h[6];
    assert h[6..] == [h[6]];
    var j5 := h[5] + ("," + j6);
    JoinStep(h, ',', 5);
    assert Join(h[5..], ',') == j5;
    var j4 := h[4] + ("," + j5);
    JoinStep(h, ',', 4);
    assert Join(h[4..], ',') == j4;
    var j3 := h[3] + ("," + j4);
    JoinStep(h, ',', 3);
    assert Join(h[3..], ',') == j3;
    var j2 := h[2] + ("," + j3);
    JoinStep(h, ',', 2);
    assert Join(h[2..], ',') == j2;
    var j1 := h[1] + ("," + j2);
    JoinStep(h, ',', 1);
    assert Join(h[1..], ',') == j1;
    JoinStep(h, ',', 0);
    assert h[0..] == h;
  }

  // ----- Reading the text back, as an RFC 4180 reader with LF line breaks would -----

  /** An unquoted field: everything up to the next comma or line feed. */
  function ReadPlain(s: string): (r: (string, string))
    ensures |r.1| <= |s|
  {
    if s == [] || s[0] == ',' || s[0] == '\n' then ([], s)
    else
      var (f, rest) := ReadPlain(s[1..]);
      ([s[0]] + f, rest)
  }

  /** A quoted field after its opening quote: `""` stands for `"`, a lone `"` closes it. */
  function ReadQuoted(s: string): (r: (string, string))
    ensures |r.1| <= |s|
  {
    if s == [] then ([], [])
    else if s[0] == '"' then
      if |s| >= 2 && s[1] == '"' then
        var (f, rest) := ReadQuoted(s[2..]);
        ("\"" + f, rest)
      else ([], s[1..])
    else
      var (f, rest) := ReadQuoted(s[1..]);
      ([s[0]] + f, rest)
  }

  /** One field, quoted or not, and the text after it. */
  function ReadField(s: string): (r: (string, string))
    ensures |r.1| <= |s|
  {
    if s != [] && s[0] == '"' then ReadQuoted(s[1..]) else ReadPlain(s)
  }

  /** The comma-separated fields of one record, and the text from the end of its last field on. */
  function ReadRecord(s: string): (r: (seq<string>, string))
    ensures |r.1| <= |s|
    ensures |r.0| >= 1
    decreases |s|
  {
    var (f, rest) := ReadField(s);
    if rest != [] && rest[0] == ',' then
      var (fs, rest') := ReadRecord(rest[1..]);
      ([f] + fs, rest')
    else ([f], rest)
  }

  /** All records of a text, split at the line feeds that end records. */
  function ReadRecords(s: string): (r: seq<seq<string>>)
    ensures |r| >= 1
    decreases |s|
  {
    var (fields, rest) := ReadRecord(s);
    if rest != [] && rest[0] == '\n' then [fields] + ReadRecords(rest[1..])
    else [fields]
  }

  /** The text that may follow a field: nothing, or a separator. */
  predicate FieldEnd(rest: string) {
    rest == [] || rest[0] == ',' || rest[0] == '\n'
  }

  lemma {:induction false} ReadPlainCell(cell: string, rest: string)
    requires ',' !in cell && '\n' !in cell && FieldEnd(rest)
    ensures ReadPlain(cell + rest) == (cell, rest)
    decreases |cell|
  {
    if cell == [] {
      assert cell + rest == rest;
    } else {
      assert cell[0] in cell;
      assert (cell + rest)[0] == cell[0];
      assert (cell + rest)[1..] == cell[1..] + rest;
      ReadPlainCell(cell[1..], rest);
      assert ReadPlain(cell + rest) == ([cell[0]] + cell[1..], rest);
      assert [cell[0]] + cell[1..] == cell;
    }
  }

  lemma {:induction false} ReadQuotedCell(cell: string, rest: string)
    requires rest == [] || rest[0] != '"'
    ensures ReadQuoted(DoubleQuotes(cell) + "\"" + rest) == (cell, rest)
    decreases |cell|
  {
    var s := DoubleQuotes(cell) + "\"" + rest;
    if cell == [] {
      assert s == "\"" + rest;
      assert s[1..] == rest;
    } else {
      var d := DoubleQuotes(cell[1..]);
      var t := d + "\"" + rest;
      ReadQuotedCell(cell[1..], rest);
      if cell[0] == '"' {
        assert DoubleQuotes(cell) == "\"\"" + d;
        assert s == "\"\"" + t;
        assert s[0] == '"' && s[1] == '"' && s[2..] == t;
        assert ReadQuoted(s) == ("\"" + cell[1..], rest);
        assert "\"" + cell[1..] == cell;
      } else {
        assert DoubleQuotes(cell) == [cell[0]] + d;
        assert s == [cell[0]] + t;
        assert s[0] == cell[0] && s[1..] == t;
        assert ReadQuoted(s) == ([cell[0]] + cell[1..], rest);
        assert [cell[0]] + cell[1..] == cell;
      }
    }
  }

  /** Reading an escaped cell followed by a separator (or the end) gives the cell and the separator. */
  lemma ReadEscapedCell(cell: string, rest: string)
    requires FieldEnd(rest)
    ensures ReadField(EscapeCell(cell) + rest) == (cell, rest)
  {
    if NeedsQuotes(cell) {
      ReadQuotedField(cell, rest);
    } else {
      ReadPlainField(cell, rest);
    }
  }

  lemma ReadQuotedField(cell: string, rest: string)
    requires FieldEnd(rest) && NeedsQuotes(cell)
    ensures ReadField(EscapeCell(cell) + rest) == (cell, rest)
  {
    var q := DoubleQuotes(cell) + "\"" + rest;
    var s := "\"" + q;
    assert EscapeCell(cell) + rest == s;
    assert s[0] == '"' && s[1..] == q;
    ReadQuotedCell(cell, rest);
  }

  lemma ReadPlainField(cell: string, rest: string)
    requires FieldEnd(rest) && !NeedsQuotes(cell)
    ensures ReadField(EscapeCell(cell) + rest) == (cell, rest)
  {
    if cell != [] {
      assert cell[0] in cell;
      assert (cell + rest)[0] == cell[0];
    }
    ReadPlainCell(cell, rest);
  }

  lemma {:induction false} ReadEncodedRecord(cells: seq<string>, rest: string)
    requires |cells| >= 1
    requires rest == [] || rest[0] == '\n'
    ensures ReadRecord(EncodeRecord(cells) + rest) == (cells, rest)
    decreases |cells|
  {
    var e := Escaped(cells);
    if |cells| == 1 {
      ReadEscapedCell(cells[0], rest);
      assert cells == [cells[0]];
    } else {
      var tail := EncodeRecord(cells[1..]);
      var after := [','] + tail + rest;
      assert Escaped(cells[1..]) == e[1..];
      assert EncodeRecord(cells) == e[0] + [','] + tail;
      assert EncodeRecord(cells) + rest == e[0] + after;
      ReadEscapedCell(cells[0], after);
      assert after[1..] == tail + rest;
      ReadEncodedRecord(cells[1..], rest);
      assert [cells[0]] + cells[1..] == cells;
    }
  }

  lemma {:induction false} ReadEncodedRecords(records: seq<seq<string>>)
    requires |records| >= 1
    requires forall k :: 0 <= k < |records| ==> |records[k]| >= 1
    ensures ReadRecords(Join(EncodeAll(records), '\n')) == records
    decreases |records|
  {
    var lines := EncodeAll(records);
    if |records| == 1 {
      assert lines[0] + [] == lines[0];
      ReadEncodedRecord(records[0], []);
    } else {
      var tail := EncodeAll(records[1..]);
      assert lines[1..] == tail;
      var rest := ['\n'] + Join(tail, '\n');
      assert Join(lines, '\n') == lines[0] + rest;
      ReadEncodedRecord(records[0], rest);
      assert rest[1..] == Join(tail, '\n');
      ReadEncodedRecords(records[1..]);
      assert [records[0]] + records[1..] == records;
    }
  }

  /** The header line is the encoding of the column titles: none of them needs quoting. */
  lemma HeaderIsEncoded()
    ensures HeaderLine() == EncodeRecord(Headers)
  {
    HeaderCellsPlain();
    assert Escaped(Headers) == Headers;
  }

  /**
   * The exported text reads back as the column titles followed by exactly
   * the cells of each entry, in order: escaping loses nothing and no cell
   * spills into another.
   */
  lemma CsvRoundTrip(entries: seq<JournalEntry>, showHours: real -> string)
    ensures ReadRecords(CsvContent(entries, showHours)) == [Headers] + AllRowCells(entries, showHours)
  {
    var records := [Headers] + AllRowCells(entries, showHours);
    ContentIsEncodedRecords(entries, showHours);
    ReadEncodedRecords(records);
  }

  /** The exported text is the line-feed join of the encoded header and rows. */
  lemma ContentIsEncodedRecords(entries: seq<JournalEntry>, showHours: real -> string)
    ensures forall k :: 0 <= k < |[Headers] + AllRowCells(entries, showHours)| ==>
      |([Headers] + AllRowCells(entries, showHours))[k]| >= 1
    ensures CsvContent(entries, showHours) == Join(EncodeAll([Headers] + AllRowCells(entries, showHours)), '\n')
  {
    EncodedLines(entries, showHours);
  }

  lemma EncodedLines(entries: seq<JournalEntry>, showHours: real -> string)
    ensures EncodeAll([Headers] + AllRowCells(entries, showHours)) == [HeaderLine()] + DataLines(entries, showHours)
  {
    EncodeAllCons(Headers, AllRowCells(entries, showHours));
    HeaderIsEncoded();
  }

  lemma EncodeAllCons(first: seq<string>, rest: seq<seq<string>>)
    ensures EncodeAll([first] + rest) == [EncodeRecord(first)] + EncodeAll(rest)
  {
    var l := EncodeAll([first] + rest);
    var r := [EncodeRecord(first)] + EncodeAll(rest);
    forall k | 0 <= k < |l| ensures l[k] == r[k] {
      if k > 0 {
        assert ([first] + rest)[k] == rest[k - 1];
      }
    }
  }

  /** The name of the downloaded file for a given export day text. */
  function FileName(datePart: string): (r: string)
    ensures |r| == |datePart| + 24
    ensures r[..20] == "performance-journal-" && r[|r| - 4..] == ".csv"
    ensures r[20..|r| - 4] == datePart
  {
    "performance-journal-" + datePart + ".csv"
  }

  /** `iso.split("T")[0]`: the text before the first `T`, or all of it when there is none. */
  function DatePart(iso: string): (r: string)
    ensures 'T' !in r
    ensures r <= iso
    ensures |r| < |iso| ==> iso[|r|] == 'T'
  {
    if iso == [] || iso[0] == 'T' then [] else [iso[0]] + DatePart(iso[1..])
  }

  /** For an ISO timestamp `yyyy-MM-dd` + `T` + time, the date part is exactly the calendar day text. */
  lemma DatePartOfTimestamp(d: Dates.Date, time: string)
    requires Dates.ValidDate(d)
    ensures DatePart(Dates.FormatDate(d) + "T" + time) == Dates.FormatDate(d)
    ensures FileName(DatePart(Dates.FormatDate(d) + "T" + time))
         == "performance-journal-" + Dates.FormatDate(d) + ".csv"
  {
    var day := Dates.FormatDate(d);
    Dates.FormatDateShape(d);
    DatePartBeforeFirstT(day, time);
  }

  lemma {:induction false} DatePartBeforeFirstT(prefix: string, suffix: string)
    requires 'T' !in prefix
    ensures DatePart(prefix + "T" + suffix) == prefix
    decreases |prefix|
  {
    var s := prefix + "T" + suffix;
    if prefix == [] {
      assert s[0] == 'T';
    } else {
      assert s[0] == prefix[0];
      assert s[1..] == prefix[1..] + "T" + suffix;
      DatePartBeforeFirstT(prefix[1..], suffix);
    }
  }
}
