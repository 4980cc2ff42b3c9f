/** `parseCSV` of the dashboard: the closing prices of an uploaded CSV file.
    The text is trimmed and cut into lines at "\n" or "\r\n". The first line decides
    the cell separator (a comma if it holds one, otherwise runs of white space) and
    whether it is a header: a header has a cell that, lower-cased, is "close", "price"
    or "adj close", and the first such cell names the value column. Without a header
    every line is data and the value column is the first. Every data line is cut with
    the same separator, its value cell converted with `Number`, and the cells that
    are not NaN are kept in line order; a line too short to have the cell gives NaN. */
module CsvParser {
  import opened Seqs
  import opened JsText
  import opened JsNumber

  /** `text.trim().split(/\r?\n/)`. */
  function Lines(text: string): (lines: seq<string>)
    ensures |lines| >= 1
  {
    Split(Trim(text), LineBreak)
  }

  /** One of the three header names the parser looks for. */
  predicate IsHeaderName(h: string) {
    h == "close" || h == "price" || h == "adj close"
  }

  /** `headers.some(...)`. */
  predicate HasHeaderName(headers: seq<string>) {
    exists k :: 0 <= k < |headers| && IsHeaderName(headers[k])
  }

  /** `headers.findIndex(...)`: the first header name, or -1 when there is none. */
  function FindIndex(headers: seq<string>): (r: int)
    ensures -1 <= r < |headers|
    ensures r >= 0 <==> HasHeaderName(headers)
    ensures r >= 0 ==> IsHeaderName(headers[r])
    ensures forall k :: 0 <= k < r ==> !IsHeaderName(headers[k])
    decreases |headers|
  {
    if headers == [] then -1
    else if IsHeaderName(headers[0]) then 0
    else
      var r := FindIndex(headers[1..]);
      assert forall k :: 1 <= k < |headers| ==> headers[k] == headers[1..][k - 1];
      if r < 0 then -1 else r + 1
  }

  /** The cells of the first line, lower-cased. */
  function Headers(first: string, sep: Separator): seq<string> {
    var cells := Split(first, sep);
    seq(|cells|, k requires 0 <= k < |cells| => Lower(cells[k]))
  }

  /** What the first line decides: the separator of every line, the first data line,
      and the value column. */
  datatype Layout = Layout(sep: Separator, start: nat, col: nat)

  /** The layout the first line decides: a comma separates the cells exactly when
      the first line holds one, otherwise runs of white space do. */
  function DetectLayout(first: string): (l: Layout)
    ensures l.sep == Comma <==> ',' in first
    ensures l.sep == Comma || l.sep == SpaceRun
    ensures l.start <= 1
    ensures l.start == 1 <==> HasHeaderName(Headers(first, l.sep))
    ensures l.start == 0 ==> l.col == 0
    ensures l.start == 1 ==> l.col < |Headers(first, l.sep)| && IsHeaderName(Headers(first, l.sep)[l.col])
    ensures forall k :: 0 <= k < l.col && l.start == 1 ==> !IsHeaderName(Headers(first, l.sep)[k])
  {
    var sep := if ',' in first then Comma else SpaceRun;
    var headers := Headers(first, sep);
    if HasHeaderName(headers) then Layout(sep, 1, FindIndex(headers)) else Layout(sep, 0, 0)
  }

  /** `Number(parts[closeIdx])` for one line; a missing cell is `undefined`, which
      converts to NaN. */
  function CellNumber(line: string, l: Layout): Option<Num> {
    var parts := Split(line, l.sep);
    if l.col < |parts| then ToNumber(parts[l.col]) else None
  }

  /** The converted value cell of every data line, in line order. */
  function DataCells(lines: seq<string>, l: Layout): seq<Option<Num>>
    requires l.start <= |lines|
  {
    seq(|lines| - l.start, i requires 0 <= i < |lines| - l.start => CellNumber(lines[l.start + i], l))
  }

  /** The prices `parseCSV(text)` returns. */
  function CsvValues(text: string): (values: seq<Num>)
    ensures |values| <= |Lines(text)| - DetectLayout(Lines(text)[0]).start
  {
    var lines := Lines(text);
    Present(DataCells(lines, DetectLayout(lines[0])))
  }

  /** `parseCSV` as its body runs it. */
  method ParseCsv(text: string) returns (values: seq<Num>)
    ensures values == CsvValues(text)
  {
    var lines := Split(Trim(text), LineBreak);
    if |lines| == 0 {
      assert false;
      return [];
    }
    var sep := if ',' in lines[0] then Comma else SpaceRun;
    var headers := Headers(lines[0], sep);
    var start := 0;
    var closeIdx := 0;
    if HasHeaderName(headers) {
      closeIdx := FindIndex(headers);
      start := 1;
    }
    assert Layout(sep, start, closeIdx) == DetectLayout(lines[0]);
    values := CollectValues(lines, Layout(sep, start, closeIdx));
  }

  /** The loop of `parseCSV`: every data line cut with the same separator, its value
      cell converted, and the values that are not NaN pushed in line order. */
  method CollectValues(lines: seq<string>, l: Layout) returns (values: seq<Num>)
    requires l.start <= |lines|
    ensures values == Present(DataCells(lines, l))
  {
    values := [];
    for i := l.start to |lines|
      invariant values == Present(DataCells(lines, l)[..i - l.start])
    {
      var v := CellNumber(lines[i], l);
      CollectStep(lines, l, i);
      DataCellAt(lines, l, i);
      if v.Some? {
        values := values + [v.value];
      }
    }
    PresentWhole(DataCells(lines, l));
  }

  /** The entry of a data line is the converted value cell of that line. */
  lemma DataCellAt(lines: seq<string>, l: Layout, i: nat)
    requires l.start <= i < |lines|
    ensures DataCells(lines, l)[i - l.start] == CellNumber(lines[i], l)
  {
  }

  /** One step of the loop: data line `i` adds its value cell when it is not NaN. */
  lemma CollectStep(lines: seq<string>, l: Layout, i: nat)
    requires l.start <= i < |lines|
    ensures Present(DataCells(lines, l)[..i + 1 - l.start]) ==
      Present(DataCells(lines, l)[..i - l.start]) +
      (if DataCells(lines, l)[i - l.start].Some? then [DataCells(lines, l)[i - l.start].value] else [])
  {
    PresentSnoc(DataCells(lines, l), i - l.start);
  }

  // ---- properties ----

  /** The value cell of data line `i` is present and converts to `v`. */
  predicate ValueOnLine(lines: seq<string>, l: Layout, i: int, v: Num) {
    l.start <= i < |lines| && CellNumber(lines[i], l) == Some(v)
  }

  /** A price is returned exactly when some data line has it in its value column:
      lines too short to have the column and cells that are NaN contribute nothing. */
  lemma CsvMembership(text: string, v: Num)
    ensures v in CsvValues(text) <==>
      exists i :: ValueOnLine(Lines(text), DetectLayout(Lines(text)[0]), i, v)
  {
    var lines := Lines(text);
    DataMembership(lines, DetectLayout(lines[0]), v);
  }

  lemma DataMembership(lines: seq<string>, l: Layout, v: Num)
    requires l.start <= |lines|
    ensures v in Present(DataCells(lines, l)) <==> exists i :: ValueOnLine(lines, l, i, v)
  {
    PresentMembership(DataCells(lines, l), v);
    if v in Present(DataCells(lines, l)) {
      KeptValueOnLine(lines, l, v);
    }
    if exists i :: ValueOnLine(lines, l, i, v) {
      var i :| ValueOnLine(lines, l, i, v);
      LineValueKept(lines, l, i, v);
    }
  }

  lemma KeptValueOnLine(lines: seq<string>, l: Layout, v: Num)
    requires l.start <= |lines| && Some(v) in DataCells(lines, l)
    ensures exists i :: ValueOnLine(lines, l, i, v)
  {
    var cells := DataCells(lines, l);
    var j :| 0 <= j < |cells| && cells[j] == Some(v);
    DataCellAt(lines, l, l.start + j);
    assert ValueOnLine(lines, l, l.start + j, v);
  }

  lemma LineValueKept(lines: seq<string>, l: Layout, i: int, v: Num)
    requires ValueOnLine(lines, l, i, v)
    ensures Some(v) in DataCells(lines, l)
  {
    DataCellAt(lines, l, i);
  }

  /** Empty (or all white-space) text is one empty line, with no header, whose empty
      value cell converts to 0: the result is `[0]`, and the guard for zero lines never
      applies. */
  lemma BlankCsv(text: string)
    requires forall i :: 0 <= i < |text| ==> IsSpace(text[i])
    ensures CsvValues(text) == [Zero]
  {
    assert Trim(text) == [];
    var lines := Lines(text);
    assert lines == [""];
    var l := DetectLayout("");
    assert l.sep == SpaceRun;
    assert Split("", SpaceRun) == [""];
    assert Headers("", SpaceRun) == [Lower("")];
    assert Lower("") == "";
    assert l == Layout(SpaceRun, 0, 0);
    assert CellNumber("", l) == ToNumber("");
    BlankIsZero("");
    assert DataCells(lines, l) == [Some(Zero)];
  }

  /** Cells cut at white space hold no white space, so with no comma on the first line
      the header "adj close" is never recognised. */
  lemma AdjCloseNeedsComma(first: string, k: nat)
    requires ',' !in first
    requires k < |Headers(first, SpaceRun)|
    ensures Headers(first, SpaceRun)[k] != "adj close"
  {
    SplitRunPieces(first, 0, SpaceRun);
    var cell := Split(first, SpaceRun)[k];
    if |cell| > 3 {
      assert !IsSpace(cell[3]);
      assert Lower(cell)[3] == LowerChar(cell[3]);
    }
    assert "adj close"[3] == ' ';
  }

  /** A run of decimal digits converts to its value. */
  lemma ReadDigits(ds: string)
    requires ds != [] && AllDigitsIn(ds, 10)
    ensures ToNumber(ds) == Some(Finite(DigitsValue(ds, 10), 0))
  {
    DecimalLiteralDigits(ds);
    LiteralValueNoExponent(ds, []);
    assert ds + [] == ds;
    ReadPlain(ds, DigitsValue(ds, 10), 0);
  }

  /** A "Date,Close" header line: comma separated, data from the second line on, and
      the value column is the second. */
  lemma DateCloseHeader()
    ensures DetectLayout("Date,Close") == Layout(Comma, 1, 1)
  {
    assert "Date,Close"[4] == ',';
    DateCloseCells();
    var headers := Headers("Date,Close", Comma);
    assert headers == [Lower("Date"), Lower("Close")];
    SecondHeaderName(headers);
  }

  lemma DateCloseCells()
    ensures Split("Date,Close", Comma) == ["Date", "Close"]
  {
    assert "Date,Close" == "Date" + [','] + "Close";
    NoSeparator("Close", Comma);
    SplitAt("Date", "Close", Comma);
  }

  lemma SecondHeaderName(headers: seq<string>)
    requires headers == [Lower("Date"), Lower("Close")]
    ensures HasHeaderName(headers) && FindIndex(headers) == 1
  {
    assert Lower("Close") == "close";
    assert |Lower("Date")| == 4;
    assert FindIndex(headers[1..]) == 0;
  }

  /** The example file with a "Date,Close" header and two data lines gives the two
      closing prices; the dates, in column 0, are never read. */
  lemma DateCloseValues()
    ensures CsvValues("Date,Close\n2024-01-01,10\n2024-01-02,11") == [Finite(10, 0), Finite(11, 0)]
  {
    var text := "Date,Close\n2024-01-01,10\n2024-01-02,11";
    DateCloseLines(text);
    var lines := Lines(text);
    assert lines[0] == "Date,Close";
    DateCloseHeader();
    var l := DetectLayout(lines[0]);
    DateCloseRows(lines, l);
    TwoDataLines(lines, l, Finite(10, 0), Finite(11, 0));
  }

  lemma DateCloseLines(text: string)
    requires text == "Date,Close\n2024-01-01,10\n2024-01-02,11"
    ensures Lines(text) == ["Date,Close", "2024-01-01,10", "2024-01-02,11"]
  {
    var a, b, c := "Date,Close", "2024-01-01,10", "2024-01-02,11";
    assert text == a + ['\n'] + (b + ['\n'] + c);
    assert text[0] == 'D' && text[|text| - 1] == '1';
    TrimUnchanged(text);
    NoBreaks(a);
    NoBreaks(b);
    NoBreaks(c);
    ThreeLines(a, b, c);
  }

  lemma NoBreaks(line: string)
    requires line == "Date,Close" || line == "2024-01-01,10" || line == "2024-01-02,11"
    ensures forall i :: 0 <= i < |line| ==> line[i] != '\n' && line[i] != '\r'
  {
  }

  /** Three lines without line breaks, joined by "\n", split back into those lines. */
  lemma ThreeLines(a: string, b: string, c: string)
    requires forall i :: 0 <= i < |a| ==> a[i] != '\n' && a[i] != '\r'
    requires forall i :: 0 <= i < |b| ==> b[i] != '\n' && b[i] != '\r'
    requires forall i :: 0 <= i < |c| ==> c[i] != '\n' && c[i] != '\r'
    ensures Split(a + ['\n'] + (b + ['\n'] + c), LineBreak) == [a, b, c]
  {
    NoSeparator(c, LineBreak);
    SplitAt(b, c, LineBreak);
    SplitAt(a, b + ['\n'] + c, LineBreak);
  }

  lemma DateCloseRows(lines: seq<string>, l: Layout)
    requires lines == ["Date,Close", "2024-01-01,10", "2024-01-02,11"] && l == Layout(Comma, 1, 1)
    ensures CellNumber(lines[1], l) == Some(Finite(10, 0))
    ensures CellNumber(lines[2], l) == Some(Finite(11, 0))
  {
    DatedRow(lines[1], "2024-01-01", "10");
    ReadTwoDigits("10");
    CloseCell(lines[1], "2024-01-01", "10", l);
    DatedRow(lines[2], "2024-01-02", "11");
    ReadTwoDigits("11");
    CloseCell(lines[2], "2024-01-02", "11", l);
  }

  lemma DatedRow(line: string, date: string, close: string)
    requires (line, date, close) == ("2024-01-01,10", "2024-01-01", "10")
          || (line, date, close) == ("2024-01-02,11", "2024-01-02", "11")
    ensures line == date + [','] + close && forall i :: 0 <= i < |date| ==> date[i] != ','
  {
  }

  /** Column 1 of "date,close" is `close`, whatever it holds without a comma. */
  lemma CloseCell(line: string, date: string, close: string, l: Layout)
    requires l == Layout(Comma, 1, 1) && line == date + [','] + close
    requires forall i :: 0 <= i < |date| ==> date[i] != ','
    requires forall i :: 0 <= i < |close| ==> close[i] != ','
    ensures CellNumber(line, l) == ToNumber(close)
  {
    NoSeparator(close, Comma);
    SplitAt(date, close, Comma);
  }

  /** `Number` of two decimal digits. */
  lemma ReadTwoDigits(t: string)
    requires |t| == 2 && IsDigitIn(t[0], 10) && IsDigitIn(t[1], 10)
    ensures forall i :: 0 <= i < |t| ==> t[i] != ','
    ensures ToNumber(t) == Some(Finite(10 * DigitValue(t[0]) + DigitValue(t[1]), 0))
  {
    TwoDigits(t);
    ReadDigits(t);
  }

  /** Two decimal digits are a digit run with their decimal value. */
  lemma TwoDigits(t: string)
    requires |t| == 2 && IsDigitIn(t[0], 10) && IsDigitIn(t[1], 10)
    ensures t != [] && AllDigitsIn(t, 10)
    ensures DigitsValue(t, 10) == 10 * DigitValue(t[0]) + DigitValue(t[1])
  {
    assert t[..1] == [t[0]];
    assert [t[0]][..0] == [];
    assert DigitsValue([t[0]], 10) == DigitValue(t[0]);
    assert DigitsValue(t, 10) == 10 * DigitsValue(t[..1], 10) + DigitValue(t[1]);
  }

  /** A header line and two data lines that both convert give both values. */
  lemma TwoDataLines(lines: seq<string>, l: Layout, x: Num, y: Num)
    requires |lines| == 3 && l.start == 1
    requires CellNumber(lines[1], l) == Some(x) && CellNumber(lines[2], l) == Some(y)
    ensures Present(DataCells(lines, l)) == [x, y]
  {
    DataCellAt(lines, l, 1);
    DataCellAt(lines, l, 2);
    PresentPair(DataCells(lines, l), x, y);
  }
}
