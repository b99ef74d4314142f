/**
  `parse_exchange_data`: turning the rows of Yahoo's history table into exchange-rate
  records. The HTML parser and the selector that find the rows and their cells, and Python's
  `float()`, are parameters (`Decoders`); the rest of the row rules is modelled.
*/
module Parser {
  import opened Wrappers
  import opened Text
  import opened Dates
  import opened ExchangeRateModel

  /** The foreign code the parser leans on: BeautifulSoup's `find_all('tr', class_='yf-j5d1ld')`
      followed by the `.text` of each row's `td` cells, and Python's `float()` (`None` where it
      raises `ValueError`). */
  datatype Decoders = Decoders(rowsOf: string -> seq<seq<string>>, toFloat: string -> Option<real>)

  /** Cell texts that mark a missing price. */
  const Placeholders: set<string> := {"-", "", "null", "None"}

  // ---------------------------------------------------------------------------
  // int()

  predicate IsDigitOrUnderscore(c: char) {
    IsDigit(c) || c == '_'
  }

  /** The digits of an integer literal as `int()` accepts them: one or more digits, with single
      underscores allowed between two digits. */
  predicate DigitGroups(b: string) {
    && b != [] && IsDigit(b[0]) && IsDigit(b[|b| - 1])
    && (forall i :: 0 <= i < |b| ==> IsDigitOrUnderscore(b[i]))
    && (forall i :: 0 < i < |b| ==> !(b[i - 1] == '_' && b[i] == '_'))
  }

  /** `s` without its underscores. */
  function DropUnderscores(s: string): (r: string)
    ensures '_' !in r && |r| <= |s|
    ensures (forall i :: 0 <= i < |s| ==> IsDigitOrUnderscore(s[i])) ==> AllDigits(r)
    ensures '_' !in s ==> r == s
  {
    if s == [] then []
    else (if s[0] == '_' then [] else [s[0]]) + DropUnderscores(s[1..])
  }

  /** Dropping underscores works character by character. */
  lemma DropUnderscoresCons(c: char, rest: string)
    ensures DropUnderscores([c] + rest) == (if c == '_' then [] else [c]) + DropUnderscores(rest)
  {
    assert ([c] + rest)[1..] == rest;
  }

  /** Dropping the underscores of two texts one after the other. */
  lemma {:induction false} DropUnderscoresAppend(a: string, b: string)
    ensures DropUnderscores(a + b) == DropUnderscores(a) + DropUnderscores(b)
  {
    if a != [] {
      assert a + b == [a[0]] + (a[1..] + b);
      assert a == [a[0]] + a[1..];
      DropUnderscoresCons(a[0], a[1..] + b);
      DropUnderscoresCons(a[0], a[1..]);
      DropUnderscoresAppend(a[1..], b);
    } else {
      assert a + b == b;
    }
  }

  /** The white space `int()` skips around a literal: what `str.isspace()` accepts, except the
      four separators U+001C to U+001F, which `int()` does not skip (below U+007F it only
      skips the ASCII spaces `\t \n \v \f \r` and the blank). */
  predicate IntSpace(c: char) {
    IsSpace(c) && !('\U{1C}' <= c <= '\U{1F}')
  }

  function IntTrimStart(s: string): (r: string)
    ensures |r| <= |s| && r == s[|s| - |r|..]
    ensures forall i :: 0 <= i < |s| - |r| ==> IntSpace(s[i])
    ensures r != [] ==> !IntSpace(r[0])
  {
    if s != [] && IntSpace(s[0]) then IntTrimStart(s[1..]) else s
  }

  function IntTrimEnd(s: string): (r: string)
    ensures |r| <= |s| && r == s[..|r|]
    ensures forall i :: |r| <= i < |s| ==> IntSpace(s[i])
    ensures r != [] ==> !IntSpace(r[|r| - 1])
  {
    if s != [] && IntSpace(s[|s| - 1]) then IntTrimEnd(s[..|s| - 1]) else s
  }

  /** The text `int()` reads: `s` without the white space it skips at either end. */
  function IntStrip(s: string): (r: string)
    ensures |r| <= |s|
    ensures r != [] ==> !IntSpace(r[0]) && !IntSpace(r[|r| - 1])
  {
    IntTrimEnd(IntTrimStart(s))
  }

  /** The stripped text is a slice of `s` with only skipped white space around it. */
  lemma IntStripSlice(s: string) returns (lo: nat, hi: nat)
    ensures lo <= hi <= |s| && IntStrip(s) == s[lo..hi]
    ensures forall i :: 0 <= i < lo ==> IntSpace(s[i])
    ensures forall i :: hi <= i < |s| ==> IntSpace(s[i])
  {
    var t := IntTrimStart(s);
    lo := |s| - |t|;
    hi := lo + |IntTrimEnd(t)|;
    assert IntStrip(s) == t[..hi - lo];
    forall i | hi <= i < |s| ensures IntSpace(s[i]) {
      assert s[i] == t[i - lo];
    }
  }

  lemma IntStripUnpadded(s: string)
    requires s != [] ==> !IntSpace(s[0]) && !IntSpace(s[|s| - 1])
    ensures IntStrip(s) == s
  {
  }

  /** Python's `int(s)` in base 10 for text whose digits are ASCII: skipped white space around
      an optional sign and digit groups; `None` where it raises `ValueError`. */
  function PyInt(s: string): (r: Option<int>)
    ensures r.Some? ==> IntStrip(s) != []
  {
    Literal(IntStrip(s))
  }

  /** A literal without its sign, if it has one. */
  function Unsigned(t: string): (body: string)
    ensures t != [] && (t[0] == '-' || t[0] == '+') ==> body == t[1..]
    ensures !(t != [] && (t[0] == '-' || t[0] == '+')) ==> body == t
  {
    if t != [] && (t[0] == '-' || t[0] == '+') then t[1..] else t
  }

  /** The value of a stripped integer literal. */
  function Literal(t: string): (r: Option<int>)
    ensures r.Some? ==> t != [] && DigitGroups(Unsigned(t))
  {
    if t == [] || !DigitGroups(Unsigned(t)) then None
    else
      var v: int := ValueOf(DropUnderscores(Unsigned(t)));
      Some(if t[0] == '-' then -v else v)
  }

  /** A run of digits is a valid literal body with no white space to strip. */
  lemma DigitStringFacts(d: string)
    requires d != [] && AllDigits(d)
    ensures IntStrip(d) == d && DigitGroups(d) && DropUnderscores(d) == d
  {
    assert IsDigit(d[0]) && IsDigit(d[|d| - 1]);
    IntStripUnpadded(d);
    assert forall i :: 0 <= i < |d| ==> IsDigitOrUnderscore(d[i]);
    forall i | 0 <= i < |d| ensures d[i] != '_' {
      assert IsDigit(d[i]);
    }
  }

  /** `int()` of an unsigned run of digits is its value. */
  lemma PyIntUnsigned(d: string)
    requires d != [] && AllDigits(d)
    ensures PyInt(d) == Some(ValueOf(d) as int)
  {
    DigitStringFacts(d);
    assert !(d[0] == '-' || d[0] == '+') by {
      assert IsDigit(d[0]);
    }
  }

  /** `int()` of a `-` followed by a run of digits is minus its value. */
  lemma PyIntNegative(d: string)
    requires d != [] && AllDigits(d)
    ensures PyInt("-" + d) == Some(-(ValueOf(d) as int))
  {
    NegativeLiteralUnpadded(d);
    NegativeLiteral(d);
  }

  lemma NegativeLiteralUnpadded(d: string)
    requires d != [] && AllDigits(d)
    ensures IntStrip("-" + d) == "-" + d
  {
    var t := "-" + d;
    assert t[|t| - 1] == d[|d| - 1] && IsDigit(d[|d| - 1]);
    IntStripUnpadded(t);
  }

  lemma NegativeLiteral(d: string)
    requires d != [] && AllDigits(d)
    ensures Literal("-" + d) == Some(-(ValueOf(d) as int))
  {
    DigitStringFacts(d);
    var t := "-" + d;
    assert t[0] == '-' && t[1..] == d;
  }

  /** Single underscores between digits are ignored: "1_000" reads as 1000. */
  lemma PyIntUnderscore(a: string, b: string)
    requires a != [] && AllDigits(a) && b != [] && AllDigits(b)
    ensures PyInt(a + "_" + b) == Some(ValueOf(a + b) as int)
  {
    var t := a + "_" + b;
    assert t[0] == a[0] && t[|t| - 1] == b[|b| - 1];
    IntStripUnpadded(t);
    UnderscoredGroups(a, b);
    UnderscoreDropped(a, b);
  }

  lemma UnderscoredGroups(a: string, b: string)
    requires a != [] && AllDigits(a) && b != [] && AllDigits(b)
    ensures DigitGroups(a + "_" + b)
  {
    var t := a + "_" + b;
    forall i | 0 <= i < |t| ensures IsDigitOrUnderscore(t[i]) {
      if i < |a| { assert t[i] == a[i]; } else if i > |a| { assert t[i] == b[i - |a| - 1]; }
    }
    forall i | 0 < i < |t| ensures !(t[i - 1] == '_' && t[i] == '_') {
      if i <= |a| { assert t[i - 1] == a[i - 1]; } else { assert t[i] == b[i - |a| - 1]; }
    }
  }

  lemma UnderscoreDropped(a: string, b: string)
    requires AllDigits(a) && AllDigits(b)
    ensures DropUnderscores(a + "_" + b) == a + b
  {
    var x := ['_'] + b;
    DropUnderscoresCons('_', b);
    DigitsKept(b);
    assert DropUnderscores(x) == b;
    DigitsKept(a);
    DropUnderscoresAppend(a, x);
    assert DropUnderscores(a + x) == a + b;
    Regroup(a, ['_'], b);
  }


  /** A run of digits has no underscore to drop. */
  lemma DigitsKept(d: string)
    requires AllDigits(d)
    ensures DropUnderscores(d) == d
  {
    forall i | 0 <= i < |d| ensures d[i] != '_' { assert IsDigit(d[i]); }
  }

  /** What `int()` rejects: any character other than a digit, an underscore, a sign and
      skipped white space, so "1.5" fails. */
  lemma PyIntAlphabet(s: string)
    ensures PyInt(s).Some? ==> forall i :: 0 <= i < |s| ==>
              IsDigitOrUnderscore(s[i]) || s[i] == '+' || s[i] == '-' || IntSpace(s[i])
  {
    var lo, hi := IntStripSlice(s);
    var t := IntStrip(s);
    if PyInt(s).Some? {
      LiteralRejects(t);
      forall i | 0 <= i < |s| ensures IsDigitOrUnderscore(s[i]) || s[i] == '+' || s[i] == '-' || IntSpace(s[i]) {
        if lo <= i < hi {
          assert s[i] == t[i - lo];
        }
      }
    }
  }

  /** `int()` rejects two underscores in a row, so "1__0" fails. */
  lemma PyIntNoDoubleUnderscore(s: string)
    ensures PyInt(s).Some? ==> forall i :: 0 < i < |s| ==> !(s[i - 1] == '_' && s[i] == '_')
  {
    var lo, hi := IntStripSlice(s);
    var t := IntStrip(s);
    if PyInt(s).Some? {
      LiteralRejects(t);
      forall i | 0 < i < |s| ensures !(s[i - 1] == '_' && s[i] == '_') {
        if lo <= i - 1 && i < hi {
          assert s[i - 1] == t[i - 1 - lo] && s[i] == t[i - lo];
        }
      }
    }
  }

  /** The characters of a literal `int()` accepts once stripped. */
  lemma LiteralRejects(t: string)
    requires t != [] && DigitGroups(Unsigned(t))
    ensures forall i :: 0 <= i < |t| ==> IsDigitOrUnderscore(t[i]) || t[i] == '+' || t[i] == '-'
    ensures forall i :: 0 < i < |t| ==> !(t[i - 1] == '_' && t[i] == '_')
  {
    var k := |t| - |Unsigned(t)|;
    forall i | k <= i < |t| ensures t[i] == Unsigned(t)[i - k] { }
  }


  /** `int()` reads back the zero-padded decimal rendering of any natural number. */
  lemma PyIntDigits(n: nat, w: nat)
    requires 0 < w && n < Pow10(w)
    ensures PyInt(Digits(n, w)) == Some(n)
  {
    ValueOfDigits(n, w);
    PyIntUnsigned(Digits(n, w));
  }

  /** Commas are gone before `int()` sees the volume: "1,234" reads as 1234. */
  lemma VolumeWithThousandsSeparator()
    ensures PyInt(RemoveCommas("1,234")) == Some(1234)
  {
    CommaRemoved();
    FourDigitsRead();
    PyIntUnsigned("1234");
  }

  lemma CommaRemoved()
    ensures RemoveCommas("1,234") == "1234"
  {
    assert "1,234" == ['1'] + ([','] + "234");
    RemoveCommasCons('1', [','] + "234");
    RemoveCommasCons(',', "234");
    RemoveCommasNoComma("234");
  }

  lemma FourDigitsRead()
    ensures AllDigits("1234") && ValueOf("1234") == 1234
  {
    assert "1234"[..3] == "123" && "123"[..2] == "12" && "12"[..1] == "1";
  }

  // ---------------------------------------------------------------------------
  // One row

  /** Some cell among 1..5 (open, high, low, close, adjusted close) strips to a placeholder. */
  predicate HasPlaceholder(cells: seq<string>)
    requires |cells| >= 6
  {
    exists i :: 1 <= i < 6 && Strip(cells[i]) in Placeholders
  }

  /** The volume column: 0 for a cell that strips to "-", otherwise `int()` of the cell
      without its commas. */
  function Volume(cell: string): (v: Option<int>)
    ensures Strip(cell) == "-" ==> v == Some(0)
  {
    if Strip(cell) == "-" then Some(0) else PyInt(RemoveCommas(cell))
  }

  /** The date column: `strptime(cell.strip(), '%b %d, %Y')`; `None` for a blank cell and for
      text the format does not accept. */
  function RowDate(cell: string): (d: Option<Date>)
    ensures Strip(cell) == [] ==> d.None?
    ensures d.Some? ==> ValidDate(d.value) && ParseYahooDate(Strip(cell)) == d
  {
    var text := Strip(cell);
    if text == [] then None else ParseYahooDate(text)
  }

  /** The five prices of a row (open, high, low, close, adjusted close). */
  datatype Prices = Prices(open: real, high: real, low: real, close: real, adjClose: real)

  /** `float()` of cells 1..5 without their commas; `None` when one of them raises. */
  function RowPrices(cells: seq<string>, toFloat: string -> Option<real>): (p: Option<Prices>)
    requires |cells| >= 6
    ensures p.Some? <==> forall i :: 1 <= i < 6 ==> toFloat(RemoveCommas(cells[i])).Some?
    ensures p.Some? ==>
      && Some(p.value.open) == toFloat(RemoveCommas(cells[1]))
      && Some(p.value.high) == toFloat(RemoveCommas(cells[2]))
      && Some(p.value.low) == toFloat(RemoveCommas(cells[3]))
      && Some(p.value.close) == toFloat(RemoveCommas(cells[4]))
      && Some(p.value.adjClose) == toFloat(RemoveCommas(cells[5]))
  {
    var open, high, low := toFloat(RemoveCommas(cells[1])), toFloat(RemoveCommas(cells[2])), toFloat(RemoveCommas(cells[3]));
    var close, adj := toFloat(RemoveCommas(cells[4])), toFloat(RemoveCommas(cells[5]));
    if open.Some? && high.Some? && low.Some? && close.Some? && adj.Some? then
      Some(Prices(open.value, high.value, low.value, close.value, adj.value))
    else
      assert !toFloat(RemoveCommas(cells[1])).Some? || !toFloat(RemoveCommas(cells[2])).Some?
          || !toFloat(RemoveCommas(cells[3])).Some? || !toFloat(RemoveCommas(cells[4])).Some?
          || !toFloat(RemoveCommas(cells[5])).Some?;
      None
  }

  /** One pass of the row loop: the record built from a row, or `None` when the loop moves on
      to the next row without appending. A row is dropped when it has fewer than seven cells,
      a blank or unreadable date, a placeholder among its prices, or a price or volume that
      raises `ValueError`; the record carries the requested pair and a `YYYY-MM-DD` date. */
  function ParseRow(cells: seq<string>, pair: string, toFloat: string -> Option<real>): (r: Option<ExchangeRate>)
    ensures r.Some? <==>
      && |cells| >= 7 && RowDate(cells[0]).Some? && !HasPlaceholder(cells)
      && RowPrices(cells, toFloat).Some? && Volume(cells[6]).Some?
    ensures r.Some? ==>
      && r.value.currencyPair == pair && IsIsoDate(r.value.date)
      && r.value.date == IsoDate(RowDate(cells[0]).value)
      && Some(r.value.openRate) == toFloat(RemoveCommas(cells[1]))
      && Some(r.value.highRate) == toFloat(RemoveCommas(cells[2]))
      && Some(r.value.lowRate) == toFloat(RemoveCommas(cells[3]))
      && Some(r.value.closeRate) == toFloat(RemoveCommas(cells[4]))
      && Some(r.value.adjClose) == toFloat(RemoveCommas(cells[5]))
      && Some(r.value.volume) == Volume(cells[6])
  {
    if |cells| < 7 then None
    else
      var date := RowDate(cells[0]);
      if date.None? || HasPlaceholder(cells) then None
      else
        var prices := RowPrices(cells, toFloat);
        var volume := Volume(cells[6]);
        if prices.None? || volume.None? then None
        else
          var p := prices.value;
          IsoDateRoundTrip(date.value);
          Some(ExchangeRate(pair, IsoDate(date.value), p.open, p.high, p.low, p.close, p.adjClose, volume.value))
  }

  /** A blank date cell and an unreadable one are treated alike: both skip the row, because
      the date is `strptime` of the stripped text and `strptime` rejects the empty text too. */
  lemma BlankDateUnreadable(cell: string)
    ensures RowDate(cell) == ParseYahooDate(Strip(cell))
    ensures Strip(cell) == [] ==> ParseYahooDate(Strip(cell)).None?
  {
  }

  /** A price cell holding a placeholder drops the row, whatever the other cells hold. */
  lemma PlaceholderDropsRow(cells: seq<string>, pair: string, toFloat: string -> Option<real>, i: int)
    requires |cells| >= 7 && 1 <= i < 6 && Strip(cells[i]) in Placeholders
    ensures ParseRow(cells, pair, toFloat) == None
  {
  }

  /** A volume of "-" is read as 0 and does not drop the row. */
  lemma DashVolumeIsZero(cells: seq<string>, pair: string, toFloat: string -> Option<real>)
    requires |cells| >= 7 && Strip(cells[6]) == "-"
    requires ParseRow(cells, pair, toFloat).Some?
    ensures ParseRow(cells, pair, toFloat).value.volume == 0
  {
  }

  // ---------------------------------------------------------------------------
  // All rows

  /** The values present in `xs`, in order: what appending only the successful rows keeps. */
  function Present(xs: seq<Option<ExchangeRate>>): (out: seq<ExchangeRate>)
    ensures |out| <= |xs|
  {
    if xs == [] then []
    else Present(xs[..|xs| - 1]) + (if xs[|xs| - 1].Some? then [xs[|xs| - 1].value] else [])
  }

  /** `Present` of two runs is the two `Present`s one after the other. */
  lemma {:induction false} PresentAppend(a: seq<Option<ExchangeRate>>, b: seq<Option<ExchangeRate>>)
    ensures Present(a + b) == Present(a) + Present(b)
    decreases |b|
  {
    if b == [] {
      assert a + b == a;
    } else {
      var b' := b[..|b| - 1];
      assert (a + b)[..|a + b| - 1] == a + b';
      assert (a + b)[|a + b| - 1] == b[|b| - 1];
      PresentAppend(a, b');
    }
  }

  /** A value is kept exactly when it is present somewhere in `xs`. */
  lemma {:induction false} PresentExact(xs: seq<Option<ExchangeRate>>)
    ensures forall v :: v in Present(xs) <==> Some(v) in xs
  {
    if xs != [] {
      var init := xs[..|xs| - 1];
      PresentExact(init);
      assert xs == init + [xs[|xs| - 1]];
    }
  }

  /** What each row yields, in row order. */
  function RowResults(rows: seq<seq<string>>, pair: string, toFloat: string -> Option<real>): (r: seq<Option<ExchangeRate>>)
    ensures |r| == |rows|
  {
    seq(|rows|, i requires 0 <= i < |rows| => ParseRow(rows[i], pair, toFloat))
  }

  /** The records the row loop appends to `data`. */
  function ParsedRows(rows: seq<seq<string>>, pair: string, toFloat: string -> Option<real>): (out: seq<ExchangeRate>)
    ensures |out| <= |rows|
  {
    Present(RowResults(rows, pair, toFloat))
  }

  /** Parsing two runs of rows one after the other gives their records one after the other:
      surviving rows keep their order. */
  lemma ParsedRowsAppend(a: seq<seq<string>>, b: seq<seq<string>>, pair: string, toFloat: string -> Option<real>)
    ensures ParsedRows(a + b, pair, toFloat) == ParsedRows(a, pair, toFloat) + ParsedRows(b, pair, toFloat)
  {
    RowResultsAppend(a, b, pair, toFloat);
    PresentAppend(RowResults(a, pair, toFloat), RowResults(b, pair, toFloat));
  }

  lemma RowResultsAppend(a: seq<seq<string>>, b: seq<seq<string>>, pair: string, toFloat: string -> Option<real>)
    ensures RowResults(a + b, pair, toFloat) == RowResults(a, pair, toFloat) + RowResults(b, pair, toFloat)
  {
    var whole, ra, rb := RowResults(a + b, pair, toFloat), RowResults(a, pair, toFloat), RowResults(b, pair, toFloat);
    forall i | 0 <= i < |whole| ensures whole[i] == (ra + rb)[i] {
      if i < |a| {
        assert (a + b)[i] == a[i];
      } else {
        assert (a + b)[i] == b[i - |a|];
      }
    }
  }

  /** Every record comes from a row that yields it and carries the requested pair and a
      `YYYY-MM-DD` date; every row that yields a record contributes it. */
  lemma ParsedRowsExact(rows: seq<seq<string>>, pair: string, toFloat: string -> Option<real>)
    ensures forall rec :: rec in ParsedRows(rows, pair, toFloat) ==>
      rec.currencyPair == pair && IsIsoDate(rec.date) && exists i :: 0 <= i < |rows| && ParseRow(rows[i], pair, toFloat) == Some(rec)
    ensures forall i :: 0 <= i < |rows| && ParseRow(rows[i], pair, toFloat).Some? ==>
      ParseRow(rows[i], pair, toFloat).value in ParsedRows(rows, pair, toFloat)
  {
    var xs := RowResults(rows, pair, toFloat);
    PresentExact(xs);
    forall rec | rec in ParsedRows(rows, pair, toFloat)
      ensures rec.currencyPair == pair && IsIsoDate(rec.date) && exists i :: 0 <= i < |rows| && ParseRow(rows[i], pair, toFloat) == Some(rec)
    {
      var i :| 0 <= i < |xs| && xs[i] == Some(rec);
    }
    forall i | 0 <= i < |rows| && ParseRow(rows[i], pair, toFloat).Some?
      ensures ParseRow(rows[i], pair, toFloat).value in ParsedRows(rows, pair, toFloat)
    {
      assert xs[i] == ParseRow(rows[i], pair, toFloat);
    }
  }

  /** `parse_exchange_data` as a function: `None` for empty content, for content without rows
      and when no row yields a record; otherwise the records. */
  function ParsedTable(content: string, pair: string, dec: Decoders): (r: Option<seq<ExchangeRate>>)
    ensures r.Some? ==> r.value != [] && content != []
  {
    if content == [] then None
    else
      var rows := dec.rowsOf(content);
      if rows == [] then None
      else
        var data := ParsedRows(rows, pair, dec.toFloat);
        if data == [] then None else Some(data)
  }

  /** Every record of a parse carries the requested pair and a `YYYY-MM-DD` date. */
  lemma ParsedTableRecords(content: string, pair: string, dec: Decoders)
    requires ParsedTable(content, pair, dec).Some?
    ensures forall i :: 0 <= i < |ParsedTable(content, pair, dec).value| ==>
      ParsedTable(content, pair, dec).value[i].currencyPair == pair && IsIsoDate(ParsedTable(content, pair, dec).value[i].date)
  {
    var rows := dec.rowsOf(content);
    ParsedRowsExact(rows, pair, dec.toFloat);
    assert ParsedTable(content, pair, dec).value == ParsedRows(rows, pair, dec.toFloat);
  }

  /** No row yields a record. */
  predicate NoRecord(rows: seq<seq<string>>, pair: string, toFloat: string -> Option<real>) {
    forall i :: 0 <= i < |rows| ==> ParseRow(rows[i], pair, toFloat).None?
  }

  /** The records are empty exactly when no row yields one. */
  lemma {:induction false} ParsedRowsEmpty(rows: seq<seq<string>>, pair: string, toFloat: string -> Option<real>)
    ensures ParsedRows(rows, pair, toFloat) == [] <==> NoRecord(rows, pair, toFloat)
  {
    var xs := RowResults(rows, pair, toFloat);
    PresentExact(xs);
    if Present(xs) == [] {
      forall i | 0 <= i < |rows| ensures ParseRow(rows[i], pair, toFloat).None? {
        assert xs[i] == ParseRow(rows[i], pair, toFloat);
        assert xs[i] in xs;
      }
    } else {
      var v := Present(xs)[0];
      assert Some(v) in xs;
    }
  }

  /** The three ways of failing are one: the result is `None` exactly when the content is
      empty or no row of it yields a record. */
  lemma ParsedTableNone(content: string, pair: string, dec: Decoders)
    ensures ParsedTable(content, pair, dec).None? <==> content == [] || NoRecord(dec.rowsOf(content), pair, dec.toFloat)
  {
    if content != [] {
      ParsedRowsEmpty(dec.rowsOf(content), pair, dec.toFloat);
    }
  }

  /** `parse_exchange_data(html_content, currency_pair)`. */
  method ParseExchangeData(htmlContent: string, currencyPair: string, dec: Decoders) returns (r: Option<seq<ExchangeRate>>)
    ensures r == ParsedTable(htmlContent, currencyPair, dec)
  {
    if htmlContent == [] {
      return None;
    }
    var rows := dec.rowsOf(htmlContent);
    if rows == [] {
      return None;
    }
    var data: seq<ExchangeRate> := [];
    for i := 0 to |rows|
      invariant data == ParsedRows(rows[..i], currencyPair, dec.toFloat)
    {
      var rec := ParseRow(rows[i], currencyPair, dec.toFloat);
      ParsedRowsAppend(rows[..i], [rows[i]], currencyPair, dec.toFloat);
      assert rows[..i + 1] == rows[..i] + [rows[i]];
      assert ParsedRows([rows[i]], currencyPair, dec.toFloat) == if rec.Some? then [rec.value] else [] by {
        var one := RowResults([rows[i]], currencyPair, dec.toFloat);
        assert one == [rec];
        assert one[..0] == [];
      }
      if rec.Some? {
        data := data + [rec.value];
      }
    }
    assert rows[..|rows|] == rows;
    if data == [] {
      return None;
    }
    return Some(data);
  }
}
