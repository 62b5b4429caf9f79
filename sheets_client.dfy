/** The spreadsheet side of the updater (`SheetsClient` in sheets_client.py):
    A1 cell addresses, the cleaning of the ticker row, the batch of price
    cells written by `update_prices`, and the text of the timestamp cell.
    The worksheet itself is a collaborator: a row read either yields the
    row's cell texts or fails, and a batch write either succeeds or fails. */
module SheetsClient {
  import opened Common

  // ---------------------------------------------------------------------
  // Column letters (`_get_column_letter`)
  // ---------------------------------------------------------------------

  predicate IsLetter(c: char) {
    'A' <= c <= 'Z'
  }

  predicate IsDigit(c: char) {
    '0' <= c <= '9'
  }

  /** The column name of the 1-based column `n`: bijective base 26 over
      'A'..'Z', most significant letter first; no name for `n <= 0`. */
  function ColumnName(n: int): (s: string)
    ensures s == [] <==> n <= 0
    ensures forall i :: 0 <= i < |s| ==> IsLetter(s[i])
    decreases n
  {
    if n <= 0 then "" else ColumnName((n - 1) / 26) + [(65 + (n - 1) % 26) as char]
  }

  /** The column a name denotes: the sum of (letter - 'A' + 1) * 26^k, with k
      counted from the last letter. */
  function ColumnNumber(s: string): int {
    if s == [] then 0 else 26 * ColumnNumber(s[..|s| - 1]) + (s[|s| - 1] as int - 64)
  }

  /** A name made of letters denotes a column; a non-empty one a column >= 1. */
  lemma {:induction false} ColumnNumberBounds(s: string)
    requires forall i :: 0 <= i < |s| ==> IsLetter(s[i])
    ensures ColumnNumber(s) >= 0
    ensures s != [] ==> ColumnNumber(s) >= 1
  {
    if s != [] {
      ColumnNumberBounds(s[..|s| - 1]);
    }
  }

  /** Decoding the name of a column gives the column back. */
  lemma {:induction false} ColumnNumberOfName(n: int)
    requires n >= 0
    ensures ColumnNumber(ColumnName(n)) == n
    decreases n
  {
    if n > 0 {
      var q, r := (n - 1) / 26, (n - 1) % 26;
      ColumnNumberOfName(q);
      var s := ColumnName(n);
      assert s[..|s| - 1] == ColumnName(q);
      assert s[|s| - 1] as int - 64 == r + 1;
    }
  }

  /** Every name made of the letters 'A'..'Z' is the name of exactly the
      column it denotes: the naming is onto the non-empty letter strings. */
  lemma {:induction false} ColumnNameOfNumber(s: string)
    requires forall i :: 0 <= i < |s| ==> IsLetter(s[i])
    ensures ColumnName(ColumnNumber(s)) == s
  {
    if s != [] {
      var init := s[..|s| - 1];
      var d := s[|s| - 1] as int - 64;
      ColumnNumberOfName(0);
      ColumnNameOfNumber(init);
      ColumnNumberBounds(init);
      var n := ColumnNumber(s);
      assert n == 26 * ColumnNumber(init) + d && 1 <= d <= 26;
      assert (n - 1) / 26 == ColumnNumber(init);
      assert (n - 1) % 26 == d - 1;
      assert s == init + [s[|s| - 1]];
    }
  }

  /** Two different columns never share a name. */
  lemma ColumnNameInjective(a: int, b: int)
    requires a >= 1 && b >= 1
    requires ColumnName(a) == ColumnName(b)
    ensures a == b
  {
    ColumnNumberOfName(a);
    ColumnNumberOfName(b);
  }

  /** The names of the first columns, as the docstring lists them. */
  lemma ColumnNameExamples()
    ensures ColumnName(1) == "A" && ColumnName(2) == "B" && ColumnName(26) == "Z"
    ensures ColumnName(27) == "AA" && ColumnName(28) == "AB"
    ensures ColumnName(52) == "AZ" && ColumnName(53) == "BA"
    ensures ColumnName(702) == "ZZ" && ColumnName(703) == "AAA"
  {
    assert ColumnName(26) == "Z";
    assert ColumnName(27) == "AA";
  }

  /** `_get_column_letter(col_num)`: peels off the last letter with
      `divmod(col_num - 1, 26)` until no column is left. */
  method GetColumnLetter(colNum: int) returns (s: string)
    ensures s == ColumnName(colNum)
  {
    var col := colNum;
    s := "";
    while col > 0
      invariant ColumnName(col) + s == ColumnName(colNum)
      decreases col
    {
      var quotient, remainder := (col - 1) / 26, (col - 1) % 26;
      assert ColumnName(col) == ColumnName(quotient) + [(65 + remainder) as char];
      s := [(65 + remainder) as char] + s;
      col := quotient;
    }
  }

  // ---------------------------------------------------------------------
  // A1 addresses
  // ---------------------------------------------------------------------

  /** `str(n)` for a natural number. */
  function Decimal(n: nat): (s: string)
    ensures s != []
    ensures forall i :: 0 <= i < |s| ==> IsDigit(s[i])
  {
    if n < 10 then [(48 + n) as char] else Decimal(n / 10) + [(48 + n % 10) as char]
  }

  /** The number a string of decimal digits denotes. */
  function DecimalValue(s: string): int {
    if s == [] then 0 else 10 * DecimalValue(s[..|s| - 1]) + (s[|s| - 1] as int - 48)
  }

  /** `int(str(n)) == n`. */
  lemma {:induction false} DecimalValueOfDecimal(n: nat)
    ensures DecimalValue(Decimal(n)) == n
  {
    if n >= 10 {
      DecimalValueOfDecimal(n / 10);
      var s := Decimal(n);
      assert s[..|s| - 1] == Decimal(n / 10);
    }
  }

  /** The A1 address of a cell, as `update_prices` writes it:
      column letters followed by the row number. */
  function Address(col: int, row: nat): string {
    ColumnName(col) + Decimal(row)
  }

  /** Number of letters at the front of `s`. */
  function LetterRun(s: string): (k: nat)
    ensures k <= |s|
  {
    if s == [] || !IsLetter(s[0]) then 0 else 1 + LetterRun(s[1..])
  }

  /** Reads an A1 address back into its column and row. */
  function ParseAddress(a: string): (cell: (int, int)) {
    var k := LetterRun(a);
    (ColumnNumber(a[..k]), DecimalValue(a[k..]))
  }

  /** The letters of a name followed by text that starts with a non-letter
      form a run of exactly the name's length. */
  lemma {:induction false} LetterRunOfName(p: string, q: string)
    requires forall i :: 0 <= i < |p| ==> IsLetter(p[i])
    requires q == [] || !IsLetter(q[0])
    ensures LetterRun(p + q) == |p|
  {
    if p == [] {
      assert p + q == q;
    } else {
      assert (p + q)[1..] == p[1..] + q;
      LetterRunOfName(p[1..], q);
    }
  }

  /** Every address `update_prices` can write reads back as its cell. */
  lemma ParseAddressOfAddress(col: int, row: nat)
    requires col >= 1
    ensures ParseAddress(Address(col, row)) == (col, row)
  {
    var p, q := ColumnName(col), Decimal(row);
    LetterRunOfName(p, q);
    assert (p + q)[..|p|] == p && (p + q)[|p|..] == q;
    ColumnNumberOfName(col);
    DecimalValueOfDecimal(row);
  }

  /** Different cells have different addresses. */
  lemma AddressInjective(c1: int, r1: nat, c2: int, r2: nat)
    requires c1 >= 1 && c2 >= 1
    requires Address(c1, r1) == Address(c2, r2)
    ensures c1 == c2 && r1 == r2
  {
    ParseAddressOfAddress(c1, r1);
    ParseAddressOfAddress(c2, r2);
  }

  // ---------------------------------------------------------------------
  // The ticker row (`get_tickers`)
  // ---------------------------------------------------------------------

  /** The cleaning in `get_tickers`: every cell stripped, blank cells dropped,
      row order kept. */
  function CleanTickers(row: seq<string>): (r: seq<string>)
    ensures |r| <= |row|
    ensures forall i :: 0 <= i < |r| ==> r[i] != [] && IsStripped(r[i])
  {
    if row == [] then []
    else if Strip(row[0]) != [] then [Strip(row[0])] + CleanTickers(row[1..])
    else CleanTickers(row[1..])
  }

  /** A string is a cleaned ticker exactly when it is the non-empty stripped
      form of some cell of the row. */
  lemma {:induction false} CleanTickersMembers(row: seq<string>, x: string)
    ensures x in CleanTickers(row) <==> x != [] && exists c :: c in row && Strip(c) == x
  {
    if row != [] {
      CleanTickersMembers(row[1..], x);
      assert forall c :: c in row <==> c == row[0] || c in row[1..];
    }
  }

  /** Cleaning works cell by cell: the cleaned row is the cleaned left part
      followed by the cleaned right part, so the row order is kept. */
  lemma {:induction false} CleanTickersOfConcat(a: seq<string>, b: seq<string>)
    ensures CleanTickers(a + b) == CleanTickers(a) + CleanTickers(b)
  {
    if a == [] {
      assert a + b == b;
    } else {
      assert (a + b)[0] == a[0] && (a + b)[1..] == a[1..] + b;
      CleanTickersOfConcat(a[1..], b);
    }
  }

  /** Cleaning a cleaned row changes nothing. */
  lemma {:induction false} CleanTickersIdempotent(row: seq<string>)
    ensures CleanTickers(CleanTickers(row)) == CleanTickers(row)
  {
    if row != [] {
      CleanTickersIdempotent(row[1..]);
      if Strip(row[0]) != [] {
        StripIdempotent(row[0]);
        assert ([Strip(row[0])] + CleanTickers(row[1..]))[1..] == CleanTickers(row[1..]);
      }
    }
  }

  /** Every cell of the row, stripped. */
  function StripAll(row: seq<string>): (r: seq<string>)
    ensures |r| == |row|
  {
    seq(|row|, i requires 0 <= i < |row| => Strip(row[i]))
  }

  /** When no cell is blank, cleaning only strips: the i-th cleaned ticker is
      the i-th cell. */
  lemma {:induction false} CleanTickersWithoutBlanks(row: seq<string>)
    requires forall i :: 0 <= i < |row| ==> Strip(row[i]) != []
    ensures CleanTickers(row) == StripAll(row)
  {
    if row != [] {
      CleanTickersWithoutBlanks(row[1..]);
      assert StripAll(row) == [Strip(row[0])] + StripAll(row[1..]);
    }
  }

  /** `get_tickers`: a failed row read yields no tickers. */
  function GetTickers(read: Option<seq<string>>): seq<string> {
    if read.Some? then CleanTickers(read.value) else []
  }

  // ---------------------------------------------------------------------
  // The price batch (`update_prices`)
  // ---------------------------------------------------------------------

  /** One entry of the `updates` list: a cell address and the value put there. */
  datatype CellUpdate = CellUpdate(range: string, value: real)

  /** The result of `get_multiple_prices`: a price, or `None`, per ticker. */
  type Prices = map<string, Option<real>>

  /** The price a ticker cell receives: the one the price map holds for the
      cell's stripped text, when that text is a ticker and its price is not
      `None`. */
  function PriceFor(cell: string, prices: Prices): (p: Option<real>)
    ensures p.Some? <==> Strip(cell) != [] && Strip(cell) in prices && prices[Strip(cell)].Some?
    ensures p.Some? ==> p == prices[Strip(cell)]
  {
    var t := Strip(cell);
    if t != [] && t in prices && prices[t].Some? then prices[t] else None
  }

  /** The batch for a ticker row: for each cell, in column order, one update
      at the cell's own column of `priceRow` when its ticker has a price. */
  function PriceUpdates(row: seq<string>, prices: Prices, priceRow: nat): seq<CellUpdate> {
    if row == [] then []
    else
      var init := PriceUpdates(row[..|row| - 1], prices, priceRow);
      match PriceFor(row[|row| - 1], prices)
      case Some(p) => init + [CellUpdate(Address(|row|, priceRow), p)]
      case None => init
  }

  /** The batch `update_prices` builds as written: it enumerates the cleaned
      ticker list, so a position in that list is taken for a sheet column. */
  function PriceUpdatesAsWritten(row: seq<string>, prices: Prices, priceRow: nat): seq<CellUpdate> {
    PriceUpdates(CleanTickers(row), prices, priceRow)
  }

  /** The last cell of a non-empty row adds at most its own update to the
      batch of the cells before it. */
  lemma PriceUpdatesOfLast(row: seq<string>, prices: Prices, priceRow: nat, u: CellUpdate)
    requires row != []
    ensures u in PriceUpdates(row, prices, priceRow)
        <==> || u in PriceUpdates(row[..|row| - 1], prices, priceRow)
             || (PriceFor(row[|row| - 1], prices) == Some(u.value) && u.range == Address(|row|, priceRow))
  {
  }

  /** Update `u` writes the price of the ticker in column `c` of `row`, at
      that column of the price row. */
  predicate PlacedAt(row: seq<string>, prices: Prices, priceRow: nat, u: CellUpdate, c: int) {
    1 <= c <= |row| && PriceFor(row[c - 1], prices) == Some(u.value) && u.range == Address(c, priceRow)
  }

  /** An update is in the batch exactly when some column's ticker has a price,
      and it then writes that price at that column of the price row. */
  lemma {:induction false} PriceUpdatesPlacement(row: seq<string>, prices: Prices, priceRow: nat, u: CellUpdate)
    ensures u in PriceUpdates(row, prices, priceRow) <==> exists c :: PlacedAt(row, prices, priceRow, u, c)
  {
    if row != [] {
      var init := row[..|row| - 1];
      PriceUpdatesPlacement(init, prices, priceRow, u);
      PriceUpdatesOfLast(row, prices, priceRow, u);
      if u in PriceUpdates(init, prices, priceRow) {
        var c :| PlacedAt(init, prices, priceRow, u, c);
        assert row[c - 1] == init[c - 1];
        assert PlacedAt(row, prices, priceRow, u, c);
      } else if u in PriceUpdates(row, prices, priceRow) {
        assert PlacedAt(row, prices, priceRow, u, |row|);
      }
      if c :| PlacedAt(row, prices, priceRow, u, c) {
        if c < |row| {
          assert row[c - 1] == init[c - 1];
          assert PlacedAt(init, prices, priceRow, u, c);
        }
      }
    }
  }

  /** A cell whose ticker has a price puts an update in the batch. */
  lemma PriceUpdatesNonEmpty(row: seq<string>, prices: Prices, priceRow: nat, i: int)
    requires 0 <= i < |row| && PriceFor(row[i], prices).Some?
    ensures PriceUpdates(row, prices, priceRow) != []
  {
    var u := CellUpdate(Address(i + 1, priceRow), PriceFor(row[i], prices).value);
    assert PlacedAt(row, prices, priceRow, u, i + 1);
    PriceUpdatesPlacement(row, prices, priceRow, u);
  }

  /** The column each update of a batch writes. */
  function Column(u: CellUpdate): int {
    ParseAddress(u.range).0
  }

  /** Every update of `us` writes a column among the first `n`. */
  predicate ColumnsWithin(us: seq<CellUpdate>, n: int) {
    forall i :: 0 <= i < |us| ==> 1 <= Column(us[i]) <= n
  }

  /** The updates of `us` write strictly increasing columns. */
  predicate ColumnsIncrease(us: seq<CellUpdate>) {
    forall i, j :: 0 <= i < j < |us| ==> Column(us[i]) < Column(us[j])
  }

  /** The batch writes each column at most once, left to right, and only
      columns of the ticker row. */
  lemma {:induction false} PriceUpdatesColumnsIncrease(row: seq<string>, prices: Prices, priceRow: nat)
    ensures ColumnsWithin(PriceUpdates(row, prices, priceRow), |row|)
    ensures ColumnsIncrease(PriceUpdates(row, prices, priceRow))
  {
    if row != [] {
      var initUs := PriceUpdates(row[..|row| - 1], prices, priceRow);
      PriceUpdatesColumnsIncrease(row[..|row| - 1], prices, priceRow);
      assert ColumnsWithin(initUs, |row| - 1);
      var p := PriceFor(row[|row| - 1], prices);
      if p.Some? {
        var last := CellUpdate(Address(|row|, priceRow), p.value);
        ParseAddressOfAddress(|row|, priceRow);
        var us := initUs + [last];
        assert PriceUpdates(row, prices, priceRow) == us;
        assert forall i :: 0 <= i < |initUs| ==> us[i] == initUs[i];
        assert Column(us[|initUs|]) == |row|;
      } else {
        assert PriceUpdates(row, prices, priceRow) == initUs;
      }
    }
  }

  /** Stripping the cells first does not change the batch. */
  lemma {:induction false} PriceUpdatesOfStripped(row: seq<string>, prices: Prices, priceRow: nat)
    ensures PriceUpdates(StripAll(row), prices, priceRow) == PriceUpdates(row, prices, priceRow)
  {
    if row != [] {
      var init := row[..|row| - 1];
      PriceUpdatesOfStripped(init, prices, priceRow);
      assert StripAll(row)[..|row| - 1] == StripAll(init);
      StripIdempotent(row[|row| - 1]);
    }
  }

  /** On a row without blank cells the batch as written is the intended one. */
  lemma AsWrittenAgreesWithoutBlanks(row: seq<string>, prices: Prices, priceRow: nat)
    requires forall i :: 0 <= i < |row| ==> Strip(row[i]) != []
    ensures PriceUpdatesAsWritten(row, prices, priceRow) == PriceUpdates(row, prices, priceRow)
  {
    CleanTickersWithoutBlanks(row);
    PriceUpdatesOfStripped(row, prices, priceRow);
  }

  /** The addresses of the example below. */
  lemma ExampleAddresses()
    ensures Address(1, 2) == "A2" && Address(2, 2) == "B2" && Address(3, 2) == "C2"
  {
    assert Decimal(2) == "2";
    assert ColumnName(0) == "";
    assert ColumnName(1) == "A" && ColumnName(2) == "B" && ColumnName(3) == "C";
  }

  /** A blank cell between two tickers `a` and `m` is dropped by cleaning. */
  lemma BlankRowCleaned(a: string, m: string)
    requires a != [] && IsStripped(a) && m != [] && IsStripped(m)
    ensures CleanTickers([a, "", m]) == [a, m]
  {
    StripOfStripped(a);
    StripOfStripped(m);
    StripOfStripped("");
    assert [a, "", m][1..] == ["", m] && ["", m][1..] == [m] && [m][1..] == [];
    assert CleanTickers([m]) == [m];
    assert CleanTickers(["", m]) == [m];
    assert CleanTickers([a, "", m]) == [a] + [m];
  }

  /** The prices of the two tickers `a` and `m`, and none for the blank cell. */
  lemma BlankRowPrices(a: string, m: string, pa: real, pm: real, prices: Prices)
    requires a != [] && IsStripped(a) && m != [] && IsStripped(m)
    requires prices == map[a := Some(pa), m := Some(pm)] && a != m
    ensures PriceFor(a, prices) == Some(pa) && PriceFor(m, prices) == Some(pm)
    ensures PriceFor("", prices) == None
  {
    StripOfStripped(a);
    StripOfStripped(m);
    StripOfStripped("");
  }

  /** A blank cell before a ticker moves that ticker's price, as written, one
      column to the left of its ticker: with tickers `a` and `m` around a
      blank cell in columns A to C, `m`'s price lands in column B, under the
      blank cell (`ExampleAddresses` names the cells). */
  lemma BlankCellShiftsLaterPrices(a: string, m: string, pa: real, pm: real, prices: Prices, priceRow: nat)
    requires a != [] && IsStripped(a) && m != [] && IsStripped(m)
    requires prices == map[a := Some(pa), m := Some(pm)] && a != m
    ensures PriceUpdatesAsWritten([a, "", m], prices, priceRow)
         == [CellUpdate(Address(1, priceRow), pa), CellUpdate(Address(2, priceRow), pm)]
  {
    BlankRowCleaned(a, m);
    BlankRowPrices(a, m, pa, pm, prices);
    assert [a, m][..1] == [a] && [a][..0] == [];
    assert PriceUpdates([a], prices, priceRow) == [CellUpdate(Address(1, priceRow), pa)];
  }

  /** On the same row the corrected batch writes `m`'s price in column C,
      under its own ticker. */
  lemma BlankCellKeepsColumnsWhenCorrected(a: string, m: string, pa: real, pm: real, prices: Prices, priceRow: nat)
    requires a != [] && IsStripped(a) && m != [] && IsStripped(m)
    requires prices == map[a := Some(pa), m := Some(pm)] && a != m
    ensures PriceUpdates([a, "", m], prices, priceRow)
         == [CellUpdate(Address(1, priceRow), pa), CellUpdate(Address(3, priceRow), pm)]
  {
    BlankRowPrices(a, m, pa, pm, prices);
    var row := [a, "", m];
    assert row[..2] == [a, ""] && [a, ""][..1] == [a] && [a][..0] == [];
    assert PriceUpdates([a], prices, priceRow) == [CellUpdate(Address(1, priceRow), pa)];
    assert PriceUpdates(row[..2], prices, priceRow) == [CellUpdate(Address(1, priceRow), pa)];
  }

  /** What the sheet read yields for the ticker row: a failed read counts as
      an empty row. */
  function RowCells(read: Option<seq<string>>): seq<string> {
    if read.Some? then read.value else []
  }

  /** `update_prices(ticker_prices, ticker_row, price_row)` with the row read
      `read` and the outcome `writeOk` of the one batch write. It numbers the
      columns over the tickers `get_tickers` returns, so after a blank cell a
      price is placed by its position in the cleaned list, writes the batch
      only when it is not empty, and reports success only for a batch that
      was written. */
  method UpdatePrices(prices: Prices, read: Option<seq<string>>, priceRow: nat, writeOk: bool)
    returns (ok: bool, written: Option<seq<CellUpdate>>, updatedCount: nat)
    ensures var updates := PriceUpdatesAsWritten(RowCells(read), prices, priceRow);
      && updatedCount == |updates|
      && written == (if updates == [] then None else Some(updates))
      && ok == (updates != [] && writeOk)
  {
    var tickers := GetTickers(read);
    assert tickers == CleanTickers(RowCells(read));
    var updates: seq<CellUpdate> := [];
    updatedCount := 0;
    for colIndex := 0 to |tickers|
      invariant updates == PriceUpdates(tickers[..colIndex], prices, priceRow)
      invariant updatedCount == |updates|
    {
      assert tickers[..colIndex + 1][..colIndex] == tickers[..colIndex];
      var ticker := tickers[colIndex];
      StripOfStripped(ticker);
      if ticker in prices && prices[ticker].Some? {
        var col := GetColumnLetter(colIndex + 1);
        updates := updates + [CellUpdate(col + Decimal(priceRow), prices[ticker].value)];
        updatedCount := updatedCount + 1;
      }
    }
    assert tickers[..|tickers|] == tickers;
    if updates != [] {
      written := Some(updates);
      ok := writeOk;
    } else {
      written := None;
      ok := false;
    }
  }

  // ---------------------------------------------------------------------
  // The timestamp cell (`update_timestamp`)
  // ---------------------------------------------------------------------

  /** A local date and time to the minute, as `datetime.now()` reads it. */
  datatype DateTime = DateTime(year: int, month: int, day: int, hour: int, minute: int) {
    predicate Valid() {
      1000 <= year <= 9999 && 1 <= month <= 12 && 1 <= day <= 31
      && 0 <= hour < 24 && 0 <= minute < 60
    }
  }

  /** The readings the timestamp is formatted from. */
  type LocalTime = t: DateTime | t.Valid() witness DateTime(2024, 1, 2, 9, 30)

  /** A number below 100 as two decimal digits, zero-padded. */
  function TwoDigits(n: nat): (s: string)
    requires n < 100
    ensures |s| == 2 && IsDigit(s[0]) && IsDigit(s[1])
    ensures DecimalValue(s) == n
  {
    var s := [(48 + n / 10) as char, (48 + n % 10) as char];
    assert s[..1] == [s[0]] && [s[0]][..0] == [];
    assert DecimalValue(s[..1]) == n / 10;
    s
  }

  /** `%I`: the hour on the 12-hour clock, 12 for midnight and noon. */
  function Hour12(hour: int): (h: int)
    requires 0 <= hour < 24
    ensures 1 <= h <= 12
    ensures h % 12 == hour % 12
  {
    if hour % 12 == 0 then 12 else hour % 12
  }

  /** `%p` in the C locale. */
  function Meridiem(hour: int): (s: string)
    ensures |s| == 2
  {
    if hour < 12 then "AM" else "PM"
  }

  /** `now.strftime("%I:%M%p @ %Y-%m-%d")`. */
  function FormatTimestamp(t: LocalTime): (s: string)
    ensures |s| == 20
  {
    DecimalOfFourDigits(t.year);
    TwoDigits(Hour12(t.hour)) + ":" + TwoDigits(t.minute) + Meridiem(t.hour)
      + " @ " + Decimal(t.year) + "-" + TwoDigits(t.month) + "-" + TwoDigits(t.day)
  }

  /** A year of four digits is written with four digits. */
  lemma DecimalOfFourDigits(n: nat)
    requires 1000 <= n <= 9999
    ensures |Decimal(n)| == 4
  {
    assert |Decimal(n / 1000)| == 1;
    assert |Decimal(n / 100)| == 2;
    assert |Decimal(n / 10)| == 3;
  }

  /** Reads a timestamp cell back into (year, month, day, hour, minute). */
  function ReadTimestamp(s: string): Option<(int, int, int, int, int)> {
    if |s| != 20 || s[2] != ':' || s[7..10] != " @ " || s[14] != '-' || s[17] != '-'
       || (s[5..7] != "AM" && s[5..7] != "PM")
    then None
    else
      var hour := DecimalValue(s[..2]) % 12 + (if s[5..7] == "PM" then 12 else 0);
      Some((DecimalValue(s[10..14]), DecimalValue(s[15..17]), DecimalValue(s[18..20]),
            hour, DecimalValue(s[3..5])))
  }

  /** The timestamp cell names its reading unambiguously: the 12-hour hour and
      the AM/PM marker together give back the hour of the day, and the date
      and minute read back as written. */
  lemma ReadFormattedTimestamp(t: LocalTime)
    ensures ReadTimestamp(FormatTimestamp(t)) == Some((t.year, t.month, t.day, t.hour, t.minute))
  {
    var s := FormatTimestamp(t);
    DecimalOfFourDigits(t.year);
    DecimalValueOfDecimal(t.year);
    var h, m, p, y := TwoDigits(Hour12(t.hour)), TwoDigits(t.minute), Meridiem(t.hour), Decimal(t.year);
    var mo, d := TwoDigits(t.month), TwoDigits(t.day);
    assert s == h + ":" + m + p + " @ " + y + "-" + mo + "-" + d;
    assert s[..2] == h && s[3..5] == m && s[5..7] == p && s[7..10] == " @ ";
    assert s[10..14] == y && s[15..17] == mo && s[18..20] == d;
  }

  /** Two different readings never give the same timestamp text. */
  lemma FormatTimestampInjective(a: LocalTime, b: LocalTime)
    requires FormatTimestamp(a) == FormatTimestamp(b)
    ensures a == b
  {
    ReadFormattedTimestamp(a);
    ReadFormattedTimestamp(b);
  }
}
