/** The trading-signals page: the signal list held in page state, the
    handlers that add, delete, activate, deactivate and close signals, and the
    text of the CSV export. */
module TradingSignals {
  import opened Strings
  import opened Lists
  import opened SignalsTable

  /** What the signal form submits, already converted to numbers. */
  datatype SignalInput = SignalInput(symbol: string, entryPrice: int, qty: int, amount: int)

  /** `handleAddSignal`: a pending signal with id `String(length + 1)` goes in
      front of the unchanged list. `now` is the creation timestamp. */
  function AddSignal(signals: seq<Signal>, input: SignalInput, now: string): (r: seq<Signal>)
    ensures |r| == |signals| + 1 && r[1..] == signals
    ensures r[0].status == Pending && r[0].createdAt == now
    ensures r[0].symbol == input.symbol && r[0].entryPrice == input.entryPrice
    ensures r[0].qty == input.qty && r[0].amount == input.amount
    ensures r[0].id == NatToString(|signals| + 1)
    ensures AllDigits(r[0].id) && ParseNat(r[0].id) == |signals| + 1
  {
    ParseNatToString(|signals| + 1);
    [Signal(NatToString(|signals| + 1), input.symbol, input.entryPrice, input.qty,
            input.amount, Pending, now)] + signals
  }

  /** `handleDeleteSignal`: every signal carrying the id goes, the rest stay in order. */
  function DeleteSignal(signals: seq<Signal>, id: string): (r: seq<Signal>)
    ensures forall i :: 0 <= i < |r| ==> r[i].id != id && r[i] in signals
    ensures forall i :: 0 <= i < |signals| && signals[i].id != id ==> signals[i] in r
  {
    Filter((s: Signal) => s.id != id, signals)
  }

  /** Deletion keeps the survivors' order and multiplicities and removes
      nothing when the id is absent. */
  lemma DeleteKeepsOthers(a: seq<Signal>, b: seq<Signal>, id: string, x: Signal)
    ensures DeleteSignal(a + b, id) == DeleteSignal(a, id) + DeleteSignal(b, id)
    ensures multiset(DeleteSignal(a, id))[x] == if x.id != id then multiset(a)[x] else 0
    ensures (forall i :: 0 <= i < |a| ==> a[i].id != id) ==> DeleteSignal(a, id) == a
  {
    FilterAppend((s: Signal) => s.id != id, a, b);
    FilterCount((s: Signal) => s.id != id, a, x);
    if forall i :: 0 <= i < |a| ==> a[i].id != id {
      FilterKeepsAll((s: Signal) => s.id != id, a);
    }
  }

  /** The status update shared by the toggle and close handlers. */
  function SetStatusWhere(signals: seq<Signal>, id: string, status: SignalStatus): seq<Signal> {
    seq(|signals|, i requires 0 <= i < |signals| =>
      if signals[i].id == id then signals[i].(status := status) else signals[i])
  }

  /** `handleToggleStatus`: the matching signals become active or pending;
      nothing else changes. Closed signals are reopened too: only the switch's
      `disabled` flag prevents that. */
  function ToggleStatus(signals: seq<Signal>, id: string, isActive: bool): (r: seq<Signal>)
    ensures |r| == |signals|
    ensures forall i :: 0 <= i < |r| ==> r[i].(status := signals[i].status) == signals[i]
    ensures forall i :: 0 <= i < |r| && signals[i].id == id ==>
              r[i].status == (if isActive then Active else Pending)
    ensures forall i :: 0 <= i < |r| && signals[i].id != id ==> r[i] == signals[i]
  {
    SetStatusWhere(signals, id, if isActive then Active else Pending)
  }

  /** `handleCloseSignal`: the matching signals become closed; nothing else changes. */
  function CloseSignal(signals: seq<Signal>, id: string): (r: seq<Signal>)
    ensures |r| == |signals|
    ensures forall i :: 0 <= i < |r| ==> r[i].(status := signals[i].status) == signals[i]
    ensures forall i :: 0 <= i < |r| && signals[i].id == id ==> r[i].status == Closed
    ensures forall i :: 0 <= i < |r| && signals[i].id != id ==> r[i] == signals[i]
  {
    SetStatusWhere(signals, id, Closed)
  }

  /** Two status writes to the same id: the second one wins. */
  lemma SetStatusLastWins(signals: seq<Signal>, id: string, first: SignalStatus, second: SignalStatus)
    ensures SetStatusWhere(SetStatusWhere(signals, id, first), id, second)
            == SetStatusWhere(signals, id, second)
  {
    var once := SetStatusWhere(signals, id, first);
    assert forall i :: 0 <= i < |signals| ==> once[i].id == signals[i].id;
  }

  /** Toggling twice in the same way equals toggling once, and the last toggle wins. */
  lemma ToggleIdempotent(signals: seq<Signal>, id: string, first: bool, second: bool)
    ensures ToggleStatus(ToggleStatus(signals, id, second), id, second) == ToggleStatus(signals, id, second)
    ensures ToggleStatus(ToggleStatus(signals, id, first), id, second) == ToggleStatus(signals, id, second)
  {
    SetStatusLastWins(signals, id, if second then Active else Pending, if second then Active else Pending);
    SetStatusLastWins(signals, id, if first then Active else Pending, if second then Active else Pending);
  }

  /** Closing twice equals closing once, and closing overrides an earlier toggle. */
  lemma CloseIdempotent(signals: seq<Signal>, id: string, isActive: bool)
    ensures CloseSignal(CloseSignal(signals, id), id) == CloseSignal(signals, id)
    ensures CloseSignal(ToggleStatus(signals, id, isActive), id) == CloseSignal(signals, id)
  {
    SetStatusLastWins(signals, id, Closed, Closed);
    SetStatusLastWins(signals, id, if isActive then Active else Pending, Closed);
  }

  /** Ids are `String(length + 1)`, so they can repeat: delete signal "1" from
      a two-signal list, add one, and two signals carry id "2". */
  lemma AddAfterDeleteRepeatsId(a: Signal, b: Signal, input: SignalInput, now: string)
    requires a.id == "1" && b.id == "2"
    ensures var after := AddSignal(DeleteSignal([a, b], "1"), input, now);
      |after| == 2 && after[0].id == "2" && after[1].id == "2"
  {
    var kept := DeleteSignal([a, b], "1");
    assert [a, b] == [a] + [b];
    FilterAppend((s: Signal) => s.id != "1", [a], [b]);
    assert kept == [b];
    assert NatToString(2) == "2";
  }

  // ---------------------------------------------------------------------
  // CSV export

  const CsvHeader: seq<string> := ["Symbol", "Entry Price", "Quantity", "Amount", "Status", "Created"]

  /** One data row; `formatDate` stands for `toLocaleDateString`. */
  function CsvRow(s: Signal, formatDate: string -> string): seq<string> {
    [s.symbol, IntToString(s.entryPrice), IntToString(s.qty), IntToString(s.amount),
     StatusText(s.status), formatDate(s.createdAt)]
  }

  /** The header row followed by one row per signal in list order. */
  function CsvTable(signals: seq<Signal>, formatDate: string -> string): (rows: seq<seq<string>>)
    ensures |rows| == |signals| + 1 && rows[0] == CsvHeader
    ensures forall k :: 0 <= k < |signals| ==> rows[k + 1] == CsvRow(signals[k], formatDate)
  {
    [CsvHeader] + seq(|signals|, i requires 0 <= i < |signals| => CsvRow(signals[i], formatDate))
  }

  /** A field that needs no quoting: it holds neither separator. */
  predicate PlainField(s: string) {
    ',' !in s && '\n' !in s
  }

  /** No symbol and no formatted date holds a separator. */
  predicate PlainSignals(signals: seq<Signal>, formatDate: string -> string) {
    forall i :: 0 <= i < |signals| ==>
      PlainField(signals[i].symbol) && PlainField(formatDate(signals[i].createdAt))
  }

  /** No symbol and no formatted date holds a newline; commas are allowed. */
  predicate NewlineFree(signals: seq<Signal>, formatDate: string -> string) {
    forall i :: 0 <= i < |signals| ==>
      '\n' !in signals[i].symbol && '\n' !in formatDate(signals[i].createdAt)
  }

  /** Each row joined by commas. */
  function CsvLines(rows: seq<seq<string>>): (lines: seq<string>)
    ensures |lines| == |rows|
    ensures forall i :: 0 <= i < |rows| ==> lines[i] == Join(rows[i], ",")
  {
    seq(|rows|, i requires 0 <= i < |rows| => Join(rows[i], ","))
  }

  lemma HeaderPlain()
    ensures forall j :: 0 <= j < |CsvHeader| ==> PlainField(CsvHeader[j])
  {
  }

  lemma RowPlain(s: Signal, formatDate: string -> string)
    requires PlainField(s.symbol) && PlainField(formatDate(s.createdAt))
    ensures forall j :: 0 <= j < 6 ==> PlainField(CsvRow(s, formatDate)[j])
  {
    IntToStringPlain(s.entryPrice);
    IntToStringPlain(s.qty);
    IntToStringPlain(s.amount);
  }

  /** A row's line holds no newline and splits on commas back into the row. */
  lemma LineReadsBack(row: seq<string>)
    requires |row| >= 1 && forall j :: 0 <= j < |row| ==> PlainField(row[j])
    ensures '\n' !in Join(row, ",") && Split(Join(row, ","), ',') == row
  {
    JoinExcludes(row, ",", '\n');
    SplitJoin(row, ',');
  }

  /** Splitting the export on newlines and then on commas gives back the
      table, when no field holds a separator. */
  lemma {:induction false} TableReadsBack(signals: seq<Signal>, formatDate: string -> string)
    requires PlainSignals(signals, formatDate)
    ensures var rows := CsvTable(signals, formatDate);
      var lines := Split(Join(CsvLines(rows), "\n"), '\n');
      && |lines| == |rows|
      && forall k :: 0 <= k < |rows| ==> Split(lines[k], ',') == rows[k]
  {
    var rows := CsvTable(signals, formatDate);
    var lines := CsvLines(rows);
    forall i | 0 <= i < |lines| ensures '\n' !in lines[i] && Split(lines[i], ',') == rows[i] {
      if i == 0 {
        HeaderPlain();
      } else {
        RowPlain(signals[i - 1], formatDate);
      }
      LineReadsBack(rows[i]);
    }
    SplitJoin(lines, '\n');
  }

  lemma RowNoNewline(s: Signal, formatDate: string -> string)
    requires '\n' !in s.symbol && '\n' !in formatDate(s.createdAt)
    ensures forall j :: 0 <= j < 6 ==> '\n' !in CsvRow(s, formatDate)[j]
  {
    IntToStringPlain(s.entryPrice);
    IntToStringPlain(s.qty);
    IntToStringPlain(s.amount);
  }

  /** Without newlines in the fields, splitting the export on newlines gives
      back its lines, commas in the fields notwithstanding. */
  lemma {:induction false} TableLines(signals: seq<Signal>, formatDate: string -> string)
    requires NewlineFree(signals, formatDate)
    ensures var lines := CsvLines(CsvTable(signals, formatDate));
      Split(Join(lines, "\n"), '\n') == lines
  {
    var rows := CsvTable(signals, formatDate);
    var lines := CsvLines(rows);
    forall i | 0 <= i < |lines| ensures '\n' !in lines[i] {
      if i == 0 {
        HeaderPlain();
      } else {
        RowNoNewline(signals[i - 1], formatDate);
      }
      JoinExcludes(rows[i], ",", '\n');
    }
    SplitJoin(lines, '\n');
  }

  /** A newline in signal i's symbol or date adds a line to the export. */
  lemma NewlineAtAddsLines(signals: seq<Signal>, formatDate: string -> string, i: int)
    requires 0 <= i < |signals|
    requires '\n' in signals[i].symbol || '\n' in formatDate(signals[i].createdAt)
    ensures |Split(Join(CsvLines(CsvTable(signals, formatDate)), "\n"), '\n')| > |signals| + 1
  {
    var row := CsvRow(signals[i], formatDate);
    var lines := CsvLines(CsvTable(signals, formatDate));
    assert '\n' in lines[i + 1] by {
      JoinIncludes(row, ",", '\n', if '\n' in row[0] then 0 else 5);
    }
    SplitJoinLonger(lines, '\n', i + 1);
  }

  /** A newline inside a symbol or a date adds a line to the export. */
  lemma NewlineAddsLines(signals: seq<Signal>, formatDate: string -> string)
    requires !NewlineFree(signals, formatDate)
    ensures |Split(Join(CsvLines(CsvTable(signals, formatDate)), "\n"), '\n')| > |signals| + 1
  {
    var i :| 0 <= i < |signals| &&
      ('\n' in signals[i].symbol || '\n' in formatDate(signals[i].createdAt));
    NewlineAtAddsLines(signals, formatDate, i);
  }

  /** An unquoted comma in a symbol makes that signal's line split into more
      than the six columns. */
  lemma CommaInSymbolBreaksRow(signals: seq<Signal>, formatDate: string -> string, k: int)
    requires NewlineFree(signals, formatDate)
    requires 0 <= k < |signals| && ',' in signals[k].symbol
    ensures |Split(Split(CsvText(signals, formatDate), '\n')[k + 1], ',')| > |CsvHeader|
  {
    var row := CsvRow(signals[k], formatDate);
    var line := Split(CsvText(signals, formatDate), '\n')[k + 1];
    assert line == Join(row, ",");
    OccurrencesPositive(',', row[0]);
    JoinOccurrences(row, ",", ',', 0);
    SplitCount(line, ',');
  }

  /** `handleExportCSV`: fields joined by ",", rows joined by "\n", no quoting.
      When no symbol or date holds a separator, splitting the text on newlines
      and then on commas gives back the header and each signal's row. */
  function CsvText(signals: seq<Signal>, formatDate: string -> string): (text: string)
    ensures PlainSignals(signals, formatDate) ==>
      var lines := Split(text, '\n');
      && |lines| == |signals| + 1
      && Split(lines[0], ',') == CsvHeader
      && forall k :: 0 <= k < |signals| ==> Split(lines[k + 1], ',') == CsvRow(signals[k], formatDate)
    ensures NewlineFree(signals, formatDate) ==>
      var lines := Split(text, '\n');
      && |lines| == |signals| + 1
      && lines[0] == Join(CsvHeader, ",")
      && forall k :: 0 <= k < |signals| ==> lines[k + 1] == Join(CsvRow(signals[k], formatDate), ",")
    ensures !NewlineFree(signals, formatDate) ==> |Split(text, '\n')| > |signals| + 1
  {
    var text := Join(CsvLines(CsvTable(signals, formatDate)), "\n");
    if !NewlineFree(signals, formatDate) then
      NewlineAddsLines(signals, formatDate);
      text
    else if PlainSignals(signals, formatDate) then
      TableLines(signals, formatDate);
      TableReadsBack(signals, formatDate);
      text
    else
      TableLines(signals, formatDate);
      text
  }
}
