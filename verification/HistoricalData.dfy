/** The historical-data page: the symbol list with its add box, the
    data-collection script's running flag and log, the active tab and the one
    expanded row of the symbol table. */
module HistoricalData {
  import opened Wrappers
  import opened Strings

  datatype SymbolStatus = Processing | Completed | Pending

  /** One tracked symbol; the three closing prices are whole numbers here,
      `None` while not yet collected. */
  datatype SymbolData = SymbolData(
    id: string,
    symbol: string,
    cmp7d: Option<int>,
    cmp30d: Option<int>,
    cmp5min: Option<int>,
    lastUpdate: string,
    status: SymbolStatus)

  datatype HistoryState = HistoryState(
    symbols: seq<SymbolData>,
    isScriptRunning: bool,
    newSymbol: string,
    expandedSymbol: Option<string>,
    activeTab: string,
    scriptLog: seq<string>)

  /** The state every handler but the one named leaves alone. */
  predicate SameExcept(st: HistoryState, st': HistoryState, symbols: bool, script: bool, input: bool) {
    && (symbols || st'.symbols == st.symbols)
    && (script || (st'.isScriptRunning == st.isScriptRunning && st'.scriptLog == st.scriptLog))
    && (input || st'.newSymbol == st.newSymbol)
    && st'.expandedSymbol == st.expandedSymbol
    && st'.activeTab == st.activeTab
  }

  /** `handleAddSymbol`: a blank input changes nothing; otherwise the input,
      uppercased but not trimmed, is appended as a pending symbol with id
      `String(length + 1)` and no prices, and the input box is cleared.
      `now` is the `lastUpdate` timestamp. */
  function AddSymbol(st: HistoryState, now: string): (st': HistoryState)
    ensures Blank(st.newSymbol) ==> st' == st
    ensures !Blank(st.newSymbol) ==>
      && SameExcept(st, st', true, false, true)
      && st'.newSymbol == ""
      && |st'.symbols| == |st.symbols| + 1
      && st'.symbols[..|st.symbols|] == st.symbols
      && var added := st'.symbols[|st.symbols|];
         && added.id == NatToString(|st.symbols| + 1)
         && |added.symbol| == |st.newSymbol|
         && (forall i :: 0 <= i < |added.symbol| ==> added.symbol[i] == UpperChar(st.newSymbol[i]))
         && added.cmp7d == None && added.cmp30d == None && added.cmp5min == None
         && added.lastUpdate == now && added.status == Pending
  {
    TrimEmptyIffBlank(st.newSymbol);
    if Trim(st.newSymbol) == "" then st
    else
      var added := SymbolData(NatToString(|st.symbols| + 1), Upper(st.newSymbol),
                              None, None, None, now, Pending);
      st.(symbols := st.symbols + [added], newSymbol := "")
  }

  /** Ids are positional: the k-th symbol (from 1) has id `String(k)`. */
  predicate PositionalIds(symbols: seq<SymbolData>) {
    forall i :: 0 <= i < |symbols| ==> symbols[i].id == NatToString(i + 1)
  }

  /** The symbol list is never shortened, so adding keeps ids positional and
      therefore distinct: an id names at most one row. */
  lemma AddSymbolKeepsIdsDistinct(st: HistoryState, now: string)
    requires PositionalIds(st.symbols)
    ensures PositionalIds(AddSymbol(st, now).symbols)
    ensures var s := AddSymbol(st, now).symbols;
      forall i, j :: 0 <= i < j < |s| ==> s[i].id != s[j].id
  {
    var s := AddSymbol(st, now).symbols;
    forall i, j | 0 <= i < j < |s| ensures s[i].id != s[j].id {
      if s[i].id == s[j].id {
        NatToStringInjective(i + 1, j + 1);
      }
    }
  }

  const StartMessages: seq<string> := ["Script started...", "Connecting to data source..."]
  const StopMessage := "Script stopped by user"

  /** `handleStartScript`, without the timed log messages: running, and the
      log restarted with the two start lines. */
  function StartScript(st: HistoryState): (st': HistoryState)
    ensures SameExcept(st, st', false, true, false)
    ensures st'.isScriptRunning && st'.scriptLog == StartMessages
  {
    st.(isScriptRunning := true, scriptLog := StartMessages)
  }

  /** `handleStopScript`: not running, one line appended to the log. */
  function StopScript(st: HistoryState): (st': HistoryState)
    ensures SameExcept(st, st', false, true, false)
    ensures !st'.isScriptRunning
    ensures |st'.scriptLog| == |st.scriptLog| + 1
    ensures st'.scriptLog[..|st.scriptLog|] == st.scriptLog && st'.scriptLog[|st.scriptLog|] == StopMessage
  {
    st.(isScriptRunning := false, scriptLog := st.scriptLog + [StopMessage])
  }

  /** Starting after a stop forgets the old log; a stop right after a start
      leaves exactly three lines. */
  lemma StartStopLog(st: HistoryState)
    ensures StartScript(StopScript(st)) == StartScript(st)
    ensures StopScript(StartScript(st)).scriptLog == StartMessages + [StopMessage]
    ensures !StopScript(StartScript(st)).isScriptRunning
  {
  }

  /** The tab list's `onValueChange`. */
  function SelectTab(st: HistoryState, tab: string): (st': HistoryState)
    ensures st'.activeTab == tab && st'.(activeTab := st.activeTab) == st
  {
    st.(activeTab := tab)
  }

  /** `getCmpValue`: the 7-day price on the "7d" tab, the 30-day price on
      "30d", and the 5-minute price on any other tab. */
  function GetCmpValue(tab: string, s: SymbolData): (v: Option<int>)
    ensures tab == "7d" ==> v == s.cmp7d
    ensures tab == "30d" ==> v == s.cmp30d
    ensures tab != "7d" && tab != "30d" ==> v == s.cmp5min
  {
    if tab == "7d" then s.cmp7d
    else if tab == "30d" then s.cmp30d
    else s.cmp5min
  }

  /** The row is shown expanded. */
  predicate IsExpanded(st: HistoryState, id: string) {
    st.expandedSymbol == Some(id)
  }

  /** A row's `onOpenChange`: an expanded row collapses; any other row opens
      and the previously expanded one closes. */
  function ToggleExpanded(st: HistoryState, id: string): (st': HistoryState)
    ensures IsExpanded(st', id) <==> !IsExpanded(st, id)
    ensures forall other :: other != id ==> !IsExpanded(st', other)
    ensures st'.(expandedSymbol := st.expandedSymbol) == st
  {
    st.(expandedSymbol := if st.expandedSymbol == Some(id) then None else Some(id))
  }

  /** At most one listed row is ever expanded: with positional ids, two rows
      shown open are the same row. */
  lemma AtMostOneExpanded(st: HistoryState, i: int, j: int)
    requires PositionalIds(st.symbols)
    requires 0 <= i < |st.symbols| && 0 <= j < |st.symbols|
    requires IsExpanded(st, st.symbols[i].id) && IsExpanded(st, st.symbols[j].id)
    ensures i == j
  {
    NatToStringInjective(i + 1, j + 1);
  }

  /** Opening a row and clicking it again restores the table; clicking a
      second row instead leaves only that one open, and clicking it again
      leaves all rows closed. */
  lemma ToggleTwice(st: HistoryState, a: string, b: string)
    ensures st.expandedSymbol.None? || IsExpanded(st, a) ==>
              ToggleExpanded(ToggleExpanded(st, a), a) == st
    ensures !IsExpanded(st, a) && !IsExpanded(st, b) && a != b ==>
              ToggleExpanded(ToggleExpanded(st, a), b).expandedSymbol == Some(b)
    ensures (exists other :: other != a && IsExpanded(st, other)) ==>
              ToggleExpanded(ToggleExpanded(st, a), a).expandedSymbol.None?
  {
  }
}
