/** The signals table: the signal record, the filter → sort → paginate
    pipeline computed on every render, and the state behind its controls
    (filter box, sortable column headers, previous / page / next links). */
module SignalsTable {
  import opened Strings
  import opened Lists

  datatype SignalStatus = Active | Closed | Pending

  function StatusText(s: SignalStatus): string {
    match s
    case Active => "active"
    case Closed => "closed"
    case Pending => "pending"
  }

  /** One trading signal. Prices, quantities and amounts are whole numbers here. */
  datatype Signal = Signal(
    id: string,
    symbol: string,
    entryPrice: int,
    qty: int,
    amount: int,
    status: SignalStatus,
    createdAt: string)

  /** The columns a signal can be sorted on (`keyof Signal`). */
  datatype Field = Id | Symbol | EntryPrice | Qty | Amount | Status | CreatedAt

  datatype Direction = Asc | Desc

  /** A sort key: numeric columns compare as numbers, the others as strings. */
  datatype Key = Number(n: int) | Text(t: string)

  function KeyOf(f: Field, s: Signal): (k: Key)
    ensures k.Number? <==> f in {EntryPrice, Qty, Amount}
  {
    match f
    case Id => Text(s.id)
    case Symbol => Text(s.symbol)
    case EntryPrice => Number(s.entryPrice)
    case Qty => Number(s.qty)
    case Amount => Number(s.amount)
    case Status => Text(StatusText(s.status))
    case CreatedAt => Text(s.createdAt)
  }

  /** JavaScript's `a > b` on two keys of the same column. */
  predicate Greater(a: Key, b: Key) {
    if a.Number? && b.Number? then a.n > b.n
    else if a.Text? && b.Text? then StrLess(b.t, a.t)
    else false
  }

  /** The comparator handed to `sort`: `modifier` when a's key is greater,
      `-modifier` otherwise, so it never answers 0. */
  function Comparator(f: Field, d: Direction, a: Signal, b: Signal): (r: int)
    ensures r == 1 || r == -1
    ensures r < 0 ==> Precedes(f, d, a, b)
    ensures r > 0 ==> Precedes(f, d, b, a)
  {
    var modifier := if d == Asc then 1 else -1;
    if Greater(KeyOf(f, a), KeyOf(f, b)) then
      GreaterAsymmetric(KeyOf(f, a), KeyOf(f, b));
      modifier
    else -modifier
  }

  /** a may stand before b in a list ordered on column f in direction d. */
  predicate Precedes(f: Field, d: Direction, a: Signal, b: Signal) {
    if d == Asc then !Greater(KeyOf(f, a), KeyOf(f, b))
    else !Greater(KeyOf(f, b), KeyOf(f, a))
  }

  predicate SortedOn(f: Field, d: Direction, s: seq<Signal>) {
    forall i, j :: 0 <= i < j < |s| ==> Precedes(f, d, s[i], s[j])
  }

  // ---------------------------------------------------------------------
  // Facts about the order

  lemma GreaterAsymmetric(a: Key, b: Key)
    requires Greater(a, b)
    ensures !Greater(b, a)
  {
    if a.Text? && b.Text? {
      StrLessAsymmetric(b.t, a.t);
    }
  }

  lemma NotGreaterTransitive(x: Key, y: Key, z: Key)
    requires x.Number? == y.Number? == z.Number?
    requires !Greater(x, y) && !Greater(y, z)
    ensures !Greater(x, z)
  {
    if x.Text? {
      StrLessTrichotomous(x.t, y.t);
      StrLessTrichotomous(y.t, z.t);
      if x.t != y.t && y.t != z.t {
        StrLessTransitive(x.t, y.t, z.t);
        StrLessAsymmetric(x.t, z.t);
      } else if x.t != y.t {
        StrLessAsymmetric(x.t, y.t);
      } else if y.t != z.t {
        StrLessAsymmetric(y.t, z.t);
      } else {
        StrLessIrreflexive(x.t);
      }
    }
  }

  lemma PrecedesTotal(f: Field, d: Direction, a: Signal, b: Signal)
    ensures Precedes(f, d, a, b) || Precedes(f, d, b, a)
  {
    if Greater(KeyOf(f, a), KeyOf(f, b)) {
      GreaterAsymmetric(KeyOf(f, a), KeyOf(f, b));
    }
  }

  lemma PrecedesTransitive(f: Field, d: Direction, a: Signal, b: Signal, c: Signal)
    requires Precedes(f, d, a, b) && Precedes(f, d, b, c)
    ensures Precedes(f, d, a, c)
  {
    if d == Asc {
      NotGreaterTransitive(KeyOf(f, a), KeyOf(f, b), KeyOf(f, c));
    } else {
      NotGreaterTransitive(KeyOf(f, c), KeyOf(f, b), KeyOf(f, a));
    }
  }

  /** On distinct keys the comparator is consistent and agrees with Precedes;
      on equal keys it answers the same sign both ways round, which is why the
      order of rows with equal keys is left open. */
  lemma ComparatorOnKeys(f: Field, d: Direction, a: Signal, b: Signal)
    ensures Comparator(f, d, a, b) != 0
    ensures KeyOf(f, a) != KeyOf(f, b) ==>
              Comparator(f, d, b, a) == -Comparator(f, d, a, b)
              && (Comparator(f, d, a, b) < 0 <==> Precedes(f, d, a, b))
    ensures KeyOf(f, a) == KeyOf(f, b) ==> Comparator(f, d, b, a) == Comparator(f, d, a, b)
  {
    var ka, kb := KeyOf(f, a), KeyOf(f, b);
    if ka != kb {
      if ka.Text? {
        StrLessTrichotomous(ka.t, kb.t);
      }
      if Greater(ka, kb) {
        GreaterAsymmetric(ka, kb);
      }
    }
  }

  // ---------------------------------------------------------------------
  // Sorting

  lemma PrecedesAll(f: Field, d: Direction, x: Signal, s: seq<Signal>)
    requires |s| > 0 && SortedOn(f, d, s) && Precedes(f, d, x, s[0])
    ensures SortedOn(f, d, [x] + s)
  {
    forall j | 0 <= j < |s| ensures Precedes(f, d, x, s[j]) {
      if j > 0 {
        PrecedesTransitive(f, d, x, s[0], s[j]);
      }
    }
  }

  lemma HeadBeforeInsert(f: Field, d: Direction, x: Signal, s: seq<Signal>, rest: seq<Signal>)
    requires |s| > 0 && SortedOn(f, d, s) && !Precedes(f, d, x, s[0])
    requires multiset(rest) == multiset(s[1..]) + multiset{x}
    requires SortedOn(f, d, rest)
    ensures SortedOn(f, d, [s[0]] + rest)
  {
    PrecedesTotal(f, d, x, s[0]);
    forall j | 0 <= j < |rest| ensures Precedes(f, d, s[0], rest[j]) {
      assert rest[j] in multiset(rest);
      if rest[j] != x {
        assert rest[j] in multiset(s[1..]);
        var k :| 0 <= k < |s[1..]| && s[1..][k] == rest[j];
        assert s[k + 1] == rest[j];
      }
    }
  }

  /** Insertion of x into a list already ordered on f. */
  function Insert(f: Field, d: Direction, x: Signal, s: seq<Signal>): (r: seq<Signal>)
    requires SortedOn(f, d, s)
    ensures multiset(r) == multiset(s) + multiset{x}
    ensures SortedOn(f, d, r)
    decreases |s|
  {
    if |s| == 0 then [x]
    else if Precedes(f, d, x, s[0]) then
      PrecedesAll(f, d, x, s);
      [x] + s
    else
      var rest := Insert(f, d, x, s[1..]);
      HeadBeforeInsert(f, d, x, s, rest);
      assert s == [s[0]] + s[1..];
      [s[0]] + rest
  }

  /** `[...filtered].sort(comparator)`: a reordering of its input, ordered on
      column f in direction d. */
  function SortSignals(f: Field, d: Direction, s: seq<Signal>): (r: seq<Signal>)
    ensures multiset(r) == multiset(s)
    ensures SortedOn(f, d, r)
    decreases |s|
  {
    if |s| == 0 then []
    else
      assert s == [s[0]] + s[1..];
      Insert(f, d, s[0], SortSignals(f, d, s[1..]))
  }

  // ---------------------------------------------------------------------
  // Filtering

  /** The row's symbol contains the filter text, both lowercased. */
  predicate Matches(text: string, s: Signal) {
    Contains(Lower(s.symbol), Lower(text))
  }

  function FilterSignals(signals: seq<Signal>, text: string): (r: seq<Signal>)
    ensures |r| <= |signals|
    ensures forall i :: 0 <= i < |r| ==> r[i] in signals && Matches(text, r[i])
    ensures forall i :: 0 <= i < |signals| && Matches(text, signals[i]) ==> signals[i] in r
  {
    Filter(s => Matches(text, s), signals)
  }

  /** The filter keeps exactly the matching signals. */
  lemma FilterSignalsExact(signals: seq<Signal>, text: string, x: Signal)
    ensures x in FilterSignals(signals, text) <==> x in signals && Matches(text, x)
    ensures multiset(FilterSignals(signals, text))[x]
            == if Matches(text, x) then multiset(signals)[x] else 0
  {
    FilterCount(s => Matches(text, s), signals, x);
  }

  /** The filter keeps the original order: it distributes over concatenation. */
  lemma FilterSignalsOrder(a: seq<Signal>, b: seq<Signal>, text: string)
    ensures FilterSignals(a + b, text) == FilterSignals(a, text) + FilterSignals(b, text)
  {
    FilterAppend(s => Matches(text, s), a, b);
  }

  /** An empty filter keeps every signal. */
  lemma EmptyFilterKeepsAll(signals: seq<Signal>)
    ensures FilterSignals(signals, "") == signals
  {
    forall i | 0 <= i < |signals| ensures Matches("", signals[i]) {
      assert IsPrefix(Lower(""), Lower(signals[i].symbol));
    }
    FilterKeepsAll(s => Matches("", s), signals);
  }

  // ---------------------------------------------------------------------
  // Pagination

  const ItemsPerPage: nat := 10

  function Max(a: int, b: int): int {
    if a >= b then a else b
  }

  function Min(a: int, b: int): int {
    if a <= b then a else b
  }

  /** `Math.ceil(n / itemsPerPage)`: the fewest pages that hold n rows. */
  function TotalPages(n: nat): (t: nat)
    ensures t * ItemsPerPage >= n
    ensures t > 0 ==> (t - 1) * ItemsPerPage < n
    ensures t == 0 <==> n == 0
  {
    (n + ItemsPerPage - 1) / ItemsPerPage
  }

  /** The page actually shown: the requested page, pulled back onto the
      last page when it lies beyond it. */
  function ClampPage(current: int, totalPages: nat): (p: int)
    requires current >= 1
    ensures 1 <= p <= Max(1, totalPages)
    ensures current <= Max(1, totalPages) ==> p == current
    ensures current > Max(1, totalPages) ==> p == Max(1, totalPages)
  {
    Min(current, Max(1, totalPages))
  }

  /** `sorted.slice(start, start + itemsPerPage)`, where slice stops at the
      end of the list. */
  function PageItems(sorted: seq<Signal>, page: int): (items: seq<Signal>)
    requires page >= 1
    ensures |items| <= ItemsPerPage
    ensures (page - 1) * ItemsPerPage <= |sorted| ==>
              items == sorted[(page - 1) * ItemsPerPage..Min(page * ItemsPerPage, |sorted|)]
    ensures (page - 1) * ItemsPerPage >= |sorted| ==> items == []
  {
    var start := (page - 1) * ItemsPerPage;
    sorted[Min(start, |sorted|)..Min(start + ItemsPerPage, |sorted|)]
  }

  /** The pages `from` to `last`, concatenated. */
  function PagesFrom(sorted: seq<Signal>, from: int, last: nat): seq<Signal>
    requires from >= 1
    decreases last + 1 - from
  {
    if from > last then [] else PageItems(sorted, from) + PagesFrom(sorted, from + 1, last)
  }

  lemma {:induction false} PagesFromSuffix(sorted: seq<Signal>, from: int)
    requires 1 <= from <= TotalPages(|sorted|) + 1
    ensures PagesFrom(sorted, from, TotalPages(|sorted|))
            == sorted[Min((from - 1) * ItemsPerPage, |sorted|)..]
    decreases TotalPages(|sorted|) + 1 - from
  {
    var last := TotalPages(|sorted|);
    if from <= last {
      PagesFromSuffix(sorted, from + 1);
      assert (from - 1) * ItemsPerPage < |sorted|;
    }
  }

  /** Pages 1 to totalPages, laid end to end, give back the sorted list. */
  lemma PagesPartition(sorted: seq<Signal>)
    ensures PagesFrom(sorted, 1, TotalPages(|sorted|)) == sorted
  {
    PagesFromSuffix(sorted, 1);
  }

  /** Row i lies on page i / itemsPerPage + 1 and on no other page. */
  lemma RowOnExactlyOnePage(sorted: seq<Signal>, i: int)
    requires 0 <= i < |sorted|
    ensures var p := i / ItemsPerPage + 1;
      && 1 <= p <= TotalPages(|sorted|)
      && PageItems(sorted, p)[i - (p - 1) * ItemsPerPage] == sorted[i]
      && forall q :: 1 <= q && (q - 1) * ItemsPerPage <= i < q * ItemsPerPage ==> q == p
  {
  }

  // ---------------------------------------------------------------------
  // Table state and its controls

  datatype TableState = TableState(
    sortField: Field,
    sortDirection: Direction,
    filterText: string,
    currentPage: int)

  /** Newest first, no filter, page 1. */
  const InitialTable := TableState(CreatedAt, Desc, "", 1)

  /** Everything a render derives from the signals and the table state. */
  datatype View = View(sorted: seq<Signal>, totalPages: nat, page: int, rows: seq<Signal>)

  function Render(signals: seq<Signal>, st: TableState): (v: View)
    requires st.currentPage >= 1
    ensures multiset(v.sorted) == multiset(FilterSignals(signals, st.filterText))
    ensures SortedOn(st.sortField, st.sortDirection, v.sorted)
    ensures v.totalPages == TotalPages(|v.sorted|)
    ensures 1 <= v.page <= Max(1, v.totalPages)
    ensures |v.rows| <= ItemsPerPage
    ensures v.page == ClampPage(st.currentPage, v.totalPages)
    ensures v.rows == PageItems(v.sorted, v.page)
  {
    var sorted := SortSignals(st.sortField, st.sortDirection, FilterSignals(signals, st.filterText));
    var totalPages := TotalPages(|sorted|);
    var page := ClampPage(st.currentPage, totalPages);
    View(sorted, totalPages, page, PageItems(sorted, page))
  }

  /** Every row shown is one of the signals and matches the filter. */
  lemma RenderShowsOnlyMatches(signals: seq<Signal>, st: TableState, i: int)
    requires st.currentPage >= 1
    requires 0 <= i < |Render(signals, st).rows|
    ensures Render(signals, st).rows[i] in signals
    ensures Matches(st.filterText, Render(signals, st).rows[i])
  {
    var v := Render(signals, st);
    var x := v.rows[i];
    assert x in v.sorted;
    assert x in multiset(v.sorted);
    FilterSignalsExact(signals, st.filterText, x);
  }

  /** `handleFilterChange`: new filter text, back to page 1. */
  function HandleFilterChange(st: TableState, value: string): (st': TableState)
    ensures st'.filterText == value && st'.currentPage == 1
    ensures st'.sortField == st.sortField && st'.sortDirection == st.sortDirection
  {
    st.(filterText := value, currentPage := 1)
  }

  /** `handleSort`: the current column flips direction, another column starts ascending. */
  function HandleSort(st: TableState, field: Field): (st': TableState)
    ensures st'.sortField == field
    ensures st.sortField == field ==> st'.sortDirection != st.sortDirection
    ensures st.sortField != field ==> st'.sortDirection == Asc
    ensures st'.filterText == st.filterText && st'.currentPage == st.currentPage
  {
    if st.sortField == field then
      st.(sortDirection := if st.sortDirection == Asc then Desc else Asc)
    else
      st.(sortField := field, sortDirection := Asc)
  }

  /** Clicking the same header twice restores the order it started with. */
  lemma SortTwiceRestores(st: TableState, field: Field)
    ensures st.sortField == field ==> HandleSort(HandleSort(st, field), field) == st
    ensures st.sortField != field ==> HandleSort(HandleSort(st, field), field).sortDirection == Desc
  {
  }

  /** The previous-page link. */
  function PreviousPage(p: int): (q: int)
    ensures q >= 1
    ensures p > 1 ==> q == p - 1
    ensures p <= 1 ==> q == 1
  {
    Max(1, p - 1)
  }

  /** The next-page link, rendered only when there is more than one page. */
  function NextPage(p: int, totalPages: nat): (q: int)
    requires totalPages > 1
    ensures q <= totalPages
    ensures p < totalPages ==> q == p + 1
    ensures p >= totalPages ==> q == totalPages
  {
    Min(totalPages, p + 1)
  }

  datatype TableEvent =
    | FilterTyped(value: string)
    | HeaderClicked(field: Field)
    | PreviousClicked
    | NextClicked
    | PageClicked(page: int)
    | Rendered

  /** The table state after one event. The pagination links exist only when
      there is more than one page, so clicks on them do nothing otherwise.
      `Rendered` is the correction a render makes when the requested page lies
      beyond the last one. */
  function Step(signals: seq<Signal>, st: TableState, ev: TableEvent): (st': TableState)
    requires st.currentPage >= 1
    ensures st'.currentPage >= 1
    ensures !ev.FilterTyped? ==> st'.filterText == st.filterText
    ensures !ev.HeaderClicked? ==> st'.sortField == st.sortField && st'.sortDirection == st.sortDirection
    ensures ev.HeaderClicked? ==> st'.currentPage == st.currentPage
    ensures Render(signals, st).totalPages <= 1 && (ev.PreviousClicked? || ev.NextClicked? || ev.PageClicked?) ==>
              st' == st
    ensures ev.FilterTyped? ==> st' == HandleFilterChange(st, ev.value)
    ensures ev.HeaderClicked? ==> st' == HandleSort(st, ev.field)
    ensures var n := Render(signals, st).totalPages;
      && (n > 1 && ev.PreviousClicked? ==> st' == st.(currentPage := PreviousPage(st.currentPage)))
      && (n > 1 && ev.NextClicked? ==> st' == st.(currentPage := NextPage(st.currentPage, n)))
      && (ev.PageClicked? && n > 1 && 1 <= ev.page <= n ==> st' == st.(currentPage := ev.page))
      && (ev.PageClicked? && !(1 <= ev.page <= n) ==> st' == st)
    ensures var n := Render(signals, st).totalPages;
      ev.Rendered? ==> st' == if n > 0 then st.(currentPage := ClampPage(st.currentPage, n)) else st
  {
    var v := Render(signals, st);
    match ev
    case FilterTyped(value) => HandleFilterChange(st, value)
    case HeaderClicked(field) => HandleSort(st, field)
    case PreviousClicked =>
      if v.totalPages > 1 then st.(currentPage := PreviousPage(st.currentPage)) else st
    case NextClicked =>
      if v.totalPages > 1 then st.(currentPage := NextPage(st.currentPage, v.totalPages)) else st
    case PageClicked(page) =>
      if v.totalPages > 1 && 1 <= page <= v.totalPages then st.(currentPage := page) else st
    case Rendered =>
      if st.currentPage != v.page && v.totalPages > 0 then st.(currentPage := v.page) else st
  }

  /** The requested page never drops below 1; a Next click never passes the
      last page, and after a render the page lies on an existing page. */
  lemma StepKeepsPageInRange(signals: seq<Signal>, st: TableState, ev: TableEvent)
    requires st.currentPage >= 1
    ensures Step(signals, st, ev).currentPage >= 1
    ensures ev == NextClicked && Render(signals, st).totalPages > 1 ==>
              Step(signals, st, ev).currentPage <= Render(signals, st).totalPages
    ensures ev == Rendered && Render(signals, st).totalPages > 0 ==>
              Step(signals, st, ev).currentPage <= Render(signals, st).totalPages
    ensures ev.FilterTyped? ==> Step(signals, st, ev).currentPage == 1
  {
  }
}
