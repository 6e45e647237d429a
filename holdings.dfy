/**
 * A portfolio's entries as values, and what load_from_config, market_sync
 * and process_order do to them. The classes in module Portfolios are proved
 * against these definitions.
 */
module Holdings {
  import opened Ledger
  import opened Orders

  /** A portfolio's entries: tickers in dict insertion order, and the entry of each. */
  datatype Book = Book(tickers: seq<string>, entries: map<string, EntryState>)

  /** No ticker is listed twice: the last is not among the others, which are distinct in turn. */
  predicate Distinct(s: seq<string>)
  {
    |s| == 0 || (s[|s| - 1] !in s[..|s| - 1] && Distinct(s[..|s| - 1]))
  }

  /** Distinct lists have pairwise different elements. */
  lemma {:induction false} DistinctIndices(s: seq<string>, i: int, j: int)
    requires Distinct(s) && 0 <= i < |s| && 0 <= j < |s| && i != j
    ensures s[i] != s[j]
  {
    var init := s[..|s| - 1];
    if i == |s| - 1 {
      assert s[j] == init[j];
    } else if j == |s| - 1 {
      assert s[i] == init[i];
    } else {
      assert s[i] == init[i] && s[j] == init[j];
      DistinctIndices(init, i, j);
    }
  }

  /** Distinct lists have pairwise different elements, stated for all pairs at once. */
  lemma DistinctPairwise(s: seq<string>)
    requires Distinct(s)
    ensures forall i, j :: 0 <= i < j < |s| ==> s[i] != s[j]
  {
    forall i, j | 0 <= i < j < |s|
      ensures s[i] != s[j]
    {
      DistinctIndices(s, i, j);
    }
  }

  /** Conversely, a list whose elements are pairwise different is distinct. */
  lemma {:induction false} IndicesDistinct(s: seq<string>)
    requires forall i, j :: 0 <= i < j < |s| ==> s[i] != s[j]
    ensures Distinct(s)
  {
    if |s| > 0 {
      var init := s[..|s| - 1];
      assert forall i :: 0 <= i < |init| ==> init[i] == s[i];
      IndicesDistinct(init);
    }
  }

  /** Appending a ticker not yet listed keeps the list distinct. */
  lemma DistinctAppend(s: seq<string>, t: string)
    requires Distinct(s) && t !in s
    ensures Distinct(s + [t])
  {
    assert (s + [t])[..|s|] == s;
  }

  /** In a distinct list, an element does not occur before its own position. */
  lemma DistinctPrefix(s: seq<string>, n: int)
    requires Distinct(s) && 0 < n <= |s|
    ensures s[n - 1] !in s[..n - 1]
  {
    forall k | 0 <= k < n - 1
      ensures s[k] != s[n - 1]
    {
      DistinctIndices(s, k, n - 1);
    }
    assert forall k :: 0 <= k < n - 1 ==> s[..n - 1][k] == s[k];
  }

  /** Each ticker listed once, and the listed tickers are exactly the keys. */
  ghost predicate WellFormed(b: Book)
  {
    && Distinct(b.tickers)
    && (forall t :: t in b.entries <==> t in b.tickers)
  }

  /** The entries of a new Portfolio. */
  const EmptyBook: Book := Book([], map[])

  // ---------------------------------------------------------------------
  // Totals
  // ---------------------------------------------------------------------

  /**
   * The per-entry fields that are added up: the three calc_value totals, and
   * the unrealised gains, whose sum is the portfolio's unrealised gain.
   */
  datatype Column = OpenValue | MarketValue | CostValue | Gains

  function ColumnOf(e: EntryState, col: Column): real
  {
    match col
    case OpenValue => e.holdingOpenValue
    case MarketValue => e.holdingMarketValue
    case CostValue => e.costBasis
    case Gains => e.gains
  }

  /** A column summed over the entries of the first n tickers, in that order. */
  function PrefixTotal(tickers: seq<string>, n: nat, entries: map<string, EntryState>, col: Column): real
    requires n <= |tickers|
  {
    if n == 0 then 0.0
    else
      var t := tickers[n - 1];
      PrefixTotal(tickers, n - 1, entries, col) + (if t in entries then ColumnOf(entries[t], col) else 0.0)
  }

  /** A column summed over the entries of all the tickers. */
  function Total(tickers: seq<string>, entries: map<string, EntryState>, col: Column): real
  {
    PrefixTotal(tickers, |tickers|, entries, col)
  }

  /** A prefix total looks only at the tickers of the prefix. */
  lemma {:induction false} PrefixTotalOfPrefix(ts: seq<string>, us: seq<string>, n: nat,
                                               entries: map<string, EntryState>, col: Column)
    requires n <= |ts| && n <= |us| && ts[..n] == us[..n]
    ensures PrefixTotal(ts, n, entries, col) == PrefixTotal(us, n, entries, col)
  {
    if n > 0 {
      assert ts[n - 1] == ts[..n][n - 1] == us[n - 1];
      assert ts[..n - 1] == ts[..n][..n - 1];
      assert us[..n - 1] == us[..n][..n - 1];
      PrefixTotalOfPrefix(ts, us, n - 1, entries, col);
    }
  }

  /** The prefix-total form of TotalAfterUpdate. */
  lemma {:induction false} PrefixTotalAfterUpdate(tickers: seq<string>, n: nat, entries: map<string, EntryState>,
                                                  ticker: string, e: EntryState, col: Column)
    requires n <= |tickers| && Distinct(tickers)
    ensures PrefixTotal(tickers, n, entries[ticker := e], col) ==
      PrefixTotal(tickers, n, entries, col)
      + (if ticker in tickers[..n]
         then ColumnOf(e, col) - (if ticker in entries then ColumnOf(entries[ticker], col) else 0.0)
         else 0.0)
  {
    if n > 0 {
      PrefixTotalAfterUpdate(tickers, n - 1, entries, ticker, e, col);
      assert tickers[..n] == tickers[..n - 1] + [tickers[n - 1]];
      if ticker == tickers[n - 1] {
        DistinctPrefix(tickers, n);
      }
    }
  }

  /**
   * Replacing one entry changes a total by exactly the change in that entry's
   * field (when its ticker is listed once), and not at all when it is not listed.
   */
  lemma TotalAfterUpdate(tickers: seq<string>, entries: map<string, EntryState>,
                         ticker: string, e: EntryState, col: Column)
    requires Distinct(tickers)
    ensures Total(tickers, entries[ticker := e], col) ==
      Total(tickers, entries, col)
      + (if ticker in tickers
         then ColumnOf(e, col) - (if ticker in entries then ColumnOf(entries[ticker], col) else 0.0)
         else 0.0)
  {
    PrefixTotalAfterUpdate(tickers, |tickers|, entries, ticker, e, col);
    assert tickers[..|tickers|] == tickers;
  }

  /** When every entry's gains are its market value less its cost, so are the totals'. */
  lemma {:induction false} GainsAddUp(tickers: seq<string>, n: nat, entries: map<string, EntryState>)
    requires n <= |tickers|
    requires forall t :: t in entries ==> entries[t].gains == entries[t].holdingMarketValue - entries[t].costBasis
    ensures PrefixTotal(tickers, n, entries, Gains) ==
      PrefixTotal(tickers, n, entries, MarketValue) - PrefixTotal(tickers, n, entries, CostValue)
  {
    if n > 0 {
      GainsAddUp(tickers, n - 1, entries);
    }
  }

  // ---------------------------------------------------------------------
  // Storing an entry
  // ---------------------------------------------------------------------

  /** `stocks[ticker] = e`: a new key goes to the end of the order, an existing key keeps its place. */
  function Store(b: Book, ticker: string, e: EntryState): Book
  {
    if ticker in b.entries then Book(b.tickers, b.entries[ticker := e])
    else Book(b.tickers + [ticker], b.entries[ticker := e])
  }

  /**
   * Storing keeps the book well formed: the ticker maps to the entry, every
   * other key keeps its entry, and the order only grows at its end.
   */
  lemma StoreKeepsWellFormed(b: Book, ticker: string, e: EntryState)
    requires WellFormed(b)
    ensures var r := Store(b, ticker, e);
      && WellFormed(r)
      && r.entries == b.entries[ticker := e]
      && r.tickers[..|b.tickers|] == b.tickers
  {
    if ticker !in b.entries {
      DistinctAppend(b.tickers, ticker);
      assert (b.tickers + [ticker])[..|b.tickers|] == b.tickers;
    }
  }

  /** Storing an entry changes a total by exactly the change in that entry's field. */
  lemma StoreMovesTotals(b: Book, ticker: string, e: EntryState, col: Column)
    requires WellFormed(b)
    ensures var r := Store(b, ticker, e);
      Total(r.tickers, r.entries, col) ==
        Total(b.tickers, b.entries, col) + ColumnOf(e, col)
        - (if ticker in b.entries then ColumnOf(b.entries[ticker], col) else 0.0)
  {
    if ticker in b.entries {
      TotalAfterUpdate(b.tickers, b.entries, ticker, e, col);
    } else {
      var ts := b.tickers + [ticker];
      assert ts[..|b.tickers|] == b.tickers[..|b.tickers|];
      PrefixTotalOfPrefix(ts, b.tickers, |b.tickers|, b.entries[ticker := e], col);
      TotalAfterUpdate(b.tickers, b.entries, ticker, e, col);
    }
  }

  /**
   * The book after an entry was processed. The entry is stored when no
   * exception was raised; when one was, an entry already in the dict keeps
   * the changes made to it in place, and a new one is dropped.
   */
  function Commit(b: Book, ticker: string, e: EntryState, ok: bool): Book
  {
    if ok || ticker in b.entries then Store(b, ticker, e) else b
  }

  /** Committing keeps the book well formed; only a successful commit can add a key. */
  lemma CommitKeepsWellFormed(b: Book, ticker: string, e: EntryState, ok: bool)
    requires WellFormed(b)
    ensures var r := Commit(b, ticker, e, ok);
      && WellFormed(r)
      && (ok ==> r.entries == b.entries[ticker := e])
      && (!ok ==> r.entries.Keys == b.entries.Keys)
  {
    StoreKeepsWellFormed(b, ticker, e);
  }

  // ---------------------------------------------------------------------
  // load_from_config
  // ---------------------------------------------------------------------

  /**
   * One section of a portfolio definition: the ticker, its optional display
   * colour and graph flag, and its `transactions` text ("" when absent).
   */
  datatype Section = Section(ticker: string, color: Option<string>, graph: Option<string>, transactions: string)

  /**
   * One section: the existing entry for the ticker, or a fresh one carrying
   * the section's colour and graph flag, gets the section's orders.
   */
  function LoadSection(b: Book, sec: Section, toFloat: string -> Option<real>): (Book, bool)
  {
    var e := if sec.ticker in b.entries then b.entries[sec.ticker] else FreshEntry(sec.ticker, sec.graph, sec.color);
    var done := ApplyOrders(e, Split(sec.transactions, ','), toFloat);
    (Commit(b, sec.ticker, done.0, done.1), done.1)
  }

  /** The loop over sections; an exception in one section ends the load. */
  function LoadSections(b: Book, sections: seq<Section>, toFloat: string -> Option<real>): (Book, bool)
    decreases |sections|
  {
    if |sections| == 0 then (b, true)
    else
      var prev := LoadSections(b, sections[..|sections| - 1], toFloat);
      if !prev.1 then prev else LoadSection(prev.0, sections[|sections| - 1], toFloat)
  }

  /** A load keeps the book well formed, section by section. */
  lemma {:induction false} LoadKeepsWellFormed(b: Book, sections: seq<Section>, toFloat: string -> Option<real>)
    requires WellFormed(b)
    ensures WellFormed(LoadSections(b, sections, toFloat).0)
    decreases |sections|
  {
    if |sections| > 0 {
      var prev := LoadSections(b, sections[..|sections| - 1], toFloat);
      LoadKeepsWellFormed(b, sections[..|sections| - 1], toFloat);
      if prev.1 {
        var sec := sections[|sections| - 1];
        var e := if sec.ticker in prev.0.entries then prev.0.entries[sec.ticker]
                 else FreshEntry(sec.ticker, sec.graph, sec.color);
        var done := ApplyOrders(e, Split(sec.transactions, ','), toFloat);
        CommitKeepsWellFormed(prev.0, sec.ticker, done.0, done.1);
      }
    }
  }

  /** Once a section has failed, the later sections are not looked at. */
  lemma {:induction false} LoadFailureStops(b: Book, sections: seq<Section>, k: nat, toFloat: string -> Option<real>)
    requires k <= |sections|
    requires !LoadSections(b, sections[..k], toFloat).1
    ensures LoadSections(b, sections, toFloat) == LoadSections(b, sections[..k], toFloat)
    decreases |sections| - k
  {
    if k < |sections| {
      var init := sections[..|sections| - 1];
      assert init[..k] == sections[..k];
      LoadFailureStops(b, init, k, toFloat);
    } else {
      assert sections[..k] == sections;
    }
  }

  /** A load that completes has an entry for every section's ticker, new or not. */
  lemma {:induction false} LoadedTickers(b: Book, sections: seq<Section>, toFloat: string -> Option<real>)
    requires LoadSections(b, sections, toFloat).1
    ensures b.entries.Keys <= LoadSections(b, sections, toFloat).0.entries.Keys
    ensures forall i :: 0 <= i < |sections| ==> sections[i].ticker in LoadSections(b, sections, toFloat).0.entries
    decreases |sections|
  {
    if |sections| > 0 {
      var init := sections[..|sections| - 1];
      LoadedTickers(b, init, toFloat);
      assert forall i :: 0 <= i < |init| ==> init[i] == sections[i];
      var prev := LoadSections(b, init, toFloat).0;
      var sec := sections[|sections| - 1];
      var e := if sec.ticker in prev.entries then prev.entries[sec.ticker]
               else FreshEntry(sec.ticker, sec.graph, sec.color);
      var done := ApplyOrders(e, Split(sec.transactions, ','), toFloat);
      assert LoadSections(b, sections, toFloat).0 == Store(prev, sec.ticker, done.0);
    }
  }

  /** A section whose orders are all malformed adds its ticker with the entry it had, or a fresh one. */
  lemma MalformedSectionAddsEntry(b: Book, sec: Section, toFloat: string -> Option<real>)
    requires AllMalformed(Split(sec.transactions, ','))
    ensures LoadSection(b, sec, toFloat).1
    ensures LoadSection(b, sec, toFloat).0.entries[sec.ticker] ==
      if sec.ticker in b.entries then b.entries[sec.ticker] else FreshEntry(sec.ticker, sec.graph, sec.color)
  {
    var e := if sec.ticker in b.entries then b.entries[sec.ticker] else FreshEntry(sec.ticker, sec.graph, sec.color);
    var orders := Split(sec.transactions, ',');
    MalformedOrdersSkipped(e, orders, toFloat);
  }

  // ---------------------------------------------------------------------
  // market_sync
  // ---------------------------------------------------------------------

  /** Fetched market data: a non-empty series (NaNs already removed) for each ticker present. */
  predicate ValidFetch(fetched: map<string, seq<real>>)
  {
    forall t :: t in fetched ==> |fetched[t]| > 0
  }

  /** The series a ticker gets: the fetched one, or `[0]` when the data has none for it. */
  function FetchedSeries(fetched: map<string, seq<real>>, ticker: string): (s: seq<real>)
    requires ValidFetch(fetched)
    ensures |s| > 0
    ensures ticker !in fetched ==> s == Uninitialised
  {
    if ticker in fetched then fetched[ticker] else Uninitialised
  }

  /** market_sync on the entries: nothing when there are none, else every entry refreshed. */
  function Refresh(b: Book, fetched: map<string, seq<real>>): Book
    requires ValidFetch(fetched)
  {
    if |b.tickers| == 0 then b
    else Book(b.tickers, map t | t in b.entries :: SyncStep(b.entries[t], FetchedSeries(fetched, t)))
  }

  /**
   * A refresh keeps the tickers, their order and the keys, so the book stays
   * well formed, and replaces each entry by its sync with its fetched series.
   */
  lemma RefreshSyncsEveryEntry(b: Book, fetched: map<string, seq<real>>)
    requires ValidFetch(fetched)
    ensures var r := Refresh(b, fetched);
      && r.tickers == b.tickers && r.entries.Keys == b.entries.Keys
      && (WellFormed(b) ==> WellFormed(r))
      && (|b.tickers| > 0 ==>
            forall t :: t in b.entries ==> r.entries[t] == SyncStep(b.entries[t], FetchedSeries(fetched, t)))
  {
  }

  /**
   * Visiting the first n tickers in order, replacing the value held under each
   * visited ticker by `step` applied to it; tickers not held are passed over.
   */
  function Visit<E(!new)>(m: map<string, E>, tickers: seq<string>, n: nat, step: (string, E) --> E): map<string, E>
    requires n <= |tickers|
    requires forall t, e :: step.requires(t, e)
  {
    if n == 0 then m
    else
      var prev := Visit(m, tickers, n - 1, step);
      var t := tickers[n - 1];
      if t in prev then prev[t := step(t, prev[t])] else prev
  }

  /** Over distinct tickers that are exactly the keys, each visited value is stepped once. */
  lemma {:induction false} VisitAt<E(!new)>(m: map<string, E>, tickers: seq<string>, n: nat, step: (string, E) --> E)
    requires n <= |tickers| && forall t, e :: step.requires(t, e)
    requires forall i, j :: 0 <= i < j < |tickers| ==> tickers[i] != tickers[j]
    requires forall t :: t in m <==> t in tickers
    ensures Visit(m, tickers, n, step).Keys == m.Keys
    ensures forall k :: 0 <= k < |tickers| ==>
      Visit(m, tickers, n, step)[tickers[k]] ==
        if k < n then step(tickers[k], m[tickers[k]]) else m[tickers[k]]
  {
    if n > 0 {
      VisitAt(m, tickers, n - 1, step);
    }
  }

  /** The loop of market_sync after its first n tickers: one entry synced per step. */
  function SyncPrefix(entries: map<string, EntryState>, tickers: seq<string>, n: nat,
                      fetched: map<string, seq<real>>): map<string, EntryState>
    requires n <= |tickers| && ValidFetch(fetched)
  {
    Visit(entries, tickers, n, (t, e) requires ValidFetch(fetched) => SyncStep(e, FetchedSeries(fetched, t)))
  }

  /** After all the steps, each entry has been synced with its own series, once. */
  lemma SyncPrefixAt(b: Book, fetched: map<string, seq<real>>)
    requires WellFormed(b) && ValidFetch(fetched)
    ensures SyncPrefix(b.entries, b.tickers, |b.tickers|, fetched).Keys == b.entries.Keys
    ensures forall t :: t in b.entries ==>
      SyncPrefix(b.entries, b.tickers, |b.tickers|, fetched)[t] == SyncStep(b.entries[t], FetchedSeries(fetched, t))
  {
    DistinctPairwise(b.tickers);
    var step := (t, e) requires ValidFetch(fetched) => SyncStep(e, FetchedSeries(fetched, t));
    VisitAt(b.entries, b.tickers, |b.tickers|, step);
    forall t | t in b.entries
      ensures SyncPrefix(b.entries, b.tickers, |b.tickers|, fetched)[t] == SyncStep(b.entries[t], FetchedSeries(fetched, t))
    {
      var k :| 0 <= k < |b.tickers| && b.tickers[k] == t;
    }
  }

  /** Syncing the tickers one by one, in dict order, gives the refreshed entries. */
  lemma SyncPrefixIsRefresh(b: Book, fetched: map<string, seq<real>>)
    requires WellFormed(b) && |b.tickers| > 0 && ValidFetch(fetched)
    ensures SyncPrefix(b.entries, b.tickers, |b.tickers|, fetched) == Refresh(b, fetched).entries
  {
    SyncPrefixAt(b, fetched);
    RefreshSyncsEveryEntry(b, fetched);
    SameEntries(SyncPrefix(b.entries, b.tickers, |b.tickers|, fetched), Refresh(b, fetched).entries);
  }

  /** Two entry maps with the same keys and the same entry under each key are equal. */
  lemma SameEntries(m: map<string, EntryState>, r: map<string, EntryState>)
    requires m.Keys == r.Keys
    requires forall t :: t in m ==> m[t] == r[t]
    ensures m == r
  {
  }

  /** The state of the market_sync loop after its first i tickers, as an invariant. */
  ghost predicate SyncedUpTo(now: map<string, EntryState>, entries: map<string, EntryState>, tickers: seq<string>, i: nat,
                             fetched: map<string, seq<real>>)
  {
    i <= |tickers| && ValidFetch(fetched) && now == SyncPrefix(entries, tickers, i, fetched)
  }

  /** Syncing the entry of the next ticker and storing it advances the loop by one ticker. */
  lemma SyncPrefixNext(b: Book, entries: map<string, EntryState>, tickers: seq<string>, i: nat,
                       fetched: map<string, seq<real>>)
    requires i < |tickers| && tickers[i] in b.entries
    requires SyncedUpTo(b.entries, entries, tickers, i, fetched)
    ensures SyncedUpTo(Store(b, tickers[i], SyncStep(b.entries[tickers[i]], FetchedSeries(fetched, tickers[i]))).entries, entries, tickers, i + 1, fetched)
  {
  }

  /** When the loop has visited every ticker, the book is the refreshed book. */
  lemma SyncedAllIsRefresh(b: Book, now: Book, fetched: map<string, seq<real>>)
    requires WellFormed(b) && |b.tickers| > 0 && now.tickers == b.tickers
    requires SyncedUpTo(now.entries, b.entries, b.tickers, |b.tickers|, fetched)
    ensures now == Refresh(b, fetched)
  {
    SyncPrefixIsRefresh(b, fetched);
  }

  /** Syncing with the uninitialised series zeroes the statistics and holding values. */
  lemma SyncUninitialised(e: EntryState)
    ensures var r := SyncStep(e, Uninitialised);
      && r.stock.data == Uninitialised
      && r.stock.stats == Stats(0.0, 0.0, 0.0, 0.0, 0.0, 0.0, 0.0)
      && r.holdingMarketValue == 0.0 && r.holdingOpenValue == 0.0
      && r.gains == -e.costBasis
  {
    SentinelStatsAreZero();
    var r := SyncStep(e, Uninitialised);
    assert r.stock.stats == ComputeStats(Uninitialised);
  }

  /**
   * A ticker missing from the fetched data is not kept stale: its series
   * becomes `[0]`, its statistics and holding values 0, and its gains minus
   * its cost basis.
   */
  lemma RefreshResetsMissingTicker(b: Book, fetched: map<string, seq<real>>, t: string)
    requires ValidFetch(fetched) && WellFormed(b) && t in b.entries && t !in fetched
    ensures var e := Refresh(b, fetched).entries[t];
      && e.stock.data == Uninitialised
      && e.stock.stats == Stats(0.0, 0.0, 0.0, 0.0, 0.0, 0.0, 0.0)
      && e.holdingMarketValue == 0.0 && e.holdingOpenValue == 0.0
      && e.gains == -b.entries[t].costBasis
  {
    assert |b.tickers| > 0;
    assert FetchedSeries(fetched, t) == Uninitialised;
    SyncUninitialised(b.entries[t]);
  }

  /** Syncing an entry twice with the same series is syncing it once. */
  lemma SyncTwice(e: EntryState, data: seq<real>)
    requires |data| > 0
    ensures SyncStep(SyncStep(e, data), data) == SyncStep(e, data)
  {
    var r := SyncStep(e, data);
    var r2 := SyncStep(r, data);
    assert r2.stock == r.stock;
    assert r2.holdingMarketValue == r.holdingMarketValue;
    assert r2.holdingOpenValue == r.holdingOpenValue;
    assert r2.gains == r.gains;
    assert r2.gainsPerShare == r.gainsPerShare;
  }

  /** Refreshing twice with the same data is refreshing once. */
  lemma RefreshIdempotent(b: Book, fetched: map<string, seq<real>>)
    requires ValidFetch(fetched)
    ensures Refresh(Refresh(b, fetched), fetched) == Refresh(b, fetched)
  {
    var r := Refresh(b, fetched);
    if |b.tickers| > 0 {
      var rr := Refresh(r, fetched);
      forall t | t in b.entries ensures rr.entries[t] == r.entries[t] {
        SyncTwice(b.entries[t], FetchedSeries(fetched, t));
      }
      assert rr.entries == r.entries;
    }
  }

  /** After a refresh the portfolio's unrealised gain is its market value less its cost value. */
  lemma RefreshedGainsAddUp(b: Book, fetched: map<string, seq<real>>)
    requires ValidFetch(fetched) && WellFormed(b) && |b.tickers| > 0
    ensures var r := Refresh(b, fetched);
      Total(r.tickers, r.entries, Gains) == Total(r.tickers, r.entries, MarketValue) - Total(r.tickers, r.entries, CostValue)
  {
    GainsAddUp(b.tickers, |b.tickers|, Refresh(b, fetched).entries);
  }

  // ---------------------------------------------------------------------
  // process_order
  // ---------------------------------------------------------------------

  /**
   * process_order on the entries: the ticker's entry, created fresh when
   * missing, processes the transaction; the flag says whether no exception
   * was raised.
   */
  function Order(b: Book, ticker: string, t: Transaction): (Book, bool)
    requires Runnable(t)
  {
    var e := if ticker in b.entries then b.entries[ticker] else FreshEntry(ticker, None, None);
    var ok := !Raises(e, t);
    (Commit(b, ticker, Apply(e, t), ok), ok)
  }

  /**
   * An order changes only its own ticker's entry and keeps the book well
   * formed; the ticker becomes a key unless the order raised.
   */
  lemma OrderTouchesOnlyTicker(b: Book, ticker: string, t: Transaction)
    requires WellFormed(b) && Runnable(t)
    ensures var r := Order(b, ticker, t);
      && WellFormed(r.0)
      && (forall u :: u in b.entries && u != ticker ==> u in r.0.entries && r.0.entries[u] == b.entries[u])
      && (r.1 ==> r.0.entries.Keys == b.entries.Keys + {ticker})
      && (!r.1 ==> r.0.entries.Keys == b.entries.Keys)
  {
    var e := if ticker in b.entries then b.entries[ticker] else FreshEntry(ticker, None, None);
    CommitKeepsWellFormed(b, ticker, Apply(e, t), !Raises(e, t));
  }

  /**
   * Each total changes by exactly the change in the ordered ticker's field:
   * after an order the recomputed totals need not be recomputed from scratch.
   */
  lemma OrderMovesTotalsByEntry(b: Book, ticker: string, t: Transaction, col: Column)
    requires WellFormed(b) && Runnable(t)
    ensures var r := Order(b, ticker, t);
      r.1 ==>
        Total(r.0.tickers, r.0.entries, col) ==
          Total(b.tickers, b.entries, col)
          + ColumnOf(r.0.entries[ticker], col)
          - (if ticker in b.entries then ColumnOf(b.entries[ticker], col) else 0.0)
  {
    var e0 := if ticker in b.entries then b.entries[ticker] else FreshEntry(ticker, None, None);
    var e := Apply(e0, t);
    if !Raises(e0, t) {
      assert Order(b, ticker, t).0 == Store(b, ticker, e);
      StoreMovesTotals(b, ticker, e, col);
    }
  }

  /** Every entry of the book keeps the ledger invariant. */
  predicate AllConsistent(b: Book)
  {
    forall t :: t in b.entries ==> Consistent(b.entries[t])
  }

  /**
   * Orders keep every entry consistent as long as a BUY keeps the count
   * positive and a SELL does not sell more than is held.
   */
  lemma OrderKeepsConsistent(b: Book, ticker: string, t: Transaction)
    requires AllConsistent(b) && (t.Buy? || t.Sell?)
    requires var held := if ticker in b.entries then b.entries[ticker].count else 0.0;
      (t.Buy? ==> held + t.count > 0.0) && (t.Sell? ==> t.count <= held)
    ensures AllConsistent(Order(b, ticker, t).0)
  {
    var e := if ticker in b.entries then b.entries[ticker] else FreshEntry(ticker, None, None);
    FreshEntryConsistent(ticker, None, None);
    ApplyKeepsConsistent(e, t);
  }
}
