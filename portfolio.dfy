/**
 * The objects of a portfolio: PortfolioEntry, whose fields process_transaction
 * updates in place, and Portfolio, whose `stocks` dict load_from_config,
 * market_sync and process_order fill and whose totals calc_value rebuilds.
 * Each method is proved against the value functions of modules Ledger and
 * Holdings.
 */
module Portfolios {
  import opened Ledger
  import opened Orders
  import opened Holdings

  class PortfolioEntry {
    var stock: Stock
    var count: real
    var averageCost: real
    var graph: Option<string>
    var color: Option<string>
    var realizedGains: real
    var holdingOpenValue: real
    var holdingMarketValue: real
    var costBasis: real
    var gains: real
    var gainsPerShare: real

    /** The entry's fields as a value. */
    function State(): EntryState
      reads this
    {
      EntryState(stock, count, averageCost, graph, color, realizedGains,
                 holdingOpenValue, holdingMarketValue, costBasis, gains, gainsPerShare)
    }

    /** The dataclass constructor followed by __post_init__: derived fields start at 0. */
    constructor (stock: Stock, count: real, averageCost: real, graph: Option<string>, color: Option<string>)
      ensures State() == NewEntry(stock, count, averageCost, graph, color)
    {
      this.stock := stock;
      this.count := count;
      this.averageCost := averageCost;
      this.graph := graph;
      this.color := color;
      realizedGains := 0.0;
      holdingOpenValue := 0.0;
      holdingMarketValue := 0.0;
      costBasis := 0.0;
      gains := 0.0;
      gainsPerShare := 0.0;
    }

    /** An entry object holding a copy of the value `s`; see Portfolio below. */
    constructor FromState(s: EntryState)
      ensures State() == s
    {
      stock := s.stock;
      count := s.count;
      averageCost := s.averageCost;
      graph := s.graph;
      color := s.color;
      realizedGains := s.realizedGains;
      holdingOpenValue := s.holdingOpenValue;
      holdingMarketValue := s.holdingMarketValue;
      costBasis := s.costBasis;
      gains := s.gains;
      gainsPerShare := s.gainsPerShare;
    }

    /**
     * process_transaction. `ok` is false when the BUY raised ZeroDivisionError,
     * in which case the count and cost basis have already been updated.
     */
    method ProcessTransaction(t: Transaction) returns (ok: bool)
      requires Runnable(t)
      modifies this
      ensures State() == Apply(old(State()), t)
      ensures ok == !Raises(old(State()), t)
    {
      ok := true;
      match t
      case NoTransaction =>
      case Buy(c, p) =>
        ok := ProcessBuy(c, p);
      case Sell(c, p) =>
        ProcessSell(c, p);
      case MarketSync(data) =>
        ProcessMarketSync(data);
    }

    /** The BUY branch; it stops at the division when the new count is 0. */
    method ProcessBuy(c: real, p: real) returns (ok: bool)
      modifies this
      ensures State() == BuyStep(old(State()), c, p)
      ensures ok <==> old(count) + c != 0.0
    {
      count := count + c;
      costBasis := costBasis + c * p;
      if count == 0.0 {
        return false;
      }
      averageCost := costBasis / count;
      ok := true;
    }

    /** The SELL branch. */
    method ProcessSell(c: real, p: real)
      modifies this
      ensures State() == SellStep(old(State()), c, p)
    {
      realizedGains := realizedGains + (p - averageCost) * c;
      count := count - c;
      costBasis := costBasis - c * averageCost;
      averageCost := if count > 0.0 then costBasis / count else 0.0;
    }

    /** The MARKET_SYNC branch: the stock gets the series and recomputes its statistics. */
    method ProcessMarketSync(data: seq<real>)
      requires |data| > 0
      modifies this
      ensures State() == SyncStep(old(State()), data)
    {
      stock := NewStock(stock.symbol, data);
      holdingMarketValue := stock.stats.currValue * count;
      holdingOpenValue := stock.stats.openValue * count;
      gains := holdingMarketValue - costBasis;
      gainsPerShare := if count > 0.0 then gains / count else 0.0;
    }
  }

  /** One order of a `transactions` list: parsed, converted and, when well formed, processed. */
  method ApplyOrderText(entry: PortfolioEntry, order: string, toFloat: string -> Option<real>) returns (status: Status)
    modifies entry
    ensures (entry.State(), status) == ApplyOrder(old(entry.State()), order, toFloat)
  {
    WordsIgnoreStrip(order);
    var parts := Words(Strip(order));
    if |parts| != 2 {
      return Skipped;
    }
    if parts[0] != "buy" && parts[0] != "sell" {
      return Skipped;
    }
    var priceParts := Split(parts[1], '@');
    if |priceParts| != 2 {
      return Skipped;
    }
    var count := toFloat(priceParts[0]);
    if count.None? {
      return BadNumber;
    }
    var price := toFloat(priceParts[1]);
    if price.None? {
      return BadNumber;
    }
    var kind := if parts[0] == "buy" then BuyOrder else SellOrder;
    var ok := entry.ProcessTransaction(OrderTransaction(kind, count.value, price.value));
    status := if ok then Applied else DivisionByZero;
  }

  /**
   * A Portfolio. `stocks` holds each entry by value, with `tickers` giving
   * the dict's insertion order; an operation on an entry works on a
   * PortfolioEntry object holding the entry and stores the object's final
   * value back under its ticker.
   */
  class Portfolio {
    /** The keys of `stocks` in insertion order. */
    var tickers: seq<string>
    var stocks: map<string, EntryState>
    var openMarketValue: real
    var costValue: real
    var marketValue: real

    /** The dict as a value. */
    function Contents(): Book
      reads this`tickers, this`stocks
    {
      Book(tickers, stocks)
    }

    /** Every ticker listed once, and the listed tickers are exactly the keys. */
    ghost predicate Valid()
      reads this`tickers, this`stocks
    {
      WellFormed(Contents())
    }

    /** The three totals are the sums of the entries' fields. */
    ghost predicate TotalsMatch()
      reads this
    {
      && openMarketValue == Total(tickers, stocks, OpenValue)
      && marketValue == Total(tickers, stocks, MarketValue)
      && costValue == Total(tickers, stocks, CostValue)
    }

    constructor ()
      ensures Valid() && Contents() == EmptyBook
      ensures openMarketValue == 0.0 && costValue == 0.0 && marketValue == 0.0
    {
      tickers := [];
      stocks := map[];
      openMarketValue := 0.0;
      costValue := 0.0;
      marketValue := 0.0;
    }

    /**
     * calc_value: the totals rebuilt from zero as sums over the entries, so a
     * second call gives the same totals.
     */
    method CalcValue()
      requires Valid()
      modifies this`openMarketValue, this`costValue, this`marketValue
      ensures TotalsMatch()
    {
      var open, market, cost := 0.0, 0.0, 0.0;
      var i := 0;
      while i < |tickers|
        invariant 0 <= i <= |tickers|
        invariant open == PrefixTotal(tickers, i, stocks, OpenValue)
        invariant market == PrefixTotal(tickers, i, stocks, MarketValue)
        invariant cost == PrefixTotal(tickers, i, stocks, CostValue)
      {
        var entry := stocks[tickers[i]];
        open := open + entry.holdingOpenValue;
        market := market + entry.holdingMarketValue;
        cost := cost + entry.costBasis;
        i := i + 1;
      }
      openMarketValue, marketValue, costValue := open, market, cost;
    }

    /** get_stock: the entry of a listed ticker, None for any other. */
    method GetStock(symbol: string) returns (r: Option<EntryState>)
      requires Valid()
      ensures r.Some? <==> symbol in tickers
      ensures r.Some? ==> r.value == stocks[symbol]
    {
      r := if symbol in stocks then Some(stocks[symbol]) else None;
    }

    /** `stocks[ticker] = e`: a new key goes to the end of the order, an existing one keeps its place. */
    method Put(ticker: string, e: EntryState)
      requires Valid()
      modifies this`tickers, this`stocks
      ensures Valid()
      ensures Contents() == Store(old(Contents()), ticker, e)
    {
      StoreKeepsWellFormed(Contents(), ticker, e);
      if ticker !in stocks {
        tickers := tickers + [ticker];
      }
      stocks := stocks[ticker := e];
    }

    /**
     * One section of load_from_config. On an exception the entry keeps the
     * orders already processed, and is stored only if it was already held.
     */
    method LoadSection(sec: Section, toFloat: string -> Option<real>) returns (ok: bool)
      requires Valid()
      modifies this`tickers, this`stocks
      ensures Valid()
      ensures (Contents(), ok) == Holdings.LoadSection(old(Contents()), sec, toFloat)
    {
      var held := sec.ticker in stocks;
      var entry: PortfolioEntry;
      if held {
        entry := new PortfolioEntry.FromState(stocks[sec.ticker]);
      } else {
        entry := new PortfolioEntry(NewStock(sec.ticker, Uninitialised), 0.0, 0.0, sec.graph, sec.color);
      }
      ok := ApplyOrderTexts(entry, Split(sec.transactions, ','), toFloat);
      if ok || held {
        Put(sec.ticker, entry.State());
      }
    }

    /**
     * load_from_config over the parsed sections, in file order; a ValueError
     * or ZeroDivisionError ends the load before the totals are recomputed.
     */
    method LoadFromConfig(sections: seq<Section>, toFloat: string -> Option<real>) returns (ok: bool)
      requires Valid()
      modifies this
      ensures Valid()
      ensures (Contents(), ok) == LoadSections(old(Contents()), sections, toFloat)
      ensures ok ==> TotalsMatch()
      ensures !ok ==> openMarketValue == old(openMarketValue) && costValue == old(costValue)
                      && marketValue == old(marketValue)
    {
      var i := 0;
      ok := true;
      while i < |sections|
        invariant 0 <= i <= |sections|
        invariant Valid()
        invariant LoadSections(old(Contents()), sections[..i], toFloat) == (Contents(), true)
        invariant openMarketValue == old(openMarketValue) && costValue == old(costValue)
        invariant marketValue == old(marketValue)
      {
        ok := LoadSection(sections[i], toFloat);
        assert sections[..i + 1][..i] == sections[..i];
        if !ok {
          LoadFailureStops(old(Contents()), sections, i + 1, toFloat);
          return;
        }
        i := i + 1;
      }
      assert sections[..|sections|] == sections;
      CalcValue();
    }

    /** One step of market_sync: the entry's stock gets the series and the holding values are recomputed. */
    method SyncEntry(ticker: string, data: seq<real>)
      requires Valid() && ticker in stocks && |data| > 0
      modifies this`tickers, this`stocks
      ensures Valid()
      ensures Contents() == Store(old(Contents()), ticker, SyncStep(old(stocks[ticker]), data))
    {
      var entry := new PortfolioEntry.FromState(stocks[ticker]);
      var _ := entry.ProcessTransaction(Transaction.MarketSync(data));
      Put(ticker, entry.State());
    }

    /** The loop of market_sync: each held entry, in dict order, gets its series. */
    method SyncAll(fetched: map<string, seq<real>>)
      requires Valid() && ValidFetch(fetched) && |tickers| > 0
      modifies this`tickers, this`stocks
      ensures Valid()
      ensures Contents() == Refresh(old(Contents()), fetched)
    {
      var stockList := tickers;
      var i := 0;
      while i < |stockList|
        invariant 0 <= i <= |stockList|
        invariant Valid() && tickers == stockList
        invariant SyncedUpTo(stocks, old(stocks), stockList, i, fetched)
      {
        SyncPrefixNext(Contents(), old(stocks), stockList, i, fetched);
        SyncEntry(stockList[i], FetchedSeries(fetched, stockList[i]));
        i := i + 1;
      }
      SyncedAllIsRefresh(old(Contents()), Contents(), fetched);
    }

    /**
     * market_sync with the fetched data given: nothing when no entry is held;
     * otherwise every entry gets its series (or `[0]`) and the totals are rebuilt.
     */
    method MarketSync(fetched: map<string, seq<real>>)
      requires Valid() && ValidFetch(fetched)
      modifies this
      ensures Valid()
      ensures Contents() == Refresh(old(Contents()), fetched)
      ensures |old(tickers)| == 0 ==> unchanged(this)
      ensures |old(tickers)| > 0 ==> TotalsMatch()
    {
      if |tickers| == 0 {
        return;
      }
      SyncAll(fetched);
      CalcValue();
    }

    /**
     * The entry step of process_order: the ticker's entry, a fresh one when it
     * is not held, processes the transaction and is stored. A BUY that raises
     * leaves a held entry changed in place and drops a fresh one.
     */
    method OrderEntry(ticker: string, t: Transaction) returns (ok: bool)
      requires Valid() && !t.MarketSync?
      modifies this`tickers, this`stocks
      ensures Valid()
      ensures (Contents(), ok) == Order(old(Contents()), ticker, t)
    {
      var held := ticker in stocks;
      var entry: PortfolioEntry;
      if held {
        entry := new PortfolioEntry.FromState(stocks[ticker]);
      } else {
        entry := new PortfolioEntry(NewStock(ticker, Uninitialised), 0.0, 0.0, None, None);
      }
      ok := entry.ProcessTransaction(t);
      if ok || held {
        Put(ticker, entry.State());
      }
    }

    /**
     * The portfolio's part of process_order: the entry step, then calc_value,
     * which an exception in the entry step skips.
     */
    method ProcessOrder(ticker: string, t: Transaction) returns (ok: bool)
      requires Valid() && !t.MarketSync?
      modifies this
      ensures Valid()
      ensures (Contents(), ok) == Order(old(Contents()), ticker, t)
      ensures ok ==> TotalsMatch()
      ensures !ok ==> openMarketValue == old(openMarketValue) && costValue == old(costValue)
                      && marketValue == old(marketValue)
    {
      ok := OrderEntry(ticker, t);
      if ok {
        CalcValue();
      }
    }
  }

  /** Every portfolio of the set is well formed. */
  ghost predicate AllValid(ps: set<Portfolio>)
    reads ps
  {
    forall p :: p in ps ==> p.Valid()
  }

  /** Portfolios drawn from a well-formed set, or equal to one well-formed portfolio, are well formed. */
  lemma AllValidWithin(ps: set<Portfolio>, qs: set<Portfolio>, p: Portfolio)
    requires AllValid(qs) && p.Valid() && ps <= qs + {p}
    ensures AllValid(ps)
  {
  }

  /** The orders of one section in turn, stopping at the first that raises. */
  method ApplyOrderTexts(entry: PortfolioEntry, orders: seq<string>, toFloat: string -> Option<real>) returns (ok: bool)
    modifies entry
    ensures (entry.State(), ok) == ApplyOrders(old(entry.State()), orders, toFloat)
  {
    var i := 0;
    ok := true;
    while i < |orders|
      invariant 0 <= i <= |orders|
      invariant ApplyOrders(old(entry.State()), orders[..i], toFloat) == (entry.State(), true)
    {
      var status := ApplyOrderText(entry, orders[i], toFloat);
      assert orders[..i + 1][..i] == orders[..i];
      if status.Fails() {
        FailureStops(old(entry.State()), orders, i + 1, toFloat);
        return false;
      }
      i := i + 1;
    }
    assert orders[..|orders|] == orders;
  }
}
