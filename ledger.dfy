/**
 * Price-series statistics of a Stock and the per-ticker position ledger of a
 * PortfolioEntry, as values. Python floats are modelled as `real`.
 */
module Ledger {

  datatype Option<+T> = None | Some(value: T)

  // ---------------------------------------------------------------------
  // Price series
  // ---------------------------------------------------------------------

  /** Python's max() over a non-empty series. */
  function Max(s: seq<real>): real
    requires |s| > 0
  {
    if |s| == 1 then s[0]
    else
      var m := Max(s[..|s| - 1]);
      if s[|s| - 1] > m then s[|s| - 1] else m
  }

  /** max() is an element of the series and no element exceeds it. */
  lemma {:induction false} MaxIsMaximum(s: seq<real>)
    requires |s| > 0
    ensures forall i :: 0 <= i < |s| ==> s[i] <= Max(s)
    ensures Max(s) in s
  {
    if |s| > 1 {
      var init := s[..|s| - 1];
      MaxIsMaximum(init);
      assert forall i :: 0 <= i < |init| ==> init[i] == s[i];
      var k :| 0 <= k < |init| && init[k] == Max(init);
      assert s[k] == Max(init);
    }
  }

  /** Python's min() over a non-empty series. */
  function Min(s: seq<real>): real
    requires |s| > 0
  {
    if |s| == 1 then s[0]
    else
      var m := Min(s[..|s| - 1]);
      if s[|s| - 1] < m then s[|s| - 1] else m
  }

  /** min() is an element of the series and no element is below it. */
  lemma {:induction false} MinIsMinimum(s: seq<real>)
    requires |s| > 0
    ensures forall i :: 0 <= i < |s| ==> Min(s) <= s[i]
    ensures Min(s) in s
  {
    if |s| > 1 {
      var init := s[..|s| - 1];
      MinIsMinimum(init);
      assert forall i :: 0 <= i < |init| ==> init[i] == s[i];
      var k :| 0 <= k < |init| && init[k] == Min(init);
      assert s[k] == Min(init);
    }
  }

  /** Python's sum(): the elements added from left to right, starting at 0. */
  function Sum(s: seq<real>): real
  {
    if |s| == 0 then 0.0 else Sum(s[..|s| - 1]) + s[|s| - 1]
  }

  /** A sum of |s| elements lies between |s| times any lower and any upper bound. */
  lemma {:induction false} SumBetween(s: seq<real>, lo: real, hi: real)
    requires forall i :: 0 <= i < |s| ==> lo <= s[i] <= hi
    ensures (|s| as real) * lo <= Sum(s) <= (|s| as real) * hi
  {
    if |s| > 0 {
      var init := s[..|s| - 1];
      assert forall i :: 0 <= i < |init| ==> init[i] == s[i];
      SumBetween(init, lo, hi);
    }
  }

  /** sum(data) / len(data): the mean lies between the minimum and the maximum. */
  function Mean(s: seq<real>): (r: real)
    requires |s| > 0
    ensures Min(s) <= r <= Max(s)
  {
    MaxIsMaximum(s);
    MinIsMinimum(s);
    SumBetween(s, Min(s), Max(s));
    QuotientBetween(Sum(s), |s| as real, Min(s), Max(s));
    Sum(s) / (|s| as real)
  }

  /** Dividing by a positive n keeps n·lo ≤ total ≤ n·hi as lo ≤ total / n ≤ hi. */
  lemma QuotientBetween(total: real, n: real, lo: real, hi: real)
    requires n > 0.0 && n * lo <= total <= n * hi
    ensures lo <= total / n <= hi
  {
    var q := total / n;
    assert total == q * n;
    assert (q - lo) * n >= 0.0;
    assert (hi - q) * n >= 0.0;
  }

  /** A percentage guarded against a non-positive base, as __post_init__ computes it. */
  function Percentage(change: real, base: real): (r: real)
    ensures base <= 0.0 ==> r == 0.0
  {
    if base > 0.0 then (change / base) * 100.0 else 0.0
  }

  /** Over a positive base, the percentage is the change per hundred units of the base. */
  lemma PercentageOfBase(change: real, base: real)
    requires base > 0.0
    ensures Percentage(change, base) * base == change * 100.0
  {
    var q := change / base;
    assert q * base == change;
  }

  /** The statistics Stock.__post_init__ stores beside the series. */
  datatype Stats = Stats(
    currValue: real,
    openValue: real,
    high: real,
    low: real,
    average: real,
    changeAmount: real,
    changePercentage: real)

  /** The statistics of a non-empty series, as Stock.__post_init__ derives them. */
  function ComputeStats(data: seq<real>): Stats
    requires |data| > 0
  {
    var high := Max(data);
    var low := Min(data);
    var curr := data[|data| - 1];
    var open := data[0];
    var change := curr - open;
    Stats(curr, open, high, low, Mean(data), change, Percentage(change, curr))
  }

  /**
   * The statistics describe the series: open and current are its first and
   * last prices, high and low are prices of the series bounding all of them,
   * the average lies between, and the change is current less open.
   */
  lemma StatsOfSeries(data: seq<real>)
    requires |data| > 0
    ensures var r := ComputeStats(data);
      && r.openValue == data[0] && r.currValue == data[|data| - 1]
      && (forall i :: 0 <= i < |data| ==> r.low <= data[i] <= r.high)
      && r.high in data && r.low in data
      && r.low <= r.average <= r.high
      && r.changeAmount == r.currValue - r.openValue
      && (r.currValue <= 0.0 ==> r.changePercentage == 0.0)
  {
    MaxIsMaximum(data);
    MinIsMinimum(data);
  }

  /** With a positive close, the change percentage is the change per hundred units of the close. */
  lemma ChangePercentageOfClose(data: seq<real>)
    requires |data| > 0 && data[|data| - 1] > 0.0
    ensures var r := ComputeStats(data);
      r.changePercentage * r.currValue == r.changeAmount * 100.0
  {
    PercentageOfBase(data[|data| - 1] - data[0], data[|data| - 1]);
  }

  /** The series a Stock holds before any market data arrives: `[0]`. */
  const Uninitialised: seq<real> := [0.0]

  /** A Stock: its symbol, its series and the statistics derived from the series. */
  datatype Stock = Stock(symbol: string, data: seq<real>, stats: Stats)

  /** Stock(symbol, data) with its statistics derived; also what reinit() does. */
  function NewStock(symbol: string, data: seq<real>): Stock
    requires |data| > 0
  {
    Stock(symbol, data, ComputeStats(data))
  }

  /** The uninitialised series yields all-zero statistics. */
  lemma SentinelStatsAreZero()
    ensures ComputeStats(Uninitialised) == Stats(0.0, 0.0, 0.0, 0.0, 0.0, 0.0, 0.0)
  {
    assert Max(Uninitialised) == 0.0 && Min(Uninitialised) == 0.0;
    assert Sum(Uninitialised) == Sum([]) + 0.0;
  }

  // ---------------------------------------------------------------------
  // Entries
  // ---------------------------------------------------------------------

  /**
   * The fields of a PortfolioEntry. `graph` is the raw display flag: None
   * stands for Python's False, Some(text) for a value read from the
   * portfolio definition.
   */
  datatype EntryState = EntryState(
    stock: Stock,
    count: real,
    averageCost: real,
    graph: Option<string>,
    color: Option<string>,
    realizedGains: real,
    holdingOpenValue: real,
    holdingMarketValue: real,
    costBasis: real,
    gains: real,
    gainsPerShare: real)

  /** PortfolioEntry(stock, count, average_cost, graph, color) after __post_init__. */
  function NewEntry(stock: Stock, count: real, averageCost: real,
                    graph: Option<string>, color: Option<string>): EntryState
  {
    EntryState(stock, count, averageCost, graph, color, 0.0, 0.0, 0.0, 0.0, 0.0, 0.0)
  }

  /** The entry created on first reference to a ticker: `[0]` series, nothing held. */
  function FreshEntry(ticker: string, graph: Option<string>, color: Option<string>): EntryState
  {
    NewEntry(NewStock(ticker, Uninitialised), 0.0, 0.0, graph, color)
  }

  /** The three kinds of process_transaction call; NoTransaction is TransactionType.NONE. */
  datatype Transaction =
    | NoTransaction
    | Buy(count: real, price: real)
    | Sell(count: real, price: real)
    | MarketSync(data: seq<real>)

  /** A transaction process_transaction can run without an IndexError on the series. */
  predicate Runnable(t: Transaction)
  {
    t.MarketSync? ==> |t.data| > 0
  }

  /**
   * BUY. When the new count is 0 the division raises ZeroDivisionError after
   * count and cost_basis were updated: average_cost then keeps its old value.
   */
  function BuyStep(e: EntryState, c: real, p: real): EntryState
  {
    var count := e.count + c;
    var costBasis := e.costBasis + c * p;
    e.(count := count, costBasis := costBasis,
       averageCost := if count != 0.0 then costBasis / count else e.averageCost)
  }

  /** SELL: the gain is measured against the current average cost; no guard on the count. */
  function SellStep(e: EntryState, c: real, p: real): EntryState
  {
    var count := e.count - c;
    var costBasis := e.costBasis - c * e.averageCost;
    e.(realizedGains := e.realizedGains + (p - e.averageCost) * c,
       count := count, costBasis := costBasis,
       averageCost := if count > 0.0 then costBasis / count else 0.0)
  }

  /** MARKET_SYNC: replace the series, re-derive the statistics and the holding values. */
  function SyncStep(e: EntryState, data: seq<real>): EntryState
    requires |data| > 0
  {
    var stock := NewStock(e.stock.symbol, data);
    var market := stock.stats.currValue * e.count;
    var open := stock.stats.openValue * e.count;
    var gains := market - e.costBasis;
    e.(stock := stock, holdingMarketValue := market, holdingOpenValue := open, gains := gains,
       gainsPerShare := if e.count > 0.0 then gains / e.count else 0.0)
  }

  /** process_transaction: the entry's fields after the call (also when it raises). */
  function Apply(e: EntryState, t: Transaction): EntryState
    requires Runnable(t)
  {
    match t
    case NoTransaction => e
    case Buy(c, p) => BuyStep(e, c, p)
    case Sell(c, p) => SellStep(e, c, p)
    case MarketSync(data) => SyncStep(e, data)
  }

  /** Whether process_transaction raises: only a BUY that brings the count to exactly 0. */
  predicate Raises(e: EntryState, t: Transaction)
  {
    t.Buy? && e.count + t.count == 0.0
  }

  // ---------------------------------------------------------------------
  // Ledger properties
  // ---------------------------------------------------------------------

  /** The ledger invariant: a non-negative position whose cost basis is count times average cost. */
  predicate Consistent(e: EntryState)
  {
    e.count >= 0.0 && e.costBasis == e.count * e.averageCost
  }

  /** A fresh entry is consistent, whatever series its stock holds. */
  lemma FreshEntryConsistent(ticker: string, graph: Option<string>, color: Option<string>)
    ensures Consistent(FreshEntry(ticker, graph, color))
  {
  }

  /**
   * A sale that leaves shares keeps the average cost and the invariant; a
   * sale of the whole position leaves count, cost basis and average cost at 0.
   */
  lemma SellKeepsAverageCost(e: EntryState, c: real, p: real)
    requires Consistent(e) && c <= e.count
    ensures var r := SellStep(e, c, p);
      && Consistent(r)
      && (r.count > 0.0 ==> r.averageCost == e.averageCost)
      && (c == e.count ==> r.count == 0.0 && r.costBasis == 0.0 && r.averageCost == 0.0)
  {
    var r := SellStep(e, c, p);
    assert r.costBasis == (e.count - c) * e.averageCost;
    if r.count > 0.0 {
      assert r.averageCost == (r.count * e.averageCost) / r.count;
    }
  }

  /**
   * The invariant is kept by every transaction that does not raise, as long
   * as a BUY keeps the count positive and a SELL does not oversell.
   */
  lemma ApplyKeepsConsistent(e: EntryState, t: Transaction)
    requires Consistent(e) && Runnable(t) && !Raises(e, t)
    requires t.Buy? ==> e.count + t.count > 0.0
    requires t.Sell? ==> t.count <= e.count
    ensures Consistent(Apply(e, t))
  {
    if t.Buy? {
      BuyKeepsConsistent(e, t.count, t.price);
    } else if t.Sell? {
      SellKeepsAverageCost(e, t.count, t.price);
    } else if t.MarketSync? {
      SyncKeepsLedger(e, t.data);
    }
  }

  /** A BUY that does not raise sets the average cost so that cost basis = count · average cost. */
  lemma BuyAverages(e: EntryState, c: real, p: real)
    requires e.count + c != 0.0
    ensures var r := BuyStep(e, c, p);
      r.costBasis == r.count * r.averageCost
  {
    var r := BuyStep(e, c, p);
    assert r.averageCost * r.count == r.costBasis;
  }

  /**
   * A BUY that brings the count to exactly 0 raises after count and cost
   * basis were updated, so average_cost keeps its old value. From a
   * consistent entry the cost basis left behind is what the sold-back shares
   * cost minus what they were bought back for, and the entry stays consistent
   * only when nothing was held or the price equals the average cost.
   */
  lemma BuyToZeroRaises(e: EntryState, c: real, p: real)
    requires e.count + c == 0.0
    ensures var r := BuyStep(e, c, p);
      && Raises(e, Buy(c, p))
      && r.count == 0.0 && r.averageCost == e.averageCost
      && (Consistent(e) ==>
            && r.costBasis == e.count * (e.averageCost - p)
            && (Consistent(r) <==> e.count == 0.0 || p == e.averageCost))
  {
    var r := BuyStep(e, c, p);
    if Consistent(e) {
      assert r.costBasis == e.count * e.averageCost - e.count * p;
      if e.count != 0.0 && p != e.averageCost {
        NonZeroProduct(e.count, e.averageCost - p);
      }
    }
  }

  /** A product of two non-zero reals is non-zero. */
  lemma NonZeroProduct(x: real, y: real)
    requires x != 0.0 && y != 0.0
    ensures x * y != 0.0
  {
  }

  /** No transaction changes the ticker, the display settings or what the series of a BUY or SELL is. */
  lemma TransactionKeepsIdentity(e: EntryState, t: Transaction)
    requires Runnable(t)
    ensures var r := Apply(e, t);
      && r.stock.symbol == e.stock.symbol && r.graph == e.graph && r.color == e.color
      && (!t.MarketSync? ==> r.stock == e.stock && r.holdingMarketValue == e.holdingMarketValue
                             && r.holdingOpenValue == e.holdingOpenValue && r.gains == e.gains)
  {
  }

  /** A BUY that leaves a positive count leaves a consistent entry, whatever came before. */
  lemma BuyKeepsConsistent(e: EntryState, c: real, p: real)
    requires e.count + c > 0.0
    ensures Consistent(BuyStep(e, c, p))
  {
    BuyAverages(e, c, p);
  }

  /** With shares held, a refresh sets the gains per share so that they add up to the gains. */
  lemma SyncGainsPerShare(e: EntryState, data: seq<real>)
    requires |data| > 0 && e.count > 0.0
    ensures var r := SyncStep(e, data);
      r.gainsPerShare * r.count == r.gains
  {
    var r := SyncStep(e, data);
    assert r.gainsPerShare == r.gains / e.count;
  }

  /**
   * A refresh gives the stock the new series, values the holding at the
   * series' last and first prices, and takes the gains against the cost basis.
   */
  lemma SyncValuesHolding(e: EntryState, data: seq<real>)
    requires |data| > 0
    ensures var r := SyncStep(e, data);
      && r.stock.symbol == e.stock.symbol && r.stock.data == data
      && r.holdingMarketValue == data[|data| - 1] * e.count
      && r.holdingOpenValue == data[0] * e.count
      && r.gains == data[|data| - 1] * e.count - e.costBasis
      && (e.count <= 0.0 ==> r.gainsPerShare == 0.0)
  {
    StatsOfSeries(data);
  }

  /** A refresh leaves the ledger fields, and so the ledger invariant, as they were. */
  lemma SyncKeepsLedger(e: EntryState, data: seq<real>)
    requires |data| > 0
    ensures var r := SyncStep(e, data);
      && r.count == e.count && r.costBasis == e.costBasis
      && r.averageCost == e.averageCost && r.realizedGains == e.realizedGains
      && Consistent(r) == Consistent(e)
  {
  }

  /**
   * A SELL of more than is held leaves a negative count and an average cost
   * of 0, while the cost basis still prices the short position at the old
   * average: the entry is no longer consistent, and cost basis and average
   * disagree unless the old average was 0.
   */
  lemma OversellBreaksLedger(e: EntryState, c: real, p: real)
    requires Consistent(e) && c > e.count
    ensures var r := SellStep(e, c, p);
      && r.count < 0.0 && r.averageCost == 0.0 && !Consistent(r)
      && r.costBasis == r.count * e.averageCost
      && (r.costBasis == r.count * r.averageCost <==> e.averageCost == 0.0)
  {
    var r := SellStep(e, c, p);
    assert r.costBasis == (e.count - c) * e.averageCost;
    if e.averageCost != 0.0 {
      NonZeroProduct(r.count, e.averageCost);
    }
  }

  /** Buys (count, price), applied one after the other from the left. */
  function BuyAll(e: EntryState, lots: seq<(real, real)>): EntryState
  {
    if |lots| == 0 then e
    else
      var last := lots[|lots| - 1];
      BuyStep(BuyAll(e, lots[..|lots| - 1]), last.0, last.1)
  }

  /** Sells (count, price), applied one after the other from the left. */
  function SellAll(e: EntryState, lots: seq<(real, real)>): EntryState
  {
    if |lots| == 0 then e
    else
      var last := lots[|lots| - 1];
      SellStep(SellAll(e, lots[..|lots| - 1]), last.0, last.1)
  }

  /** Σ c over the lots. */
  function LotCount(lots: seq<(real, real)>): real
  {
    if |lots| == 0 then 0.0 else LotCount(lots[..|lots| - 1]) + lots[|lots| - 1].0
  }

  /** Σ c·p over the lots. */
  function LotCost(lots: seq<(real, real)>): real
  {
    if |lots| == 0 then 0.0 else LotCost(lots[..|lots| - 1]) + lots[|lots| - 1].0 * lots[|lots| - 1].1
  }

  /**
   * From an entry holding nothing, buys with positive counts leave
   * count = Σc, cost basis = Σc·p and average cost = Σc·p / Σc.
   */
  lemma {:induction false} WeightedAverageCost(e: EntryState, lots: seq<(real, real)>)
    requires e.count == 0.0 && e.costBasis == 0.0
    requires forall i :: 0 <= i < |lots| ==> lots[i].0 > 0.0
    ensures BuyAll(e, lots).count == LotCount(lots)
    ensures BuyAll(e, lots).costBasis == LotCost(lots)
    ensures |lots| > 0 ==>
              LotCount(lots) > 0.0 && BuyAll(e, lots).averageCost == LotCost(lots) / LotCount(lots)
  {
    if |lots| > 0 {
      var init := lots[..|lots| - 1];
      assert forall i :: 0 <= i < |init| ==> init[i] == lots[i];
      WeightedAverageCost(e, init);
      assert LotCount(init) >= 0.0 by {
        if |init| > 0 { }
      }
    }
  }

  /** Σ (p − a)·c over the lots: what selling them realises against the average cost a. */
  function LotGains(lots: seq<(real, real)>, a: real): real
  {
    if |lots| == 0 then 0.0
    else LotGains(lots[..|lots| - 1], a) + (lots[|lots| - 1].1 - a) * lots[|lots| - 1].0
  }

  /** What the lots realise against a is their proceeds minus a times their count: Σc·p − a·Σc. */
  lemma {:induction false} LotGainsAgainstAverage(lots: seq<(real, real)>, a: real)
    ensures LotGains(lots, a) == LotCost(lots) - a * LotCount(lots)
  {
    if |lots| > 0 {
      var init := lots[..|lots| - 1];
      var (c, p) := lots[|lots| - 1];
      LotGainsAgainstAverage(init, a);
      assert a * (LotCount(init) + c) == a * LotCount(init) + a * c;
      assert (p - a) * c == c * p - a * c;
    }
  }

  /** Every lot has a positive count. */
  predicate PositiveCounts(lots: seq<(real, real)>)
  {
    forall i :: 0 <= i < |lots| ==> lots[i].0 > 0.0
  }

  /**
   * From a consistent entry, a run of sells with positive counts that never
   * sells more than is held realises Σ (p − average cost)·c, which is
   * Σc·p − average cost·Σc (LotGainsAgainstAverage), leaves Σc fewer shares,
   * stays consistent, and keeps the average cost for as long as shares remain.
   */
  lemma {:induction false} SellsRealiseAgainstAverage(e: EntryState, lots: seq<(real, real)>)
    requires Consistent(e) && PositiveCounts(lots) && LotCount(lots) <= e.count
    ensures SoldAtAverage(e, lots)
  {
    if |lots| > 0 {
      var init := lots[..|lots| - 1];
      assert PositiveCounts(init) by {
        assert forall i :: 0 <= i < |init| ==> init[i] == lots[i];
      }
      LotCountNonNegative(init);
      SellsRealiseAgainstAverage(e, init);
      SellOneMore(e, lots);
    }
  }

  /** What selling the lots one by one from e leaves: see SellsRealiseAgainstAverage. */
  predicate SoldAtAverage(e: EntryState, lots: seq<(real, real)>)
  {
    var r := SellAll(e, lots);
    && Consistent(r)
    && r.count == e.count - LotCount(lots)
    && r.realizedGains == e.realizedGains + LotGains(lots, e.averageCost)
    && (r.count > 0.0 ==> r.averageCost == e.averageCost)
  }

  /** The step of SellsRealiseAgainstAverage: one more lot sold. */
  lemma SellOneMore(e: EntryState, lots: seq<(real, real)>)
    requires |lots| > 0 && PositiveCounts(lots) && LotCount(lots) <= e.count
    requires SoldAtAverage(e, lots[..|lots| - 1])
    ensures SoldAtAverage(e, lots)
  {
    var init := lots[..|lots| - 1];
    var c, p := lots[|lots| - 1].0, lots[|lots| - 1].1;
    var m := SellAll(e, init);
    assert c > 0.0;
    assert m.count >= c;
    SellKeepsAverageCost(m, c, p);
  }

  /** Σc of lots with positive counts is not negative. */
  lemma {:induction false} LotCountNonNegative(lots: seq<(real, real)>)
    requires PositiveCounts(lots)
    ensures LotCount(lots) >= 0.0
  {
    if |lots| > 0 {
      var init := lots[..|lots| - 1];
      assert forall i :: 0 <= i < |init| ==> init[i] == lots[i];
      LotCountNonNegative(init);
    }
  }

  /** The worked example: 10@5 and 10@7 bought, then 5@10 sold. */
  lemma WorkedExampleOrders()
    ensures var e0 := FreshEntry("T", None, None);
      var e2 := Apply(Apply(e0, Buy(10.0, 5.0)), Buy(10.0, 7.0));
      var e3 := Apply(e2, Sell(5.0, 10.0));
      && e2.count == 20.0 && e2.costBasis == 120.0 && e2.averageCost == 6.0
      && e3.realizedGains == 20.0 && e3.count == 15.0 && e3.costBasis == 90.0 && e3.averageCost == 6.0
  {
    var e0 := FreshEntry("T", None, None);
    var e1 := Apply(e0, Buy(10.0, 5.0));
    assert e1.count == 10.0 && e1.costBasis == 50.0 && e1.averageCost == 5.0;
    var e2 := Apply(e1, Buy(10.0, 7.0));
    assert e2.count == 20.0 && e2.costBasis == 120.0;
    assert e2.averageCost == 6.0;
    var e3 := Apply(e2, Sell(5.0, 10.0));
    assert e3.count == 15.0 && e3.costBasis == 90.0;
  }

  /** The worked example continued: a refresh with [6, 6, 8, 8] on 15 shares that cost 90. */
  lemma WorkedExampleRefresh(e: EntryState)
    requires e.count == 15.0 && e.costBasis == 90.0
    ensures var r := Apply(e, MarketSync([6.0, 6.0, 8.0, 8.0]));
      && r.stock.stats == Stats(8.0, 6.0, 8.0, 6.0, 7.0, 2.0, 25.0)
      && r.holdingOpenValue == 90.0 && r.holdingMarketValue == 120.0
      && r.gains == 30.0 && r.gainsPerShare == 2.0
  {
    var s := [6.0, 6.0, 8.0, 8.0];
    assert s[..3] == [6.0, 6.0, 8.0] && s[..3][..2] == [6.0, 6.0] && s[..3][..2][..1] == [6.0];
    assert Sum(s[..3][..2][..1]) == 6.0;
    assert Sum(s[..3][..2]) == 12.0;
    assert Sum(s[..3]) == 20.0;
    assert Sum(s) == 28.0;
    assert Max(s[..3][..2]) == 6.0 && Min(s[..3][..2]) == 6.0;
    assert Max(s[..3]) == 8.0 && Min(s[..3]) == 6.0;
    assert Max(s) == 8.0 && Min(s) == 6.0;
    assert Mean(s) == 7.0;
    assert Percentage(2.0, 8.0) == 25.0;
  }
}
