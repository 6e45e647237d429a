# cliStocksTracker portfolio core in Dafny

This project models the position ledger and valuation logic of
cliStocksTracker, a terminal stock tracker, and proves properties of it.
Prices are `real` numbers.

- **Stocks** (`ledger.dfy`, module `Ledger`): a stock holds a non-empty price series and
  derived statistics: open, current (close), high, low, average, change and change
  percentage. The default series `[0]` marks a stock that has not been synced.
- **Entries** (`ledger.dfy`, `portfolio.dfy`): a portfolio entry holds a count, an average
  cost, a cost basis, realised gains and the holding values. `process_transaction` updates
  them for a BUY (weighted average cost), a SELL (gain realised against the average cost) or
  a MARKET_SYNC (new series, holding values recomputed).
  - `Ledger` gives each step as a function on the `EntryState` value.
  - The class `Portfolios.PortfolioEntry` performs the same steps in place. Each method is
    proved to reach the state that function gives.
- **Order strings** (`orders.dfy`, module `Orders`): the `transactions` value of a config
  section is a comma-separated list of `"<buy|sell> <count>@<price>"` orders.
  - The module models `str.split(',')`, `strip()` and `split()`.
  - It parses one order and applies a list of orders, skipping malformed ones. It stops at
    the first order whose number does not convert or whose BUY divides by zero.
  - It also models `average_buyin`.
- **Books** (`holdings.dfy`, module `Holdings`): a portfolio's `stocks` dict is a value
  (`Book`): the tickers in insertion order and a map from ticker to entry. On it the module
  defines:
  - the totals `calc_value` rebuilds;
  - storing an entry;
  - loading config sections;
  - the refresh `market_sync` performs;
  - one `process_order`.
- **Portfolio** (`portfolio.dfy`): the class `Portfolios.Portfolio` holds that dict and the
  three totals. Its methods `CalcValue`, `LoadFromConfig`, `MarketSync` and `ProcessOrder`
  update it in place; the first three loop, and `ProcessOrder` calls `CalcValue`. Each is
  proved against the `Holdings` functions.
- **Manager** (`manager.dfy`, module `Manager`): `PortfolioManager` is a registry of
  portfolios keyed by name. It has `load`, `sync` (guarded by the sync-thread flag) and
  `process_order`. Unknown names are no-ops.
- **Graphs** (`graph.dfy`, module `Graphs`): `find_y_range` is a min/max fold with sentinel
  starting values. The colour rule picks where each plotted line's colour comes from.

Two details of the code that the model keeps:

- `change_percentage` is the change divided by the current (closing) value
  (portfolio.py:41). For the series `[6, 6, 8, 8]` it is therefore 25
  (`Ledger.WorkedExampleRefresh`).
- `load` stores `ManagedState(portfolio, None)`, so its `quit_sync` is `None`. It is
  modelled as `false`, the only way the code ever reads it.

Text-to-number conversion (`float()`) is a parameter `toFloat: string -> Option<real>`.
`None` stands for the `ValueError` that aborts a load. Market data is a parameter
`fetched: map<string, seq<real>>` holding each ticker's series with NaNs already removed.

## Model

| member | source | states |
|---|---|---|
| Ledger.MaxIsMaximum | portfolio.py:37 | `max(data)` is an element of the series and no element exceeds it |
| Ledger.MinIsMinimum | portfolio.py:38 | `min(data)` is an element of the series and no element is below it |
| Ledger.Mean | portfolio.py:39 | the average `sum/len` lies between the series' minimum and maximum |
| Ledger.Percentage | portfolio.py:41 | the change percentage is 0 whenever the base (close) is not positive |
| Ledger.PercentageOfBase | portfolio.py:41 | for a positive close, percentage × close = change × 100 |
| Ledger.StatsOfSeries | portfolio.py:34-42 | open is the first price and current the last; low ≤ every price ≤ high, and high and low occur in the series; low ≤ average ≤ high; change = current − open; percentage 0 when current ≤ 0 |
| Ledger.ChangePercentageOfClose | portfolio.py:40-41 | with a positive close, the percentage is the change relative to the close |
| Ledger.SentinelStatsAreZero | portfolio.py:31-42 | the default series `[0]` yields all-zero statistics |
| Ledger.FreshEntryConsistent | portfolio.py:56-62 | a new entry (count 0, cost basis 0) satisfies cost_basis = count × average_cost |
| Ledger.BuyAverages | portfolio.py:66-69 | after a BUY that leaves a non-zero count, cost_basis = count × average_cost |
| Ledger.BuyKeepsConsistent | portfolio.py:66-69 | a BUY leaving a positive count keeps the entry consistent |
| Ledger.BuyToZeroRaises | portfolio.py:66-69 | a BUY that brings the count to 0 raises with count 0 and the old average_cost; from a consistent entry the cost basis left is count × (average_cost − p), so the entry stays consistent iff nothing was held or p equals the average cost |
| Ledger.WeightedAverageCost | portfolio.py:66-69 | from an empty entry, buys of positive counts give count = Σc, cost basis = Σc·p, average = Σc·p / Σc |
| Ledger.SellsRealiseAgainstAverage | portfolio.py:70-74 | from a consistent entry, sells of positive counts totalling at most the count realise Σ(p − average_cost)·c, leave count − Σc shares, stay consistent and keep the average cost while shares remain |
| Ledger.LotGainsAgainstAverage | portfolio.py:71 | what sold lots realise against an average cost a is Σc·p − a·Σc |
| Ledger.OversellBreaksLedger | portfolio.py:70-74 | a SELL of more than the count leaves a negative count and average 0 while the cost basis still prices the shares at the old average: the entry is inconsistent, and basis = count × average only if the old average was 0 |
| Ledger.SellKeepsAverageCost | portfolio.py:70-74 | a SELL of at most the count keeps the entry consistent and the average cost unchanged while shares remain; selling everything leaves count = cost basis = average = 0 |
| Ledger.ApplyKeepsConsistent | portfolio.py:65-82 | every transaction that does not raise, oversell or empty the position by a BUY keeps cost_basis = count × average_cost |
| Ledger.TransactionKeepsIdentity | portfolio.py:65-82 | no transaction changes the symbol, graph or colour; BUY and SELL leave the stock and holding values alone |
| Ledger.SyncValuesHolding | portfolio.py:75-82 | MARKET_SYNC installs the series; the holding is valued at the series' last price × count (market) and first price × count (open), gains = last price × count − cost basis, gains per share 0 when count ≤ 0 |
| Ledger.SyncGainsPerShare | portfolio.py:82 | with a positive count, gains per share × count = gains |
| Ledger.SyncKeepsLedger | portfolio.py:75-82 | MARKET_SYNC leaves count, cost basis, average cost and realised gains untouched |
| Ledger.WorkedExampleOrders | portfolio.py:65-74 | buying 10@5 then 10@7 gives count 20, cost 120, average 6; selling 5@10 then realises 20 and keeps the average 6 |
| Ledger.WorkedExampleRefresh | portfolio.py:34-42 | syncing 15 shares of cost 90 with `[6, 6, 8, 8]` gives change 2, percentage 25, market value 120, gains 30, 2 per share |
| Orders.Split | portfolio.py:156 | `s.split(sep)` gives at least one piece, no piece holds the separator, and joining the pieces with it gives `s` back |
| Orders.SplitJoin | portfolio.py:156 | splitting pieces joined by a separator they do not contain gives the pieces back |
| Orders.Words | portfolio.py:157 | `split()` gives blank-free non-empty words; an all-blank text gives none |
| Orders.WordsOfWord | portfolio.py:157 | a blank-free non-empty text splits into itself alone |
| Orders.WordsSplitAtBlank | portfolio.py:157 | a blank ends a word: the words of a text around a blank are the words before it followed by the words after it; with WordsOfWord this determines `split()` on every text |
| Orders.WordsKeepNonBlanks | portfolio.py:157 | the words glued together are exactly the text with its blanks removed |
| Orders.WordsIgnoreStrip | portfolio.py:157 | `strip()` before `split()` does not change the words |
| Orders.WordsOfPair | portfolio.py:157-158 | two words separated by a blank split into exactly those two words |
| Orders.ParseOrder | portfolio.py:157-168 | an order is accepted iff it has exactly two words, the first `buy` or `sell`, the second with exactly one `@`; the accepted parts are those words, the second splitting at `@` into exactly the count and price |
| Orders.ParseFormatOrder | portfolio.py:157-168 | a well-formed order written out parses back to itself |
| Orders.ParseFormatTransactions | portfolio.py:155-168 | a comma-joined list of well-formed orders splits and parses back to the same orders, in order |
| Orders.OrderTransaction | portfolio.py:165-173 | a parsed order becomes a BUY or SELL of the converted count and price |
| Orders.ApplyOrder | portfolio.py:157-173 | a malformed order is skipped; a well-formed order stops with BadNumber iff its count or price does not convert, leaving the entry unchanged; otherwise the entry is processed with the converted BUY or SELL, and the order fails exactly when that BUY raises |
| Orders.FailureStops | portfolio.py:170-173 | once an order fails, the orders after it are not applied |
| Orders.MalformedOrdersSkipped | portfolio.py:156-168 | a list of malformed orders leaves the entry unchanged and succeeds |
| Orders.ReadLot | portfolio.py:115-123 | a lot that is read is one (count, price) pair with a positive count |
| Orders.ReadLotsPositive | portfolio.py:115-121 | every lot read has a positive count |
| Orders.LotFailureStops | portfolio.py:115-133 | after a lot that cannot be read, the later lots do not matter |
| Orders.AccumulateLots | portfolio.py:115-133 | the loop's count and cost are Σc and Σc·p of the lots, or it stops with the first lot's error |
| Orders.AverageBuyin | portfolio.py:110-141 | returns (Σc buys − Σc sells, (Σc·p buys − Σc·p sells) / count), (0, 0) when the count is 0, or the first error |
| Orders.AverageBuyinMatchesLedger | portfolio.py:110-141 | with buys only, average_buyin gives the count and average cost that processing the same lots as BUYs gives |
| Holdings.StoreKeepsWellFormed | portfolio.py:174 | `stocks[ticker] = entry` keeps each ticker listed once and the earlier order, and updates exactly that key |
| Holdings.StoreMovesTotals | portfolio.py:94-102 | storing an entry moves each total by the new entry's field minus the old one's |
| Holdings.CommitKeepsWellFormed | portfolio.py:173-174 | an entry stored after processing keeps the dict well formed; a failed one changes no key |
| Holdings.LoadKeepsWellFormed | portfolio.py:143-177 | loading sections keeps each ticker listed once with the listed tickers equal to the keys |
| Holdings.LoadFailureStops | portfolio.py:143-177 | once a section's order raises, the later sections are not loaded |
| Holdings.LoadedTickers | portfolio.py:145-174 | a complete load keeps every earlier ticker and holds an entry for every section |
| Holdings.MalformedSectionAddsEntry | portfolio.py:148-174 | a section with only malformed orders stores the held entry unchanged, or a fresh entry with the section's graph and colour |
| Holdings.FetchedSeries | portfolio.py:206-211 | a ticker's series is non-empty and is `[0]` when the data has none for it |
| Holdings.RefreshSyncsEveryEntry | portfolio.py:191-214 | a refresh keeps the tickers, their order and the keys, and syncs every entry with its own series |
| Holdings.SyncPrefixAt | portfolio.py:203-214 | the loop over the tickers syncs each entry exactly once |
| Holdings.SyncPrefixIsRefresh | portfolio.py:203-214 | the loop's result is the refreshed book |
| Holdings.SyncUninitialised | portfolio.py:206-213 | syncing with `[0]` zeroes the statistics and holding values, leaving gains = −cost basis |
| Holdings.RefreshResetsMissingTicker | portfolio.py:203-214 | a held ticker missing from the data is reset to `[0]`, not kept stale |
| Holdings.SyncTwice | portfolio.py:75-82 | syncing twice with the same series is syncing once |
| Holdings.RefreshIdempotent | portfolio.py:191-217 | refreshing twice with the same data is refreshing once |
| Holdings.RefreshedGainsAddUp | portfolio.py:191-217 | after a refresh, the entries' gains add up to market value − cost value |
| Holdings.OrderTouchesOnlyTicker | portfolio.py:322-325 | process_order changes no other entry; it adds the ticker when the order succeeds and adds no key when it raises |
| Holdings.OrderMovesTotalsByEntry | portfolio.py:322-326 | after a successful order each total moves by that entry's change alone |
| Holdings.OrderKeepsConsistent | portfolio.py:322-325 | orders that neither oversell nor empty the position by a BUY keep every entry consistent |
| Portfolios.PortfolioEntry.constructor | portfolio.py:48-62 | the given fields are kept and the derived ones (realised gains, holding values, cost basis, gains) start at 0 |
| Portfolios.PortfolioEntry.ProcessTransaction | portfolio.py:65-82 | the fields become the ledger step of the transaction; the call fails exactly when a BUY divides by zero |
| Portfolios.PortfolioEntry.ProcessBuy | portfolio.py:66-69 | the BUY step; fails iff the new count is 0 |
| Portfolios.PortfolioEntry.ProcessSell | portfolio.py:70-74 | the SELL step |
| Portfolios.PortfolioEntry.ProcessMarketSync | portfolio.py:75-82 | the MARKET_SYNC step |
| Portfolios.ApplyOrderText | portfolio.py:157-173 | the entry's new state and the status are those `Orders.ApplyOrder` gives for its old state: skipped, stopped on a bad number, or processed |
| Portfolios.ApplyOrderTexts | portfolio.py:156-173 | the entry's new state and flag are those `Orders.ApplyOrders` gives: each order in turn, stopping at the first that raises |
| Portfolios.Portfolio.constructor | portfolio.py:84-92 | a new portfolio holds no entry and zero totals |
| Portfolios.Portfolio.CalcValue | portfolio.py:94-102 | each total equals the sum of that field over the entries |
| Portfolios.Portfolio.GetStock | portfolio.py:107-108 | the entry of a held ticker, None exactly for any other |
| Portfolios.Portfolio.Put | portfolio.py:174 | stores the entry under the ticker and keeps the dict well formed |
| Portfolios.Portfolio.LoadSection | portfolio.py:145-174 | the dict becomes the book `Holdings.LoadSection` gives: the section's entry, held or fresh, processes its orders and is committed |
| Portfolios.Portfolio.LoadFromConfig | portfolio.py:143-177 | the dict becomes the book `Holdings.LoadSections` gives for the sections in file order; the totals are rebuilt after a complete load and untouched when it raised |
| Portfolios.Portfolio.SyncEntry | portfolio.py:204-214 | one ticker's entry synced with its series and stored |
| Portfolios.Portfolio.SyncAll | portfolio.py:192-214 | the loop leaves the refreshed book |
| Portfolios.Portfolio.MarketSync | portfolio.py:191-217 | no entries: nothing changes; otherwise the book is refreshed and the totals rebuilt |
| Portfolios.Portfolio.OrderEntry | portfolio.py:322-325 | the dict becomes the book `Holdings.Order` gives: the ticker's entry, fresh if not held, processes the transaction and is committed |
| Portfolios.Portfolio.ProcessOrder | portfolio.py:322-326 | the dict becomes the `Holdings.Order` book; the totals are rebuilt after success and untouched when processing raised |
| Manager.PortfolioManager.constructor | portfolio.py:263-266 | an empty registry |
| Manager.PortfolioManager.Get | portfolio.py:268-269 | a name is found iff it is registered, with its own state |
| Manager.PortfolioManager.GetPortfolio | portfolio.py:277-278 | the portfolio of a registered name, None exactly for an unknown one |
| Manager.PortfolioManager.GetPortfolioNames | portfolio.py:280-281 | every registered name exactly once, and only those |
| Manager.PortfolioManager.Load | portfolio.py:283-290 | registers a freshly loaded portfolio with cleared flags, replacing one of the same name in place; a load that raises registers nothing |
| Manager.PortfolioManager.Sync | portfolio.py:292-303 | unknown name or thread already started: nothing changes; otherwise the portfolio is refreshed (left untouched when it holds no entries, totals rebuilt when it does) and the thread flag set iff continuous |
| Manager.PortfolioManager.ProcessOrder | portfolio.py:317-326 | unknown name: nothing changes; otherwise the portfolio's process_order, creating the entry when needed; totals rebuilt on success and untouched when processing raised |
| Graphs.FindYRange | graph.py:79-89 | y_min ≤ every price ≤ y_max, y_min ≤ 10000000000000, y_max ≥ 0; each end is its start value or a price of some series; no series gives exactly the start values |
| Graphs.ColorFor | graph.py:60-67 | no colour selects the palette entry i mod 67; a colour starting with `#` is used as hex; any other is a CSS3 name |
| Graphs.AutoColorsCycle | graph.py:61 | palette colours repeat every 67 stocks |
| Graphs.AutoColorsDiffer | graph.py:61 | two stocks fewer than 67 places apart never get the same palette index |
| Graphs.ChooseColors | graph.py:59-67 | one colour source per stock by the colour rule; colourless stocks fewer than 67 apart get distinct palette indices |

## Left out

- Downloading market data (`_download_market_data`, yfinance) and the NaN filtering with
  numpy are not modelled. The fetched series are a parameter. A series that is empty after
  filtering would make `Stock` raise IndexError; the model requires every fetched series to
  be non-empty. When the download itself fails, `_download_market_data` returns None
  (portfolio.py:187-189) and `market_data.get` (portfolio.py:207) raises AttributeError before
  any entry changes, so `sync` records no thread; the `fetched` map cannot express that case.
- `float()` is the parameter `toFloat`. Floating-point rounding, infinities and NaN are not
  modelled, since prices are `real`.
- Reading the configuration file with configparser is not modelled. A section is given as
  its ticker, its `color` and `graph` values and its `transactions` text.
- `stocks` and `portfolio_states` are class-level dicts in the code, so every Portfolio,
  and every PortfolioManager, shares one dict. The model gives each object its own.
- Portfolio entries are held by value. The code's dict holds entry objects, so `get_stock`
  hands out the live object and a caller's change shows in the portfolio. The model copies an
  entry into a `PortfolioEntry` object for each operation and stores the result back; that
  aliasing is not captured.
- `_continuous_sync`, the sync thread, `time.sleep`, `cleanup` and `_stop_workers` are
  not modelled (concurrency). Only the presence of the thread is kept, as a flag.
- Manager.PortfolioManager.ProcessOrder: requires that the transaction is not a MARKET_SYNC,
  because the code then calls `process_transaction` with the default data `0` and raises.
- Portfolios.PortfolioEntry.ProcessTransaction: requires a MARKET_SYNC series to be
  non-empty, because `Stock` raises IndexError on an empty series.
- `exit()` in `average_buyin` and the error messages it prints are modelled as the result
  `BuyinFailed(NonPositiveLot)`.
- `average_buyin` accepts a single string where it expects a tuple; the model takes a
  sequence of lot strings.
- `gen_graphs`, plot construction, time zones, rendering and `webcolors` conversions are
  not modelled. A CSS3 name that webcolors does not know (KeyError) is outside the colour
  rule. The graph module takes one colour per plotted stock, as `gen_graphs` builds them.
- The palette `autocolors.color_list` itself is not modelled: an automatic colour is its index. Distinct indices give distinct colours only if the palette's entries are distinct.
- The second copy of `find_y_range` at portfolio.py:408-418 is the same code as
  graph.py:79-89 and shares its model.
- `Stock.reinit` is modelled as recomputing the statistics with `NewStock`.
- `get_stocks` returns the dict itself; the model exposes it as `Portfolios.Portfolio.Contents`.
