/**
 * PortfolioManager: a registry of portfolios keyed by name. Loading a
 * portfolio registers it (or replaces the one under that name), sync refreshes
 * it unless a continuous-sync thread was already started for it, and
 * process_order applies one order to it. Unknown names are no-ops.
 */
module Manager {
  import opened Ledger
  import opened Holdings
  import opened Portfolios

  /**
   * What the manager keeps per name: the portfolio, the quit_sync flag and
   * whether a continuous-sync thread has been started (the thread itself is
   * not modelled, only its presence).
   */
  datatype ManagedState = ManagedState(portfolio: Portfolio, quitSync: bool, syncThread: bool)

  /** sync goes ahead only for a registered name whose sync thread is not yet started. */
  predicate SyncAllowed(states: map<string, ManagedState>, name: string)
  {
    name in states && !states[name].syncThread
  }

  class PortfolioManager {
    /** The keys of `portfolio_states` in insertion order. */
    var names: seq<string>
    var states: map<string, ManagedState>

    /** The portfolios held under some name. */
    ghost function Held(): set<Portfolio>
      reads this`states
    {
      set n | n in states :: states[n].portfolio
    }

    /** Each name listed once, the listed names are exactly the keys, and every portfolio is well formed. */
    ghost predicate Valid()
      reads this, Held()
    {
      && Distinct(names)
      && (forall n :: n in states <==> n in names)
      && AllValid(Held())
    }

    constructor ()
      ensures Valid() && names == [] && states == map[]
    {
      names := [];
      states := map[];
    }

    /** _get: the state registered under the name, or None. */
    function Get(name: string): (r: Option<ManagedState>)
      reads this`states
      ensures r.Some? <==> name in states
      ensures r.Some? ==> r.value == states[name]
    {
      if name in states then Some(states[name]) else None
    }

    /** get_portfolio: the portfolio of a registered name, None for any other. */
    function GetPortfolio(name: string): (r: Option<Portfolio>)
      reads this`states
      ensures r.Some? <==> Get(name).Some?
      ensures r.Some? ==> r.value == Get(name).value.portfolio && r.value in Held()
    {
      if Get(name).Some? then Some(Get(name).value.portfolio) else None
    }

    /** get_portfolio_names: every registered name once, in registration order. */
    function GetPortfolioNames(): (r: seq<string>)
      requires Valid()
      reads this, Held()
      ensures Distinct(r)
      ensures forall n :: n in r <==> Get(n).Some?
    {
      names
    }

    /**
     * load: a new Portfolio is loaded from the sections and registered under
     * the name with quit_sync and sync thread cleared, replacing any portfolio
     * of that name (which keeps its place in the order). A load that raises
     * registers nothing.
     */
    method Load(name: string, sections: seq<Section>, toFloat: string -> Option<real>) returns (ok: bool)
      requires Valid()
      modifies this
      ensures Valid()
      ensures ok == LoadSections(EmptyBook, sections, toFloat).1
      ensures !ok ==> names == old(names) && states == old(states)
      ensures ok ==>
        && names == (if name in old(names) then old(names) else old(names) + [name])
        && name in states && fresh(states[name].portfolio)
        && states == old(states)[name := states[name]]
        && states[name].portfolio.Contents() == LoadSections(EmptyBook, sections, toFloat).0
        && states[name].portfolio.TotalsMatch()
        && !states[name].quitSync && !states[name].syncThread
    {
      ghost var before := Held();
      var p := new Portfolio();
      ok := p.LoadFromConfig(sections, toFloat);
      if !ok {
        return;
      }
      if name !in states {
        DistinctAppend(names, name);
        names := names + [name];
      }
      states := states[name := ManagedState(p, false, false)];
      AllValidWithin(Held(), before, p);
    }

    /**
     * sync: for a registered name with no sync thread, market_sync on its
     * portfolio, and the thread is recorded when the sync is continuous;
     * otherwise nothing changes.
     */
    method Sync(name: string, fetched: map<string, seq<real>>, continuous: bool)
      requires Valid() && ValidFetch(fetched)
      modifies this, if name in states then {states[name].portfolio} else {}
      ensures Valid()
      ensures names == old(names)
      ensures !SyncAllowed(old(states), name) ==> states == old(states)
      ensures !SyncAllowed(old(states), name) && name in states ==> unchanged(states[name].portfolio)
      ensures SyncAllowed(old(states), name) ==>
        var p := old(states[name]).portfolio;
        && states == old(states)[name := old(states[name]).(syncThread := continuous)]
        && p.Contents() == Refresh(old(p.Contents()), fetched)
        && (|old(p.tickers)| == 0 ==> unchanged(p))
        && (|old(p.tickers)| > 0 ==> p.TotalsMatch())
    {
      if name !in states || states[name].syncThread {
        return;
      }
      var state := states[name];
      ghost var others := Held() - {state.portfolio};
      AllValidWithin(others, Held(), state.portfolio);
      state.portfolio.MarketSync(fetched);
      if continuous {
        states := states[name := state.(syncThread := true)];
      }
      AllValidWithin(Held(), others, state.portfolio);
    }

    /**
     * process_order: for a registered name, the portfolio's process_order,
     * which creates the ticker's entry when it is not held; nothing for an
     * unknown name. `ok` is false when processing raised.
     */
    method ProcessOrder(name: string, t: Transaction, ticker: string) returns (ok: bool)
      requires Valid() && !t.MarketSync?
      modifies if name in states then {states[name].portfolio} else {}
      ensures Valid()
      ensures name !in states ==> ok
      ensures name in states ==>
        var p := states[name].portfolio;
        && (p.Contents(), ok) == Order(old(p.Contents()), ticker, t)
        && (ok ==> p.TotalsMatch())
        && (!ok ==> p.openMarketValue == old(p.openMarketValue) && p.costValue == old(p.costValue)
                    && p.marketValue == old(p.marketValue))
    {
      var portfolio := GetPortfolio(name);
      if portfolio.None? {
        return true;
      }
      ok := portfolio.value.ProcessOrder(ticker, t);
    }
  }
}
