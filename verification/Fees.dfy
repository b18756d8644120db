/** The fee table: one rate per route, resolved once at config load and never
    defaulted afterwards (service/src/fees.rs, service/src/chain_policy.rs,
    `resolve_route_fees` in service/src/config.rs). Everything the quote
    arithmetic needs of a rate is established here. */
module Fees {
  import opened Numbers
  import opened Routes
  import Conversion = AmountConversion

  const MAX_FEE_BPS: u64 := 9999

  // ---------------------------------------------------- per-chain policies

  datatype PolicyFields = PolicyFields(
    chain: Chain, feeBps: u64, inboundLimit: u64, outboundLimit: u64, rollingDailyLimit: u64)

  datatype PolicyError =
    | ChainNotPolicyGoverned(chain: Chain)
    | DuplicatePolicy(chain: Chain)
    | PolicyFeeOutOfRange(feeBps: u64)
    | ZeroPerTransferLimit(inbound: bool)
    | ZeroRollingDailyLimit
    | RollingBelowPerTransfer(inbound: bool)

  predicate PolicyGoverned(chain: Chain)
  {
    chain == Robinhood
  }

  predicate Approved(p: PolicyFields)
  {
    && PolicyGoverned(p.chain) && p.feeBps <= MAX_FEE_BPS
    && 0 < p.inboundLimit <= p.rollingDailyLimit && 0 < p.outboundLimit <= p.rollingDailyLimit
  }

  /** Holding one is the evidence that every check passed. */
  type ChainPolicy = p: PolicyFields | Approved(p) witness PolicyFields(Robinhood, 0, 1, 1, 1)

  function NewChainPolicy(chain: Chain, feeBps: u64, inbound: u64, outbound: u64, rolling: u64):
    (r: Result<ChainPolicy, PolicyError>)
    ensures r.Ok? <==> && chain == Robinhood && feeBps < 10_000
                       && 0 < inbound <= rolling && 0 < outbound <= rolling
    ensures r.Ok? ==> r.value == PolicyFields(chain, feeBps, inbound, outbound, rolling)
  {
    if !PolicyGoverned(chain) then Err(ChainNotPolicyGoverned(chain))
    else if feeBps > MAX_FEE_BPS then Err(PolicyFeeOutOfRange(feeBps))
    else if inbound == 0 then Err(ZeroPerTransferLimit(true))
    else if outbound == 0 then Err(ZeroPerTransferLimit(false))
    else if rolling == 0 then Err(ZeroRollingDailyLimit)
    else if rolling < inbound then Err(RollingBelowPerTransfer(true))
    else if rolling < outbound then Err(RollingBelowPerTransfer(false))
    else Ok(PolicyFields(chain, feeBps, inbound, outbound, rolling))
  }

  class ChainPolicies {
    var entries: map<Chain, ChainPolicy>

    ghost predicate Valid()
      reads this
    {
      forall c :: c in entries ==> entries[c].chain == c
    }

    constructor ()
      ensures Valid() && entries == map[]
    {
      entries := map[];
    }

    method Insert(policy: ChainPolicy) returns (r: Result<(), PolicyError>)
      requires Valid()
      modifies this
      ensures Valid()
      ensures r == if policy.chain in old(entries) then Err(DuplicatePolicy(policy.chain)) else Ok(())
      ensures entries == if r.Ok? then old(entries)[policy.chain := policy] else old(entries)
    {
      if policy.chain in entries { return Err(DuplicatePolicy(policy.chain)); }
      entries := entries[policy.chain := policy];
      r := Ok(());
    }

    function FeeBpsFor(chain: Chain): (bps: u64)
      reads this
    {
      LegacyRate(entries, chain)
    }
  }

  /** The per-chain rate behind the migration fallback. */
  function LegacyRate(policies: map<Chain, ChainPolicy>, chain: Chain): (bps: u64)
  {
    if chain in policies then policies[chain].feeBps else Conversion.BRIDGE_FEE_BPS
  }

  // -------------------------------------------------------- the fee table

  datatype FeeError =
    | DuplicateFee(route: Route)
    | FeeBpsOutOfRange(route: Route, feeBps: u64)
    | MissingFee(route: Route)

  datatype ConfigError = NotARoute(name: string) | BadFee(error: FeeError)

  /** A rate is required for every route but a disabled Solana-Robinhood one. */
  predicate Required(route: Route, enabled: set<Route>)
  {
    IsSolanaRobinhood(route) ==> route in enabled
  }

  predicate Covers(table: map<Route, u64>, enabled: set<Route>)
  {
    forall route :: Required(route, enabled) ==> route in table
  }

  predicate FirstUnpriced(table: map<Route, u64>, enabled: set<Route>, k: nat)
    requires k < 6
  {
    && Required(ALL_ROUTES[k], enabled) && ALL_ROUTES[k] !in table
    && forall j :: 0 <= j < k && Required(ALL_ROUTES[j], enabled) ==> ALL_ROUTES[j] in table
  }

  class RouteFees {
    var entries: map<Route, u64>

    constructor ()
      ensures entries == map[]
    {
      entries := map[];
    }

    method Insert(route: Route, feeBps: u64) returns (r: Result<(), FeeError>)
      modifies this
      ensures r == if route in old(entries) then Err(DuplicateFee(route))
                   else if feeBps >= 10_000 then Err(FeeBpsOutOfRange(route, feeBps))
                   else Ok(())
      ensures entries == if r.Ok? then old(entries)[route := feeBps] else old(entries)
    {
      if route in entries { return Err(DuplicateFee(route)); }
      if feeBps > MAX_FEE_BPS { return Err(FeeBpsOutOfRange(route, feeBps)); }
      entries := entries[route := feeBps];
      r := Ok(());
    }

    function FeeBps(route: Route): (r: Result<u64, FeeError>)
      reads this
      ensures r.Ok? <==> route in entries
      ensures r.Ok? ==> r.value == entries[route]
    {
      if route in entries then Ok(entries[route]) else Err(MissingFee(route))
    }

    /** Ok exactly when every required route is priced; otherwise the first
        unpriced one in registry order. */
    method CoversRequiredRoutes(enabled: set<Route>) returns (r: Result<(), FeeError>)
      ensures r.Ok? <==> Covers(entries, enabled)
      ensures r.Err? ==>
                exists k :: 0 <= k < 6 && r.error == MissingFee(ALL_ROUTES[k]) && FirstUnpriced(entries, enabled, k)
    {
      for i := 0 to 6
        invariant forall j :: 0 <= j < i && Required(ALL_ROUTES[j], enabled) ==> ALL_ROUTES[j] in entries
      {
        var route := ALL_ROUTES[i];
        if IsSolanaRobinhood(route) && route !in enabled { continue; }
        if route !in entries {
          assert FirstUnpriced(entries, enabled, i);
          return Err(MissingFee(route));
        }
      }
      forall route | Required(route, enabled) ensures route in entries {
        AllRoutesListed(route);
      }
      r := Ok(());
    }
  }

  // ------------------------------------------------- resolution at load

  function RouteName(route: Route): (name: string)
  {
    match route
    case GlcToSol => "GlcToSol" case SolToGlc => "SolToGlc"
    case GlcToRhn => "GlcToRhn" case RhnToGlc => "RhnToGlc"
    case SolToRhn => "SolToRhn" case RhnToSol => "RhnToSol"
  }

  function ParseRoute(name: string): (r: Option<Route>)
  {
    if name == "GlcToSol" then Some(GlcToSol) else if name == "SolToGlc" then Some(SolToGlc)
    else if name == "GlcToRhn" then Some(GlcToRhn) else if name == "RhnToGlc" then Some(RhnToGlc)
    else if name == "SolToRhn" then Some(SolToRhn) else if name == "RhnToSol" then Some(RhnToSol)
    else None
  }

  lemma ParseIff(name: string, route: Route)
    ensures ParseRoute(name) == Some(route) <==> name == RouteName(route)
  {
  }

  function Abbreviation(chain: Chain): (name: string)
  {
    match chain case Goldcoin => "Glc" case Solana => "Sol" case Robinhood => "Rhn"
  }

  /** A route's name says where it starts and where it ends. */
  lemma NameSpellsTheEnds(route: Route)
    ensures RouteName(route) == Abbreviation(SourceChain(route)) + "To" + Abbreviation(DestinationChain(route))
  {
  }

  /** One line of a `[fees]` section, in the order the section is walked. */
  datatype Entry = Entry(name: string, feeBps: u64)

  /** One entry added to a table, or its fault. `parse` reads route names. */
  function AddEntry(table: map<Route, u64>, entry: Entry, parse: string -> Option<Route>):
    (r: Result<map<Route, u64>, ConfigError>)
  {
    match parse(entry.name)
    case None => Err(NotARoute(entry.name))
    case Some(route) =>
      if route in table then Err(BadFee(DuplicateFee(route)))
      else if entry.feeBps > MAX_FEE_BPS then Err(BadFee(FeeBpsOutOfRange(route, entry.feeBps)))
      else Ok(table[route := entry.feeBps])
  }

  /** The table after the first `n` entries, or the first fault among them. */
  function ReadUpTo(raw: seq<Entry>, n: nat, parse: string -> Option<Route>): (r: Result<map<Route, u64>, ConfigError>)
    requires n <= |raw|
  {
    if n == 0 then Ok(map[])
    else
      var table :- ReadUpTo(raw, n - 1, parse);
      AddEntry(table, raw[n - 1], parse)
  }

  function ReadTable(raw: seq<Entry>): (r: Result<map<Route, u64>, ConfigError>)
  {
    ReadUpTo(raw, |raw|, ParseRoute)
  }

  lemma {:induction false} ReadingStopsAtTheFirstFault(raw: seq<Entry>, i: nat, n: nat, parse: string -> Option<Route>)
    requires i <= n <= |raw| && ReadUpTo(raw, i, parse).Err?
    ensures ReadUpTo(raw, n, parse) == ReadUpTo(raw, i, parse)
  {
    if i < n { ReadingStopsAtTheFirstFault(raw, i, n - 1, parse); }
  }

  /** The other end of a route that starts or ends at Goldcoin. */
  function HomePartner(route: Route): (c: Chain)
  {
    if SourceChain(route) == Goldcoin then DestinationChain(route) else SourceChain(route)
  }

  /** The rates carried forward when there is no `[fees]` section, for the first
      `n` routes of the registry. */
  function CarriedForward(policies: map<Chain, ChainPolicy>, n: nat): (table: map<Route, u64>)
    requires n <= 6
    ensures forall route :: route in table ==> route in ALL_ROUTES[..n]
  {
    if n == 0 then map[]
    else
      var route := ALL_ROUTES[n - 1];
      assert ALL_ROUTES[..n] == ALL_ROUTES[..n - 1] + [route];
      if IsSolanaRobinhood(route) then CarriedForward(policies, n - 1)
      else CarriedForward(policies, n - 1)[route := LegacyRate(policies, HomePartner(route))]
  }

  function Fallback(policies: map<Chain, ChainPolicy>): (table: map<Route, u64>)
  {
    map[GlcToSol := LegacyRate(policies, Solana), SolToGlc := LegacyRate(policies, Solana),
        GlcToRhn := LegacyRate(policies, Robinhood), RhnToGlc := LegacyRate(policies, Robinhood)]
  }

  lemma CarriedForwardIsFallback(policies: map<Chain, ChainPolicy>)
    ensures CarriedForward(policies, 6) == Fallback(policies)
  {
    var rate := LegacyRate(policies, Solana);
    assert CarriedForward(policies, 2) == map[GlcToSol := rate, SolToGlc := rate] by {
      assert CarriedForward(policies, 1) == map[GlcToSol := rate];
    }
    assert CarriedForward(policies, 4) == Fallback(policies) by {
      assert CarriedForward(policies, 3) == CarriedForward(policies, 2)[GlcToRhn := LegacyRate(policies, Robinhood)];
    }
    assert CarriedForward(policies, 5) == CarriedForward(policies, 4);
  }

  lemma RegistryHasNoRepeats(i: nat)
    requires i < 6
    ensures ALL_ROUTES[i] !in ALL_ROUTES[..i]
  {
  }

  /** The inserts of the fallback never fail: each route comes once, and every
      legacy rate is in range. */
  method CarryForward(policies: ChainPolicies) returns (resolved: RouteFees)
    ensures fresh(resolved) && resolved.entries == Fallback(policies.entries)
  {
    resolved := new RouteFees();
    for i := 0 to 6
      invariant fresh(resolved) && resolved.entries == CarriedForward(policies.entries, i)
    {
      var route := ALL_ROUTES[i];
      if !IsSolanaRobinhood(route) {
        RegistryHasNoRepeats(i);
        assert route !in CarriedForward(policies.entries, i);
        var inserted := resolved.Insert(route, policies.FeeBpsFor(HomePartner(route)));
        assert inserted.Ok?;
      }
    }
    CarriedForwardIsFallback(policies.entries);
  }

  /** Inserts the entries of a section one by one, up to the first fault. */
  method InsertAll(raw: seq<Entry>, parse: string -> Option<Route>) returns (r: Result<RouteFees, ConfigError>)
    ensures r.Ok? ==> fresh(r.value) && ReadUpTo(raw, |raw|, parse) == Ok(r.value.entries)
    ensures r.Err? ==> ReadUpTo(raw, |raw|, parse) == Err(r.error)
  {
    var resolved := new RouteFees();
    for i := 0 to |raw|
      invariant fresh(resolved) && ReadUpTo(raw, i, parse) == Ok(resolved.entries)
    {
      var route := parse(raw[i].name);
      if route.None? {
        ReadingStopsAtTheFirstFault(raw, i + 1, |raw|, parse);
        return Err(NotARoute(raw[i].name));
      }
      var inserted := resolved.Insert(route.value, raw[i].feeBps);
      if inserted.Err? {
        ReadingStopsAtTheFirstFault(raw, i + 1, |raw|, parse);
        return Err(BadFee(inserted.error));
      }
    }
    r := Ok(resolved);
  }

  /** Entry faults first, completeness after; no fallback once a section is
      stated. */
  method ResolveRouteFees(fees: Option<seq<Entry>>, policies: ChainPolicies, enabled: set<Route>)
    returns (r: Result<RouteFees, ConfigError>)
    ensures var table := if fees.Some? then ReadTable(fees.value) else Ok(Fallback(policies.entries));
            && (table.Err? ==> r == Err(table.error))
            && (table.Ok? ==> (r.Ok? <==> Covers(table.value, enabled)))
            && (r.Ok? ==> r.value.entries == table.value)
            && (table.Ok? && r.Err? ==>
                  exists k :: 0 <= k < 6 && r.error == BadFee(MissingFee(ALL_ROUTES[k]))
                              && FirstUnpriced(table.value, enabled, k))
  {
    var resolved: RouteFees;
    if fees.None? {
      resolved := CarryForward(policies);
    } else {
      var inserted := InsertAll(fees.value, ParseRoute);
      if inserted.Err? { return Err(inserted.error); }
      resolved := inserted.value;
    }
    var covered := resolved.CoversRequiredRoutes(enabled);
    if covered.Err? { return Err(BadFee(covered.error)); }
    r := Ok(resolved);
  }

  // ------------------------------------------------------ what load promises

  /** The entry prices `route` at `bps`. */
  predicate Prices(entry: Entry, parse: string -> Option<Route>, route: Route, bps: u64)
  {
    parse(entry.name) == Some(route) && entry.feeBps == bps
  }

  /** The table says precisely what the first `n` entries say. */
  ghost predicate Says(table: map<Route, u64>, raw: seq<Entry>, n: nat, parse: string -> Option<Route>)
    requires n <= |raw|
  {
    && (forall route :: route in table ==> exists i :: 0 <= i < n && Prices(raw[i], parse, route, table[route]))
    && (forall i, route, bps :: 0 <= i < n && Prices(raw[i], parse, route, bps) ==>
          route in table && table[route] == bps)
  }

  predicate Sound(entry: Entry, parse: string -> Option<Route>)
  {
    parse(entry.name).Some? && entry.feeBps <= MAX_FEE_BPS
  }

  predicate NotNamed(raw: seq<Entry>, n: nat, parse: string -> Option<Route>, route: Route)
    requires n <= |raw|
  {
    forall i :: 0 <= i < n ==> parse(raw[i].name) != Some(route)
  }

  /** Every name is a route, named once, with a rate in range. */
  ghost predicate WellFormed(raw: seq<Entry>, n: nat, parse: string -> Option<Route>)
    requires n <= |raw|
  {
    && (forall i :: 0 <= i < n ==> Sound(raw[i], parse))
    && (forall i, j :: 0 <= i < j < n ==> parse(raw[i].name) != parse(raw[j].name))
  }

  lemma OneMoreWellFormed(raw: seq<Entry>, n: nat, parse: string -> Option<Route>, route: Route)
    requires n < |raw| && parse(raw[n].name) == Some(route)
    ensures WellFormed(raw, n + 1, parse) <==>
            WellFormed(raw, n, parse) && raw[n].feeBps <= MAX_FEE_BPS && NotNamed(raw, n, parse, route)
  {
  }

  lemma TakenIff(table: map<Route, u64>, raw: seq<Entry>, n: nat, parse: string -> Option<Route>, route: Route)
    requires n <= |raw| && Says(table, raw, n, parse)
    ensures route !in table <==> NotNamed(raw, n, parse, route)
  {
    if !NotNamed(raw, n, parse, route) {
      var i :| 0 <= i < n && parse(raw[i].name) == Some(route);
      assert Prices(raw[i], parse, route, raw[i].feeBps);
    }
  }

  lemma SaysOneMore(table: map<Route, u64>, raw: seq<Entry>, n: nat, parse: string -> Option<Route>, route: Route)
    requires n < |raw| && Says(table, raw, n, parse) && route !in table && parse(raw[n].name) == Some(route)
    ensures Says(table[route := raw[n].feeBps], raw, n + 1, parse)
  {
    assert Prices(raw[n], parse, route, raw[n].feeBps);
  }

  /** The entries read exactly when they are well formed, and then the table
      says precisely what they say. */
  ghost predicate ReadRight(raw: seq<Entry>, n: nat, parse: string -> Option<Route>)
    requires n <= |raw|
  {
    && (ReadUpTo(raw, n, parse).Ok? <==> WellFormed(raw, n, parse))
    && (ReadUpTo(raw, n, parse).Ok? ==> Says(ReadUpTo(raw, n, parse).value, raw, n, parse))
  }

  lemma {:induction false} ReadTableRight(raw: seq<Entry>, n: nat, parse: string -> Option<Route>)
    requires n <= |raw|
    ensures ReadRight(raw, n, parse)
  {
    if n > 0 {
      ReadTableRight(raw, n - 1, parse);
      if ReadUpTo(raw, n - 1, parse).Ok? && parse(raw[n - 1].name).Some? {
        var table, route := ReadUpTo(raw, n - 1, parse).value, parse(raw[n - 1].name).value;
        TakenIff(table, raw, n - 1, parse, route);
        OneMoreWellFormed(raw, n - 1, parse, route);
        if route !in table { SaysOneMore(table, raw, n - 1, parse, route); }
      }
    }
  }

  /** In the section's own words: it reads exactly when its names are route
      names, each given once, with rates in range; and a route is priced at
      `bps` exactly when its name is given that rate. */
  lemma ReadTableIff(raw: seq<Entry>)
    ensures ReadTable(raw).Ok? <==>
            && (forall i :: 0 <= i < |raw| ==>
                  (exists route :: raw[i].name == RouteName(route)) && raw[i].feeBps < 10_000)
            && (forall i, j :: 0 <= i < j < |raw| ==> raw[i].name != raw[j].name)
    ensures ReadTable(raw).Ok? ==>
              forall route, bps ::
                (route in ReadTable(raw).value && ReadTable(raw).value[route] == bps)
                <==> Entry(RouteName(route), bps) in raw
  {
    ReadTableRight(raw, |raw|, ParseRoute);
    forall i | 0 <= i < |raw|
      ensures ParseRoute(raw[i].name).Some? <==> exists route :: raw[i].name == RouteName(route)
      ensures forall route :: ParseRoute(raw[i].name) == Some(route) <==> raw[i].name == RouteName(route)
    {
      ParsesIffNamed(raw[i].name);
    }
    if ReadTable(raw).Ok? { SaysByName(ReadTable(raw).value, raw); }
  }

  lemma ParsesIffNamed(name: string)
    ensures forall route :: ParseRoute(name) == Some(route) <==> name == RouteName(route)
    ensures ParseRoute(name).Some? <==> exists route :: name == RouteName(route)
  {
    forall route ensures ParseRoute(name) == Some(route) <==> name == RouteName(route) { ParseIff(name, route); }
    if ParseRoute(name).Some? { assert name == RouteName(ParseRoute(name).value); }
  }

  lemma SaysByName(table: map<Route, u64>, raw: seq<Entry>)
    requires Says(table, raw, |raw|, ParseRoute)
    ensures forall route, bps :: (route in table && table[route] == bps) <==> Entry(RouteName(route), bps) in raw
  {
    forall route: Route, bps: u64
      ensures (route in table && table[route] == bps) <==> Entry(RouteName(route), bps) in raw
    {
      if route in table && table[route] == bps {
        var i :| 0 <= i < |raw| && Prices(raw[i], ParseRoute, route, bps);
        ParsesIffNamed(raw[i].name);
      }
      if Entry(RouteName(route), bps) in raw {
        var i: nat :| i < |raw| && raw[i] == Entry(RouteName(route), bps);
        ParsesIffNamed(raw[i].name);
        assert Prices(raw[i], ParseRoute, route, bps);
      }
    }
  }

  /** A route's rate, wherever it came from, is one the arithmetic accepts: the
      fee computes for every gross short of overflow, takes no more than the
      gross, and leaves every positive gross at least one unit. */
  lemma LoadedRatesAreUsable(table: map<Route, u64>, fees: Option<seq<Entry>>, policies: map<Chain, ChainPolicy>,
                             enabled: set<Route>, route: Route, gross: u64)
    requires Ok(table) == if fees.Some? then ReadTable(fees.value) else Ok(Fallback(policies))
    requires Covers(table, enabled) && (route in enabled || !IsSolanaRobinhood(route))
    ensures route in table && table[route] < 10_000
    ensures var fb := Conversion.ComputeFeeAtBps(gross, table[route]);
            && (fb.Ok? <==> gross * table[route] <= U64_MAX)
            && (fb.Ok? ==> fb.value.fee + fb.value.net == gross && (fb.value.net >= 1 <==> gross >= 1))
  {
    assert Required(route, enabled);
    if fees.Some? { RatesInRange(fees.value, |fees.value|, ParseRoute); }
    Conversion.FeeMeaning(gross, table[route]);
    Conversion.PositiveGrossNetsSomething(gross, table[route]);
  }

  lemma {:induction false} RatesInRange(raw: seq<Entry>, n: nat, parse: string -> Option<Route>)
    requires n <= |raw|
    ensures forall table, route :: ReadUpTo(raw, n, parse) == Ok(table) && route in table ==>
              table[route] <= MAX_FEE_BPS
  {
    if n > 0 { RatesInRange(raw, n - 1, parse); }
  }

  /** Without a section: loading fails only by an enabled Solana-Robinhood
      route; the two Goldcoin-Solana routes price at 300 bps whatever policy is
      configured, and a Robinhood policy prices exactly its own two routes. */
  lemma FallbackPricing(policies: map<Chain, ChainPolicy>, enabled: set<Route>)
    requires forall c :: c in policies ==> policies[c].chain == c
    ensures Covers(Fallback(policies), enabled) <==> SolToRhn !in enabled && RhnToSol !in enabled
    ensures Fallback(policies)[GlcToSol] == 300 && Fallback(policies)[SolToGlc] == 300
    ensures forall route :: route in {GlcToRhn, RhnToGlc} ==>
              Fallback(policies)[route] == if Robinhood in policies then policies[Robinhood].feeBps else 300
    ensures forall route :: route in Fallback(policies) ==> Fallback(policies)[route] <= MAX_FEE_BPS
  {
    if Solana in policies { assert false; }
    if SolToRhn !in enabled && RhnToSol !in enabled {
      forall route | Required(route, enabled) ensures route in Fallback(policies) { AllRoutesListed(route); }
    }
    if SolToRhn in enabled { assert Required(SolToRhn, enabled); }
    if RhnToSol in enabled { assert Required(RhnToSol, enabled); }
  }
}
