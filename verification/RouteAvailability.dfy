/** Whether a route would admit a transfer right now: the ledger's shared gate
    evaluator (service/src/ledger/admission.rs), the public verdict built on it
    (service/src/api.rs) and the operator's decomposition of that verdict into
    every closed gate (service/src/admin_api.rs). */
module RouteAvailability {
  import opened Numbers
  import opened Routes
  import opened AmountConversion
  import opened BridgeRate
  import opened DestinationAdmission

  // ------------------------------------------------ the ledger evaluator

  datatype AdmissionBlocker =
    | RouteAdmissionClosed | AdmissionClosed | ReservePaused
    | SourceWalletRateLimited | RecipientRateLimited
    | UtxoLiquidityLow | LiquidityBufferLow | InsufficientCapacity

  datatype AdmissionGates = AdmissionGates(
    routeAdmissionClosed: bool, paused: bool, admissionClosed: bool, liquidityAdmissionClosed: bool,
    confirmedHeadroom: int, admissionBuffer: int, minAvailableUtxos: int, availableUtxos: int)
  {
    predicate UtxoLiquidityOk()
    {
      minAvailableUtxos == 0 || availableUtxos > minAvailableUtxos
    }

    predicate LiquidityBufferOk(net: int)
    {
      admissionBuffer <= 0 || confirmedHeadroom - net >= admissionBuffer
    }

    function Blocker(net: int, sourceLimited: bool, recipientLimited: bool): (b: Option<AdmissionBlocker>)
    {
      if routeAdmissionClosed then Some(RouteAdmissionClosed)
      else if admissionClosed then Some(AdmissionClosed)
      else if paused then Some(ReservePaused)
      else if sourceLimited then Some(SourceWalletRateLimited)
      else if recipientLimited then Some(RecipientRateLimited)
      else if !UtxoLiquidityOk() then Some(UtxoLiquidityLow)
      else if liquidityAdmissionClosed || !LiquidityBufferOk(net) then Some(LiquidityBufferLow)
      else if net > confirmedHeadroom then Some(InsufficientCapacity)
      else None
    }

    function RouteBlockerAt(net: int): (b: Option<AdmissionBlocker>)
    {
      Blocker(net, false, false)
    }

    function MaxAdmissibleNet(): (m: nat)
    {
      if RouteBlockerAt(1).Some? then 0
      else
        var bound := if admissionBuffer > 0 then confirmedHeadroom - admissionBuffer else confirmedHeadroom;
        if bound >= 0 then bound else 0
    }
  }

  /** Each blocker as a statement about the snapshot, and its documented rank. */
  ghost predicate Blocks(g: AdmissionGates, net: int, sourceLimited: bool, recipientLimited: bool, b: AdmissionBlocker)
  {
    match b
    case RouteAdmissionClosed => g.routeAdmissionClosed
    case AdmissionClosed => g.admissionClosed
    case ReservePaused => g.paused
    case SourceWalletRateLimited => sourceLimited
    case RecipientRateLimited => recipientLimited
    case UtxoLiquidityLow => g.minAvailableUtxos != 0 && g.availableUtxos <= g.minAvailableUtxos
    case LiquidityBufferLow =>
      g.liquidityAdmissionClosed || (g.admissionBuffer > 0 && g.confirmedHeadroom - net < g.admissionBuffer)
    case InsufficientCapacity => net > g.confirmedHeadroom
  }

  function BlockerRank(b: AdmissionBlocker): (n: nat)
  {
    match b
    case RouteAdmissionClosed => 0 case AdmissionClosed => 1 case ReservePaused => 2
    case SourceWalletRateLimited => 3 case RecipientRateLimited => 4
    case UtxoLiquidityLow => 5 case LiquidityBufferLow => 6 case InsufficientCapacity => 7
  }

  /** The evaluator admits exactly when nothing blocks, and otherwise reports the
      first-ranked of the conditions that do. */
  lemma BlockerIsFirst(g: AdmissionGates, net: int, sourceLimited: bool, recipientLimited: bool, b: AdmissionBlocker)
    ensures g.Blocker(net, sourceLimited, recipientLimited) == Some(b) <==>
            && Blocks(g, net, sourceLimited, recipientLimited, b)
            && forall c :: BlockerRank(c) < BlockerRank(b) ==> !Blocks(g, net, sourceLimited, recipientLimited, c)
    ensures g.Blocker(net, sourceLimited, recipientLimited).None? <==>
            forall c :: !Blocks(g, net, sourceLimited, recipientLimited, c)
  {
    assert forall c :: Blocks(g, net, sourceLimited, recipientLimited, c) ==>
        g.Blocker(net, sourceLimited, recipientLimited).Some?
        && BlockerRank(g.Blocker(net, sourceLimited, recipientLimited).value) <= BlockerRank(c);
    if g.Blocker(net, sourceLimited, recipientLimited).Some? {
      assert Blocks(g, net, sourceLimited, recipientLimited, g.Blocker(net, sourceLimited, recipientLimited).value);
    }
  }

  /** The published maximum is exact: a positive net is admitted if and only if
      it does not exceed it, whatever gates are closed. */
  lemma MaxAdmissibleNetExact(gates: AdmissionGates, net: int)
    requires net >= 1
    ensures gates.RouteBlockerAt(net).None? <==> net <= gates.MaxAdmissibleNet()
  {
  }

  /** The same bound grossed up through the route fee: a positive gross whose
      fee computes is admitted if and only if it does not exceed the reported
      figure; a gross-up that cannot be computed reports 0. */
  method MaxAdmissibleGross(gates: AdmissionGates, feeBps: u64) returns (max: u64)
    requires gates.MaxAdmissibleNet() <= U64_MAX
    ensures forall g: u64 :: 1 <= g <= max && feeBps < BPS_DENOMINATOR && NetOf(g, feeBps).Ok? ==>
              gates.RouteBlockerAt(NetOf(g, feeBps).value).None?
    ensures feeBps < BPS_DENOMINATOR && GrossEstimate(gates.MaxAdmissibleNet(), feeBps) * feeBps <= U64_MAX
            && GrossEstimate(gates.MaxAdmissibleNet(), feeBps) <= U64_MAX ==>
              forall g: u64 :: 1 <= g && NetOf(g, feeBps).Ok? ==>
                (gates.RouteBlockerAt(NetOf(g, feeBps).value).None? <==> g <= max)
    ensures feeBps >= BPS_DENOMINATOR ==> max == 0
    ensures feeBps < BPS_DENOMINATOR && GrossEstimate(gates.MaxAdmissibleNet(), feeBps) > U64_MAX ==> max == 0
    ensures feeBps < BPS_DENOMINATOR && GrossEstimate(gates.MaxAdmissibleNet(), feeBps) * feeBps > U64_MAX ==> max == 0
  {
    var gross, _ := MaxGrossForNetAtBps(gates.MaxAdmissibleNet(), feeBps);
    max := if gross.Ok? then gross.value else 0;
    forall g: u64 | 1 <= g && feeBps < BPS_DENOMINATOR && NetOf(g, feeBps).Ok?
      ensures gates.RouteBlockerAt(NetOf(g, feeBps).value).None? <==> NetOf(g, feeBps).value <= gates.MaxAdmissibleNet()
    {
      FeeMeaning(g, feeBps);
      PositiveGrossNetsSomething(g, feeBps);
      MaxAdmissibleNetExact(gates, NetOf(g, feeBps).value);
    }
  }

  // --------------------------------------------------- the public verdict

  datatype SolanaProgramPause = SolanaProgramPause(paused: bool, releasePaused: bool, depositPaused: bool) {
    predicate Blocks(route: Route)
    {
      || (SourceChain(route) == Solana && (paused || depositPaused))
      || (DestinationChain(route) == Solana && (paused || releasePaused))
    }
  }

  datatype RateVerdict = FixedRate | LiveRate(rate: RouteRate) | RateRefused(refusal: RateRefusal) {
    function Blocker(): (b: Option<ParkReason>)
    {
      match this
      case FixedRate => None
      case LiveRate(rate) => if rate.bandExceeded then Some(BandExceeded) else None
      case RateRefused(refusal) => Some(RefusalReason(refusal))
    }
  }

  datatype Reason =
    | RouteDisabled | OnchainPaused | ProbeUnavailable | ReserveUnavailable | DestinationLimitUnavailable
    | Gate(blocker: AdmissionBlocker)
    | Rate(park: ParkReason)
    | ContractRouteDisabled | ContractDepositsPaused | ContractPayoutsPaused

  /** Everything one verdict is computed from, read at one instant. `gates` is
      None when the destination reserve has no row, `probeNet` the net of a
      normal SolToGlc transfer. */
  datatype Reading = Reading(route: Route, enabled: bool, onchain: SolanaProgramPause, probeNet: Option<i64>,
                             gates: Option<AdmissionGates>, rate: RateVerdict)
  {
    /** The size the gates are asked at. */
    function Size(): (n: int)
    {
      if route == SolToGlc && probeNet.Some? then probeNet.value else 1
    }
  }

  datatype Verdict = Verdict(available: bool, reason: Option<Reason>)

  function Unavailable(reason: Reason): (v: Verdict)
  {
    Verdict(false, Some(reason))
  }

  function RouteVerdict(r: Reading): (v: Verdict)
  {
    if !r.enabled then Unavailable(RouteDisabled)
    else if r.onchain.Blocks(r.route) then Unavailable(OnchainPaused)
    else if r.route == SolToGlc && r.probeNet.None? then
      if r.rate.Blocker().Some? then Unavailable(Rate(r.rate.Blocker().value)) else Unavailable(ProbeUnavailable)
    else if r.gates.None? then Unavailable(ReserveUnavailable)
    else
      var blocker := r.gates.value.RouteBlockerAt(r.Size());
      var operatorGate := blocker.Some? && blocker.value in {RouteAdmissionClosed, AdmissionClosed, ReservePaused};
      var reason :=
        if operatorGate then Some(Gate(blocker.value))
        else if r.rate.Blocker().Some? then Some(Rate(r.rate.Blocker().value))
        else if blocker.Some? then Some(Gate(blocker.value))
        else None;
      Verdict(reason.None?, reason)
  }

  /** The listing's last word: a bounded destination whose capacity is unknown
      is not advertised, after every other reason. */
  method BuildRouteView(r: Reading, destination: DestinationAdmissible)
    returns (available: bool, reason: Option<Reason>)
    ensures available <==> RouteVerdict(r).available && !destination.Unknown?
    ensures available <==> reason.None?
    ensures !RouteVerdict(r).available ==> reason == RouteVerdict(r).reason
    ensures RouteVerdict(r).available && destination.Unknown? ==> reason == Some(DestinationLimitUnavailable)
  {
    available, reason := RouteVerdict(r).available, RouteVerdict(r).reason;
    if available && destination.Unknown? {
      available := false;
      reason := Some(DestinationLimitUnavailable);
    }
  }

  // ------------------------------------------- gates, one by one

  datatype ContractFlags = ContractFlags(depositsPaused: bool, payoutsPaused: bool, routeEnabled: map<Route, bool>)

  /** The meaning of each reason as a closed gate, independent of any ranking.
      `rowClosed` is the route's own admission row as the operator view reads it. */
  ghost predicate GateClosed(b: Reason, r: Reading, rowClosed: bool, contract: Option<ContractFlags>)
  {
    match b
    case RouteDisabled => !r.enabled
    case OnchainPaused =>
      || (r.route in {SolToGlc, SolToRhn} && (r.onchain.paused || r.onchain.depositPaused))
      || (r.route in {GlcToSol, RhnToSol} && (r.onchain.paused || r.onchain.releasePaused))
    case ProbeUnavailable => r.route == SolToGlc && r.probeNet.None?
    case ReserveUnavailable => r.gates.None?
    case DestinationLimitUnavailable => false
    case Rate(park) =>
      (match r.rate
       case FixedRate => false
       case LiveRate(rate) => rate.bandExceeded && park == BandExceeded
       case RateRefused(FeedUnavailable(_)) => park == RateFeedUnavailable
       case RateRefused(FeedStale(_)) => park == RateFeedStale
       case RateRefused(WarmingUp(_)) => park == RateWarmingUp)
    case Gate(RouteAdmissionClosed) => rowClosed
    case Gate(AdmissionClosed) => r.gates.Some? && r.gates.value.admissionClosed
    case Gate(ReservePaused) => r.gates.Some? && r.gates.value.paused
    case Gate(UtxoLiquidityLow) => r.gates.Some? && Blocks(r.gates.value, NetAsked(r), false, false, UtxoLiquidityLow)
    case Gate(LiquidityBufferLow) =>
      r.gates.Some? && Blocks(r.gates.value, NetAsked(r), false, false, LiquidityBufferLow)
    case Gate(InsufficientCapacity) =>
      && r.gates.Some? && Blocks(r.gates.value, NetAsked(r), false, false, InsufficientCapacity)
      && !Blocks(r.gates.value, NetAsked(r), false, false, LiquidityBufferLow)
    case Gate(_) => false
    case ContractRouteDisabled =>
      && r.route in {GlcToRhn, RhnToGlc, SolToRhn, RhnToSol} && contract.Some?
      && r.route in contract.value.routeEnabled && !contract.value.routeEnabled[r.route]
    case ContractDepositsPaused => r.route in {RhnToGlc, RhnToSol} && contract.Some? && contract.value.depositsPaused
    case ContractPayoutsPaused => r.route in {GlcToRhn, SolToRhn} && contract.Some? && contract.value.payoutsPaused
  }

  /** The net the gates are judged at: a normal transfer's on SolToGlc, the
      smallest one elsewhere. */
  ghost function NetAsked(r: Reading): (n: int)
  {
    match r.route
    case SolToGlc => if r.probeNet.Some? then r.probeNet.value else 1
    case _ => 1
  }

  predicate BufferLow(r: Reading)
    requires r.gates.Some?
  {
    r.gates.value.liquidityAdmissionClosed || !r.gates.value.LiquidityBufferOk(r.Size())
  }

  predicate ContractDisables(route: Route, contract: Option<ContractFlags>)
  {
    HasContractRoute(route) && contract.Some?
    && route in contract.value.routeEnabled && !contract.value.routeEnabled[route]
  }

  predicate ContractPauses(route: Route, contract: Option<ContractFlags>)
  {
    HasContractRoute(route) && contract.Some?
    && (if SourceChain(route) == Robinhood then contract.value.depositsPaused else contract.value.payoutsPaused)
  }

  /** The two readings of the route's own admission row agree. */
  ghost predicate RowAgrees(r: Reading, rowClosed: bool)
  {
    r.gates.Some? ==> r.gates.value.routeAdmissionClosed == rowClosed
  }

  /** The public verdict is open exactly when no local gate is closed, and a
      closed verdict names a gate that is. */
  lemma VerdictIsConjunction(r: Reading, rowClosed: bool)
    requires RowAgrees(r, rowClosed)
    ensures RouteVerdict(r).available <==> forall b :: !GateClosed(b, r, rowClosed, None)
    ensures RouteVerdict(r).available <==> RouteVerdict(r).reason.None?
    ensures RouteVerdict(r).reason.Some? ==> GateClosed(RouteVerdict(r).reason.value, r, rowClosed, None)
  {
    var v := RouteVerdict(r);
    if v.available {
      forall b ensures !GateClosed(b, r, rowClosed, None) {}
    } else {
      assert GateClosed(v.reason.value, r, rowClosed, None);
    }
  }

  /** The Solana program's pauses stop exactly the routes with that Solana leg, and
      nothing but the route's own switch is reported before them. */
  lemma OnchainPausedIff(r: Reading)
    ensures RouteVerdict(r).reason == Some(OnchainPaused) <==>
            && r.enabled
            && (|| (r.route in {SolToGlc, SolToRhn} && (r.onchain.paused || r.onchain.depositPaused))
                || (r.route in {GlcToSol, RhnToSol} && (r.onchain.paused || r.onchain.releasePaused)))
  {
  }

  /** The order in which closed gates are reported. Operator gates come before the
      rate and the rate before liquidity, except that a SolToGlc route without a
      probe is judged no further than its rate. */
  function VerdictRank(b: Reason, unprobed: bool): (n: nat)
  {
    match b
    case RouteDisabled => 0
    case OnchainPaused => 1
    case ProbeUnavailable => 3
    case ReserveUnavailable => 4
    case Rate(_) => if unprobed then 2 else 8
    case Gate(RouteAdmissionClosed) => 5
    case Gate(AdmissionClosed) => 6
    case Gate(ReservePaused) => 7
    case Gate(UtxoLiquidityLow) => 9
    case Gate(LiquidityBufferLow) => 10
    case _ => 11
  }

  /** A closed verdict names the first-ranked closed gate. */
  lemma VerdictNamesTheFirst(r: Reading, rowClosed: bool, b: Reason)
    requires RowAgrees(r, rowClosed) && GateClosed(b, r, rowClosed, None)
    ensures RouteVerdict(r).reason.Some?
    ensures var unprobed := r.route == SolToGlc && r.probeNet.None?;
            VerdictRank(RouteVerdict(r).reason.value, unprobed) <= VerdictRank(b, unprobed)
  {
    VerdictIsConjunction(r, rowClosed);
  }

  /** `closed` is `open` with some gates closed further. */
  ghost predicate NoMoreOpen(closed: Reading, open: Reading)
  {
    && closed.route == open.route
    && (closed.enabled ==> open.enabled)
    && (open.onchain.paused ==> closed.onchain.paused)
    && (open.onchain.releasePaused ==> closed.onchain.releasePaused)
    && (open.onchain.depositPaused ==> closed.onchain.depositPaused)
    && (closed.probeNet.Some? ==> open.probeNet == closed.probeNet)
    && (closed.rate.Blocker().None? ==> open.rate.Blocker().None?)
    && (closed.gates.Some? ==> open.gates.Some? && GatesNoMoreOpen(closed.gates.value, open.gates.value))
  }

  ghost predicate GatesNoMoreOpen(closed: AdmissionGates, open: AdmissionGates)
  {
    && (open.routeAdmissionClosed ==> closed.routeAdmissionClosed)
    && (open.paused ==> closed.paused)
    && (open.admissionClosed ==> closed.admissionClosed)
    && (open.liquidityAdmissionClosed ==> closed.liquidityAdmissionClosed)
    && closed.confirmedHeadroom <= open.confirmedHeadroom
    && (open.admissionBuffer <= 0 || open.admissionBuffer <= closed.admissionBuffer)
    && (open.minAvailableUtxos == 0
        || (closed.minAvailableUtxos >= open.minAvailableUtxos > 0 && closed.availableUtxos <= open.availableUtxos))
  }

  /** Closing gates never opens a route, for any combination of them. */
  lemma ClosingNeverOpens(closed: Reading, open: Reading)
    requires NoMoreOpen(closed, open) && RouteVerdict(closed).available
    ensures RouteVerdict(open).available
  {
    var c, o := closed.gates.value, open.gates.value;
    assert c.RouteBlockerAt(closed.Size()).None?;
    assert o.RouteBlockerAt(open.Size()).None?;
  }

  // ------------------------------------------------- the operator view

  function PushIf(blockers: seq<Reason>, closed: bool, b: Reason): (r: seq<Reason>)
    ensures forall x :: x in r <==> x in blockers || (closed && x == b)
  {
    if closed then blockers + [b] else blockers
  }

  /** `Vec::dedup`: drops repeats of the preceding element. */
  function Dedup(s: seq<Reason>): (r: seq<Reason>)
    ensures forall x :: x in r <==> x in s
    ensures |r| <= |s|
  {
    if |s| < 2 then s
    else
      assert s == [s[0]] + s[1..];
      if s[0] == s[1] then Dedup(s[1..]) else [s[0]] + Dedup(s[1..])
  }

  predicate OperatorReason(b: Reason)
  {
    b.RouteDisabled? || b.ReserveUnavailable?
    || (b.Gate? && (b.blocker.RouteAdmissionClosed? || b.blocker.AdmissionClosed? || b.blocker.ReservePaused?))
  }

  predicate ChainReason(b: Reason)
  {
    b.OnchainPaused? || b.ContractRouteDisabled? || b.ContractDepositsPaused? || b.ContractPayoutsPaused?
  }

  method PushOperatorGates(r: Reading, rowClosed: bool) returns (blockers: seq<Reason>)
    ensures forall b :: b in blockers <==> OperatorReason(b) && GateClosed(b, r, rowClosed, None)
  {
    blockers := PushIf([], !r.enabled, RouteDisabled);
    blockers := PushIf(blockers, rowClosed, Gate(RouteAdmissionClosed));
    blockers := PushIf(blockers, r.gates.Some? && r.gates.value.admissionClosed, Gate(AdmissionClosed));
    blockers := PushIf(blockers, r.gates.Some? && r.gates.value.paused, Gate(ReservePaused));
    blockers := PushIf(blockers, r.gates.None?, ReserveUnavailable);
  }

  method PushChainGates(before: seq<Reason>, r: Reading, contract: Option<ContractFlags>)
    returns (blockers: seq<Reason>)
    ensures forall b :: b in blockers <==> b in before || (ChainReason(b) && GateClosed(b, r, false, contract))
  {
    blockers := PushIf(before, r.onchain.Blocks(r.route), OnchainPaused);
    blockers := PushIf(blockers, ContractDisables(r.route, contract), ContractRouteDisabled);
    blockers := PushIf(blockers, ContractPauses(r.route, contract),
                       if SourceChain(r.route) == Robinhood then ContractDepositsPaused else ContractPayoutsPaused);
  }

  predicate LiquidityReason(b: Reason)
  {
    b.Gate? && (b.blocker.UtxoLiquidityLow? || b.blocker.LiquidityBufferLow? || b.blocker.InsufficientCapacity?)
  }

  method PushRateGates(before: seq<Reason>, r: Reading) returns (blockers: seq<Reason>)
    ensures forall b :: b in blockers <==> b in before || (b.Rate? && GateClosed(b, r, false, None))
  {
    blockers := before;
    if r.rate.Blocker().Some? { blockers := PushIf(blockers, true, Rate(r.rate.Blocker().value)); }
  }

  method PushLiquidityGates(before: seq<Reason>, r: Reading) returns (blockers: seq<Reason>)
    ensures forall b :: b in blockers <==> b in before || (LiquidityReason(b) && GateClosed(b, r, false, None))
  {
    blockers := before;
    if r.gates.Some? {
      blockers := PushIf(blockers, !r.gates.value.UtxoLiquidityOk(), Gate(UtxoLiquidityLow));
      if BufferLow(r) {
        blockers := PushIf(blockers, true, Gate(LiquidityBufferLow));
      } else if r.Size() > r.gates.value.confirmedHeadroom {
        blockers := PushIf(blockers, true, Gate(InsufficientCapacity));
      }
    }
  }

  /** The operator's view of one route. It is available only if the public
      verdict is; when the two reads of the admission row agree, its list names
      exactly the closed gates and is empty exactly when the route is
      available; in every case the primary reason is one of the listed ones. */
  method EffectiveRoute(r: Reading, rowClosed: bool, contract: Option<ContractFlags>)
    returns (available: bool, primaryReason: Option<Reason>, blockers: seq<Reason>)
    ensures available <==>
            RouteVerdict(r).available && !ContractDisables(r.route, contract) && !ContractPauses(r.route, contract)
    ensures forall b :: b in blockers <==> GateClosed(b, r, rowClosed, contract) || RouteVerdict(r).reason == Some(b)
    ensures RowAgrees(r, rowClosed) ==> forall b :: b in blockers <==> GateClosed(b, r, rowClosed, contract)
    ensures blockers == [] <==> available && !rowClosed
    ensures RowAgrees(r, rowClosed) ==> (blockers == [] <==> available)
    ensures primaryReason.None? <==> available
    ensures primaryReason.Some? ==> primaryReason.value in blockers
    ensures RouteVerdict(r).reason.Some? ==> primaryReason == RouteVerdict(r).reason
  {
    var verdict := RouteVerdict(r);
    blockers := PushOperatorGates(r, rowClosed);
    blockers := PushChainGates(blockers, r, contract);
    blockers := PushRateGates(blockers, r);
    blockers := PushLiquidityGates(blockers, r);
    blockers := PushIf(blockers, r.route == SolToGlc && r.probeNet.None?, ProbeUnavailable);
    blockers := Dedup(blockers);
    if verdict.reason.Some? && verdict.reason.value !in blockers {
      blockers := PushIf(blockers, true, verdict.reason.value);
    }
    available := verdict.available && !ContractDisables(r.route, contract) && !ContractPauses(r.route, contract);
    ClosedGatesAreListed(r, rowClosed, contract, blockers);
    primaryReason := if verdict.reason.Some? then verdict.reason else if available then None else Some(blockers[0]);
  }

  /** What a complete list says about availability. */
  lemma ClosedGatesAreListed(r: Reading, rowClosed: bool, contract: Option<ContractFlags>, blockers: seq<Reason>)
    requires forall b :: b in blockers <==> GateClosed(b, r, rowClosed, contract) || RouteVerdict(r).reason == Some(b)
    ensures RouteVerdict(r).available <==> RouteVerdict(r).reason.None?
    ensures blockers == [] <==>
              && RouteVerdict(r).available && !rowClosed
              && !ContractDisables(r.route, contract) && !ContractPauses(r.route, contract)
    ensures RowAgrees(r, rowClosed) && RouteVerdict(r).available ==> !rowClosed
    ensures RowAgrees(r, rowClosed) ==> forall b :: b in blockers <==> GateClosed(b, r, rowClosed, contract)
  {
    if blockers == [] {
      assert forall b :: !GateClosed(b, r, rowClosed, contract);
      assert !GateClosed(ContractRouteDisabled, r, rowClosed, contract);
      assert !GateClosed(ContractDepositsPaused, r, rowClosed, contract);
      assert !GateClosed(ContractPayoutsPaused, r, rowClosed, contract);
      assert !GateClosed(Gate(RouteAdmissionClosed), r, rowClosed, contract);
    } else {
      assert blockers[0] in blockers;
    }
  }
}
