/** The operator-settable state of the ledger, the audited admin actions on it,
    and the safety checks behind every re-opening (service/src/admin_api.rs,
    service/src/admin_api/guard.rs, service/src/ledger/mod.rs). */
module AdminActions {
  import opened Numbers
  import opened Routes
  import opened RouteAvailability

  /** One reserve row. A reserve without a row is not initialized. */
  datatype Reserve = Reserve(
    paused: bool, admissionClosed: bool, liquidityAdmissionClosed: bool,
    balance: int, protectedMinimum: int, reserved: int,
    admissionBuffer: int, admissionReopen: int, minAvailableUtxos: int, availableUtxos: int)
  {
    function Headroom(): (h: int)
    {
      balance - protectedMinimum - reserved
    }

    /** Whether the automatic gate is closed after its next evaluation. */
    predicate GateClosesNext()
    {
      NextLiquidityClosed(liquidityAdmissionClosed, Headroom(), admissionBuffer, admissionReopen)
    }
  }

  datatype Business = Business(reserves: map<Chain, Reserve>, routeClosed: map<Route, bool>)

  datatype Action =
    | SetPaused(reserve: Chain, paused: bool)
    | SetAdmission(reserve: Chain, closed: bool)
    | SetRouteAdmission(route: Route, closed: bool)
  {
    /** The new value the audit row records. */
    function NewValue(): (v: bool)
    {
      match this
      case SetPaused(_, paused) => paused
      case SetAdmission(_, closed) => closed
      case SetRouteAdmission(_, closed) => closed
    }
  }

  datatype AdminError =
    | Storage | ReserveNotInitialized(reserve: Chain) | RouteNotInitialized(route: Route) | BadRequest | Conflict

  // ------------------------------------------- the flags operators set

  datatype Flags = Flags(paused: map<Chain, bool>, admissionClosed: map<Chain, bool>, routeClosed: map<Route, bool>)

  function PausedOf(reserves: map<Chain, Reserve>): (m: map<Chain, bool>)
  {
    map c | c in reserves :: reserves[c].paused
  }

  function AdmissionClosedOf(reserves: map<Chain, Reserve>): (m: map<Chain, bool>)
  {
    map c | c in reserves :: reserves[c].admissionClosed
  }

  function FlagsOf(b: Business): (f: Flags)
  {
    Flags(PausedOf(b.reserves), AdmissionClosedOf(b.reserves), b.routeClosed)
  }

  /** The flag an action writes, where it exists. */
  function FlagBefore(f: Flags, a: Action): (v: Option<bool>)
  {
    match a
    case SetPaused(c, _) => if c in f.paused then Some(f.paused[c]) else None
    case SetAdmission(c, _) => if c in f.admissionClosed then Some(f.admissionClosed[c]) else None
    case SetRouteAdmission(r, _) => if r in f.routeClosed then Some(f.routeClosed[r]) else None
  }

  /** Exactly one flag set, nothing else. */
  function SetFlag(f: Flags, a: Action): (f': Flags)
  {
    match a
    case SetPaused(c, v) => f.(paused := f.paused[c := v])
    case SetAdmission(c, v) => f.(admissionClosed := f.admissionClosed[c := v])
    case SetRouteAdmission(r, v) => f.(routeClosed := f.routeClosed[r := v])
  }

  // ------------------------------------------------ reads and writes

  function SetReserve(b: Business, c: Chain, r: Reserve): (b': Business)
  {
    b.(reserves := b.reserves[c := r])
  }

  /** The quota's write: the local pause engaged. */
  function PauseReserve(b: Business, c: Chain): (b': Business)
    requires c in b.reserves
  {
    SetReserve(b, c, b.reserves[c].(paused := true))
  }

  function ReadOldValue(b: Business, a: Action): (r: Result<Option<bool>, AdminError>)
  {
    match a
    case SetPaused(c, _) =>
      if c in b.reserves then Ok(Some(b.reserves[c].paused)) else Err(ReserveNotInitialized(c))
    case SetAdmission(c, _) =>
      if c != Goldcoin then Ok(None)
      else if c in b.reserves then Ok(Some(b.reserves[c].admissionClosed)) else Err(ReserveNotInitialized(c))
    case SetRouteAdmission(route, _) =>
      Ok(Some(route in b.routeClosed && b.routeClosed[route]))
  }

  function NextLiquidityClosed(currentlyClosed: bool, headroom: int, buffer: int, reopen: int): (closed: bool)
  {
    if buffer <= 0 then false
    else if currentlyClosed then headroom < reopen
    else headroom < buffer
  }

  /** The three reserve-safety checks. The third evaluates the automatic
      liquidity gate first and writes any transition. */
  function SafetyChecks(b: Business, c: Chain): (r: (Business, Result<(), AdminError>))
  {
    if c !in b.reserves then (b, Err(Conflict))
    else
      var row := b.reserves[c];
      if row.balance < row.protectedMinimum + row.reserved then (b, Err(Conflict))
      else if c != Goldcoin then (b, Ok(()))
      else if row.minAvailableUtxos != 0 && row.availableUtxos <= row.minAvailableUtxos then (b, Err(Conflict))
      else
        var closed := row.GateClosesNext();
        (SetReserve(b, c, row.(liquidityAdmissionClosed := closed)), if closed then Err(Conflict) else Ok(()))
  }

  /** The shared evaluator's snapshot for a route. */
  function GatesOf(b: Business, route: Route): (g: Option<AdmissionGates>)
  {
    var c := DestinationChain(route);
    if c !in b.reserves then None
    else
      var row := b.reserves[c];
      Some(AdmissionGates(route in b.routeClosed && b.routeClosed[route], row.paused, row.admissionClosed,
                          row.liquidityAdmissionClosed, row.Headroom(), row.admissionBuffer,
                          if c == Goldcoin then row.minAvailableUtxos else 0,
                          if c == Goldcoin && row.minAvailableUtxos > 0 then row.availableUtxos else 0))
  }

  function WriteFlag(b: Business, a: Action): (r: (Business, Result<(), AdminError>))
  {
    match a
    case SetPaused(c, v) =>
      if c in b.reserves then (SetReserve(b, c, b.reserves[c].(paused := v)), Ok(()))
      else (b, Err(ReserveNotInitialized(c)))
    case SetAdmission(c, v) =>
      if c in b.reserves then (SetReserve(b, c, b.reserves[c].(admissionClosed := v)), Ok(()))
      else (b, Err(ReserveNotInitialized(c)))
    case SetRouteAdmission(route, v) =>
      if route in b.routeClosed then (b.(routeClosed := b.routeClosed[route := v]), Ok(()))
      else (b, Err(RouteNotInitialized(route)))
  }

  /** The reserve whose safety an action must pass first, if any: closing and
      pausing are never refused. */
  function GuardedReserve(a: Action): (c: Option<Chain>)
  {
    match a
    case SetPaused(c, v) => if c == Robinhood && !v then Some(c) else None
    case SetAdmission(c, closed) => if closed then None else Some(c)
    case SetRouteAdmission(route, closed) => if closed then None else Some(DestinationChain(route))
  }

  /** Clearing the Robinhood pause is refused while GlcToRhn would still lack
      the funds: the evaluator asked with the pause cleared. */
  predicate UnpauseStillUnfunded(b: Business)
  {
    var g := GatesOf(b, GlcToRhn);
    g.Some? &&
    g.value.(paused := false).RouteBlockerAt(1)
    in {Some(UtxoLiquidityLow), Some(LiquidityBufferLow), Some(InsufficientCapacity)}
  }

  /** One mutation inside its scope: the state it leaves, and its outcome. */
  function Mutate(b: Business, a: Action): (r: (Business, Result<(), AdminError>))
  {
    if a.SetAdmission? && a.reserve != Goldcoin then (b, Err(BadRequest))
    else if GuardedReserve(a).None? then WriteFlag(b, a)
    else
      var (checked, verdict) := SafetyChecks(b, GuardedReserve(a).value);
      if verdict.Err? then (checked, verdict)
      else if a.SetPaused? && UnpauseStillUnfunded(checked) then (checked, Err(Conflict))
      else WriteFlag(checked, a)
  }

  lemma PausedOfUpdate(m: map<Chain, Reserve>, c: Chain, r: Reserve)
    ensures PausedOf(m[c := r]) == PausedOf(m)[c := r.paused]
  {
  }

  lemma AdmissionClosedOfUpdate(m: map<Chain, Reserve>, c: Chain, r: Reserve)
    ensures AdmissionClosedOf(m[c := r]) == AdmissionClosedOf(m)[c := r.admissionClosed]
  {
  }

  lemma SetReserveFlags(b: Business, c: Chain, r: Reserve)
    ensures FlagsOf(SetReserve(b, c, r)) ==
            Flags(FlagsOf(b).paused[c := r.paused], FlagsOf(b).admissionClosed[c := r.admissionClosed], b.routeClosed)
  {
    PausedOfUpdate(b.reserves, c, r);
    AdmissionClosedOfUpdate(b.reserves, c, r);
  }

  lemma SetToItself(m: map<Chain, bool>, c: Chain)
    requires c in m
    ensures m[c := m[c]] == m
  {
  }

  lemma PauseReserveFlags(b: Business, c: Chain)
    requires c in b.reserves
    ensures FlagsOf(PauseReserve(b, c)) == SetFlag(FlagsOf(b), SetPaused(c, true))
  {
    SetReserveFlags(b, c, b.reserves[c].(paused := true));
    SetToItself(FlagsOf(b).admissionClosed, c);
  }

  lemma SafetyChecksKeepFlags(b: Business, c: Chain)
    ensures FlagsOf(SafetyChecks(b, c).0) == FlagsOf(b)
  {
    if c in b.reserves {
      var row := b.reserves[c];
      var closed := row.GateClosesNext();
      SetReserveFlags(b, c, row.(liquidityAdmissionClosed := closed));
      SetToItself(FlagsOf(b).paused, c);
      SetToItself(FlagsOf(b).admissionClosed, c);
    }
  }

  lemma WriteFlagFlags(b: Business, a: Action)
    ensures var (b', r) := WriteFlag(b, a);
            if r.Ok? then FlagsOf(b') == SetFlag(FlagsOf(b), a) && FlagBefore(FlagsOf(b), a).Some? else b' == b
  {
    match a
    case SetPaused(c, v) =>
      if c in b.reserves {
        SetReserveFlags(b, c, b.reserves[c].(paused := v));
        SetToItself(FlagsOf(b).admissionClosed, c);
      }
    case SetAdmission(c, v) =>
      if c in b.reserves {
        SetReserveFlags(b, c, b.reserves[c].(admissionClosed := v));
        SetToItself(FlagsOf(b).paused, c);
      }
    case SetRouteAdmission(_, _) =>
  }

  /** A successful mutation sets exactly its own flag; a refused one moves no
      operator flag. */
  lemma MutateFlags(b: Business, a: Action)
    ensures Mutate(b, a).1.Ok? ==> FlagsOf(Mutate(b, a).0) == SetFlag(FlagsOf(b), a) && FlagBefore(FlagsOf(b), a).Some?
    ensures Mutate(b, a).1.Err? ==> FlagsOf(Mutate(b, a).0) == FlagsOf(b)
  {
    WriteFlagFlags(b, a);
    if GuardedReserve(a).Some? {
      var checked := SafetyChecks(b, GuardedReserve(a).value).0;
      SafetyChecksKeepFlags(b, GuardedReserve(a).value);
      WriteFlagFlags(checked, a);
    }
  }

  // ------------------------------------------- what is accepted, in figures

  /** A reserve safe enough to admit new demand: it covers what it protects and
      owes; and for Goldcoin the coin pool is above its floor and the headroom
      above the line that applies to the automatic gate's present state. */
  ghost predicate Safe(c: Chain, row: Reserve)
  {
    && row.balance >= row.protectedMinimum + row.reserved
    && (c == Goldcoin ==>
          && (row.minAvailableUtxos == 0 || row.availableUtxos > row.minAvailableUtxos)
          && var headroom := row.balance - row.protectedMinimum - row.reserved;
             row.admissionBuffer <= 0
             || headroom >= if row.liquidityAdmissionClosed then row.admissionReopen else row.admissionBuffer)
  }

  /** Opening a route: accepted exactly when the route has a row and the reserve
      it pays from is safe, and then the route is open. */
  lemma OpenRouteIff(b: Business, route: Route)
    ensures var m := Mutate(b, SetRouteAdmission(route, false));
            && (m.1.Ok? <==> && route in b.routeClosed && DestinationChain(route) in b.reserves
                             && Safe(DestinationChain(route), b.reserves[DestinationChain(route)]))
            && (m.1.Ok? ==> m.0.routeClosed == b.routeClosed[route := false])
  {
  }

  /** Opening a reserve's admission: only Goldcoin's, and only when it is safe. */
  lemma OpenAdmissionIff(b: Business, c: Chain)
    ensures var m := Mutate(b, SetAdmission(c, false));
            && (m.1.Ok? <==> c == Goldcoin && c in b.reserves && Safe(c, b.reserves[c]))
            && (m.1.Ok? ==> c in m.0.reserves && !m.0.reserves[c].admissionClosed)
            && (c != Goldcoin ==> m == (b, Err(BadRequest)))
  {
  }

  /** Clearing the Robinhood pause: the reserve must cover what it protects and
      owes, and be able to fund the smallest GlcToRhn transfer, unless another
      operator switch holds that route closed anyway. */
  lemma UnpauseRobinhoodIff(b: Business)
    ensures var m := Mutate(b, SetPaused(Robinhood, false));
            && (m.1.Ok? <==>
                  && Robinhood in b.reserves
                  && var row := b.reserves[Robinhood];
                     var headroom := row.balance - row.protectedMinimum - row.reserved;
                     && headroom >= 0
                     && (|| (GlcToRhn in b.routeClosed && b.routeClosed[GlcToRhn])
                         || row.admissionClosed
                         || (!row.liquidityAdmissionClosed && headroom >= 1
                             && (row.admissionBuffer <= 0 || headroom - 1 >= row.admissionBuffer))))
            && (m.1.Ok? ==> Robinhood in m.0.reserves && !m.0.reserves[Robinhood].paused)
  {
  }

  /** Stopping is never refused, and the other two pauses are cleared without a
      condition: these need only the row they write. */
  lemma UnconditionalIff(b: Business, c: Chain, route: Route, paused: bool)
    ensures paused || c != Robinhood ==>
              var m := Mutate(b, SetPaused(c, paused));
              (m.1.Ok? <==> c in b.reserves) && (m.1.Ok? ==> c in m.0.reserves && m.0.reserves[c].paused == paused)
    ensures var m := Mutate(b, SetAdmission(Goldcoin, true));
            (m.1.Ok? <==> Goldcoin in b.reserves) && (m.1.Ok? ==> m.0.reserves[Goldcoin].admissionClosed)
    ensures var m := Mutate(b, SetRouteAdmission(route, true));
            (m.1.Ok? <==> route in b.routeClosed) && (m.1.Ok? ==> m.0.routeClosed == b.routeClosed[route := true])
  {
  }

  // ------------------------------------- the automatic gate over a history

  /** The gate after a series of headroom readings. */
  function GateAfter(closed: bool, readings: seq<int>, buffer: int, reopen: int): (after: bool)
    decreases |readings|
  {
    if readings == [] then closed
    else GateAfter(NextLiquidityClosed(closed, readings[0], buffer, reopen), readings[1..], buffer, reopen)
  }

  /** The gate was closed just before reading `i` (or at the start), and no
      reading since has reached the reopen figure. */
  ghost predicate HeldClosedSince(closed: bool, readings: seq<int>, buffer: int, reopen: int, i: nat)
    requires i <= |readings|
  {
    && (if i == 0 then closed else readings[i - 1] < buffer)
    && forall j :: i <= j < |readings| ==> readings[j] < reopen
  }

  /** Hysteresis over any history: with thresholds as configuration accepts them,
      the gate is closed at the end exactly when some reading fell below the
      buffer (or it started closed) and none since reached the reopen figure. A
      disabled buffer opens it at the next reading. */
  lemma {:induction false} GateHysteresis(closed: bool, readings: seq<int>, buffer: int, reopen: int)
    requires buffer <= reopen
    ensures buffer > 0 ==>
              (GateAfter(closed, readings, buffer, reopen) <==>
               exists i: nat :: i <= |readings| && HeldClosedSince(closed, readings, buffer, reopen, i))
    ensures buffer <= 0 && readings != [] ==> !GateAfter(closed, readings, buffer, reopen)
    decreases |readings|
  {
    if readings == [] {
      assert closed <==> HeldClosedSince(closed, readings, buffer, reopen, 0);
    } else {
      var next, rest := NextLiquidityClosed(closed, readings[0], buffer, reopen), readings[1..];
      GateHysteresis(next, rest, buffer, reopen);
      if buffer > 0 {
        forall i: nat | i <= |rest| && HeldClosedSince(next, rest, buffer, reopen, i)
          ensures exists k: nat :: k <= |readings| && HeldClosedSince(closed, readings, buffer, reopen, k)
        {
          HeldEarlier(closed, readings, buffer, reopen, i);
        }
        forall k: nat | k <= |readings| && HeldClosedSince(closed, readings, buffer, reopen, k)
          ensures exists i: nat :: i <= |rest| && HeldClosedSince(next, rest, buffer, reopen, i)
        {
          HeldLater(closed, readings, buffer, reopen, k);
        }
      } else if rest == [] {
        assert !next;
      }
    }
  }

  lemma HeldEarlier(closed: bool, readings: seq<int>, buffer: int, reopen: int, i: nat)
    requires 0 < buffer <= reopen && readings != [] && i < |readings|
    requires HeldClosedSince(NextLiquidityClosed(closed, readings[0], buffer, reopen), readings[1..], buffer, reopen, i)
    ensures exists k: nat :: k <= |readings| && HeldClosedSince(closed, readings, buffer, reopen, k)
  {
    var rest := readings[1..];
    assert forall j :: 1 <= j < |readings| ==> readings[j] == rest[j - 1];
    if i == 0 && readings[0] >= buffer {
      assert HeldClosedSince(closed, readings, buffer, reopen, 0);
    } else {
      assert HeldClosedSince(closed, readings, buffer, reopen, i + 1);
    }
  }

  lemma HeldLater(closed: bool, readings: seq<int>, buffer: int, reopen: int, k: nat)
    requires 0 < buffer <= reopen && readings != [] && k <= |readings|
    requires HeldClosedSince(closed, readings, buffer, reopen, k)
    ensures var next := NextLiquidityClosed(closed, readings[0], buffer, reopen);
            exists i: nat :: i <= |readings[1..]| && HeldClosedSince(next, readings[1..], buffer, reopen, i)
  {
    var next, rest := NextLiquidityClosed(closed, readings[0], buffer, reopen), readings[1..];
    assert forall j :: 0 <= j < |rest| ==> rest[j] == readings[j + 1];
    assert HeldClosedSince(next, rest, buffer, reopen, if k == 0 then 0 else k - 1);
  }

  /** What an audit row records as the old value, from the flags alone: a route
      without a row reads as open, a reserve the action refuses reads as nothing. */
  function OldValueOf(f: Flags, a: Action): (v: Option<bool>)
  {
    match a
    case SetPaused(_, _) => FlagBefore(f, a)
    case SetAdmission(c, _) => if c == Goldcoin then FlagBefore(f, a) else None
    case SetRouteAdmission(r, _) => Some(r in f.routeClosed && f.routeClosed[r])
  }

  /** The old value read is the flags' own, and before a mutation that succeeds
      it is the very flag the mutation replaces. */
  lemma ReadIsFlag(b: Business, a: Action)
    requires ReadOldValue(b, a).Ok?
    ensures ReadOldValue(b, a).value == OldValueOf(FlagsOf(b), a)
    ensures Mutate(b, a).1.Ok? ==> OldValueOf(FlagsOf(b), a) == FlagBefore(FlagsOf(b), a)
  {
    if Mutate(b, a).1.Ok? { MutateFlags(b, a); }
  }

  /** The automatic gate moves when a re-opening on the Goldcoin reserve gets as
      far as evaluating it. */
  predicate AutomaticGateMoves(b: Business, a: Action)
  {
    && GuardedReserve(a) == Some(Goldcoin) && Goldcoin in b.reserves
    && var row := b.reserves[Goldcoin];
       && row.balance >= row.protectedMinimum + row.reserved
       && (row.minAvailableUtxos == 0 || row.availableUtxos > row.minAvailableUtxos)
       && row.liquidityAdmissionClosed
          != row.GateClosesNext()
  }

  /** The state with the automatic gate's transition, if there is one. */
  function GateMoved(b: Business, a: Action): (b': Business)
  {
    if !AutomaticGateMoves(b, a) then b
    else
      var row := b.reserves[Goldcoin];
      SetReserve(b, Goldcoin, row.(liquidityAdmissionClosed := !row.liquidityAdmissionClosed))
  }

  lemma GateMovedKeepsFlags(b: Business, a: Action)
    ensures FlagsOf(GateMoved(b, a)) == FlagsOf(b)
  {
    if AutomaticGateMoves(b, a) {
      var row := b.reserves[Goldcoin];
      SetReserveFlags(b, Goldcoin, row.(liquidityAdmissionClosed := !row.liquidityAdmissionClosed));
      SetToItself(FlagsOf(b).paused, Goldcoin);
      SetToItself(FlagsOf(b).admissionClosed, Goldcoin);
    }
  }

  lemma SafetyChecksMoveOnlyTheGate(b: Business, a: Action)
    requires GuardedReserve(a).Some?
    ensures SafetyChecks(b, GuardedReserve(a).value).0 == GateMoved(b, a)
  {
    if GuardedReserve(a) == Some(Goldcoin) && Goldcoin in b.reserves {
      assert b.reserves[Goldcoin := b.reserves[Goldcoin]] == b.reserves;
    }
  }

  /** What a refusal does change: nothing, unless it is a re-opening during
      which the automatic liquidity gate transitions; then exactly that gate's
      own flag, which the refusal's commit makes durable. */
  lemma RefusalEffect(b: Business, a: Action)
    requires Mutate(b, a).1.Err?
    ensures Mutate(b, a).0 == GateMoved(b, a)
    ensures Mutate(b, a).0 != b <==> AutomaticGateMoves(b, a)
  {
    if GuardedReserve(a).Some? {
      SafetyChecksMoveOnlyTheGate(b, a);
      WriteFlagFlags(GateMoved(b, a), a);
    } else {
      WriteFlagFlags(b, a);
    }
    if AutomaticGateMoves(b, a) {
      assert GateMoved(b, a).reserves[Goldcoin].liquidityAdmissionClosed
             != b.reserves[Goldcoin].liquidityAdmissionClosed;
    }
  }

  /** The documented "a validated refusal persists only its audit row" is false
      for the automatic gate: here a refused re-opening closes it. */
  lemma RefusalMayMoveTheAutomaticGate()
    ensures var row := Reserve(false, true, false, 100, 0, 0, 250, 350, 0, 0);
            var b := Business(map[Goldcoin := row], map[]);
            var a := SetAdmission(Goldcoin, false);
            Mutate(b, a).1 == Err(Conflict) && Mutate(b, a).0.reserves[Goldcoin].liquidityAdmissionClosed
  {
  }
}
