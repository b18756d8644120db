/** One request row from its indicative quote to its settlement: locked when a
    deposit is observed, unlocked when the observing block is orphaned, locked
    afresh on re-observation, parked, resumed, settled (service/src/ledger/mod.rs,
    with the verification of service/src/bridge_rate.rs). */
module QuoteLifecycle {
  import opened Numbers
  import opened Routes
  import opened AmountConversion
  import opened BridgeRate

  datatype RequestState = AwaitingDeposit | Expired | Confirming | SourceFinalized | ManualReview | Settled

  datatype Row = Row(route: Route, state: RequestState, gross: u64, feeBps: u64, fee: u64, net: u64,
                     netDestination: u64, quote: Option<PersistedQuote>, note: Option<ParkReason>)
  {
    /** The destination scale, read off the row's own figures. */
    function Scale(): (s: u64)
      ensures s >= 1
    {
      if && DestinationChain(route) == Solana && netDestination > 0
         && net % netDestination == 0 && net / netDestination > 0
      then QuotientFits(net, netDestination); net / netDestination
      else 1
    }

    function Verify(): (r: Result<FeeBreakdown, ConversionError>)
    {
      VerifyRequestAmounts(quote, gross, feeBps, fee, net, Scale())
    }

    predicate Locked()
    {
      quote.Some? && quote.value.lockedAt.Some?
    }

    /** The destination figure is the net in whole destination units. */
    predicate WellScaled()
    {
      net == netDestination * Scale()
    }
  }

  // ------------------------------------------------------------ the steps

  function Park(row: Row, reason: ParkReason): (r: Row)
  {
    row.(state := ManualReview, note := Some(reason))
  }

  /** What the observation writes for a struck quote: the quote, locked, and
      the amounts re-reserved from it when they moved and the destination
      reserve can absorb the difference. */
  function LockQuote(row: Row, q: BridgeQuote, freeCapacity: int, now: i64): (r: (Row, Option<ParkReason>))
  {
    var locked := row.(quote := Some(Persist(q, Some(now))));
    var scale := row.Scale();
    QuotientFits(q.netOut, scale);
    var destination: u64 := q.netOut / scale;
    if q.feeOut == row.fee && q.netOut == row.net && destination == row.netDestination then (locked, None)
    else if destination - row.netDestination > 0 && destination - row.netDestination > freeCapacity
    then (locked, Some(InsufficientCapacityAtLock))
    else (locked.(fee := q.feeOut, net := q.netOut, netDestination := destination), None)
  }

  /** Whether an observation may bind to the row at all. */
  predicate Observable(row: Row)
  {
    row.state in {AwaitingDeposit, Expired} && SourceChain(row.route) == Goldcoin
  }

  /** A late deposit whose released reservation no longer fits. */
  predicate LateWithoutCapacity(row: Row, freeCapacity: int)
  {
    row.state == Expired && row.netDestination > freeCapacity
  }

  /** The row priced at the moment of observation: locked at the struck quote, or
      left as it is, and why the rate would park it. A late deposit re-reserves
      what its expiry released before it is locked. */
  function PriceObserved(row: Row, book: RateBook, freeCapacity: int, now: i64): (r: (Row, Option<ParkReason>))
  {
    match book.Strike(row.route, row.gross, row.feeBps, now, row.Scale())
    case Err(Refused(refusal)) => (row, Some(RefusalReason(refusal)))
    case Err(Conversion(_)) => (row, None)
    case Ok(struck) =>
      var free := if row.state == Expired then freeCapacity - row.netDestination else freeCapacity;
      var (locked, capacityPark) := LockQuote(row, struck.quote, free, now);
      (locked, if capacityPark.Some? then capacityPark else if struck.band.Some? then Some(BandExceeded) else None)
  }

  /** The first observation of a deposit. `hold` is a burst or wallet-window
      hold, which outranks the rate's own park reasons. */
  function Observe(row: Row, amount: u64, book: RateBook, freeCapacity: int, hold: Option<ParkReason>, now: i64):
    (r: Row)
  {
    if !Observable(row) then row
    else if LateWithoutCapacity(row, freeCapacity) then Park(row, LateDepositNoCapacity)
    else if amount != row.gross then Park(row, AmountMismatch)
    else
      var (priced, ratePark) := PriceObserved(row, book, freeCapacity, now);
      if hold.Some? then Park(priced, hold.value)
      else if ratePark.Some? then Park(priced, ratePark.value)
      else priced.(state := Confirming)
  }

  /** The reservation's time ran out before a deposit was seen. */
  function Expire(row: Row): (r: Row)
  {
    if row.state == AwaitingDeposit then row.(state := Expired) else row
  }

  /** The observing block was orphaned before finality. */
  function Orphan(row: Row): (r: Row)
  {
    if row.state != Confirming then row
    else row.(state := AwaitingDeposit,
              quote := if row.quote.Some? then Some(row.quote.value.(lockedAt := None)) else None)
  }

  predicate IsRatePark(reason: ParkReason)
  {
    reason in {RateFeedUnavailable, RateFeedStale, RateWarmingUp, BandExceeded, InsufficientCapacityAtLock}
  }

  /** The guard every resume runs (`refuse_unless_quote_locked_in`). */
  predicate ResumeGuard(row: Row)
  {
    && !(row.note.Some? && IsRatePark(row.note.value) && row.note.value != BandExceeded)
    && !(row.quote.Some? && row.quote.value.lockedAt.None?)
    && !(row.note == Some(BandExceeded) && row.quote.None?)
  }

  /** Only the resume of a Solana-Robinhood route asks for a destination amount. */
  predicate HasWhatItsResumeAsks(row: Row)
  {
    IsSolanaRobinhood(row.route) ==> row.netDestination > 0
  }

  /** An operator resume: only a deposit that was final at its fold, parked for
      a recoverable reason. */
  function Resume(row: Row): (r: Row)
  {
    if && row.state == ManualReview && SourceChain(row.route) != Goldcoin
       && row.note.Some? && row.note.value in {BandExceeded, RecoverableHold}
       && ResumeGuard(row) && HasWhatItsResumeAsks(row)
    then row.(state := SourceFinalized, note := None)
    else row
  }

  /** At settlement the destination would refuse the payout. */
  function ParkOutOfBounds(row: Row): (r: Row)
  {
    if row.state == SourceFinalized then Park(row, PayoutOutOfBounds) else row
  }

  /** The bounds a payout must meet, as read from the destination just now. */
  datatype LiveBounds = LiveBounds(decimals: u8, minTransfer: u64, perTransferLimit: u64)

  /** Re-admission of a GlcToSol release parked out of bounds: only at a locked
      quote that verifies, whose payout the live bounds admit and the row still
      reserves. `covered` is the reserve's own accounting. */
  function ResumeOutOfBounds(row: Row, live: LiveBounds, covered: bool): (r: Row)
  {
    if row.route != GlcToSol || row.state != ManualReview || row.note != Some(PayoutOutOfBounds) then row
    else if !ResumeGuard(row) || !row.Locked() || row.Verify().Err? then row
    else
      match ConvertAtomicAmount(row.Verify().value.net, GOLDCOIN_DECIMALS, live.decimals)
      case Err(_) => row
      case Ok(payout) =>
        if live.minTransfer <= payout <= live.perTransferLimit && row.netDestination == payout && covered
        then row.(state := SourceFinalized, note := None)
        else row
  }

  /** The fold of a deposit that is already final: its quote is locked as the
      row is created. `outranking` is a hold reported before the rate's park,
      `blocker` an admission gate reported after it. */
  function Fold(route: Route, p: FoldPricing, gross: u64, feeBps: u64, netDestination: u64,
                outranking: Option<ParkReason>, blocker: Option<ParkReason>, now: i64): (r: Row)
  {
    var quote := if p.quote.Some? then Some(Persist(p.quote.value, Some(now))) else None;
    var note := if outranking.Some? then outranking else if p.park.Some? then p.park else blocker;
    Row(route, if note.None? then SourceFinalized else ManualReview,
        gross, feeBps, p.breakdown.fee, p.breakdown.net, netDestination, quote, note)
  }

  // ------------------------------------------------------------- the runs

  datatype Origin =
    | Legacy
    | Requested
    | Folded(refused: bool, outranking: Option<ParkReason>)

  /** The row, where it came from, the quote of the latest lock still in force,
      and what has been paid. */
  datatype World = World(row: Row, origin: Origin, lock: Option<BridgeQuote>, paid: Option<u64>)

  datatype Event =
    | EvObserve(amount: u64, book: RateBook, freeCapacity: int, hold: Option<ParkReason>, now: i64)
    | EvExpire
    | EvOrphan
    | EvFinalize
    | EvResume
    | EvParkOutOfBounds
    | EvResumeOutOfBounds(live: LiveBounds, covered: bool)
    | EvSettle

  /** The quote an observation locks, if it locks one. */
  function LockOf(row: Row, e: Event): (q: Option<BridgeQuote>)
    requires e.EvObserve?
  {
    if !Observable(row) || LateWithoutCapacity(row, e.freeCapacity) || e.amount != row.gross then None
    else
      var s := e.book.Strike(row.route, row.gross, row.feeBps, e.now, row.Scale());
      if s.Ok? then Some(s.value.quote) else None
  }

  function Next(w: World, e: Event): (w': World)
  {
    match e
    case EvObserve(amount, book, freeCapacity, hold, now) =>
      var q := LockOf(w.row, e);
      w.(row := Observe(w.row, amount, book, freeCapacity, hold, now), lock := if q.Some? then q else w.lock)
    case EvExpire => w.(row := Expire(w.row))
    case EvOrphan => w.(row := Orphan(w.row), lock := if w.row.state == Confirming then None else w.lock)
    case EvFinalize => if w.row.state == Confirming then w.(row := w.row.(state := SourceFinalized)) else w
    case EvResume => w.(row := Resume(w.row))
    case EvParkOutOfBounds => w.(row := ParkOutOfBounds(w.row))
    case EvResumeOutOfBounds(live, covered) => w.(row := ResumeOutOfBounds(w.row, live, covered))
    case EvSettle =>
      var v := w.row.Verify();
      if w.row.state == SourceFinalized && v.Ok?
      then w.(row := w.row.(state := Settled), paid := Some(v.value.net))
      else w
  }

  function Run(w: World, events: seq<Event>): (w': World)
    decreases |events|
  {
    if events == [] then w else Run(Next(w, events[0]), events[1..])
  }

  /** A row as some path of the service creates it. */
  ghost predicate Initial(w: World)
  {
    && w.paid.None?
    && match w.origin
       case Legacy => w.row.quote.None? && w.lock.None?
       case Requested =>
         && w.row.state == AwaitingDeposit && w.row.quote.Some? && w.row.quote.value.lockedAt.None? && w.lock.None?
       case Folded(_, _) =>
         exists book: RateBook, p: FoldPricing, scale: u64, blocker: Option<ParkReason>, now: i64 ::
           FoldedAs(w, book, p, scale, blocker, now)
  }

  ghost predicate FoldedAs(w: World, book: RateBook, p: FoldPricing, scale: u64, blocker: Option<ParkReason>, now: i64)
    requires w.origin.Folded?
  {
    && PriceFinalDeposit(book, w.row.route, w.row.gross, w.row.feeBps, now, scale) == Ok(p)
    && w.row == Fold(w.row.route, p, w.row.gross, w.row.feeBps, w.row.netDestination, w.origin.outranking, blocker, now)
    && SourceChain(w.row.route) != Goldcoin
    && w.lock == p.quote && w.origin.refused == p.quote.None?
  }

  /** `lock` is the quote the row carries, struck from the row's own inputs. */
  ghost predicate Carries(row: Row, lock: BridgeQuote)
  {
    && row.Locked()
    && row.quote == Some(Persist(lock, row.quote.value.lockedAt))
    && ((row.net == lock.netOut) || RestrikesTo(row, lock))
  }

  ghost predicate RestrikesTo(row: Row, lock: BridgeQuote)
  {
    var q := Quote(row.gross, lock.sourcePriceE12, lock.destinationPriceE12, row.feeBps, row.Scale());
    q.Ok? && q.value.netOut == lock.netOut
  }

  /** A refused fold that no step moves: parked, and nothing resumes it. */
  predicate Stuck(row: Row)
  {
    && row.quote.None? && SourceChain(row.route) != Goldcoin && row.state == ManualReview
    && !(row.note == Some(RecoverableHold) && HasWhatItsResumeAsks(row))
  }

  /** The refused folds that can be paid: a recoverable hold hides the refusal,
      and a Solana-Robinhood row has a destination amount. */
  predicate HiddenRefusal(w: World)
  {
    w.origin == Folded(true, Some(RecoverableHold)) && HasWhatItsResumeAsks(w.row)
  }

  /** An unquoted row is a legacy one, or a refused fold that is stuck or whose
      refusal is hidden. */
  ghost predicate UnquotedIsAccountedFor(w: World)
  {
    w.row.quote.None? ==>
      && !w.origin.Requested?
      && (w.origin.Folded? ==> SourceChain(w.row.route) != Goldcoin && (Stuck(w.row) || HiddenRefusal(w)))
  }

  ghost predicate PaidRight(w: World)
  {
    w.paid.Some? ==>
      && w.row.state == Settled && w.paid == Some(w.row.net)
      && (w.lock.Some? ==> w.paid == Some(w.lock.value.netOut))
      && (w.lock.None? ==> w.row.quote.None? && w.row.feeBps <= BPS_DENOMINATOR
                           && w.paid == Some(NetAt(w.row.gross, w.row.feeBps)))
  }

  ghost predicate Inv(w: World)
  {
    && (w.lock.None? <==> !w.row.Locked())
    && (w.lock.Some? ==> Carries(w.row, w.lock.value))
    && UnquotedIsAccountedFor(w)
    && PaidRight(w)
  }

  lemma InitialInv(w: World)
    requires Initial(w)
    ensures Inv(w)
  {
    if w.origin.Folded? {
      var book: RateBook, p: FoldPricing, scale: u64, blocker: Option<ParkReason>, now: i64
        :| FoldedAs(w, book, p, scale, blocker, now);
      FoldPricingSound(book, w.row.route, w.row.gross, w.row.feeBps, now, scale, p);
    }
  }

  /** An observation carries the quote it strikes, or leaves the row's alone. */
  lemma PricedCarries(row: Row, book: RateBook, freeCapacity: int, now: i64)
    ensures var s := book.Strike(row.route, row.gross, row.feeBps, now, row.Scale());
            var priced := PriceObserved(row, book, freeCapacity, now).0;
            if s.Ok? then Carries(priced, s.value.quote) else priced == row
  {
  }

  lemma CarriesAnyState(row: Row, row': Row, lock: BridgeQuote)
    requires Carries(row, lock) && row' == row.(state := row'.state, note := row'.note)
    ensures Carries(row', lock)
  {
    assert row'.Scale() == row.Scale();
  }

  lemma ObserveInv(w: World, e: Event)
    requires Inv(w) && e.EvObserve?
    ensures Inv(Next(w, e))
  {
    var row, row', q := w.row, Next(w, e).row, LockOf(w.row, e);
    PricedCarries(row, e.book, e.freeCapacity, e.now);
    if q.Some? {
      CarriesAnyState(PriceObserved(row, e.book, e.freeCapacity, e.now).0, row', q.value);
    } else {
      assert row' == row.(state := row'.state, note := row'.note);
      if w.lock.Some? { CarriesAnyState(row, row', w.lock.value); }
    }
  }

  lemma SettleInv(w: World)
    requires Inv(w)
    ensures Inv(Next(w, EvSettle))
  {
    if w.row.state == SourceFinalized && w.row.Verify().Ok? && w.row.quote.None? {
      FeeMeaning(w.row.gross, w.row.feeBps);
    }
  }

  lemma NextInv(w: World, e: Event)
    requires Inv(w)
    ensures Inv(Next(w, e))
  {
    match e
    case EvObserve(_, _, _, _, _) => ObserveInv(w, e);
    case EvSettle => SettleInv(w);
    case _ =>
  }

  lemma {:induction false} RunInv(w: World, events: seq<Event>)
    requires Inv(w)
    ensures Inv(Run(w, events))
    decreases |events|
  {
    if events != [] {
      NextInv(w, events[0]);
      RunInv(Next(w, events[0]), events[1..]);
    }
  }

  lemma {:induction false} OriginKept(w: World, events: seq<Event>)
    ensures Run(w, events).origin == w.origin
    decreases |events|
  {
    if events != [] { OriginKept(Next(w, events[0]), events[1..]); }
  }

  /** In every run, whatever is paid is exactly the net of the latest lock still
      in force and the net the row stores; a row that pays without a lock carries
      no quote at all, is paid
      by the fee rule alone, and is either a legacy row or a fold whose refused
      rate a recoverable hold outranked. */
  lemma SettlementPaysTheLatestLock(start: World, events: seq<Event>)
    requires Initial(start) && Run(start, events).paid.Some?
    ensures Run(start, events).paid == Some(Run(start, events).row.net)
    ensures var end := Run(start, events);
            if end.lock.Some? then end.row.Locked() && end.paid == Some(end.lock.value.netOut)
            else && end.row.quote.None?
                 && (start.origin == Legacy || HiddenRefusal(end))
                 && end.row.feeBps <= BPS_DENOMINATOR
                 && end.paid == Some(NetAt(end.row.gross, end.row.feeBps))
  {
    InitialInv(start);
    RunInv(start, events);
    OriginKept(start, events);
  }

  lemma {:induction false} StuckStaysUnpaid(w: World, events: seq<Event>)
    requires Stuck(w.row) && w.paid.None?
    ensures Run(w, events).paid.None?
    decreases |events|
  {
    if events != [] { StuckStaysUnpaid(Next(w, events[0]), events[1..]); }
  }

  /** The verification alone does not protect a refused fold: its row has the
      shape of a legacy row and verifies. */
  lemma RefusedFoldVerifies(w: World, book: RateBook, p: FoldPricing, scale: u64, blocker: Option<ParkReason>, now: i64)
    requires w.origin.Folded? && FoldedAs(w, book, p, scale, blocker, now) && p.quote.None?
    ensures w.row.Verify().Ok?
    ensures Resume(w.row).state == SourceFinalized <==>
            w.origin.outranking == Some(RecoverableHold) && HasWhatItsResumeAsks(w.row)
  {
    FoldPricingSound(book, w.row.route, w.row.gross, w.row.feeBps, now, scale, p);
  }

  lemma RunOfTwo(w: World, first: Event, second: Event)
    ensures Run(w, [first, second]) == Next(Next(w, first), second)
  {
    assert [first, second][1..] == [second] && [second][1..] == [];
    assert Run(w, [first, second]) == Run(Next(w, first), [second]);
    assert Run(Next(w, first), [second]) == Run(Next(Next(w, first), second), []);
  }

  lemma ResumableUnquotedPays(w: World)
    requires w.row.quote.None? && w.row.state == ManualReview && w.row.note == Some(RecoverableHold)
    requires SourceChain(w.row.route) != Goldcoin && HasWhatItsResumeAsks(w.row) && w.row.Verify().Ok?
    ensures Next(Next(w, EvResume), EvSettle).paid.Some?
  {
    var resumed := Next(w, EvResume);
    assert resumed.row == w.row.(state := SourceFinalized, note := None);
    assert resumed.row.Verify() == w.row.Verify();
  }

  /** How a refused fold is parked. */
  lemma RefusedFoldParked(w: World, book: RateBook, p: FoldPricing, scale: u64, blocker: Option<ParkReason>, now: i64)
    requires w.origin.Folded? && FoldedAs(w, book, p, scale, blocker, now) && p.quote.None?
    ensures w.row.quote.None? && w.row.state == ManualReview && SourceChain(w.row.route) != Goldcoin
    ensures w.row.note == Some(RecoverableHold) <==> w.origin.outranking == Some(RecoverableHold)
  {
    FoldPricingSound(book, w.row.route, w.row.gross, w.row.feeBps, now, scale, p);
  }

  /** Exactly when "nothing can settle" a refused fold: some run pays it if and
      only if a recoverable hold was recorded in place of the refusal and, on a
      Solana-Robinhood route, there is a destination amount. */
  lemma RefusedFoldPaysIff(w: World, book: RateBook, p: FoldPricing, scale: u64, blocker: Option<ParkReason>, now: i64)
    requires w.origin.Folded? && FoldedAs(w, book, p, scale, blocker, now) && p.quote.None? && w.paid.None?
    ensures (exists events :: Run(w, events).paid.Some?) <==>
            w.origin.outranking == Some(RecoverableHold) && HasWhatItsResumeAsks(w.row)
  {
    RefusedFoldParked(w, book, p, scale, blocker, now);
    if w.origin.outranking == Some(RecoverableHold) && HasWhatItsResumeAsks(w.row) {
      RefusedFoldVerifies(w, book, p, scale, blocker, now);
      ResumableUnquotedPays(w);
      RunOfTwo(w, EvResume, EvSettle);
    } else {
      forall events ensures Run(w, events).paid.None? { StuckStaysUnpaid(w, events); }
    }
  }

  // --------------------------------------- what each step decides, in figures

  /** What an observation has against the row's price: the book refuses, or the
      struck quote breaches the band, or its payout grows past what is free. An
      amount the arithmetic refuses is no price at all, and parks nothing. */
  ghost predicate PricedWithoutObjection(row: Row, book: RateBook, freeCapacity: int, now: i64)
  {
    && book.RouteStatus(row.route, now).Ok?
    && var (prices, rate) := book.RouteStatus(row.route, now).value;
       var quote := Quote(row.gross, prices.sourcePriceE12, prices.destinationPriceE12, row.feeBps, row.Scale());
       quote.Ok? ==>
         && !(rate.Some? && rate.value.bandExceeded)
         && var growth := quote.value.netOut / row.Scale() - row.netDestination;
            growth <= 0 || growth <= freeCapacity - (if row.state == Expired then row.netDestination else 0)
  }

  /** An observed deposit goes on confirming exactly when its amount is the
      reserved one, a late one's reservation still fits, no hold applies and its
      price meets no objection; every other one is parked. */
  lemma ConfirmsIff(row: Row, amount: u64, book: RateBook, freeCapacity: int, hold: Option<ParkReason>, now: i64)
    requires row.state in {AwaitingDeposit, Expired} && SourceChain(row.route) == Goldcoin
    ensures var after := Observe(row, amount, book, freeCapacity, hold, now);
            && (after.state == Confirming <==>
                  && amount == row.gross && hold.None?
                  && (row.state == Expired ==> row.netDestination <= freeCapacity)
                  && PricedWithoutObjection(row, book, freeCapacity, now))
            && (after.state != Confirming ==> after.state == ManualReview && after.note.Some?)
  {
    PriceParksIff(row, book, freeCapacity, now);
  }

  lemma PriceParksIff(row: Row, book: RateBook, freeCapacity: int, now: i64)
    ensures PriceObserved(row, book, freeCapacity, now).1.None? <==>
            PricedWithoutObjection(row, book, freeCapacity, now)
  {
  }

  /** A wrong amount, a late deposit that no longer fits, a hold, a band breach and
      a refused rate each park under their own name; a hold outranks the rate, and
      a payout that cannot grow outranks the breach. */
  lemma ParkedUnder(row: Row, amount: u64, book: RateBook, freeCapacity: int, hold: Option<ParkReason>, now: i64)
    requires row.state in {AwaitingDeposit, Expired} && SourceChain(row.route) == Goldcoin
    ensures var after := Observe(row, amount, book, freeCapacity, hold, now);
            var status := book.RouteStatus(row.route, now);
            var fits := row.state == Expired ==> row.netDestination <= freeCapacity;
            && (!fits ==> after.note == Some(LateDepositNoCapacity))
            && (fits && amount != row.gross ==> after.note == Some(AmountMismatch))
            && (fits && amount == row.gross && hold.Some? ==> after.note == hold)
            && (fits && amount == row.gross && hold.None? && status.Err? ==>
                  after.note == match status.error
                                case FeedUnavailable(_) => Some(RateFeedUnavailable)
                                case FeedStale(_) => Some(RateFeedStale)
                                case WarmingUp(_) => Some(RateWarmingUp))
            && (fits && amount == row.gross && hold.None? && status.Ok? && after.state == ManualReview ==>
                  after.note in {Some(InsufficientCapacityAtLock), Some(BandExceeded)})
  {
  }

  /** A band breach parks every observed deposit it can price. */
  lemma BreachParks(row: Row, amount: u64, book: RateBook, freeCapacity: int, hold: Option<ParkReason>, now: i64)
    requires row.state in {AwaitingDeposit, Expired} && SourceChain(row.route) == Goldcoin
    requires book.RouteStatus(row.route, now).Ok?
    requires var (prices, rate) := book.RouteStatus(row.route, now).value;
             && rate.Some? && rate.value.bandExceeded
             && Quote(row.gross, prices.sourcePriceE12, prices.destinationPriceE12, row.feeBps, row.Scale()).Ok?
    ensures Observe(row, amount, book, freeCapacity, hold, now).state == ManualReview
  {
    ConfirmsIff(row, amount, book, freeCapacity, hold, now);
  }

  /** A fold is payable at once exactly when nothing outranks the rate, the rate
      was answered inside the band, and no gate blocks. */
  lemma FoldPayableIff(book: RateBook, route: Route, g: u64, f: u64, now: i64, scale: u64, p: FoldPricing,
                       netDestination: u64, outranking: Option<ParkReason>, blocker: Option<ParkReason>)
    requires PriceFinalDeposit(book, route, g, f, now, scale) == Ok(p)
    ensures var row := Fold(route, p, g, f, netDestination, outranking, blocker, now);
            && (row.state == SourceFinalized <==>
                  && outranking.None? && blocker.None? && book.RouteStatus(route, now).Ok?
                  && var rate := book.RouteStatus(route, now).value.1; !(rate.Some? && rate.value.bandExceeded))
            && (row.state != SourceFinalized ==> row.state == ManualReview && row.note.Some?)
            && (outranking.Some? ==> row.note == outranking)
            && (row.quote.Some? ==> row.Locked() && row.quote.value.lockedAt == Some(now))
  {
    FoldPricingSound(book, route, g, f, now, scale, p);
  }

  /** What an operator may resume: a fold parked for a recoverable hold whose quote,
      if it has one, is locked, or for a band breach whose quote is; with a
      destination amount on the Solana-Robinhood routes. Amounts and quote stay. */
  lemma ResumeIff(row: Row)
    ensures (Resume(row) == row.(state := SourceFinalized, note := None) && row.state == ManualReview) <==>
            && row.state == ManualReview && row.route in {SolToGlc, RhnToGlc, SolToRhn, RhnToSol}
            && (row.route in {SolToRhn, RhnToSol} ==> row.netDestination > 0)
            && (|| (row.note == Some(RecoverableHold) && (row.quote.Some? ==> row.quote.value.lockedAt.Some?))
                || (row.note == Some(BandExceeded) && row.quote.Some? && row.quote.value.lockedAt.Some?))
    ensures Resume(row) == row || Resume(row) == row.(state := SourceFinalized, note := None)
  {
  }

  /** What is resumed after an out-of-bounds park: a locked, verifying release whose
      payout, worth exactly the verified net, lies within the live bounds and is
      what the row reserves. */
  lemma ResumeOutOfBoundsIff(row: Row, live: LiveBounds, covered: bool, payout: u64)
    requires row.state == ManualReview && row.netDestination == payout
    ensures ResumeOutOfBounds(row, live, covered).state == SourceFinalized <==>
            && row.route == GlcToSol && row.note == Some(PayoutOutOfBounds) && covered
            && row.Locked() && row.Verify().Ok?
            && DecimalGap(8, live.decimals) <= 19 && SameValue(row.Verify().value.net, 8, payout, live.decimals)
            && live.minTransfer <= payout <= live.perTransferLimit
  {
    if row.Verify().Ok? { ConvertIff(row.Verify().value.net, GOLDCOIN_DECIMALS, live.decimals, payout); }
  }

  /** The scale as the row's figures give it: the whole ratio of a Solana-bound
      row's net to its destination amount, one wherever there is none. */
  lemma ScaleIff(row: Row, k: u64)
    requires k >= 1
    ensures row.route in {GlcToSol, RhnToSol} && row.netDestination > 0 && row.net == k * row.netDestination ==>
              row.Scale() == k
    ensures row.Scale() == k > 1 ==>
              row.route in {GlcToSol, RhnToSol} && row.netDestination > 0 && row.net == k * row.netDestination
  {
    if row.netDestination > 0 {
      MultipleDivides(k, row.netDestination);
      MulLe(1, k, row.netDestination);
      DivBounds(row.net, row.netDestination);
    }
  }

  /** A late deposit is treated exactly as a timely one, as long as the capacity
      its expiry released is still there. */
  lemma LateIsTimely(row: Row, amount: u64, book: RateBook, freeCapacity: nat, hold: Option<ParkReason>, now: i64)
    requires row.state == AwaitingDeposit
    ensures SourceChain(row.route) == Goldcoin ==>
              Observe(Expire(row), amount, book, freeCapacity + row.netDestination, hold, now)
              == Observe(row, amount, book, freeCapacity, hold, now)
  {
    SameScale(row, Expire(row));
  }

  /** Out of bounds, a final row waits: it cannot be settled, and an operator who
      finds it within the live bounds gets back exactly the row that was parked. */
  lemma ParkedOutOfBoundsWaits(w: World, live: LiveBounds)
    requires w.row.state == SourceFinalized && w.row.note.None? && w.paid.None?
    ensures Next(Next(w, EvParkOutOfBounds), EvSettle).paid.None?
    ensures var parked := Next(w, EvParkOutOfBounds);
            && parked.row.state == ManualReview
            && (Next(parked, EvResumeOutOfBounds(live, true)) == w <==>
                  && w.row.route == GlcToSol && w.row.Locked() && w.row.Verify().Ok?
                  && DecimalGap(8, live.decimals) <= 19
                  && SameValue(w.row.Verify().value.net, 8, w.row.netDestination, live.decimals)
                  && live.minTransfer <= w.row.netDestination <= live.perTransferLimit)
  {
    var parked := Next(w, EvParkOutOfBounds);
    SameScale(w.row, parked.row);
    assert parked.row.Verify() == w.row.Verify();
    ResumeOutOfBoundsIff(parked.row, live, true, w.row.netDestination);
  }

  /** The holds an observation can meet. */
  predicate OrdinaryHolds(events: seq<Event>)
  {
    forall i :: 0 <= i < |events| && events[i].EvObserve? ==>
      events[i].hold in {None, Some(RecoverableHold), Some(TerminalHold)}
  }

  /** Not yet final, and not parked after having been. */
  predicate BeforeFinality(row: Row)
  {
    || row.state in {AwaitingDeposit, Expired, Confirming}
    || (row.state == ManualReview && row.note != Some(PayoutOutOfBounds))
  }

  lemma StaysBeforeFinality(w: World, e: Event)
    requires SourceChain(w.row.route) == Goldcoin && BeforeFinality(w.row) && w.paid.None? && !e.EvFinalize?
    requires e.EvObserve? ==> e.hold in {None, Some(RecoverableHold), Some(TerminalHold)}
    ensures var w' := Next(w, e);
            SourceChain(w'.row.route) == Goldcoin && BeforeFinality(w'.row) && w'.paid.None?
  {
  }

  /** A Goldcoin deposit is never paid before it is final: no run without a
      finalization pays it. */
  lemma {:induction false} NothingPaidBeforeFinality(w: World, events: seq<Event>)
    requires SourceChain(w.row.route) == Goldcoin && BeforeFinality(w.row) && w.paid.None?
    requires OrdinaryHolds(events) && forall i :: 0 <= i < |events| ==> !events[i].EvFinalize?
    ensures Run(w, events).paid.None?
    decreases |events|
  {
    if events != [] {
      StaysBeforeFinality(w, events[0]);
      NothingPaidBeforeFinality(Next(w, events[0]), events[1..]);
    }
  }

  /** And the ordinary course pays: observed with nothing against it, finalized and
      settled, a row is paid exactly what the observation locked, unless the lock
      floored everything away. */
  lemma OrdinaryCoursePays(w: World, e: Event, q: BridgeQuote)
    requires e.EvObserve? && e.hold.None? && e.amount == w.row.gross && w.paid.None?
    requires w.row.state == AwaitingDeposit && SourceChain(w.row.route) == Goldcoin
    requires var struck := e.book.Strike(w.row.route, w.row.gross, w.row.feeBps, e.now, w.row.Scale());
             struck.Ok? && struck.value.band.None? && struck.value.quote == q
    requires e.freeCapacity >= 0 && q.netOut / w.row.Scale() - w.row.netDestination <= e.freeCapacity
    ensures Run(w, [e, EvFinalize, EvSettle]).paid == if q.netOut > 0 || q.dustOut == 0 then Some(q.netOut) else None
  {
    RunOfThree(w, e, EvFinalize, EvSettle);
    CleanObservation(w, e, q);
    LockNeverOverdraws(w.row, q, e.freeCapacity, e.now);
    AbsorbedLockVerifiesIff(w.row, e.book, e.freeCapacity, e.now, q);
    var locked, final := LockQuote(w.row, q, e.freeCapacity, e.now).0, Next(Next(w, e), EvFinalize).row;
    SameScale(locked, final);
    assert final.Verify() == locked.Verify();
  }

  // -------------------------------------------------- what a lock settles

  /** At scale one nothing is floored away. */
  lemma QuoteAtUnitScale(g: u64, s: u64, d: u64, f: u64, scale: u64, qb: QuotedBreakdown)
    requires Quote(g, s, d, f, scale) == Ok(qb)
    ensures Quote(g, s, d, f, 1) == Ok(QuotedBreakdown(qb.grossOut, f, qb.feeOut, qb.grossOut - qb.feeOut, 0))
  {
    QuoteMeaning(g, s, d, f, scale);
    QuoteMeaning(g, s, d, f, 1);
  }

  /** A row whose lock was absorbed verifies exactly when it has something to
      deliver or nothing was floored away, and then at exactly the lock. A net
      floored to zero loses the scale it was floored at, and is refused. */
  lemma AbsorbedLockVerifiesIff(row: Row, book: RateBook, freeCapacity: int, now: i64, q: BridgeQuote)
    requires book.Strike(row.route, row.gross, row.feeBps, now, row.Scale()).Ok?
    requires q == book.Strike(row.route, row.gross, row.feeBps, now, row.Scale()).value.quote
    requires LockQuote(row, q, freeCapacity, now).1.None?
    ensures var locked := LockQuote(row, q, freeCapacity, now).0;
            && locked.WellScaled()
            && (locked.Verify().Ok? <==> q.netOut > 0 || q.dustOut == 0)
            && (locked.Verify().Ok? ==> locked.Verify().value == q.Breakdown())
  {
    LockedRowVerifiesIff(row, freeCapacity, now, q,
                         QuotedBreakdown(q.grossOut, row.feeBps, q.feeOut, q.netOut, q.dustOut));
  }

  lemma LockedRowVerifiesIff(row: Row, freeCapacity: int, now: i64, q: BridgeQuote, qb: QuotedBreakdown)
    requires Quote(row.gross, q.sourcePriceE12, q.destinationPriceE12, row.feeBps, row.Scale()) == Ok(qb)
    requires qb == QuotedBreakdown(q.grossOut, q.feeBps, q.feeOut, q.netOut, q.dustOut)
    requires LockQuote(row, q, freeCapacity, now).1.None?
    ensures var locked := LockQuote(row, q, freeCapacity, now).0;
            && locked.WellScaled()
            && (locked.Verify().Ok? <==> q.netOut > 0 || q.dustOut == 0)
            && (locked.Verify().Ok? ==> locked.Verify().value == q.Breakdown())
  {
    var s, d, scale := q.sourcePriceE12, q.destinationPriceE12, row.Scale();
    var locked := LockQuote(row, q, freeCapacity, now).0;
    QuoteMeaning(row.gross, s, d, row.feeBps, scale);
    QuoteAtUnitScale(row.gross, s, d, row.feeBps, scale, qb);
    LockedScale(row, locked, q.netOut, FineNet(row.gross, s, d, row.feeBps) / scale, scale);
  }

  /** The scale a row carries after its lock. */
  lemma LockedScale(row: Row, locked: Row, net: u64, units: int, scale: u64)
    requires scale == row.Scale() && net == units * scale && units >= 0
    requires locked.route == row.route && locked.net == net && locked.netDestination == net / scale
    ensures locked.netDestination == units
    ensures locked.Scale() == (if net > 0 then scale else 1)
    ensures locked.WellScaled()
  {
    MultipleDivides(units, scale);
    if net > 0 {
      if units == 0 { assert false; }
      MultipleDivides(scale, units);
      assert units * scale == scale * units;
    }
  }

  // -------------------------------------------------- the scale over runs

  /** The observation strikes a net floored to nothing. */
  predicate StrikesNothing(row: Row, e: Event)
  {
    e.EvObserve? && LockOf(row, e).Some? && LockOf(row, e).value.netOut == 0
  }

  /** Some observation of the run strikes a net floored to nothing. */
  predicate EverStrikesNothing(w: World, events: seq<Event>)
    decreases |events|
  {
    events != [] && (StrikesNothing(w.row, events[0]) || EverStrikesNothing(Next(w, events[0]), events[1..]))
  }

  lemma StruckInWholeUnits(row: Row, book: RateBook, now: i64)
    requires book.Strike(row.route, row.gross, row.feeBps, now, row.Scale()).Ok?
    ensures var q, scale := book.Strike(row.route, row.gross, row.feeBps, now, row.Scale()).value.quote, row.Scale();
            q.netOut / scale >= 0 && q.netOut == (q.netOut / scale) * scale
  {
    var q, scale := book.Strike(row.route, row.gross, row.feeBps, now, row.Scale()).value.quote, row.Scale();
    QuoteMeaning(row.gross, q.sourcePriceE12, q.destinationPriceE12, row.feeBps, scale);
    var fine := FineNet(row.gross, q.sourcePriceE12, q.destinationPriceE12, row.feeBps);
    FloorIff(fine, scale, 0);
    MultipleDivides(fine / scale, scale);
  }

  /** A lock writes the struck amounts, or keeps the row's where they would grow. */
  lemma LockWritesOrKeeps(row: Row, q: BridgeQuote, freeCapacity: int, now: i64)
    ensures var locked := LockQuote(row, q, freeCapacity, now).0;
            && locked.route == row.route
            && (|| (locked.net == q.netOut && locked.netDestination == q.netOut / row.Scale())
                || (locked.net == row.net && locked.netDestination == row.netDestination && q.netOut / row.Scale() > 0))
  {
  }

  lemma LockScale(row: Row, book: RateBook, freeCapacity: int, now: i64)
    requires book.Strike(row.route, row.gross, row.feeBps, now, row.Scale()).Ok?
    ensures var q := book.Strike(row.route, row.gross, row.feeBps, now, row.Scale()).value.quote;
            LockQuote(row, q, freeCapacity, now).0.Scale() == if q.netOut == 0 then 1 else row.Scale()
  {
    var q := book.Strike(row.route, row.gross, row.feeBps, now, row.Scale()).value.quote;
    StruckInWholeUnits(row, book, now);
    WrittenScale(row, q, LockQuote(row, q, freeCapacity, now).0) by { LockWritesOrKeeps(row, q, freeCapacity, now); }
  }

  lemma WrittenScale(row: Row, q: BridgeQuote, locked: Row)
    requires q.netOut / row.Scale() >= 0 && q.netOut == (q.netOut / row.Scale()) * row.Scale()
    requires locked.route == row.route
    requires || (locked.net == q.netOut && locked.netDestination == q.netOut / row.Scale())
             || (locked.net == row.net && locked.netDestination == row.netDestination && q.netOut / row.Scale() > 0)
    ensures locked.Scale() == if q.netOut == 0 then 1 else row.Scale()
  {
    var scale := row.Scale();
    if locked.net == q.netOut && locked.netDestination == q.netOut / scale {
      LockedScale(row, locked, q.netOut, q.netOut / scale, scale);
    } else {
      MulLe(1, q.netOut / scale, scale);
      SameScale(row, locked);
    }
  }

  lemma NextScale(w: World, e: Event)
    ensures Next(w, e).row.Scale() == if StrikesNothing(w.row, e) then 1 else w.row.Scale()
  {
    if e.EvObserve? && LockOf(w.row, e).Some? {
      var row, free := w.row, if w.row.state == Expired then e.freeCapacity - w.row.netDestination else e.freeCapacity;
      LockScale(row, e.book, free, e.now);
      SameScale(PriceObserved(row, e.book, e.freeCapacity, e.now).0, Next(w, e).row);
    } else {
      SameScale(w.row, Next(w, e).row);
    }
  }

  lemma SameScale(row: Row, row': Row)
    requires row'.route == row.route && row'.net == row.net && row'.netDestination == row.netDestination
    ensures row'.Scale() == row.Scale()
  {
  }

  /** The scale read off a row stays the one it was created at over a whole run,
      if and only if no lock of the run floored the net to nothing; after such a
      lock it is one for good. */
  lemma {:induction false} ScaleOverRuns(w: World, events: seq<Event>)
    ensures Run(w, events).row.Scale() == if EverStrikesNothing(w, events) then 1 else w.row.Scale()
    decreases |events|
  {
    if events != [] {
      NextScale(w, events[0]);
      ScaleOverRuns(Next(w, events[0]), events[1..]);
    }
  }

  /** A book that answers one pair of prices, inside the band. */
  function FlatBook(s: u64, d: u64): (book: RateBook)
  {
    Live(600, (_, _) => Ok(RouteRate(RailPrices(s, d, 0, 0), 0, 2_500, false)))
  }

  lemma StrikeOf150()
    ensures Quote(150, 1, 2, 0, 100) == Ok(QuotedBreakdown(75, 0, 0, 0, 75))
    ensures Quote(150, 1, 1, 0, 1) == Ok(QuotedBreakdown(150, 0, 0, 150, 0))
  {
  }

  lemma FlatStrike(s: u64, d: u64, row: Row, scale: u64, qb: QuotedBreakdown)
    requires Quote(row.gross, s, d, row.feeBps, scale) == Ok(qb)
    ensures var struck := FlatBook(s, d).Strike(row.route, row.gross, row.feeBps, 0, scale);
            && struck.Ok? && struck.value.band.None?
            && struck.value.quote == BridgeQuote(s, d, row.gross, qb.grossOut, row.feeBps, qb.feeOut, qb.netOut,
                                                 qb.dustOut, 0, SaturatingAddI64(0, 600), 0, 0)
  {
  }

  /** An observation with nothing against it writes what it strikes. */
  lemma CleanObservation(w: World, e: Event, q: BridgeQuote)
    requires e.EvObserve? && e.hold.None? && e.amount == w.row.gross
    requires w.row.state == AwaitingDeposit && SourceChain(w.row.route) == Goldcoin
    requires var struck := e.book.Strike(w.row.route, w.row.gross, w.row.feeBps, e.now, w.row.Scale());
             struck.Ok? && struck.value.band.None? && struck.value.quote == q
    requires q.netOut / w.row.Scale() - w.row.netDestination <= e.freeCapacity && e.freeCapacity >= 0
    ensures q.netOut / w.row.Scale() >= 0
    ensures Next(w, e).row == w.row.(state := Confirming, quote := Some(Persist(q, Some(e.now))), fee := q.feeOut,
                                     net := q.netOut, netDestination := q.netOut / w.row.Scale())
  {
    QuotientFits(q.netOut, w.row.Scale());
    LockNeverOverdraws(w.row, q, e.freeCapacity, e.now);
  }

  function Sighting(s: u64, d: u64): (e: Event)
  {
    EvObserve(150, FlatBook(s, d), 1_000, None, 0)
  }

  lemma SightedAt(w: World, s: u64, d: u64, scale: u64, qb: QuotedBreakdown)
    requires w.row.state == AwaitingDeposit && w.row.route == GlcToSol && w.row.gross == 150 && w.row.Scale() == scale
    requires Quote(150, s, d, w.row.feeBps, scale) == Ok(qb) && qb.netOut / scale <= 1_000
    ensures var row := Next(w, Sighting(s, d)).row;
            && row.state == Confirming && row.route == GlcToSol && row.gross == 150 && row.feeBps == w.row.feeBps
            && row.fee == qb.feeOut && row.net == qb.netOut && row.netDestination == qb.netOut / scale
            && row.quote.Some? && row.quote.value.lockedAt.Some? && row.quote.value.grossOut == qb.grossOut
            && row.quote.value.sourcePriceE12 == s && row.quote.value.destinationPriceE12 == d
  {
    FlatStrike(s, d, w.row, scale, qb);
    var q := FlatBook(s, d).Strike(w.row.route, w.row.gross, w.row.feeBps, 0, scale).value.quote;
    CleanObservation(w, Sighting(s, d), q);
  }

  lemma HalvedThenOrphaned(w: World, halved: Event)
    requires halved == Sighting(1, 2)
    requires w.row.route == GlcToSol && w.row.state == AwaitingDeposit && w.row.gross == 150 && w.row.feeBps == 0
    requires w.row.net == 100 && w.row.netDestination == 1
    ensures var row := Next(Next(w, halved), EvOrphan).row;
            && row.route == GlcToSol && row.state == AwaitingDeposit && row.gross == 150 && row.feeBps == 0
            && row.Scale() == 1
  {
    SightedHalved(w, halved);
    OrphanedAtNothing(Next(w, halved));
  }

  lemma SightedHalved(w: World, halved: Event)
    requires halved == Sighting(1, 2)
    requires w.row.route == GlcToSol && w.row.state == AwaitingDeposit && w.row.gross == 150 && w.row.feeBps == 0
    requires w.row.net == 100 && w.row.netDestination == 1
    ensures var row := Next(w, halved).row;
            && row.route == GlcToSol && row.state == Confirming && row.gross == 150 && row.feeBps == 0
            && row.netDestination == 0
  {
    ScaleOf100(w.row);
    SightedAt(w, 1, 2, 100, QuotedBreakdown(75, 0, 0, 0, 75)) by { StrikeOf150(); }
  }

  lemma ScaleOf100(row: Row)
    requires DestinationChain(row.route) == Solana && row.net == 100 && row.netDestination == 1
    ensures row.Scale() == 100
  {
  }

  lemma OrphanedAtNothing(w: World)
    requires w.row.state == Confirming && w.row.netDestination == 0
    ensures var row := Next(w, EvOrphan).row;
            && row.route == w.row.route && row.state == AwaitingDeposit && row.gross == w.row.gross
            && row.feeBps == w.row.feeBps && row.Scale() == 1
  {
  }

  lemma SightedAtPar(w: World, par: Event)
    requires par == Sighting(1, 1)
    requires w.row.route == GlcToSol && w.row.state == AwaitingDeposit && w.row.gross == 150 && w.row.feeBps == 0
    requires w.row.Scale() == 1
    ensures var row := Next(w, par).row;
            row.Scale() == 1 && row.netDestination == 150 && row.Verify() == Ok(FeeBreakdown(150, 0, 0, 150))
  {
    StrikeOf150();
    SightedAt(w, 1, 1, 1, QuotedBreakdown(150, 0, 0, 150, 0));
    VerifiesAt150(Next(w, par).row);
  }

  /** What losing the scale does to a release of 150 canonical units at a mint of
      six decimals: created at scale 100, locked while the rate is halved,
      orphaned, observed again at par. The row then verifies at a net the mint
      cannot represent, and reserves canonical units as if they were the mint's. */
  lemma ScaleLost(w: World, halved: Event, par: Event)
    requires halved == Sighting(1, 2) && par == Sighting(1, 1)
    requires w.row.route == GlcToSol && w.row.state == AwaitingDeposit && w.row.gross == 150 && w.row.feeBps == 0
    requires w.row.net == 100 && w.row.netDestination == 1
    ensures var row := Run(w, [halved, EvOrphan, par]).row;
            row.Scale() == 1 && row.netDestination == 150 && row.Verify() == Ok(FeeBreakdown(150, 0, 0, 150))
    ensures ConvertAtomicAmount(150, GOLDCOIN_DECIMALS, 6).Err?
  {
    HalvedThenOrphaned(w, halved);
    var orphaned := Next(Next(w, halved), EvOrphan);
    SightedAtPar(orphaned, par);
    RunOfThree(w, halved, EvOrphan, par);
    OneAndAHalfMintUnits();
  }

  lemma OneAndAHalfMintUnits()
    ensures ConvertAtomicAmount(150, GOLDCOIN_DECIMALS, 6).Err?
  {
    Pow10Values();
  }

  lemma ScaleOfEqualFigures(row: Row)
    requires row.net == row.netDestination
    ensures row.Scale() == 1
  {
    if row.net > 0 { MultipleDivides(1, row.net); }
  }

  lemma VerifiesAt150(row: Row)
    requires row.gross == 150 && row.feeBps == 0 && row.fee == 0 && row.net == 150 && row.netDestination == 150
    requires row.quote.Some? && row.quote.value.lockedAt.Some? && row.quote.value.grossOut == 150
    requires row.quote.value.sourcePriceE12 == 1 && row.quote.value.destinationPriceE12 == 1
    ensures row.Scale() == 1 && row.Verify() == Ok(FeeBreakdown(150, 0, 0, 150))
  {
    ScaleOfEqualFigures(row);
    LockedVerifies(row.quote.value, 150, 0, 0, 150, 1, QuotedBreakdown(150, 0, 0, 150, 0)) by { StrikeOf150(); }
  }

  /** A locked quote verifies at the figures it restrikes to. */
  lemma LockedVerifies(q: PersistedQuote, gross: u64, feeBps: u64, fee: u64, net: u64, scale: u64, qb: QuotedBreakdown)
    requires q.lockedAt.Some? && Quote(gross, q.sourcePriceE12, q.destinationPriceE12, feeBps, scale) == Ok(qb)
    requires qb.grossOut == q.grossOut && qb.feeOut == fee && qb.netOut == net
    ensures VerifyRequestAmounts(Some(q), gross, feeBps, fee, net, scale) == Ok(qb.AsFeeBreakdown())
  {
  }

  lemma RunOfThree(w: World, first: Event, second: Event, third: Event)
    ensures Run(w, [first, second, third]) == Next(Next(Next(w, first), second), third)
  {
    assert [first, second, third][1..] == [second, third];
    RunOfTwo(Next(w, first), second, third);
  }

  /** A lock never overdraws the destination reserve: what it adds to the
      reservation is free, and it parks exactly when the struck payout's growth
      is not. */
  lemma LockNeverOverdraws(row: Row, q: BridgeQuote, freeCapacity: nat, now: i64)
    ensures var (locked, park) := LockQuote(row, q, freeCapacity, now);
            && locked.netDestination - row.netDestination <= freeCapacity
            && (park.Some? <==> q.netOut / row.Scale() - row.netDestination > freeCapacity)
            && (park.Some? ==>
                  (locked.fee, locked.net, locked.netDestination) == (row.fee, row.net, row.netDestination))
            && (park.None? ==>
                  (locked.fee, locked.net) == (q.feeOut, q.netOut) && locked.netDestination == q.netOut / row.Scale())
  {
  }

  /** Nor does an observation as a whole: with what a late deposit re-reserves, the
      row holds no more than it held and what was free. */
  lemma ObservationNeverOverdraws(row: Row, book: RateBook, freeCapacity: nat, now: i64)
    requires !LateWithoutCapacity(row, freeCapacity)
    ensures var held := if row.state == Expired then 0 else row.netDestination;
            PriceObserved(row, book, freeCapacity, now).0.netDestination <= held + freeCapacity
  {
    match book.Strike(row.route, row.gross, row.feeBps, now, row.Scale())
    case Err(_) =>
    case Ok(struck) =>
      var free := if row.state == Expired then freeCapacity - row.netDestination else freeCapacity;
      LockNeverOverdraws(row, struck.quote, free, now);
  }

  /** A lock the destination reserve cannot absorb leaves the old amounts under
      the new quote, and such a row never verifies. */
  lemma UnabsorbedLockNeverVerifies(row: Row, book: RateBook, freeCapacity: int, now: i64, q: BridgeQuote)
    requires book.Strike(row.route, row.gross, row.feeBps, now, row.Scale()).Ok?
    requires q == book.Strike(row.route, row.gross, row.feeBps, now, row.Scale()).value.quote
    requires row.WellScaled() && LockQuote(row, q, freeCapacity, now).1.Some?
    ensures LockQuote(row, q, freeCapacity, now).0.Verify().Err?
  {
    var s, d, scale := q.sourcePriceE12, q.destinationPriceE12, row.Scale();
    var locked := LockQuote(row, q, freeCapacity, now).0;
    assert locked.Scale() == scale;
    if q.feeOut == row.fee && q.netOut == row.net {
      MultipleDivides(row.netDestination, scale);
    }
  }
}
