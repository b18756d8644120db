/** Bridge quotes: the rate, the fee on what the rate yields, and the floor to
    the destination's precision; the verification every settlement goes
    through; and the pricing of a final deposit (service/src/bridge_rate.rs). */
module BridgeRate {
  import opened Numbers
  import opened Routes
  import opened AmountConversion

  const PRICE_SCALE: u64 := 1_000_000_000_000

  datatype RailPrices = RailPrices(
    sourcePriceE12: u64, destinationPriceE12: u64, sourceFeedAt: i64, destinationFeedAt: i64)

  function UnitPrices(now: i64): (p: RailPrices)
  {
    RailPrices(PRICE_SCALE, PRICE_SCALE, now, now)
  }

  datatype QuotedBreakdown = QuotedBreakdown(grossOut: u64, feeBps: u64, feeOut: u64, netOut: u64, dustOut: u64) {
    function AsFeeBreakdown(): (fb: FeeBreakdown)
    {
      FeeBreakdown(grossOut, feeBps, feeOut, netOut)
    }
  }

  datatype BridgeQuote = BridgeQuote(
    sourcePriceE12: u64, destinationPriceE12: u64,
    grossIn: u64, grossOut: u64, feeBps: u64, feeOut: u64, netOut: u64, dustOut: u64,
    quotedAt: i64, quoteExpiresAt: i64, sourceFeedAt: i64, destinationFeedAt: i64)
  {
    function Breakdown(): (fb: FeeBreakdown)
    {
      FeeBreakdown(grossOut, feeBps, feeOut, netOut)
    }
  }

  // --------------------------------------------------- striking a quote

  function GrossOutAtRate(grossIn: u64, sourcePriceE12: u64, destinationPriceE12: u64):
    (r: Result<u64, ConversionError>)
  {
    if sourcePriceE12 == 0 || destinationPriceE12 == 0
    then Err(InvalidBridgePrice(sourcePriceE12, destinationPriceE12))
    else
      var scaled: u128 := Widen(grossIn, sourcePriceE12);
      var out := scaled / destinationPriceE12;
      FloorIff(scaled, destinationPriceE12, 0);
      if out <= U64_MAX then Ok(out) else Err(Overflow(grossIn))
  }

  function Quote(grossIn: u64, sourcePriceE12: u64, destinationPriceE12: u64, feeBps: u64, scale: u64):
    (r: Result<QuotedBreakdown, ConversionError>)
  {
    if scale == 0 then Err(InvalidDestinationScale)
    else
      var grossOut :- GrossOutAtRate(grossIn, sourcePriceE12, destinationPriceE12);
      var fb :- ComputeFeeAtBps(grossOut, feeBps);
      var dust := fb.net % scale;
      FloorToUnit(fb.net, scale);
      Ok(QuotedBreakdown(fb.gross, fb.feeBps, fb.fee, fb.net - dust, dust))
  }

  function ComputeBridgeQuote(grossIn: u64, prices: RailPrices, feeBps: u64, now: i64, lifetime: i64, scale: u64):
    (r: Result<BridgeQuote, ConversionError>)
  {
    var qb :- Quote(grossIn, prices.sourcePriceE12, prices.destinationPriceE12, feeBps, scale);
    Ok(BridgeQuote(prices.sourcePriceE12, prices.destinationPriceE12, grossIn,
                   qb.grossOut, feeBps, qb.feeOut, qb.netOut, qb.dustOut,
                   now, SaturatingAddI64(now, lifetime), prices.sourceFeedAt, prices.destinationFeedAt))
  }

  function DestinationScaleForDecimals(decimals: u8): (scale: u64)
    ensures 1 <= scale <= 100_000_000
  {
    if decimals >= GOLDCOIN_DECIMALS then 1
    else
      Pow10Monotone(GOLDCOIN_DECIMALS - decimals, 8);
      Pow10Values();
      Pow10(GOLDCOIN_DECIMALS - decimals)
  }

  /** The scale is what one destination unit is worth in canonical units; a
      destination at least as fine as the canonical one has no floor. */
  lemma DestinationScaleMeaning(decimals: u8)
    ensures decimals <= GOLDCOIN_DECIMALS ==>
              SameValue(DestinationScaleForDecimals(decimals), GOLDCOIN_DECIMALS, 1, decimals)
    ensures decimals >= GOLDCOIN_DECIMALS ==> DestinationScaleForDecimals(decimals) == 1
  {
    if decimals <= GOLDCOIN_DECIMALS {
      SameValueByGap(DestinationScaleForDecimals(decimals), GOLDCOIN_DECIMALS, 1, decimals);
    }
  }

  // ------------------------------------------------- what a quote means

  /** The whole units of size `scale` in `n`, and what is left over. */
  lemma FloorToUnit(n: nat, scale: int)
    requires scale > 0
    ensures n - n % scale == (n / scale) * scale && 0 <= n % scale < scale && 0 <= n - n % scale <= n
  {
    DivBounds(n, scale);
    FloorIff(n, scale, 0);
    MulLe(0, n / scale, scale);
  }

  /** The source amount valued at the rate, before the u64 narrowing. */
  function RawOut(grossIn: nat, s: nat, d: nat): (x: nat)
    requires d > 0
  {
    FloorIff(grossIn * s, d, 0);
    MulLe(0, grossIn, s);
    (grossIn * s) / d
  }

  /** The amounts on which every step of the quote stays inside u64. */
  predicate Quotable(grossIn: nat, s: nat, d: nat, feeBps: nat, scale: nat)
  {
    && scale > 0 && s > 0 && d > 0 && feeBps <= BPS_DENOMINATOR
    && RawOut(grossIn, s, d) <= U64_MAX
    && RawOut(grossIn, s, d) * feeBps <= U64_MAX
  }

  /** The net before it is floored to the destination's unit. */
  function FineNet(grossIn: nat, s: nat, d: nat, feeBps: nat): (n: nat)
    requires d > 0 && feeBps <= BPS_DENOMINATOR
  {
    NetAt(RawOut(grossIn, s, d), feeBps)
  }

  /** A quote succeeds exactly on the quotable amounts, conserves the gross,
      and delivers the largest whole number of destination units in the
      rounded-up kept share. */
  lemma QuoteMeaning(g: u64, s: u64, d: u64, f: u64, scale: u64)
    ensures Quote(g, s, d, f, scale).Ok? <==> Quotable(g, s, d, f, scale)
    ensures forall qb :: Quote(g, s, d, f, scale) == Ok(qb) ==>
              && qb.feeBps == f
              && qb.grossOut == RawOut(g, s, d) == qb.feeOut + qb.netOut + qb.dustOut
              && qb.netOut + qb.dustOut == FineNet(g, s, d, f)
              && qb.dustOut < scale
              && qb.netOut == (FineNet(g, s, d, f) / scale) * scale
  {
    if scale > 0 && s > 0 && d > 0 {
      FloorIff(g * s, d, 0);
      if RawOut(g, s, d) <= U64_MAX {
        FeeMeaning(RawOut(g, s, d), f);
        if Quote(g, s, d, f, scale).Ok? {
          FloorToUnit(FineNet(g, s, d, f), scale);
        }
      }
    }
  }

  /** The delivered net fits a bound exactly when its whole units do. */
  lemma NetFitsByUnits(n: nat, scale: int, bound: nat)
    requires scale > 0
    ensures (n / scale) * scale <= bound <==> n / scale <= bound / scale
  {
    FloorIff(bound, scale, n / scale);
  }

  lemma RawOutMonotone(g: nat, g': nat, s: nat, d: nat)
    requires g <= g' && d > 0
    ensures RawOut(g, s, d) <= RawOut(g', s, d)
  {
    MulLe(g, g', s);
    FloorMonotone(g * s, g' * s, d);
  }

  /** Below a quotable amount everything is quotable, and nothing nets more:
      an overflow can only happen above every admissible amount. */
  lemma QuoteMonotone(g: u64, g': u64, s: u64, d: u64, f: u64, scale: u64)
    requires g <= g' && Quote(g', s, d, f, scale).Ok?
    ensures Quote(g, s, d, f, scale).Ok?
    ensures Quote(g, s, d, f, scale).value.netOut <= Quote(g', s, d, f, scale).value.netOut
  {
    QuoteMeaning(g', s, d, f, scale);
    RawOutMonotone(g, g', s, d);
    MulLe(RawOut(g, s, d), RawOut(g', s, d), f);
    QuoteMeaning(g, s, d, f, scale);
    NetMonotone(RawOut(g, s, d), RawOut(g', s, d), f);
    FloorMonotone(FineNet(g, s, d, f), FineNet(g', s, d, f), scale);
    MulLe(FineNet(g, s, d, f) / scale, FineNet(g', s, d, f) / scale, scale);
  }

  /** Every net struck at the scale of a destination with `decimals <= 8`
      converts exactly to that destination's unit, and back. */
  lemma QuotedNetConvertsExactly(g: u64, s: u64, d: u64, f: u64, decimals: u8)
    requires decimals <= GOLDCOIN_DECIMALS
    requires Quote(g, s, d, f, DestinationScaleForDecimals(decimals)).Ok?
    ensures var net := Quote(g, s, d, f, DestinationScaleForDecimals(decimals)).value.netOut;
            exists units: u64 ::
              && units * DestinationScaleForDecimals(decimals) == net
              && ConvertAtomicAmount(net, GOLDCOIN_DECIMALS, decimals) == Ok(units)
              && ConvertAtomicAmount(units, decimals, GOLDCOIN_DECIMALS) == Ok(net)
  {
    var scale := DestinationScaleForDecimals(decimals);
    QuoteMeaning(g, s, d, f, scale);
    var net := Quote(g, s, d, f, scale).value.netOut;
    var units := FineNet(g, s, d, f) / scale;
    FloorIff(FineNet(g, s, d, f), scale, 0);
    MultipleDivides(units, scale);
    QuotientFits(net, scale);
    SameValueByGap(net, GOLDCOIN_DECIMALS, units, decimals);
    ConvertIff(net, GOLDCOIN_DECIMALS, decimals, units);
    ConvertRoundTrip(net, GOLDCOIN_DECIMALS, decimals, units);
  }

  // --------------------------------------------------- verifying a row

  function VerifyQuotedBreakdown(grossIn: u64, s: u64, d: u64, feeBps: u64,
                                 storedGrossOut: u64, storedFee: u64, storedNet: u64, scale: u64):
    (r: Result<FeeBreakdown, ConversionError>)
  {
    var qb :- Quote(grossIn, s, d, feeBps, scale);
    var fb := qb.AsFeeBreakdown();
    if fb.gross != storedGrossOut || fb.fee != storedFee || fb.net != storedNet
    then Err(QuoteMismatch(grossIn, s, d, storedGrossOut, fb.gross, storedFee, fb.fee, storedNet, fb.net))
    else Ok(fb)
  }

  datatype PersistedQuote = PersistedQuote(
    sourcePriceE12: u64, destinationPriceE12: u64, grossOut: u64,
    quotedAt: i64, quoteExpiresAt: i64, sourceFeedAt: i64, destinationFeedAt: i64,
    lockedAt: Option<i64>)

  /** The columns a struck quote is stored as. */
  function Persist(q: BridgeQuote, lockedAt: Option<i64>): (p: PersistedQuote)
  {
    PersistedQuote(q.sourcePriceE12, q.destinationPriceE12, q.grossOut,
                   q.quotedAt, q.quoteExpiresAt, q.sourceFeedAt, q.destinationFeedAt, lockedAt)
  }

  function VerifyRequestAmounts(quote: Option<PersistedQuote>, gross: u64, feeBps: u64, fee: u64, net: u64, scale: u64):
    (r: Result<FeeBreakdown, ConversionError>)
  {
    match quote
    case None => VerifyFeeBreakdown(gross, feeBps, fee, net)
    case Some(q) =>
      if q.lockedAt.None? then Err(QuoteNotLocked(q.quotedAt))
      else VerifyQuotedBreakdown(gross, q.sourcePriceE12, q.destinationPriceE12, feeBps, q.grossOut, fee, net, scale)
  }

  /** Persisting any struck quote locked and verifying it returns exactly the
      struck breakdown; the stored figures are accepted if and only if all
      three are the struck ones, and never while the quote is unlocked. */
  lemma StruckQuoteVerifies(g: u64, prices: RailPrices, f: u64, now: i64, lifetime: i64, scale: u64,
                            q: BridgeQuote, lockedAt: Option<i64>, grossOut: u64, fee: u64, net: u64)
    requires ComputeBridgeQuote(g, prices, f, now, lifetime, scale) == Ok(q)
    ensures var stored := Persist(q, lockedAt).(grossOut := grossOut);
            var r := VerifyRequestAmounts(Some(stored), g, f, fee, net, scale);
            && (r.Ok? <==> lockedAt.Some? && grossOut == q.grossOut && fee == q.feeOut && net == q.netOut)
            && (r.Ok? ==> r.value == q.Breakdown())
            && (lockedAt.None? ==> r == Err(QuoteNotLocked(now)))
  {
    QuoteMeaning(g, prices.sourcePriceE12, prices.destinationPriceE12, f, scale);
  }

  /** A row without a quote verifies if and only if its fee is the rounded-down
      share of its gross and fee and net add up to it; then at its own figures. */
  lemma UnquotedVerifiesIff(gross: u64, feeBps: u64, fee: u64, net: u64, scale: u64)
    ensures var r := VerifyRequestAmounts(None, gross, feeBps, fee, net, scale);
            && (r.Ok? <==> && feeBps <= 10_000 && gross * feeBps <= U64_MAX && fee + net == gross
                           && fee * 10_000 <= gross * feeBps < (fee + 1) * 10_000)
            && (r.Ok? ==> r.value == FeeBreakdown(gross, feeBps, fee, net))
  {
    FeeMeaning(gross, feeBps);
    FloorIff(gross * feeBps, 10_000, fee);
    FloorIff(gross * feeBps, 10_000, fee + 1);
  }

  /** A row with a quote verifies if and only if the quote is locked and every
      stored figure is what the locked prices give: the gross at the rate, the
      net in whole destination units, the fee the rest of the kept share leaves. */
  lemma QuotedVerifiesIff(q: PersistedQuote, gross: u64, feeBps: u64, fee: u64, net: u64, scale: u64)
    ensures var s, d := q.sourcePriceE12, q.destinationPriceE12;
            var r := VerifyRequestAmounts(Some(q), gross, feeBps, fee, net, scale);
            && (r.Ok? <==> && q.lockedAt.Some? && Quotable(gross, s, d, feeBps, scale)
                           && q.grossOut == RawOut(gross, s, d) == fee + FineNet(gross, s, d, feeBps)
                           && net == (FineNet(gross, s, d, feeBps) / scale) * scale)
            && (r.Ok? ==> r.value == FeeBreakdown(q.grossOut, feeBps, fee, net))
  {
    QuoteMeaning(gross, q.sourcePriceE12, q.destinationPriceE12, feeBps, scale);
  }

  /** What a struck quote records besides its amounts: the prices and amount it
      was struck from, when, and until when, never wrapping around. */
  lemma QuoteRecords(g: u64, prices: RailPrices, f: u64, now: i64, lifetime: i64, scale: u64, q: BridgeQuote)
    requires ComputeBridgeQuote(g, prices, f, now, lifetime, scale) == Ok(q)
    ensures q.grossIn == g && q.feeBps == f && q.quotedAt == now
    ensures RailPrices(q.sourcePriceE12, q.destinationPriceE12, q.sourceFeedAt, q.destinationFeedAt) == prices
    ensures q.quoteExpiresAt <= now + lifetime || now + lifetime < I64_MIN
    ensures I64_MIN <= now + lifetime <= I64_MAX ==> q.quoteExpiresAt == now + lifetime
    ensures now + lifetime > I64_MAX ==> q.quoteExpiresAt == I64_MAX
  {
  }

  // ------------------------------------------------------ the rate book

  datatype RateRefusal = FeedUnavailable(chain: Chain) | FeedStale(chain: Chain) | WarmingUp(chain: Chain)

  /** Why a row is parked for review. */
  datatype ParkReason =
    | RateFeedUnavailable | RateFeedStale | RateWarmingUp | BandExceeded
    | InsufficientCapacityAtLock | AmountMismatch | LateDepositNoCapacity | PayoutOutOfBounds
    | RecoverableHold | TerminalHold

  function RefusalReason(refusal: RateRefusal): (r: ParkReason)
  {
    match refusal
    case FeedUnavailable(_) => RateFeedUnavailable
    case FeedStale(_) => RateFeedStale
    case WarmingUp(_) => RateWarmingUp
  }

  datatype RouteRate = RouteRate(prices: RailPrices, movementBps: u64, bandBps: u64, bandExceeded: bool)

  datatype RateError = Refused(refusal: RateRefusal) | Conversion(error: ConversionError)

  datatype BandBreach = BandBreach(movementBps: u64, bandBps: u64)

  datatype StruckQuote = StruckQuote(quote: BridgeQuote, band: Option<BandBreach>, routeRate: Option<RouteRate>)

  /** A book answers every route with the unit rate, or with whatever the live
      prices say: an arbitrary function here. */
  datatype RateBook =
    | FixedUnit(lifetime: i64)
    | Live(lifetime: i64, rates: (Route, i64) -> Result<RouteRate, RateRefusal>)
  {
    function RouteStatus(route: Route, now: i64): (r: Result<(RailPrices, Option<RouteRate>), RateRefusal>)
    {
      match this
      case FixedUnit(_) => Ok((UnitPrices(now), None))
      case Live(_, rates) =>
        var rate :- rates(route, now);
        Ok((rate.prices, Some(rate)))
    }

    function Strike(route: Route, grossIn: u64, feeBps: u64, now: i64, scale: u64): (r: Result<StruckQuote, RateError>)
    {
      match RouteStatus(route, now)
      case Err(refusal) => Err(Refused(refusal))
      case Ok((prices, routeRate)) =>
        match ComputeBridgeQuote(grossIn, prices, feeBps, now, lifetime, scale)
        case Err(e) => Err(Conversion(e))
        case Ok(quote) =>
          var band := if routeRate.Some? && routeRate.value.bandExceeded
                      then Some(BandBreach(routeRate.value.movementBps, routeRate.value.bandBps)) else None;
          Ok(StruckQuote(quote, band, routeRate))
    }
  }

  /** The fixed book is the legacy fee rule: it answers every route, and at scale
      one strikes exactly what the fee alone gives. */
  lemma FixedBookIsTheFeeRule(lifetime: i64, route: Route, g: u64, f: u64, now: i64)
    ensures var struck := FixedUnit(lifetime).Strike(route, g, f, now, 1);
            && (struck.Ok? <==> ComputeFeeAtBps(g, f).Ok?)
            && (struck.Ok? ==> && struck.value.quote.Breakdown() == ComputeFeeAtBps(g, f).value
                               && struck.value.quote.dustOut == 0 && struck.value.band.None?)
  {
    MultipleDivides(g, PRICE_SCALE);
    QuoteMeaning(g, PRICE_SCALE, PRICE_SCALE, f, 1);
    FeeMeaning(g, f);
  }

  /** The live book is its rates: it refuses exactly what they refuse, strikes at
      the prices they answer, and reports a breach exactly when they flag one. */
  lemma LiveBookIsItsRates(lifetime: i64, rates: (Route, i64) -> Result<RouteRate, RateRefusal>,
                           route: Route, g: u64, f: u64, now: i64, scale: u64)
    ensures var struck := Live(lifetime, rates).Strike(route, g, f, now, scale);
            match rates(route, now)
            case Err(refusal) => struck == Err(Refused(refusal))
            case Ok(rate) =>
              && (struck.Ok? <==> Quotable(g, rate.prices.sourcePriceE12, rate.prices.destinationPriceE12, f, scale))
              && (struck.Ok? ==>
                    && struck.value.routeRate == Some(rate)
                    && struck.value.quote.sourcePriceE12 == rate.prices.sourcePriceE12
                    && struck.value.quote.destinationPriceE12 == rate.prices.destinationPriceE12
                    && struck.value.band == if rate.bandExceeded
                                            then Some(BandBreach(rate.movementBps, rate.bandBps)) else None)
  {
    var rate := rates(route, now);
    if rate.Ok? {
      QuoteMeaning(g, rate.value.prices.sourcePriceE12, rate.value.prices.destinationPriceE12, f, scale);
    }
  }

  datatype FoldPricing = FoldPricing(
    quote: Option<BridgeQuote>, breakdown: FeeBreakdown, park: Option<ParkReason>, band: Option<BandBreach>)

  function PriceFinalDeposit(book: RateBook, route: Route, grossIn: u64, feeBps: u64, now: i64, scale: u64):
    (r: Result<FoldPricing, ConversionError>)
  {
    match book.Strike(route, grossIn, feeBps, now, scale)
    case Ok(struck) =>
      Ok(FoldPricing(Some(struck.quote), struck.quote.Breakdown(),
                     if struck.band.Some? then Some(BandExceeded) else None, struck.band))
    case Err(Refused(refusal)) =>
      var fb :- ComputeFeeAtBps(grossIn, feeBps);
      Ok(FoldPricing(None, fb, Some(RefusalReason(refusal)), None))
    case Err(Conversion(e)) => Err(e)
  }

  /** A final deposit cannot be priced only where the arithmetic refuses it: the
      fee at a refused rate, the quote at an answered one. */
  lemma FoldPricesIff(book: RateBook, route: Route, g: u64, f: u64, now: i64, scale: u64)
    ensures PriceFinalDeposit(book, route, g, f, now, scale).Ok? <==>
            match book.RouteStatus(route, now)
            case Err(_) => f <= 10_000 && g * f <= U64_MAX
            case Ok((prices, _)) => Quotable(g, prices.sourcePriceE12, prices.destinationPriceE12, f, scale)
  {
    FeeMeaning(g, f);
    var status := book.RouteStatus(route, now);
    if status.Ok? { QuoteMeaning(g, status.value.0.sourcePriceE12, status.value.0.destinationPriceE12, f, scale); }
  }

  /** For every answer of the book: a deposit is left payable only with a quote
      struck inside the band; a band breach parks it with its quote and a
      refused rate parks it with none; and whatever quote is carried, locked at
      the fold, verifies to the stored breakdown, conserves the gross and
      leaves less than one destination unit of dust. */
  lemma FoldPricingSound(book: RateBook, route: Route, g: u64, f: u64, now: i64, scale: u64, p: FoldPricing)
    requires PriceFinalDeposit(book, route, g, f, now, scale) == Ok(p)
    ensures p.quote.None? <==> book.RouteStatus(route, now).Err?
    ensures p.quote.None? ==> p.park.Some? && p.breakdown.net == NetAt(g, f) && p.band.None?
    ensures p.quote.None? ==> match book.RouteStatus(route, now).error
                              case FeedUnavailable(_) => p.park == Some(RateFeedUnavailable)
                              case FeedStale(_) => p.park == Some(RateFeedStale)
                              case WarmingUp(_) => p.park == Some(RateWarmingUp)
    ensures p.quote.Some? ==>
              var rate := book.RouteStatus(route, now).value.1;
              && (p.park.None? <==> !(rate.Some? && rate.value.bandExceeded))
              && (p.park.Some? ==> p.park == Some(BandExceeded))
              && p.band == if p.park.Some? then Some(BandBreach(rate.value.movementBps, rate.value.bandBps)) else None
    ensures p.quote.Some? ==>
              var q := p.quote.value;
              && VerifyRequestAmounts(Some(Persist(q, Some(now))), g, f, p.breakdown.fee, p.breakdown.net, scale)
                 == Ok(p.breakdown)
              && q.grossOut == p.breakdown.gross == p.breakdown.fee + p.breakdown.net + q.dustOut
              && q.dustOut < scale
  {
    if p.quote.Some? {
      var prices := book.RouteStatus(route, now).value.0;
      StruckQuoteVerifies(g, prices, f, now, book.lifetime, scale, p.quote.value, Some(now),
                          p.quote.value.grossOut, p.breakdown.fee, p.breakdown.net);
      QuoteMeaning(g, prices.sourcePriceE12, prices.destinationPriceE12, f, scale);
    } else {
      FeeMeaning(g, f);
    }
  }
}
