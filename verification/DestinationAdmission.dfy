/** Admission against the destination chain's per-transfer limit
    (service/src/api.rs): the public paths compare the GROSS a user sends with
    an inverted maximum; here that decision is proved to be the plain
    comparison of the quoted NET with the buffered limit. */
module DestinationAdmission {
  import opened Numbers
  import opened Routes
  import opened AmountConversion
  import opened BridgeRate
  import opened QuoteInverse

  datatype DestinationLimits = DestinationLimits(
    solanaPerTransferLimit: Option<u64>, solanaDecimals: Option<u8>,
    robinhoodOutboundMax: Option<u64>, robinhoodInboundMax: Option<u64>, robinhoodUnavailable: bool)
  {
    function DestinationBound(route: Route): (b: Option<u64>)
    {
      match DestinationChain(route)
      case Solana => solanaPerTransferLimit
      case Robinhood => robinhoodOutboundMax
      case Goldcoin => None
    }

    predicate DestinationIsBounded(route: Route)
    {
      match DestinationChain(route)
      case Solana => true
      case Robinhood => robinhoodOutboundMax.Some? || robinhoodUnavailable
      case Goldcoin => false
    }

    /** The destination's unit in canonical units, when it is known. */
    function DestinationScale(route: Route): (s: Option<u64>)
    {
      if DestinationChain(route) != Solana then Some(1)
      else if solanaDecimals.Some? then Some(DestinationScaleForDecimals(solanaDecimals.value))
      else None
    }

    /** Every figure the maximum is derived from was read. */
    predicate FullyRead(route: Route)
    {
      DestinationBound(route).Some? && DestinationScale(route).Some?
    }
  }

  /** Which limit and which unit apply, route by route. */
  lemma LimitsByRoute(limits: DestinationLimits, route: Route)
    ensures route in {SolToGlc, RhnToGlc} ==> !limits.DestinationIsBounded(route)
    ensures route in {GlcToSol, RhnToSol} ==>
              && limits.DestinationIsBounded(route) && limits.DestinationBound(route) == limits.solanaPerTransferLimit
              && (limits.FullyRead(route) <==> limits.solanaPerTransferLimit.Some? && limits.solanaDecimals.Some?)
              && (limits.FullyRead(route) && limits.solanaDecimals.value <= 8 ==>
                    SameValue(limits.DestinationScale(route).value, 8, 1, limits.solanaDecimals.value))
              && (limits.FullyRead(route) && limits.solanaDecimals.value > 8 ==>
                    limits.DestinationScale(route) == Some(1))
    ensures route in {GlcToRhn, SolToRhn} ==>
              && (limits.DestinationIsBounded(route) <==>
                    limits.robinhoodOutboundMax.Some? || limits.robinhoodUnavailable)
              && (limits.FullyRead(route) <==> limits.robinhoodOutboundMax.Some?)
              && limits.DestinationBound(route) == limits.robinhoodOutboundMax
              && limits.DestinationScale(route) == Some(1)
  {
    if limits.solanaDecimals.Some? { DestinationScaleMeaning(limits.solanaDecimals.value); }
  }

  datatype DestinationAdmissible = Unbounded | Known(max: u64) | Unknown

  datatype AdmissionError =
    | Upstream(destination: Chain)
    | DestinationOutOfBounds(admissible: u64, publishedMax: u64)

  /** `m` is the largest gross the destination can settle, 0 when nothing
      deliverable fits. */
  ghost predicate IsCapacity(m: u64, limit: u64, prices: RailPrices, f: u64, scale: u64, bufferBps: u64)
  {
    if NothingDeliverable(limit, f, scale, bufferBps) then m == 0
    else IsMaxSource(m, limit, prices, f, scale, bufferBps)
  }

  /** Unbounded exactly for an uncapped destination; otherwise the exact
      boundary, and Unknown whenever any input is missing or refused. */
  method DestinationAdmissibleFrom(route: Route, limits: DestinationLimits, feeBps: Option<u64>,
                                   prices: Option<RailPrices>, bufferBps: u64)
    returns (a: DestinationAdmissible)
    ensures a.Unbounded? <==> !limits.DestinationIsBounded(route)
    ensures limits.DestinationIsBounded(route) ==>
              (a.Known? <==> limits.FullyRead(route) && feeBps.Some? && prices.Some?
                             && Quote(0, prices.value.sourcePriceE12, prices.value.destinationPriceE12,
                                      feeBps.value, limits.DestinationScale(route).value).Ok?)
    ensures a.Known? ==>
              IsCapacity(a.max, limits.DestinationBound(route).value, prices.value, feeBps.value,
                         limits.DestinationScale(route).value, bufferBps)
  {
    if !limits.DestinationIsBounded(route) { return Unbounded; }
    var bound := limits.DestinationBound(route);
    if bound.None? || feeBps.None? || prices.None? { return Unknown; }
    var scale := limits.DestinationScale(route);
    if scale.None? { return Unknown; }
    var max, _ := MaxSourceForDestinationLimit(bound.value, prices.value, feeBps.value, scale.value, bufferBps);
    match max
    case Ok(m) => return Known(m);
    case Err(_) => return Unknown;
  }

  /** The admission decision. On a capped, fully read destination a positive
      gross is accepted if and only if at least one destination unit fits the
      buffered limit, the fee is below 100%, and the gross can be quoted with
      its NET at most the buffered limit; a capped destination that could not
      be read is refused. Either answer carries the destination's capacity. */
  method EnforceDestinationBound(route: Route, limits: DestinationLimits, prices: RailPrices, feeBps: u64,
                                 gross: u64, publishedMax: u64, bufferBps: u64)
    returns (r: Result<Option<u64>, AdmissionError>)
    ensures !limits.DestinationIsBounded(route) ==> r == Ok(None)
    ensures limits.DestinationIsBounded(route) && !limits.FullyRead(route) ==>
              r == Err(Upstream(DestinationChain(route)))
    ensures limits.DestinationIsBounded(route) && limits.FullyRead(route) ==>
              var limit, scale := limits.DestinationBound(route).value, limits.DestinationScale(route).value;
              var buffered := BufferedDestinationLimit(limit, bufferBps);
              var quote := Quote(gross, prices.sourcePriceE12, prices.destinationPriceE12, feeBps, scale);
              if Quote(0, prices.sourcePriceE12, prices.destinationPriceE12, feeBps, scale).Err?
              then !quote.Ok? && r == Err(Upstream(DestinationChain(route)))
              else if gross == 0 then r.Ok?
              else && (r.Ok? <==> scale <= buffered && feeBps < BPS_DENOMINATOR
                                  && quote.Ok? && quote.value.netOut <= buffered)
                   && (r.Ok? <==> Admitted(gross, prices.sourcePriceE12, prices.destinationPriceE12,
                                           feeBps, scale, limit, bufferBps))
    ensures limits.DestinationIsBounded(route) && limits.FullyRead(route) ==>
              var limit, scale := limits.DestinationBound(route).value, limits.DestinationScale(route).value;
              && (r.Ok? ==> r.value.Some? && IsCapacity(r.value.value, limit, prices, feeBps, scale, bufferBps))
              && (r.Err? && r.error.DestinationOutOfBounds? ==>
                    && r.error.admissible < gross && r.error.publishedMax == publishedMax
                    && IsCapacity(r.error.admissible, limit, prices, feeBps, scale, bufferBps))
  {
    if limits.FullyRead(route) { RefusedIffNothingQuotes(prices, feeBps, limits.DestinationScale(route).value); }
    var admissible := DestinationAdmissibleFrom(route, limits, Some(feeBps), Some(prices), bufferBps);
    match admissible
    case Unbounded => return Ok(None);
    case Unknown => return Err(Upstream(DestinationChain(route)));
    case Known(max) =>
      ghost var limit, scale := limits.DestinationBound(route).value, limits.DestinationScale(route).value;
      ghost var fits := Fits(gross, prices.sourcePriceE12, prices.destinationPriceE12, feeBps, scale,
                             BufferedDestinationLimit(limit, bufferBps));
      if gross > max { return Err(DestinationOutOfBounds(max, publishedMax)); }
      return Ok(Some(max));
  }
}
