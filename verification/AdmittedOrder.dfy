/** An order from admission to its lock: what the destination-bound admission of
    service/src/api.rs buys at the observation of service/src/ledger/mod.rs. */
module AdmittedOrder {
  import opened Numbers
  import opened AmountConversion
  import opened BridgeRate
  import opened QuoteInverse
  import opened QuoteEconomics
  import opened QuoteLifecycle

  /** Admitted at one pair of prices under a buffer of one band, and observed
      while the book's prices have not moved past the band from them: wherever
      one band of buffer is enough, the observation strikes a quote within the
      destination's full limit, and writes it unless the reserve lacks the
      capacity. With nothing else against it the order goes on confirming. */
  lemma AdmittedOrderLocksWithinLimit(row: Row, book: RateBook, freeCapacity: int, now: i64,
                                      s: u64, d: u64, limit: u64, b: u64)
    requires row.feeBps <= BPS_DENOMINATOR && OneBandHolds(limit, b, row.feeBps, row.Scale())
    requires Admitted(row.gross, s, d, row.feeBps, row.Scale(), limit, b)
    requires book.RouteStatus(row.route, now).Ok?
    requires var prices := book.RouteStatus(row.route, now).value.0;
             MovementBps(prices.sourcePriceE12, prices.destinationPriceE12, s, d) <= b
    ensures var struck := book.Strike(row.route, row.gross, row.feeBps, now, row.Scale());
            && struck.Ok? && struck.value.quote.netOut <= limit
            && var (priced, park) := PriceObserved(row, book, freeCapacity, now);
               && priced.Locked()
               && (park != Some(InsufficientCapacityAtLock) ==> priced.net == struck.value.quote.netOut)
               && (park.None? && Observable(row) && !LateWithoutCapacity(row, freeCapacity) ==>
                     Observe(row, row.gross, book, freeCapacity, None, now) == priced.(state := Confirming))
  {
    var prices := book.RouteStatus(row.route, now).value.0;
    OneBandIff(limit, b, row.feeBps, row.Scale());
    assert SurvivesOneBand(row.gross, s, d, prices.sourcePriceE12, prices.destinationPriceE12,
                           row.feeBps, row.Scale(), limit, b);
    QuoteMeaning(row.gross, prices.sourcePriceE12, prices.destinationPriceE12, row.feeBps, row.Scale());
  }
}
