/** The inverse of the quote: the largest source amount whose quoted payout
    fits a destination limit, found by binary search over all of u64
    (service/src/bridge_rate.rs, "destination-bound admission"). */
module QuoteInverse {
  import opened Numbers
  import opened AmountConversion
  import opened BridgeRate

  const DEFAULT_DESTINATION_LIMIT_BUFFER_BPS: u64 := 2_500

  function BufferedDestinationLimit(limit: u64, bufferBps: u64): (b: u64)
    ensures b <= limit
  {
    var keep := if bufferBps >= BPS_DENOMINATOR then 0 else BPS_DENOMINATOR - bufferBps;
    var scaled: u128 := Widen(limit, keep);
    MulLe(keep, BPS_DENOMINATOR, limit);
    FloorIff(scaled, BPS_DENOMINATOR, limit + 1);
    FloorIff(scaled, BPS_DENOMINATOR, 0);
    scaled / BPS_DENOMINATOR
  }

  /** The buffered limit is the largest figure within the kept share; a buffer of
      100% or more keeps nothing. */
  lemma BufferedLimitIff(limit: u64, bufferBps: u64, n: nat)
    ensures bufferBps <= BPS_DENOMINATOR ==>
              (n <= BufferedDestinationLimit(limit, bufferBps)
               <==> n * BPS_DENOMINATOR <= limit * (BPS_DENOMINATOR - bufferBps))
    ensures bufferBps >= BPS_DENOMINATOR ==> BufferedDestinationLimit(limit, bufferBps) == 0
  {
    if bufferBps < BPS_DENOMINATOR { FloorIff(limit * (BPS_DENOMINATOR - bufferBps), BPS_DENOMINATOR, n); }
  }

  /** The search predicate: the amount can be quoted and its net fits. */
  predicate Fits(g: u64, s: u64, d: u64, f: u64, scale: u64, bound: u64)
  {
    var q := Quote(g, s, d, f, scale);
    q.Ok? && q.value.netOut <= bound
  }

  lemma FitsDownward(g: u64, g': u64, s: u64, d: u64, f: u64, scale: u64, bound: u64)
    requires g <= g' && Fits(g', s, d, f, scale, bound)
    ensures Fits(g, s, d, f, scale, bound)
  {
    QuoteMonotone(g, g', s, d, f, scale);
  }

  function Pow2(k: nat): (p: nat)
    ensures p >= 1
  {
    if k == 0 then 1 else 2 * Pow2(k - 1)
  }

  lemma Pow2Of64()
    ensures Pow2(64) == U64_MAX + 1
  {
    assert Pow2(8) == 256;
    assert Pow2(16) == 65_536;
    assert Pow2(24) == 0x100_0000;
    assert Pow2(32) == 0x1_0000_0000;
    assert Pow2(40) == 0x100_0000_0000;
    assert Pow2(48) == 0x1_0000_0000_0000;
    assert Pow2(56) == 0x100_0000_0000_0000;
  }

  lemma ZeroFits(s: u64, d: u64, f: u64, scale: u64, bound: u64)
    requires scale > 0 && s > 0 && d > 0 && f <= BPS_DENOMINATOR
    ensures Fits(0, s, d, f, scale, bound)
  {
    ZeroNet(s, d, f);
    QuoteMeaning(0, s, d, f, scale);
  }

  /** The arguments no amount is derived from. */
  function SearchRefusal(prices: RailPrices, f: u64, scale: u64): (e: Option<ConversionError>)
  {
    if scale == 0 then Some(InvalidDestinationScale)
    else if f > BPS_DENOMINATOR then Some(FeeBpsOutOfRange(f, BPS_DENOMINATOR))
    else if prices.sourcePriceE12 == 0 || prices.destinationPriceE12 == 0
    then Some(InvalidBridgePrice(prices.sourcePriceE12, prices.destinationPriceE12))
    else None
  }

  /** The search refuses exactly the arguments at which not even zero can be
      quoted; a gross that can be quoted is never refused. */
  lemma RefusedIffNothingQuotes(prices: RailPrices, f: u64, scale: u64)
    ensures SearchRefusal(prices, f, scale).None? <==>
            Quote(0, prices.sourcePriceE12, prices.destinationPriceE12, f, scale).Ok?
    ensures forall g: u64 :: Quote(g, prices.sourcePriceE12, prices.destinationPriceE12, f, scale).Ok? ==>
              SearchRefusal(prices, f, scale).None?
  {
    var s, d := prices.sourcePriceE12, prices.destinationPriceE12;
    QuoteMeaning(0, s, d, f, scale);
    if s > 0 && d > 0 && f <= BPS_DENOMINATOR { ZeroNet(s, d, f); }
    forall g: u64 | Quote(g, s, d, f, scale).Ok? ensures SearchRefusal(prices, f, scale).None? {
      QuoteMeaning(g, s, d, f, scale);
    }
  }

  /** Nothing deliverable fits: the buffered limit is below one destination
      unit, or the fee takes everything. */
  predicate NothingDeliverable(limit: u64, f: u64, scale: u64, bufferBps: u64)
  {
    BufferedDestinationLimit(limit, bufferBps) < scale || f == BPS_DENOMINATOR
  }

  /** The order is admitted under buffer `b`, as admission decides it. */
  predicate Admitted(g: u64, s: u64, d: u64, f: u64, scale: u64, limit: u64, b: u64)
  {
    !NothingDeliverable(limit, f, scale, b) && Fits(g, s, d, f, scale, BufferedDestinationLimit(limit, b))
  }

  /** `m` is the exact boundary of the amounts that fit, over all of u64. */
  ghost predicate IsMaxSource(m: u64, limit: u64, prices: RailPrices, f: u64, scale: u64, bufferBps: u64)
  {
    forall g: u64 ::
      Fits(g, prices.sourcePriceE12, prices.destinationPriceE12, f, scale, BufferedDestinationLimit(limit, bufferBps))
      <==> g <= m
  }

  /** Refuses malformed arguments, answers 0 when nothing deliverable fits,
      and otherwise returns the exact boundary after at most 64 probes: what is
      at or below it fits, what is above it exceeds the buffered limit or
      cannot be quoted. */
  method MaxSourceForDestinationLimit(limit: u64, prices: RailPrices, f: u64, scale: u64, bufferBps: u64)
    returns (r: Result<u64, ConversionError>, ghost probes: nat)
    ensures r.Ok? <==> Quote(0, prices.sourcePriceE12, prices.destinationPriceE12, f, scale).Ok?
    ensures r.Err? <==> SearchRefusal(prices, f, scale).Some?
    ensures r.Err? ==> SearchRefusal(prices, f, scale) == Some(r.error)
    ensures r.Ok? && NothingDeliverable(limit, f, scale, bufferBps) ==> r.value == 0
    ensures r.Ok? && !NothingDeliverable(limit, f, scale, bufferBps) ==>
              IsMaxSource(r.value, limit, prices, f, scale, bufferBps)
    ensures probes <= 64
  {
    probes := 0;
    RefusedIffNothingQuotes(prices, f, scale);
    var s, d := prices.sourcePriceE12, prices.destinationPriceE12;
    if scale == 0 { return Err(InvalidDestinationScale), probes; }
    if f > BPS_DENOMINATOR { return Err(FeeBpsOutOfRange(f, BPS_DENOMINATOR)), probes; }
    if s == 0 || d == 0 { return Err(InvalidBridgePrice(s, d)), probes; }
    var buffered := BufferedDestinationLimit(limit, bufferBps);
    if buffered < scale || f == BPS_DENOMINATOR { return Ok(0), probes; }
    var lo: u64, hi: u64 := 0, U64_MAX;
    if Fits(hi, s, d, f, scale, buffered) {
      BoundaryBelow(hi, s, d, f, scale, buffered);
      return Ok(hi), probes;
    }
    ZeroFits(s, d, f, scale, buffered);
    Pow2Of64();
    while hi - lo > 1
      invariant lo < hi && Fits(lo, s, d, f, scale, buffered) && !Fits(hi, s, d, f, scale, buffered)
      invariant probes <= 64 && hi - lo <= Pow2(64 - probes)
      decreases hi - lo
    {
      var mid := lo + (hi - lo) / 2;
      if Fits(mid, s, d, f, scale, buffered) { lo := mid; } else { hi := mid; }
      probes := probes + 1;
    }
    BoundaryBetween(lo, hi, s, d, f, scale, buffered);
    r := Ok(lo);
  }

  lemma BoundaryBelow(m: u64, s: u64, d: u64, f: u64, scale: u64, bound: u64)
    requires Fits(m, s, d, f, scale, bound)
    ensures forall g: u64 :: g <= m ==> Fits(g, s, d, f, scale, bound)
  {
    forall g: u64 | g <= m ensures Fits(g, s, d, f, scale, bound) {
      FitsDownward(g, m, s, d, f, scale, bound);
    }
  }

  lemma BoundaryBetween(lo: u64, hi: u64, s: u64, d: u64, f: u64, scale: u64, bound: u64)
    requires hi == lo + 1 && Fits(lo, s, d, f, scale, bound) && !Fits(hi, s, d, f, scale, bound)
    ensures forall g: u64 :: Fits(g, s, d, f, scale, bound) <==> g <= lo
  {
    BoundaryBelow(lo, s, d, f, scale, bound);
    forall g: u64 | Fits(g, s, d, f, scale, bound) ensures g <= lo {
      if g > lo { FitsDownward(hi, g, s, d, f, scale, bound); }
    }
  }

  /** The boundary is unique, so any way of finding it finds this one. */
  lemma MaxSourceUnique(m: u64, m': u64, limit: u64, prices: RailPrices, f: u64, scale: u64, bufferBps: u64)
    requires IsMaxSource(m, limit, prices, f, scale, bufferBps)
    requires IsMaxSource(m', limit, prices, f, scale, bufferBps)
    ensures m == m'
  {
    var s, d, bound := prices.sourcePriceE12, prices.destinationPriceE12, BufferedDestinationLimit(limit, bufferBps);
    assert Fits(m, s, d, f, scale, bound) && Fits(m', s, d, f, scale, bound);
  }

  // --------------------------------- the maximum delivers a whole unit

  /** One more source unit at most doubles the rated amount, plus one. */
  lemma RawOutAtMostDoubles(m: nat, s: nat, d: nat)
    requires m >= 1 && d > 0
    ensures RawOut(m + 1, s, d) <= 2 * RawOut(m, s, d) + 1
  {
    var x := RawOut(m, s, d);
    DivBounds(m * s, d);
    assert (m + 1) * s == m * s + s;
    MulLe(1, m, s);
    FloorIff((m + 1) * s, d, 2 * x + 2);
    assert (2 * x + 2) * d == 2 * (x * d + d);
  }

  /** A net below one unit stays below two units when the rated amount at most
      doubles plus one: the ceiling is subadditive. */
  lemma FineNetStaysBelowTwoUnits(x: nat, y: nat, f: nat, scale: nat)
    requires f < BPS_DENOMINATOR && scale >= 1
    requires y <= 2 * x + 1 && NetAt(x, f) < scale
    ensures NetAt(y, f) < 2 * scale
  {
    NetMonotone(y, x + x + 1, f);
    NetOfSum(x + x, 1, f);
    NetOfSum(x, x, f);
    NetAtMostGross(1, f);
  }

  /** A rated amount that nets less than one unit is far from every overflow. */
  lemma SmallNetMeansSmallGross(x: nat, f: nat, scale: nat)
    requires f < BPS_DENOMINATOR && 1 <= scale <= 100_000_000 && NetAt(x, f) < scale
    ensures x <= 1_000_000_000_000
  {
    CeilIff(x * (BPS_DENOMINATOR - f), BPS_DENOMINATOR, scale - 1);
    MulLe(1, BPS_DENOMINATOR - f, x);
  }

  /** Strictly inside the range, the net at the maximum is at least one whole
      destination unit: for every price pair, every fee below 100% and every
      scale the code can produce. */
  lemma MaxDeliversAUnit(m: u64, s: u64, d: u64, f: u64, scale: u64, bound: u64)
    requires 1 <= scale <= 100_000_000 && scale <= bound && f < BPS_DENOMINATOR
    requires 0 < m < U64_MAX
    requires Fits(m, s, d, f, scale, bound) && !Fits(m + 1, s, d, f, scale, bound)
    ensures Quote(m, s, d, f, scale).value.netOut >= scale
  {
    QuoteMeaning(m, s, d, f, scale);
    QuoteMeaning(m + 1, s, d, f, scale);
    var x, y := RawOut(m, s, d), RawOut(m + 1, s, d);
    var n, n' := NetAt(x, f), NetAt(y, f);
    RawOutAtMostDoubles(m, s, d);
    if n < scale {
      SmallNetMeansSmallGross(x, f, scale);
      MulLe(y, 2_000_000_000_001, f);
      FineNetStaysBelowTwoUnits(x, y, f, scale);
      FloorIff(n', scale, 2);
      MulLe(n' / scale, 1, scale);
      assert false;
    } else {
      FloorIff(n, scale, 1);
      MulLe(1, n / scale, scale);
    }
  }

  /** What the quotes at the two ends of u64 say about the net at a boundary. */
  lemma BoundaryDeliversAUnitIff(m: u64, s: u64, d: u64, f: u64, scale: u64, bound: u64)
    requires 1 <= scale <= 100_000_000 && scale <= bound && f < BPS_DENOMINATOR
    requires forall g: u64 :: Fits(g, s, d, f, scale, bound) <==> g <= m
    ensures var top := Quote(U64_MAX, s, d, f, scale);
            && Quote(m, s, d, f, scale).Ok?
            && (Quote(m, s, d, f, scale).value.netOut >= scale
                <==> Fits(1, s, d, f, scale, bound) && !(top.Ok? && top.value.netOut < scale))
  {
    assert Fits(m, s, d, f, scale, bound);
    if m == 0 {
      QuoteMeaning(0, s, d, f, scale);
      ZeroNet(s, d, f);
      assert !Fits(1, s, d, f, scale, bound);
    } else if m < U64_MAX {
      assert Fits(1, s, d, f, scale, bound) && !Fits(m + 1, s, d, f, scale, bound);
      MaxDeliversAUnit(m, s, d, f, scale, bound);
      assert !Fits(U64_MAX, s, d, f, scale, bound);
    }
  }

  lemma ZeroNet(s: u64, d: u64, f: u64)
    requires d > 0 && f <= BPS_DENOMINATOR
    ensures RawOut(0, s, d) == 0 && FineNet(0, s, d, f) == 0
  {
    FloorIff(0 * s, d, 0);
    FloorIff(0 * s, d, 1);
    NetAtMostGross(0, f);
  }

  /** Exactly when the documented promise "the net at the maximum is at least
      one destination unit" holds of the value the search returns: one source
      unit fits, and the largest u64 amount is not itself quoted below a unit. */
  lemma MaxDeliversAUnitIff(m: u64, limit: u64, prices: RailPrices, f: u64, decimals: u8, bufferBps: u64)
    requires var scale := DestinationScaleForDecimals(decimals);
             && SearchRefusal(prices, f, scale).None?
             && !NothingDeliverable(limit, f, scale, bufferBps)
             && IsMaxSource(m, limit, prices, f, scale, bufferBps)
    ensures var scale := DestinationScaleForDecimals(decimals);
            var s, d := prices.sourcePriceE12, prices.destinationPriceE12;
            var top := Quote(U64_MAX, s, d, f, scale);
            && Quote(m, s, d, f, scale).Ok?
            && (Quote(m, s, d, f, scale).value.netOut >= scale
                <==> Fits(1, s, d, f, scale, BufferedDestinationLimit(limit, bufferBps))
                     && !(top.Ok? && top.value.netOut < scale))
  {
    BoundaryDeliversAUnitIff(m, prices.sourcePriceE12, prices.destinationPriceE12, f,
                             DestinationScaleForDecimals(decimals), BufferedDestinationLimit(limit, bufferBps));
  }

  /** Where the promise fails: every u64 amount is quoted, none delivers a
      unit, and the search answers the largest of them. */
  lemma MaxAtTopDeliversNothing()
    ensures IsMaxSource(U64_MAX, 100, RailPrices(1, U64_MAX, 0, 0), 0, 100, 0)
    ensures Quote(U64_MAX, 1, U64_MAX, 0, 100).Ok?
    ensures Quote(U64_MAX, 1, U64_MAX, 0, 100).value.netOut == 0
  {
    TopNetsNothing();
    assert BufferedDestinationLimit(100, 0) == 100;
    BoundaryBelow(U64_MAX, 1, U64_MAX, 0, 100, 100);
  }

  /** And where it fails at the other end: one source unit already exceeds the
      limit, and the search answers zero. */
  lemma OneUnitTooLarge()
    ensures !NothingDeliverable(100, 0, 1, 0)
    ensures IsMaxSource(0, 100, RailPrices(1_000, 1, 0, 0), 0, 1, 0) && !Fits(1, 1_000, 1, 0, 1, 100)
    ensures Quote(0, 1_000, 1, 0, 1).Ok? && Quote(0, 1_000, 1, 0, 1).value.netOut == 0
  {
    assert BufferedDestinationLimit(100, 0) == 100;
    ZeroFits(1_000, 1, 0, 1, 100);
    QuoteMeaning(0, 1_000, 1, 0, 1);
    BoundaryBetween(0, 1, 1_000, 1, 0, 1, 100);
  }

  lemma TopNetsNothing()
    ensures Quote(U64_MAX, 1, U64_MAX, 0, 100).Ok? && Quote(U64_MAX, 1, U64_MAX, 0, 100).value.netOut == 0
  {
    MultipleDivides(1, U64_MAX);
    assert RawOut(U64_MAX, 1, U64_MAX) == 1;
    assert NetAt(1, 0) == 1;
    QuoteMeaning(U64_MAX, 1, U64_MAX, 0, 100);
  }

  // ------------------------------------ the search's answer in closed form

  /** The largest rated amount whose delivered net is at most `bound`. */
  function LargestRated(bound: nat, f: nat, scale: nat): (x: nat)
    requires f < BPS_DENOMINATOR && scale > 0
  {
    MulLe(0, bound / scale, scale);
    GrossEstimate((bound / scale) * scale + (scale - 1), f)
  }

  lemma LargestRatedIff(x: nat, bound: nat, f: nat, scale: nat)
    requires f < BPS_DENOMINATOR && scale > 0
    ensures (NetAt(x, f) / scale) * scale <= bound <==> x <= LargestRated(bound, f, scale)
  {
    var n, q := NetAt(x, f), bound / scale;
    NetFitsByUnits(n, scale, bound);
    FloorIff(n, scale, q + 1);
    assert (q + 1) * scale == q * scale + scale;
    FloorIff(bound, scale, 0);
    MulLe(0, q, scale);
    EstimateIsExact(q * scale + (scale - 1), f, x);
  }

  lemma QuoteFitsIffRated(g: u64, s: u64, d: u64, f: u64, scale: u64, bound: u64)
    requires Quote(g, s, d, f, scale).Ok? && f < BPS_DENOMINATOR
    ensures d > 0 && scale > 0
    ensures Quote(g, s, d, f, scale).value.netOut <= bound <==> RawOut(g, s, d) <= LargestRated(bound, f, scale)
  {
    QuoteMeaning(g, s, d, f, scale);
    LargestRatedIff(RawOut(g, s, d), bound, f, scale);
  }

  /** The largest rated amount whose fee computes. */
  function LargestQuotable(f: nat): (x: nat)
  {
    if f == 0 then U64_MAX else FloorIff(U64_MAX, f, 0); U64_MAX / f
  }

  lemma LargestQuotableIff(x: nat, f: nat)
    ensures x <= LargestQuotable(f) <==> x <= U64_MAX && x * f <= U64_MAX
  {
    if f > 0 {
      FloorIff(U64_MAX, f, x);
      MulLe(1, f, x);
    }
  }

  /** On arguments the search accepts, an amount can be quoted exactly when its
      rated amount is small enough. */
  lemma QuotableIff(g: u64, s: u64, d: u64, f: u64, scale: u64)
    requires scale > 0 && s > 0 && d > 0 && f <= BPS_DENOMINATOR
    ensures Quote(g, s, d, f, scale).Ok? <==> RawOut(g, s, d) <= LargestQuotable(f)
  {
    QuoteMeaning(g, s, d, f, scale);
    LargestQuotableIff(RawOut(g, s, d), f);
  }

  /** The smallest source amount rated above `x`. */
  function FirstRatedAbove(x: nat, s: nat, d: nat): (g: nat)
    requires s > 0
  {
    MulLe(0, x + 1, d);
    CeilDiv((x + 1) * d, s)
  }

  lemma FirstRatedAboveIff(g: nat, x: nat, s: nat, d: nat)
    requires s > 0 && d > 0
    ensures RawOut(g, s, d) > x <==> g >= FirstRatedAbove(x, s, d)
  {
    FloorIff(g * s, d, x + 1);
    MulLe(0, x + 1, d);
    CeilIff((x + 1) * d, s, g);
  }

  function Least(a: nat, b: nat): (m: nat)
  {
    if a <= b then a else b
  }

  /** The largest rated amount that can be quoted with its net within `bound`:
      the lower of the line the limit draws and the one overflow draws. */
  function LargestFitting(bound: nat, f: nat, scale: nat): (x: nat)
    requires f < BPS_DENOMINATOR && scale > 0
  {
    Least(LargestRated(bound, f, scale), LargestQuotable(f))
  }

  lemma FitsIffRated(g: u64, s: u64, d: u64, f: u64, scale: u64, bound: u64)
    requires scale > 0 && s > 0 && d > 0 && f < BPS_DENOMINATOR
    ensures Fits(g, s, d, f, scale, bound) <==> RawOut(g, s, d) <= LargestFitting(bound, f, scale)
  {
    QuotableIff(g, s, d, f, scale);
    if Quote(g, s, d, f, scale).Ok? { QuoteFitsIffRated(g, s, d, f, scale, bound); }
  }

  /** What the binary search finds, as one expression of its arguments. */
  lemma SearchInClosedForm(m: u64, limit: u64, prices: RailPrices, f: u64, scale: u64, bufferBps: u64)
    requires SearchRefusal(prices, f, scale).None? && f < BPS_DENOMINATOR
    ensures var x := LargestFitting(BufferedDestinationLimit(limit, bufferBps), f, scale);
            var first := FirstRatedAbove(x, prices.sourcePriceE12, prices.destinationPriceE12);
            IsMaxSource(m, limit, prices, f, scale, bufferBps) <==> m == if first <= U64_MAX then first - 1 else U64_MAX
  {
    var s, d, bound := prices.sourcePriceE12, prices.destinationPriceE12, BufferedDestinationLimit(limit, bufferBps);
    var x := LargestFitting(bound, f, scale);
    FirstRatedAboveIff(0, x, s, d);
    ZeroNet(s, d, f);
    var last := if FirstRatedAbove(x, s, d) <= U64_MAX then FirstRatedAbove(x, s, d) - 1 else U64_MAX;
    forall g: u64 ensures Fits(g, s, d, f, scale, bound) <==> g <= last {
      FitsIffRated(g, s, d, f, scale, bound);
      FirstRatedAboveIff(g, x, s, d);
    }
    if IsMaxSource(m, limit, prices, f, scale, bufferBps) {
      assert Fits(m, s, d, f, scale, bound) && Fits(last, s, d, f, scale, bound);
    }
  }

  /** Exactly when the documented "one more source unit exceeds the buffered
      limit" holds of the search's answer, from its arguments alone: when the
      first amount rated past the limit is a u64 that can be quoted. The answer
      is then the amount just below it. */
  lemma AboveMaxExceedsIff(m: u64, limit: u64, prices: RailPrices, f: u64, scale: u64, bufferBps: u64)
    requires SearchRefusal(prices, f, scale).None? && f < BPS_DENOMINATOR
    requires IsMaxSource(m, limit, prices, f, scale, bufferBps)
    ensures var s, d := prices.sourcePriceE12, prices.destinationPriceE12;
            var bound := BufferedDestinationLimit(limit, bufferBps);
            var first := FirstRatedAbove(LargestRated(bound, f, scale), s, d);
            && ((m < U64_MAX && Quote(m + 1, s, d, f, scale).Ok? && Quote(m + 1, s, d, f, scale).value.netOut > bound)
                <==> first <= U64_MAX && Quotable(first, s, d, f, scale))
            && (first <= U64_MAX && Quotable(first, s, d, f, scale) ==> m == first - 1)
  {
    var s, d, bound := prices.sourcePriceE12, prices.destinationPriceE12, BufferedDestinationLimit(limit, bufferBps);
    var X := LargestRated(bound, f, scale);
    var first := FirstRatedAbove(X, s, d);
    SearchInClosedForm(m, limit, prices, f, scale, bufferBps);
    if m < U64_MAX && Quote(m + 1, s, d, f, scale).Ok? && Quote(m + 1, s, d, f, scale).value.netOut > bound {
      QuoteFitsIffRated(m + 1, s, d, f, scale, bound);
      FirstRatedAboveIff(m + 1, X, s, d);
      QuoteMonotone(first, m + 1, s, d, f, scale);
      QuoteMeaning(first, s, d, f, scale);
    }
    if first <= U64_MAX && Quotable(first, s, d, f, scale) {
      QuoteMeaning(first, s, d, f, scale);
      QuotableIff(first, s, d, f, scale);
      FirstRatedAboveIff(first, X, s, d);
      FirstRatedAboveIff(0, X, s, d);
      ZeroNet(s, d, f);
      QuoteFitsIffRated(first, s, d, f, scale, bound);
    }
  }

  /** Above the maximum the net does not always exceed the limit: here one more
      source unit cannot be quoted at all. */
  lemma AboveMaxMayOverflow()
    ensures IsMaxSource(0x7FFF_FFFF_FFFF_FFFF, U64_MAX, RailPrices(2, 1, 0, 0), 0, 1, 0)
    ensures Quote(0x8000_0000_0000_0000, 2, 1, 0, 1) == Err(Overflow(0x8000_0000_0000_0000))
  {
    QuoteMeaning(0x7FFF_FFFF_FFFF_FFFF, 2, 1, 0, 1);
    BoundaryBetween(0x7FFF_FFFF_FFFF_FFFF, 0x8000_0000_0000_0000, 2, 1, 0, 1, U64_MAX);
  }

  // ------------------------------------- agreement of the two inverses

  /** At a unit rate, without a floor or a buffer, the closed form of
      `MaxGrossForNetAtBps` and the binary search name the same amount. */
  lemma InversesAgree(maxNet: u64, f: u64, now: i64, m: u64)
    requires maxNet >= 1 && f < BPS_DENOMINATOR
    requires var e := GrossEstimate(maxNet, f); e <= U64_MAX && e * f <= U64_MAX
    requires IsMaxSource(m, maxNet, UnitPrices(now), f, 1, 0)
    ensures m == GrossEstimate(maxNet, f)
  {
    var e := GrossEstimate(maxNet, f);
    var p: u64 := PRICE_SCALE;
    assert BufferedDestinationLimit(maxNet, 0) == maxNet;
    forall g: u64
      ensures Fits(g, p, p, f, 1, maxNet) <==> g <= e
    {
      QuoteMeaning(g, p, p, f, 1);
      MultipleDivides(g, p);
      assert RawOut(g, p, p) == g;
      EstimateIsExact(maxNet, f, g);
      if g <= e { MulLe(g, e, f); }
    }
    assert Fits(e, p, p, f, 1, maxNet) && Fits(m, p, p, f, 1, maxNet);
  }
}
