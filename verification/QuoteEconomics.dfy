/** What quotes do to value over several transfers and over a moving price:
    no gain along any path of hops, a bounded effect of splitting a deposit,
    and how much rate movement the admission buffer absorbs. */
module QuoteEconomics {
  import opened Numbers
  import opened Routes
  import opened AmountConversion
  import opened BridgeRate
  import opened QuoteInverse

  // ------------------------------------------------- no value from hopping

  datatype Hop = Hop(to: Chain, feeBps: u64, scale: u64)

  /** Where a chain of quotes at fixed rail prices ends, or None when some hop
      cannot be quoted. */
  function Travel(rail: Chain, amount: u64, hops: seq<Hop>, price: Chain -> u64): (r: Option<(Chain, u64)>)
    decreases |hops|
  {
    if hops == [] then Some((rail, amount))
    else
      match Quote(amount, price(rail), price(hops[0].to), hops[0].feeBps, hops[0].scale)
      case Err(_) => None
      case Ok(qb) => Travel(hops[0].to, qb.netOut, hops[1..], price)
  }

  lemma QuoteNeverGains(g: u64, s: u64, d: u64, f: u64, scale: u64)
    requires Quote(g, s, d, f, scale).Ok?
    ensures Quote(g, s, d, f, scale).value.netOut * d <= g * s
  {
    var net := Quote(g, s, d, f, scale).value.netOut;
    QuoteMeaning(g, s, d, f, scale);
    DivBounds(g * s, d);
    MulLe(net, RawOut(g, s, d), d);
  }

  /** Amount times rail price never increases along any sequence of quotes, so
      a path that returns to its starting rail returns at most the start. */
  lemma {:induction false} NoValueFromHopping(rail: Chain, amount: u64, hops: seq<Hop>, price: Chain -> u64)
    ensures var end := Travel(rail, amount, hops, price);
            end.Some? ==>
              && end.value.1 * price(end.value.0) <= amount * price(rail)
              && (end.value.0 == rail ==> end.value.1 <= amount)
    decreases |hops|
  {
    if hops != [] && Travel(rail, amount, hops, price).Some? {
      var s, d := price(rail), price(hops[0].to);
      var net := Quote(amount, s, d, hops[0].feeBps, hops[0].scale).value.netOut;
      QuoteNeverGains(amount, s, d, hops[0].feeBps, hops[0].scale);
      QuoteMeaning(amount, s, d, hops[0].feeBps, hops[0].scale);
      NoValueFromHopping(hops[0].to, net, hops[1..], price);
      var end := Travel(rail, amount, hops, price).value;
      if end.0 == rail && end.1 > amount { MulLt(amount, end.1, s); }
    }
  }

  // -------------------------------------------------- splitting a deposit

  function Sum(pieces: seq<u64>): (t: nat)
  {
    if pieces == [] then 0 else pieces[0] + Sum(pieces[1..])
  }

  predicate AllQuotable(pieces: seq<u64>, s: u64, d: u64, f: u64, scale: u64)
  {
    forall i :: 0 <= i < |pieces| ==> Quote(pieces[i], s, d, f, scale).Ok?
  }

  function TotalNet(pieces: seq<u64>, s: u64, d: u64, f: u64, scale: u64): (t: nat)
    requires AllQuotable(pieces, s, d, f, scale)
  {
    if pieces == [] then 0
    else Quote(pieces[0], s, d, f, scale).value.netOut + TotalNet(pieces[1..], s, d, f, scale)
  }

  /** Two amounts quoted together and apart, before the destination floor. */
  lemma FineNetOfSum(g: nat, h: nat, s: nat, d: nat, f: nat)
    requires d > 0 && f <= BPS_DENOMINATOR
    ensures FineNet(g, s, d, f) + FineNet(h, s, d, f) <= FineNet(g + h, s, d, f) + 1
    ensures FineNet(g + h, s, d, f) <= FineNet(g, s, d, f) + FineNet(h, s, d, f) + 1
  {
    var x, y, z := RawOut(g, s, d), RawOut(h, s, d), RawOut(g + h, s, d);
    assert (g + h) * s == g * s + h * s;
    MulLe(0, g, s);
    MulLe(0, h, s);
    FloorSuperadditive(g * s, h * s, d);
    DivBounds(g * s, d);
    DivBounds(h * s, d);
    assert (x + y + 2) * d == (x * d + d) + (y * d + d);
    FloorIff(g * s + h * s, d, x + y + 2);
    NetOfSum(x, y, f);
    NetMonotone(x + y, z, f);
    NetMonotone(z, x + y + 1, f);
    NetOfSum(x + y, 1, f);
    NetAtMostGross(1, f);
  }

  lemma OnePiece(g: u64, s: u64, d: u64, f: u64, scale: u64)
    requires Quote(g, s, d, f, scale).Ok?
    ensures d > 0 && f <= BPS_DENOMINATOR && scale >= 1
    ensures var net := Quote(g, s, d, f, scale).value.netOut;
            net <= FineNet(g, s, d, f) <= net + (scale - 1)
  {
    QuoteMeaning(g, s, d, f, scale);
  }

  /** The bounds a split of `n` pieces satisfies between its total net and the
      unsplit net before the floor. */
  ghost predicate WithinSplit(total: nat, fine: nat, n: nat, scale: nat)
  {
    total <= fine + n - 1 && fine <= total + n - 1 + n * (scale - 1)
  }

  lemma SplitStep(net: nat, fine: nat, total: nat, fineRest: nat, fineSum: nat, n: nat, scale: nat)
    requires scale >= 1 && net <= fine <= net + (scale - 1)
    requires WithinSplit(total, fineRest, n, scale)
    requires fine + fineRest <= fineSum + 1 && fineSum <= fine + fineRest + 1
    ensures WithinSplit(net + total, fineSum, n + 1, scale)
  {
    assert (n + 1) * (scale - 1) == n * (scale - 1) + (scale - 1);
  }

  lemma {:induction false} SplitBounds(pieces: seq<u64>, s: u64, d: u64, f: u64, scale: u64)
    requires |pieces| >= 1 && AllQuotable(pieces, s, d, f, scale)
    ensures d > 0 && f <= BPS_DENOMINATOR && scale >= 1
    ensures WithinSplit(TotalNet(pieces, s, d, f, scale), FineNet(Sum(pieces), s, d, f), |pieces|, scale)
  {
    var p, rest := pieces[0], pieces[1..];
    OnePiece(p, s, d, f, scale);
    if |pieces| == 1 {
      assert rest == [];
      assert Sum(pieces) == p;
    } else {
      SplitBounds(rest, s, d, f, scale);
      FineNetOfSum(p, Sum(rest), s, d, f);
      SplitStep(Quote(p, s, d, f, scale).value.netOut, FineNet(p, s, d, f), TotalNet(rest, s, d, f, scale),
                FineNet(Sum(rest), s, d, f), FineNet(Sum(pieces), s, d, f), |rest|, scale);
    }
  }

  /** Splitting a deposit into n quotable pieces yields at most the unsplit net
      plus (n - 1) + (scale - 1) canonical units, and at least the unsplit net
      less (n - 1) + n * (scale - 1). */
  lemma SplittingBarelyPays(pieces: seq<u64>, s: u64, d: u64, f: u64, scale: u64)
    requires |pieces| >= 1 && AllQuotable(pieces, s, d, f, scale)
    requires Sum(pieces) <= U64_MAX && Quote(Sum(pieces), s, d, f, scale).Ok?
    ensures var whole := Quote(Sum(pieces), s, d, f, scale).value.netOut;
            var split := TotalNet(pieces, s, d, f, scale);
            && split <= whole + (|pieces| - 1) + (scale - 1)
            && whole <= split + (|pieces| - 1) + |pieces| * (scale - 1)
  {
    SplitBounds(pieces, s, d, f, scale);
    OnePiece(Sum(pieces), s, d, f, scale);
  }

  // ------------------------------------- the one-band admission buffer

  /** The rate rises by at most `up` basis points from (s, d) to (s', d'). */
  ghost predicate RateRiseWithin(s: nat, d: nat, s': nat, d': nat, up: nat)
  {
    (s' * d) * BPS_DENOMINATOR <= (s * d') * (BPS_DENOMINATOR + up)
  }

  /** A product of two rated amounts compared through the prices: pure algebra
      on `x' <= g s' / d'` and `g s / d < x + 1`. */
  lemma CrossRates(x: nat, x': nat, g: nat, s: nat, d: nat, s': nat, d': nat, U: nat)
    requires d > 0 && d' > 0 && U > 0
    requires x' * d' <= g * s' && g * s < (x + 1) * d
    requires (s' * d) * BPS_DENOMINATOR <= (s * d') * U
    ensures x' * BPS_DENOMINATOR < (x + 1) * U
  {
    var D := BPS_DENOMINATOR;
    MulLt(0, d, d');
    MulLt(0, d', U);
    calc {
      (x' * D) * (d * d');
    == { SwapOuter(x', D, d, d'); }
      (x' * d') * (d * D);
    <= { MulLe(x' * d', g * s', d * D); }
      (g * s') * (d * D);
    == { TakeOut(g, s', d, D); }
      ((s' * d) * D) * g;
    <= { MulLe((s' * d) * D, (s * d') * U, g); }
      ((s * d') * U) * g;
    == { TakeOut(g, s, d', U); }
      (g * s) * (d' * U);
    }
    MulLt(g * s, (x + 1) * d, d' * U);
    SwapOuter(x + 1, d, d', U);
    MulCancelLt(x' * D, (x + 1) * U, d * d');
  }

  lemma SwapOuter(a: int, b: int, c: int, e: int)
    ensures (a * b) * (c * e) == (a * e) * (c * b)
  {
  }

  lemma TakeOut(a: int, b: int, c: int, e: int)
    ensures (a * b) * (c * e) == ((b * c) * e) * a
  {
  }

  /** The rated amount rises no faster than the rate, up to the unit the floor
      hides. */
  lemma RatedRise(g: nat, s: nat, d: nat, s': nat, d': nat, up: nat)
    requires d > 0 && d' > 0 && RateRiseWithin(s, d, s', d', up)
    ensures RawOut(g, s', d') * BPS_DENOMINATOR < (RawOut(g, s, d) + 1) * (BPS_DENOMINATOR + up)
  {
    DivBounds(g * s, d);
    DivBounds(g * s', d');
    assert (RawOut(g, s, d) + 1) * d == RawOut(g, s, d) * d + d;
    CrossRates(RawOut(g, s, d), RawOut(g, s', d'), g, s, d, s', d', BPS_DENOMINATOR + up);
  }

  /** Arithmetic core of the buffer: a kept share of at most `A` that grows by
      the factor `U / 10^4` stays within the limit. */
  lemma GrownShareFits(x: nat, x': nat, K: nat, U: nat, A: nat, limit: nat)
    requires x' * BPS_DENOMINATOR <= (x + 1) * U
    requires (x + 1) * K <= A * BPS_DENOMINATOR
    requires A * U <= limit * BPS_DENOMINATOR
    ensures x' * K <= limit * BPS_DENOMINATOR
  {
    var D := BPS_DENOMINATOR;
    calc {
      (x' * K) * D;
    ==
      (x' * D) * K;
    <= { MulLe(x' * D, (x + 1) * U, K); }
      ((x + 1) * U) * K;
    ==
      ((x + 1) * K) * U;
    <= { MulLe((x + 1) * K, A * D, U); }
      (A * D) * U;
    ==
      (A * U) * D;
    <= { MulLe(A * U, limit * D, D); }
      (limit * D) * D;
    }
    if limit * D < x' * K { MulLt(limit * D, x' * K, D); }
  }

  lemma RestruckFineNet(g: nat, s: nat, d: nat, s': nat, d': nat, f: nat, up: nat, A: nat, limit: nat)
    requires d > 0 && d' > 0 && f <= BPS_DENOMINATOR && RateRiseWithin(s, d, s', d', up)
    requires FineNet(g, s, d, f) < A
    requires A * (BPS_DENOMINATOR + up) <= limit * BPS_DENOMINATOR
    ensures FineNet(g, s', d', f) <= limit
  {
    var x, x' := RawOut(g, s, d), RawOut(g, s', d');
    RatedRise(g, s, d, s', d', up);
    KeptShareBelow(x, f, A);
    GrownShareFits(x, x', BPS_DENOMINATOR - f, BPS_DENOMINATOR + up, A, limit);
    KeptShareWithin(x', f, limit);
  }

  lemma KeptShareBelow(x: nat, f: nat, A: nat)
    requires f <= BPS_DENOMINATOR && NetAt(x, f) < A
    ensures (x + 1) * (BPS_DENOMINATOR - f) <= A * BPS_DENOMINATOR
  {
    CeilIff(x * (BPS_DENOMINATOR - f), BPS_DENOMINATOR, A - 1);
    assert (x + 1) * (BPS_DENOMINATOR - f) == x * (BPS_DENOMINATOR - f) + (BPS_DENOMINATOR - f);
  }

  lemma KeptShareWithin(x: nat, f: nat, limit: nat)
    requires f <= BPS_DENOMINATOR && x * (BPS_DENOMINATOR - f) <= limit * BPS_DENOMINATOR
    ensures NetAt(x, f) <= limit
  {
    CeilIff(x * (BPS_DENOMINATOR - f), BPS_DENOMINATOR, limit);
  }

  /** The re-strike stays within the limit: whenever it succeeds its net does,
      and below the overflow line it does succeed. */
  ghost predicate StaysWithin(g: u64, s': u64, d': u64, f: u64, scale: u64, limit: u64)
    requires scale > 0
  {
    && (Quote(g, s', d', f, scale).Ok? ==> Quote(g, s', d', f, scale).value.netOut <= limit)
    && (s' > 0 && d' > 0 && f < BPS_DENOMINATOR && LargestRated(limit, f, scale) <= LargestQuotable(f) ==>
          Fits(g, s', d', f, scale, limit))
  }

  /** A quote whose net is at most `admitted`, re-struck after the rate rose by
      at most `up`, nets at most `(admitted + scale)` scaled by the rise. */
  lemma RestruckNetBound(g: u64, s: u64, d: u64, s': u64, d': u64, f: u64, scale: u64,
                         up: nat, admitted: nat, limit: u64)
    requires Quote(g, s, d, f, scale).Ok? && scale > 0
    requires RateRiseWithin(s, d, s', d', up)
    requires Quote(g, s, d, f, scale).value.netOut <= admitted
    requires (admitted + scale) * (BPS_DENOMINATOR + up) <= limit * BPS_DENOMINATOR
    ensures StaysWithin(g, s', d', f, scale, limit)
  {
    OnePiece(g, s, d, f, scale);
    if d' > 0 {
      RestruckFineNet(g, s, d, s', d', f, up, admitted + scale, limit);
      FineNetWithin(g, s', d', f, scale, limit);
    } else {
      QuoteMeaning(g, s', d', f, scale);
    }
  }

  lemma FineNetWithin(g: u64, s: u64, d: u64, f: u64, scale: u64, limit: u64)
    requires scale > 0 && d > 0 && f <= BPS_DENOMINATOR && FineNet(g, s, d, f) <= limit
    ensures StaysWithin(g, s, d, f, scale, limit)
  {
    if Quote(g, s, d, f, scale).Ok? { OnePiece(g, s, d, f, scale); }
    if s > 0 && f < BPS_DENOMINATOR {
      FloorToUnit(FineNet(g, s, d, f), scale);
      LargestRatedIff(RawOut(g, s, d), limit, f, scale);
      FitsIffRated(g, s, d, f, scale, limit);
    }
  }

  /** The buffer leaves room for the rise when the limit is large against the
      destination unit. */
  lemma BufferLeavesRoom(limit: u64, b: u64, scale: u64, up: nat)
    requires b <= BPS_DENOMINATOR
    requires limit * ((BPS_DENOMINATOR - b) * (BPS_DENOMINATOR + up))
             + scale * (BPS_DENOMINATOR * (BPS_DENOMINATOR + up))
             <= limit * (BPS_DENOMINATOR * BPS_DENOMINATOR)
    ensures (BufferedDestinationLimit(limit, b) + scale) * (BPS_DENOMINATOR + up) <= limit * BPS_DENOMINATOR
  {
    var D, U, B := BPS_DENOMINATOR, BPS_DENOMINATOR + up, BufferedDestinationLimit(limit, b);
    DivBounds(limit * (D - b), D);
    calc {
      ((B + scale) * U) * D;
    ==
      (B * D) * U + scale * (D * U);
    <= { MulLe(B * D, limit * (D - b), U); }
      (limit * (D - b)) * U + scale * (D * U);
    == { assert (limit * (D - b)) * U == limit * ((D - b) * U); }
      limit * ((D - b) * U) + scale * (D * U);
    <=
      limit * (D * D);
    == { assert limit * (D * D) == (limit * D) * D; }
      (limit * D) * D;
    }
    if limit * D < (B + scale) * U { MulLt(limit * D, (B + scale) * U, D); }
  }

  lemma PositiveBufferedLimit(limit: u64, b: u64)
    requires BufferedDestinationLimit(limit, b) >= 1
    ensures b < BPS_DENOMINATOR
  {
  }

  lemma BufferRoomForOneBand(limit: u64, b: u64, scale: u64)
    requires b < BPS_DENOMINATOR
    requires limit * (b * b) >= scale * (BPS_DENOMINATOR * (BPS_DENOMINATOR + b))
    ensures (BufferedDestinationLimit(limit, b) + scale) * (BPS_DENOMINATOR + b) <= limit * BPS_DENOMINATOR
  {
    var D := BPS_DENOMINATOR;
    assert (D - b) * (D + b) == D * D - b * b;
    assert limit * (D * D - b * b) == limit * (D * D) - limit * (b * b);
    BufferLeavesRoom(limit, b, scale, b);
  }

  /** One-band theorem. A quote admitted under buffer `b` and re-struck after
      the rate rose by at most `b` stays within the FULL destination limit, all
      roundings included, whenever limit * b^2 >= 10^4 * (10^4 + b) * scale. */
  lemma OneBandBuffer(g: u64, s: u64, d: u64, s': u64, d': u64, f: u64, scale: u64, limit: u64, b: u64)
    requires Quote(g, s, d, f, scale).Ok?
    requires scale <= BufferedDestinationLimit(limit, b)
    requires Quote(g, s, d, f, scale).value.netOut <= BufferedDestinationLimit(limit, b)
    requires RateRiseWithin(s, d, s', d', b)
    requires limit * (b * b) >= scale * (BPS_DENOMINATOR * (BPS_DENOMINATOR + b))
    ensures scale > 0 && StaysWithin(g, s', d', f, scale, limit)
  {
    OnePiece(g, s, d, f, scale);
    PositiveBufferedLimit(limit, b);
    BufferRoomForOneBand(limit, b, scale);
    RestruckNetBound(g, s, d, s', d', f, scale, b, BufferedDestinationLimit(limit, b), limit);
  }

  /** The live book's movement between two price windows, in basis points,
      rounded down and saturating. */
  function MovementBps(srcNow: u64, dstNow: u64, srcRef: u64, dstRef: u64): (m: u64)
  {
    var now, ref := Widen(srcNow, dstRef), Widen(srcRef, dstNow);
    if ref == 0 then U64_MAX
    else
      var diff := if now >= ref then now - ref else ref - now;
      FloorIff(diff * BPS_DENOMINATOR, ref, 0);
      var moved := (diff * BPS_DENOMINATOR) / ref;
      if moved <= U64_MAX then moved else U64_MAX
  }

  /** What the book measures: the movement is within a band exactly when the rate
      moved, up or down, by less than one basis point more than it. */
  lemma MovementIff(srcNow: u64, dstNow: u64, srcRef: u64, dstRef: u64, band: u64)
    requires band < U64_MAX
    ensures var now, ref := srcNow * dstRef, srcRef * dstNow;
            MovementBps(srcNow, dstNow, srcRef, dstRef) <= band <==>
            && ref > 0
            && (now - ref) * BPS_DENOMINATOR < (band + 1) * ref && (ref - now) * BPS_DENOMINATOR < (band + 1) * ref
  {
    var now, ref := srcNow * dstRef, srcRef * dstNow;
    if ref > 0 {
      var diff := if now >= ref then now - ref else ref - now;
      FloorIff(diff * BPS_DENOMINATOR, ref, band + 1);
      MulLe(0, band + 1, ref);
    }
  }

  /** A movement the band lets through bounds the rise by one basis point more
      than the band, because the movement is rounded down. */
  lemma InBandBoundsRise(srcNow: u64, dstNow: u64, srcRef: u64, dstRef: u64, band: u64)
    requires band < U64_MAX && MovementBps(srcNow, dstNow, srcRef, dstRef) <= band
    ensures RateRiseWithin(srcRef, dstRef, srcNow, dstNow, band + 1)
  {
    var now, ref := srcNow * dstRef, srcRef * dstNow;
    if now >= ref && ref > 0 {
      FloorIff((now - ref) * BPS_DENOMINATOR, ref, band + 1);
      assert ref * (BPS_DENOMINATOR + band + 1) == ref * BPS_DENOMINATOR + (band + 1) * ref;
    } else if ref > 0 {
      MulLe(now, ref, BPS_DENOMINATOR);
      MulLe(BPS_DENOMINATOR, BPS_DENOMINATOR + band + 1, ref);
    }
  }

  lemma BufferRoomForFlooredBand(limit: u64, b: u64, scale: u64)
    requires b < BPS_DENOMINATOR
    requires limit * (b * b + b) >= scale * (BPS_DENOMINATOR * (BPS_DENOMINATOR + b + 1)) + limit * BPS_DENOMINATOR
    ensures (BufferedDestinationLimit(limit, b) + scale) * (BPS_DENOMINATOR + b + 1) <= limit * BPS_DENOMINATOR
  {
    var D := BPS_DENOMINATOR;
    assert (D - b) * (D + b + 1) == D * D + D - (b * b + b);
    assert limit * (D * D + D - (b * b + b)) == limit * (D * D) + limit * D - limit * (b * b + b);
    BufferLeavesRoom(limit, b, scale, b + 1);
  }

  /** The same theorem against the gate the live book really applies: the quote
      was struck at the reference prices, the lock at the current ones, and the
      book did not flag the move. */
  lemma OneBandBufferAtTheGate(g: u64, s: u64, d: u64, s': u64, d': u64, f: u64, scale: u64, limit: u64, b: u64)
    requires Quote(g, s, d, f, scale).Ok?
    requires scale <= BufferedDestinationLimit(limit, b)
    requires Quote(g, s, d, f, scale).value.netOut <= BufferedDestinationLimit(limit, b)
    requires MovementBps(s', d', s, d) <= b
    requires limit * (b * b + b) >= scale * (BPS_DENOMINATOR * (BPS_DENOMINATOR + b + 1)) + limit * BPS_DENOMINATOR
    ensures scale > 0 && StaysWithin(g, s', d', f, scale, limit)
  {
    OnePiece(g, s, d, f, scale);
    PositiveBufferedLimit(limit, b);
    InBandBoundsRise(s', d', s, d, b);
    BufferRoomForFlooredBand(limit, b, scale);
    RestruckNetBound(g, s, d, s', d', f, scale, b + 1, BufferedDestinationLimit(limit, b), limit);
  }

  /** With the default buffer of 2500 bps, 21 destination units of limit are
      enough; below the overflow line the order is then payable. */
  lemma DefaultBufferSuffices(g: u64, s: u64, d: u64, s': u64, d': u64, f: u64, scale: u64, limit: u64)
    requires Quote(g, s, d, f, scale).Ok?
    requires limit >= 21 * scale
    requires Quote(g, s, d, f, scale).value.netOut
             <= BufferedDestinationLimit(limit, DEFAULT_DESTINATION_LIMIT_BUFFER_BPS)
    requires MovementBps(s', d', s, d) <= DEFAULT_DESTINATION_LIMIT_BUFFER_BPS
    ensures scale > 0 && StaysWithin(g, s', d', f, scale, limit)
  {
    OnePiece(g, s, d, f, scale);
    FloorIff(limit * 7_500, BPS_DENOMINATOR, scale);
    OneBandBufferAtTheGate(g, s, d, s', d', f, scale, limit, 2_500);
  }

  // ------------------------- exactly when one band of buffer is enough

  /** The rated amounts admitted under the buffer, all grown by `up` basis points,
      still fit the limit: a comparison of figures a deployer knows. */
  predicate RoomForRise(limit: u64, b: u64, f: u64, scale: u64, up: nat)
    requires f < BPS_DENOMINATOR && scale > 0
  {
    (LargestFitting(BufferedDestinationLimit(limit, b), f, scale) + 1) * (BPS_DENOMINATOR + up)
    <= (LargestFitting(limit, f, scale) + 1) * BPS_DENOMINATOR
  }

  /** Where there is room for a rise, a quote that fitted the buffered limit can
      be re-struck after it, within the full limit. */
  lemma RiseFits(g: u64, s: u64, d: u64, s': u64, d': u64, f: u64, scale: u64, limit: u64, b: u64, up: nat)
    requires f < BPS_DENOMINATOR && scale > 0 && RoomForRise(limit, b, f, scale, up)
    requires Fits(g, s, d, f, scale, BufferedDestinationLimit(limit, b)) && s' > 0 && d' > 0
    requires RateRiseWithin(s, d, s', d', up)
    ensures Fits(g, s', d', f, scale, limit)
  {
    var bound := BufferedDestinationLimit(limit, b);
    QuoteMeaning(g, s, d, f, scale);
    FitsIffRated(g, s, d, f, scale, bound);
    FitsIffRated(g, s', d', f, scale, limit);
    RatedRise(g, s, d, s', d', up);
    var x, x' := RawOut(g, s, d), RawOut(g, s', d');
    var X, Y := LargestFitting(bound, f, scale), LargestFitting(limit, f, scale);
    MulLe(x + 1, X + 1, BPS_DENOMINATOR + up);
    MulCancelLt(x', Y + 1, BPS_DENOMINATOR);
  }

  /** The documented promise for one order: admitted under a buffer of one band
      and observed at prices the live book does not flag, it is payable: it can
      be re-struck, within the limit. */
  ghost predicate SurvivesOneBand(g: u64, s: u64, d: u64, s': u64, d': u64, f: u64, scale: u64, limit: u64, b: u64)
  {
    Admitted(g, s, d, f, scale, limit, b) && MovementBps(s', d', s, d) <= b ==> Fits(g, s', d', f, scale, limit)
  }

  /** The room one band needs at the gate, which rounds the movement down: one
      basis point more than the band. */
  predicate OneBandRoom(limit: u64, b: u64, f: u64, scale: u64)
    requires f < BPS_DENOMINATOR && scale > 0
  {
    RoomForRise(limit, b, f, scale, b + 1)
  }

  /** When the promise holds, from the configured figures alone: nothing is
      admitted, or there is room. */
  predicate OneBandHolds(limit: u64, b: u64, f: u64, scale: u64)
    requires f <= BPS_DENOMINATOR && scale > 0
  {
    NothingDeliverable(limit, f, scale, b) || OneBandRoom(limit, b, f, scale)
  }

  /** A price that fell to zero has moved by 100%: the book flags it. */
  lemma UnflaggedPricesArePositive(s': u64, d': u64, s: u64, d: u64, b: u64)
    requires s > 0 && d > 0 && b < BPS_DENOMINATOR && MovementBps(s', d', s, d) <= b
    ensures s' > 0 && d' > 0
  {
    if d' > 0 && s' == 0 {
      MulLt(0, s, d');
      MultipleDivides(BPS_DENOMINATOR, s * d');
    }
  }

  /** Where there is room, every order survives. */
  lemma RoomSuffices(g: u64, s: u64, d: u64, s': u64, d': u64, f: u64, scale: u64, limit: u64, b: u64)
    requires f < BPS_DENOMINATOR && scale > 0 && OneBandRoom(limit, b, f, scale)
    ensures SurvivesOneBand(g, s, d, s', d', f, scale, limit, b)
  {
    if Admitted(g, s, d, f, scale, limit, b) && MovementBps(s', d', s, d) <= b {
      QuoteMeaning(g, s, d, f, scale);
      PositiveBufferedLimit(limit, b);
      UnflaggedPricesArePositive(s', d', s, d, b);
      InBandBoundsRise(s', d', s, d, b);
      RiseFits(g, s, d, s', d', f, scale, limit, b, b + 1);
    }
  }

  /** A rate just below `X + 1` to one, in small figures: `g s = (X + 1) d - e`
      with `e` negligible against `d`. */
  ghost predicate JustBelow(g: u64, s: u64, d: u64, e: nat, X: nat, U: nat)
  {
    g > 0 && s > 0 && d > 0 && g * s == (X + 1) * d - e && 1 <= e && e * U < d
  }

  lemma RateJustBelow(X: nat, U: nat) returns (g: u64, s: u64, d: u64, e: nat)
    requires X + 1 <= U64_MAX && BPS_DENOMINATOR <= U <= 2 * BPS_DENOMINATOR
    ensures JustBelow(g, s, d, e, X, U)
  {
    if X + 1 <= 20 * U {
      MulLe(X + 1, 400_000, 2 * U);
      MulLe(1, X + 1, 2 * U);
      g, s, d, e := (X + 1) * (2 * U) - 1, 1, 2 * U, 1;
    } else {
      g, s, d, e := NearSquare(X, U, 1);
    }
  }

  /** The same with an even amount, for the large figures. */
  lemma EvenRateJustBelow(X: nat, U: nat) returns (g: u64, s: u64, d: u64, e: nat)
    requires 20 * U < X + 1 <= U64_MAX && BPS_DENOMINATOR <= U <= 2 * BPS_DENOMINATOR
    ensures JustBelow(g, s, d, e, X, U) && g % 2 == 0
  {
    var h := (X + 1) / 2;
    var k := if h % 2 == 1 then 1 else 2;
    EvenSum(h, k);
    g, s, d, e := NearSquare(X, U, k);
  }

  lemma EvenSum(h: nat, k: nat)
    requires k == if h % 2 == 1 then 1 else 2
    ensures (h + k) % 2 == 0
  {
  }

  /** Two factors near the square root of `(X + 1)^2 / 2`. */
  lemma NearSquare(X: nat, U: nat, k: nat) returns (g: u64, s: u64, d: u64, e: nat)
    requires 20 * U < X + 1 <= U64_MAX && U >= 1 && 1 <= k <= 2
    ensures JustBelow(g, s, d, e, X, U) && g == (X + 1) / 2 + k
  {
    var h, r := (X + 1) / 2, (X + 1) % 2;
    g, s, d, e := h + k, 2 * h - 2 * k + r, h, if k == 1 then 2 - r else 8 - 2 * r;
    NearSquareProduct(h, r, k, e);
    MulLe(e, 8, U);
  }

  lemma NearSquareProduct(h: int, r: int, k: int, e: int)
    requires k == 1 || k == 2
    requires e == if k == 1 then 2 - r else 8 - 2 * r
    ensures (h + k) * (2 * h - 2 * k + r) == (2 * h + r) * h - e
  {
  }

  /** Rated at such a rate, an amount is worth exactly `X`. */
  lemma RatedJustBelow(g: u64, s: u64, d: u64, e: nat, X: nat, U: nat)
    requires JustBelow(g, s, d, e, X, U) && U >= 1
    ensures RawOut(g, s, d) == X
  {
    MulLe(1, U, e);
    assert (X + 1) * d == X * d + d;
    FloorIff(g * s, d, X);
    FloorIff(g * s, d, X + 1);
  }

  /** A move the book measures within the band. */
  lemma MovementWithin(s': u64, d': u64, s: u64, d: u64, b: u64)
    requires 0 < s * d' <= s' * d && b < BPS_DENOMINATOR
    requires (s' * d) * BPS_DENOMINATOR < (s * d') * (BPS_DENOMINATOR + b + 1)
    ensures MovementBps(s', d', s, d) <= b
  {
    var D, now, ref := BPS_DENOMINATOR, s' * d, s * d';
    assert (now - ref) * D == now * D - ref * D && ref * (D + b + 1) == ref * D + (b + 1) * ref;
    FloorIff((now - ref) * D, ref, b + 1);
  }

  /** From a rate just below `X + 1` to the rate `Y + 1`, with no room between
      the two, the move stays inside the band; `now` and `ref` are the two sides
      the book compares, or the same fraction of both. */
  lemma GateSlack(X: nat, Y: nat, d: nat, e: nat, U: nat, now: int, ref: int, times: int)
    requires times > 0 && times * ref == (X + 1) * d - e && times * now == (Y + 1) * d
    requires 1 <= e && e * U < d && X <= Y && (Y + 1) * BPS_DENOMINATOR < (X + 1) * U
    ensures ref <= now && now * BPS_DENOMINATOR < ref * U
  {
    MulLe(X + 1, Y + 1, d);
    if now < ref { MulLt(now, ref, times); }
    WholeSlack(X, Y, d, e, U);
    Reorder(now, BPS_DENOMINATOR, times);
    Reorder(ref, U, times);
    MulCancelLt(now * BPS_DENOMINATOR, ref * U, times);
  }

  lemma WholeSlack(X: nat, Y: nat, d: nat, e: nat, U: nat)
    requires e * U < d && (Y + 1) * BPS_DENOMINATOR < (X + 1) * U
    ensures ((Y + 1) * d) * BPS_DENOMINATOR < ((X + 1) * d - e) * U
  {
    var A, B := (Y + 1) * BPS_DENOMINATOR, (X + 1) * U;
    MulLe(A, B - 1, d);
    Distribute(B, -1, d);
    Distribute((X + 1) * d, 0 - e, U);
    assert ((Y + 1) * d) * BPS_DENOMINATOR == A * d && ((X + 1) * d) * U == B * d;
  }

  lemma Reorder(a: int, b: int, c: int)
    ensures (a * b) * c == (c * a) * b
  {
  }

  lemma BufferedFitsAtMost(limit: u64, b: u64, f: u64, scale: u64)
    requires f < BPS_DENOMINATOR && scale > 0
    ensures LargestFitting(BufferedDestinationLimit(limit, b), f, scale) <= LargestFitting(limit, f, scale) <= U64_MAX
  {
    var X := LargestRated(BufferedDestinationLimit(limit, b), f, scale);
    LargestRatedIff(X, BufferedDestinationLimit(limit, b), f, scale);
    LargestRatedIff(X, limit, f, scale);
    LargestQuotableIff(LargestQuotable(f), f);
  }

  /** The move to the rate `Y + 1`, while that is a price. */
  lemma MovePast(X: nat, Y: nat, b: u64) returns (g: u64, s: u64, d: u64, s': u64, d': u64)
    requires b < BPS_DENOMINATOR && X <= Y < U64_MAX
    requires (Y + 1) * BPS_DENOMINATOR < (X + 1) * (BPS_DENOMINATOR + b + 1)
    ensures s > 0 && d > 0 && s' > 0 && d' > 0 && MovementBps(s', d', s, d) <= b
    ensures RawOut(g, s, d) <= X && RawOut(g, s', d') > Y
  {
    var U, e := BPS_DENOMINATOR + b + 1, 0;
    g, s, d, e := RateJustBelow(X, U);
    s', d' := Y + 1, g;
    RatedJustBelow(g, s, d, e, X, U);
    MultipleDivides(Y + 1, g);
    assert g * s' == s' * g;
    MulLt(0, s, d');
    assert s * d' == g * s;
    GateSlack(X, Y, d, e, U, s' * d, s * d', 1);
    MovementWithin(s', d', s, d, b);
  }

  /** The move past the last u64, in halves. */
  lemma MovePastTheTop(X: nat, b: u64) returns (g: u64, s: u64, d: u64, s': u64, d': u64)
    requires b < BPS_DENOMINATOR && X < U64_MAX
    requires (U64_MAX + 1) * BPS_DENOMINATOR < (X + 1) * (BPS_DENOMINATOR + b + 1)
    ensures s > 0 && d > 0 && s' > 0 && d' > 0 && MovementBps(s', d', s, d) <= b
    ensures RawOut(g, s, d) <= X && RawOut(g, s', d') > U64_MAX
  {
    var U, e := BPS_DENOMINATOR + b + 1, 0;
    if X + 1 <= 20 * U {
      MulLe(X + 1, 20 * U, U);
      MulLe(20 * U, 40 * BPS_DENOMINATOR, U);
    }
    g, s, d, e := EvenRateJustBelow(X, U);
    s', d' := 0x8000_0000_0000_0000, g / 2;
    RatedJustBelow(g, s, d, e, X, U);
    MultipleDivides(U64_MAX + 1, d');
    assert g * s' == (U64_MAX + 1) * d';
    MulLt(0, s, d');
    assert 2 * (s * d') == g * s;
    GateSlack(X, U64_MAX, d, e, U, s' * d, s * d', 2);
    MovementWithin(s', d', s, d, b);
  }

  /** At the very top, a step of one part in 2^33 is enough. */
  lemma MoveAtTheTop()
    ensures RawOut(0x8000_0000_0000_0000, 0x1_FFFF_FFFF, 0x1_0000_0000) <= U64_MAX
    ensures RawOut(0x8000_0000_0000_0000, 2, 1) > U64_MAX && MovementBps(2, 1, 0x1_FFFF_FFFF, 0x1_0000_0000) == 0
  {
  }

  /** Where the promise does not hold, an order is admitted, is not flagged, and
      is not payable within the limit. */
  lemma NoRoomOvershoots(limit: u64, b: u64, f: u64, scale: u64) returns (g: u64, s: u64, d: u64, s': u64, d': u64)
    requires f <= BPS_DENOMINATOR && scale > 0 && !OneBandHolds(limit, b, f, scale)
    ensures !SurvivesOneBand(g, s, d, s', d', f, scale, limit, b)
  {
    var bound := BufferedDestinationLimit(limit, b);
    var X, Y := LargestFitting(bound, f, scale), LargestFitting(limit, f, scale);
    PositiveBufferedLimit(limit, b);
    BufferedFitsAtMost(limit, b, f, scale);
    if Y < U64_MAX {
      g, s, d, s', d' := MovePast(X, Y, b);
    } else if X < U64_MAX {
      g, s, d, s', d' := MovePastTheTop(X, b);
    } else {
      g, s, d, s', d' := 0x8000_0000_0000_0000, 0x1_FFFF_FFFF, 0x1_0000_0000, 2, 1;
      MoveAtTheTop();
    }
    FitsIffRated(g, s, d, f, scale, bound);
    FitsIffRated(g, s', d', f, scale, limit);
  }

  /** One band of buffer keeps every admitted order payable over one band of
      movement, for every amount and every pair of prices, if and only if the
      configured figures say so. */
  lemma OneBandIff(limit: u64, b: u64, f: u64, scale: u64)
    requires f <= BPS_DENOMINATOR && scale > 0
    ensures (forall g: u64, s: u64, d: u64, s': u64, d': u64 :: SurvivesOneBand(g, s, d, s', d', f, scale, limit, b))
            <==> OneBandHolds(limit, b, f, scale)
  {
    if OneBandHolds(limit, b, f, scale) {
      forall g: u64, s: u64, d: u64, s': u64, d': u64 ensures SurvivesOneBand(g, s, d, s', d', f, scale, limit, b) {
        if !NothingDeliverable(limit, f, scale, b) { RoomSuffices(g, s, d, s', d', f, scale, limit, b); }
      }
    } else {
      var g, s, d, s', d' := NoRoomOvershoots(limit, b, f, scale);
    }
  }

  /** A limit however large does not help past the overflow line: admitted, risen
      by exactly one band, and the re-strike overflows. */
  lemma OneBandMayOverflow()
    ensures Admitted(61_489_146_912_365_172, 4, 4, 300, 1, U64_MAX, 2_500) && MovementBps(5, 4, 4, 4) == 2_500
    ensures Quote(61_489_146_912_365_172, 5, 4, 300, 1).Err?
  {
    var g: u64 := 61_489_146_912_365_172;
    assert RawOut(g, 4, 4) == g && RawOut(g, 5, 4) == 76_861_433_640_456_465;
    BufferedLimitIff(U64_MAX, 2_500, g);
    QuoteMeaning(g, 4, 4, 300, 1);
    NetAtMostGross(g, 300);
    QuoteMeaning(g, 5, 4, 300, 1);
  }

  /** Without a size condition one band of buffer is NOT enough: a limit of four
      destination units, a quote admitted under the default buffer, a rise of
      exactly one band, and the re-struck net is five units. */
  lemma OneBandCounterexample()
    ensures Quote(570_999, 1, 1_000, 3_000, 100).Ok? && Quote(570_999, 5, 4_000, 3_000, 100).Ok?
    ensures Quote(570_999, 1, 1_000, 3_000, 100).value.netOut == BufferedDestinationLimit(400, 2_500) == 300
    ensures MovementBps(5, 4_000, 1, 1_000) == 2_500 && RateRiseWithin(1, 1_000, 5, 4_000, 2_500)
    ensures Quote(570_999, 5, 4_000, 3_000, 100).value.netOut == 500
  {
  }
}
