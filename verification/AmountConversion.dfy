/** The exact decimal conversion between chains, the bridge fee, and the
    inverse of the fee (service/src/amount_conversion.rs). */
module AmountConversion {
  import opened Numbers

  const GOLDCOIN_DECIMALS: nat := 8
  const BPS_DENOMINATOR: nat := 10_000
  const BRIDGE_FEE_BPS: nat := 300

  datatype ConversionError =
    | NotExactlyRepresentable(amount: u64, fromDecimals: u32, toDecimals: u32, remainder: u64)
    | Overflow(amount: u64)
    | AccountingMismatch(gross: u64, storedFee: u64, recomputedFee: u64, storedNet: u64, recomputedNet: u64)
    | FeeBpsOutOfRange(feeBps: u64, max: u64)
    | InvalidBridgePrice(sourcePriceE12: u64, destinationPriceE12: u64)
    | QuoteMismatch(grossIn: u64, sourcePriceE12: u64, destinationPriceE12: u64,
                    storedGrossOut: u64, recomputedGrossOut: u64,
                    storedFee: u64, recomputedFee: u64,
                    storedNet: u64, recomputedNet: u64)
    | QuoteNotLocked(quotedAt: i64)
    | InvalidDestinationScale

  // ---------------------------------------------------- decimal conversion

  /** `10u64.checked_pow(k)`. */
  function CheckedPow10(k: nat): (r: Option<u64>)
  {
    if Pow10(k) <= U64_MAX then Some(Pow10(k)) else None
  }

  function ConvertAtomicAmount(amount: u64, fromDecimals: u32, toDecimals: u32): (r: Result<u64, ConversionError>)
  {
    if fromDecimals == toDecimals then Ok(amount)
    else if fromDecimals < toDecimals then
      match CheckedPow10(toDecimals - fromDecimals)
      case None => Err(Overflow(amount))
      case Some(scale) =>
        if amount * scale <= U64_MAX then MulLe(0, amount, scale); Ok(amount * scale) else Err(Overflow(amount))
    else
      match CheckedPow10(fromDecimals - toDecimals)
      case None => Err(Overflow(amount))
      case Some(scale) =>
        var remainder := amount % scale;
        if remainder != 0
        then Err(NotExactlyRepresentable(amount, fromDecimals, toDecimals, remainder))
        else QuotientFits(amount, scale); Ok(amount / scale)
  }

  lemma QuotientFits(amount: u64, scale: int)
    requires scale > 0
    ensures 0 <= amount / scale <= amount
  {
    FloorIff(amount, scale, 0);
    DivBounds(amount, scale);
    if amount / scale > amount { MulLe(1, scale, amount / scale); }
  }

  /** `a` units at `f` decimals are the same quantity of GLC as `b` units at
      `t` decimals. */
  ghost predicate SameValue(a: u64, f: nat, b: u64, t: nat)
  {
    a * Pow10(t) == b * Pow10(f)
  }

  ghost function DecimalGap(f: nat, t: nat): (g: nat)
  {
    if f <= t then t - f else f - t
  }

  /** Only the gap between the two precisions matters. */
  lemma SameValueByGap(a: u64, f: nat, b: u64, t: nat)
    ensures f <= t ==> (SameValue(a, f, b, t) <==> a * Pow10(t - f) == b)
    ensures t <= f ==> (SameValue(a, f, b, t) <==> a == b * Pow10(f - t))
  {
    var low := if f <= t then f else t;
    var gap := DecimalGap(f, t);
    Pow10Add(low, gap);
    var p, q := Pow10(low), Pow10(gap);
    if f <= t {
      assert a * Pow10(t) == (a * q) * p by { assert a * (p * q) == (a * q) * p; }
      if a * q < b { MulLt(a * q, b, p); } else if b < a * q { MulLt(b, a * q, p); }
    } else {
      assert b * Pow10(f) == (b * q) * p by { assert b * (p * q) == (b * q) * p; }
      if b * q < a { MulLt(b * q, a, p); } else if a < b * q { MulLt(a, b * q, p); }
    }
  }

  lemma Pow10FitsExactly(k: nat)
    ensures CheckedPow10(k).Some? <==> k <= 19
  {
    Pow10Values();
    if k <= 19 { Pow10Monotone(k, 19); } else { Pow10Monotone(20, k); }
  }

  /** Past 19 decimals only the amount zero has an equal. */
  lemma FarApartOnlyZero(a: u64, f: nat, b: u64, t: nat)
    requires DecimalGap(f, t) > 19 && SameValue(a, f, b, t)
    ensures a == 0
  {
    var q := Pow10(DecimalGap(f, t));
    SameValueByGap(a, f, b, t);
    Pow10Values();
    Pow10Monotone(20, DecimalGap(f, t));
    if f <= t { if a >= 1 { MulLe(1, a, q); } } else { if b >= 1 { MulLe(1, b, q); } }
  }

  /** A conversion succeeds with `b` exactly when `b` has the same value and
      the precisions are at most 19 decimals apart. */
  lemma ConvertIff(amount: u64, f: u32, t: u32, b: u64)
    ensures ConvertAtomicAmount(amount, f, t) == Ok(b) <==> DecimalGap(f, t) <= 19 && SameValue(amount, f, b, t)
  {
    var q := Pow10(DecimalGap(f, t));
    Pow10FitsExactly(DecimalGap(f, t));
    SameValueByGap(amount, f, b, t);
    if t < f {
      DivBounds(amount, q);
      MultipleDivides(b, q);
    }
  }

  /** Whenever a conversion succeeds, the result is the one u64 amount of the
      same value; and it succeeds exactly when such an amount exists and the
      precisions are at most 19 decimals apart. Past 19 decimals only the
      amount zero has an equal, and the code refuses even that one. */
  lemma ConvertIffEqualValueExists(amount: u64, f: u32, t: u32)
    ensures ConvertAtomicAmount(amount, f, t).Ok? <==>
            DecimalGap(f, t) <= 19 && exists b: u64 :: SameValue(amount, f, b, t)
    ensures forall b: u64 :: ConvertAtomicAmount(amount, f, t) == Ok(b) ==>
              SameValue(amount, f, b, t) && forall c: u64 :: SameValue(amount, f, c, t) ==> c == b
    ensures DecimalGap(f, t) > 19 ==> ((exists b: u64 :: SameValue(amount, f, b, t)) <==> amount == 0)
  {
    forall b: u64
      ensures ConvertAtomicAmount(amount, f, t) == Ok(b) <==> DecimalGap(f, t) <= 19 && SameValue(amount, f, b, t)
      ensures DecimalGap(f, t) > 19 && SameValue(amount, f, b, t) ==> amount == 0
    {
      ConvertIff(amount, f, t, b);
      if DecimalGap(f, t) > 19 && SameValue(amount, f, b, t) { FarApartOnlyZero(amount, f, b, t); }
    }
    assert SameValue(0, f, 0, t);
  }

  lemma MultipleDivides(b: nat, q: int)
    requires q > 0
    ensures (b * q) % q == 0 && (b * q) / q == b
  {
    FloorIff(b * q, q, b);
    FloorIff(b * q, q, b + 1);
    assert (b + 1) * q == b * q + q;
  }

  /** Converting there and back returns the original amount. */
  lemma ConvertRoundTrip(amount: u64, f: u32, t: u32, b: u64)
    requires ConvertAtomicAmount(amount, f, t) == Ok(b)
    ensures ConvertAtomicAmount(b, t, f) == Ok(amount)
  {
    ConvertIff(amount, f, t, b);
    ConvertIff(b, t, f, amount);
  }

  // ------------------------------------------------------------ bridge fee

  datatype FeeBreakdown = FeeBreakdown(gross: u64, feeBps: u64, fee: u64, net: u64)

  function ComputeFeeAtBps(gross: u64, feeBps: u64): (r: Result<FeeBreakdown, ConversionError>)
  {
    if feeBps > BPS_DENOMINATOR then Err(FeeBpsOutOfRange(feeBps, BPS_DENOMINATOR))
    else if gross * feeBps > U64_MAX then Err(Overflow(gross))
    else
      MulLe(0, gross, feeBps);
      MulLe(feeBps, BPS_DENOMINATOR, gross);
      var fee := (gross * feeBps) / BPS_DENOMINATOR;
      Ok(FeeBreakdown(gross, feeBps, fee, gross - fee))
  }

  /** The net a gross amount is worth at a rate: the kept share, rounded UP,
      because the fee is rounded down. */
  function NetAt(gross: nat, feeBps: nat): (n: nat)
    requires feeBps <= BPS_DENOMINATOR
  {
    CeilDiv(gross * (BPS_DENOMINATOR - feeBps), BPS_DENOMINATOR)
  }

  /** Rounding the fee down rounds the rest up. */
  lemma RestIsCeiling(gross: nat, feeBps: nat)
    requires feeBps <= BPS_DENOMINATOR
    ensures gross - (gross * feeBps) / BPS_DENOMINATOR == NetAt(gross, feeBps)
  {
    var p := gross * feeBps;
    var net := gross - p / BPS_DENOMINATOR;
    var kept := gross * (BPS_DENOMINATOR - feeBps);
    assert kept == gross * BPS_DENOMINATOR - p;
    MulLe(0, gross, BPS_DENOMINATOR - feeBps);
    CeilOfComplement(gross, p, kept);
  }

  lemma CeilOfComplement(gross: int, p: int, kept: nat)
    requires kept == gross * BPS_DENOMINATOR - p
    ensures CeilDiv(kept, BPS_DENOMINATOR) == gross - p / BPS_DENOMINATOR
  {
  }

  /** The fee computes exactly on the grosses below the overflow line, and
      what it leaves is the rounded-up kept share. */
  lemma FeeMeaning(gross: u64, feeBps: u64)
    ensures ComputeFeeAtBps(gross, feeBps).Ok? <==> feeBps <= BPS_DENOMINATOR && gross * feeBps <= U64_MAX
    ensures forall fb :: ComputeFeeAtBps(gross, feeBps) == Ok(fb) ==>
              fb.gross == gross && fb.feeBps == feeBps && fb.fee + fb.net == gross && fb.net == NetAt(gross, feeBps)
  {
    if feeBps <= BPS_DENOMINATOR { RestIsCeiling(gross, feeBps); }
  }

  lemma NetMonotone(g: nat, g': nat, feeBps: nat)
    requires g <= g' && feeBps <= BPS_DENOMINATOR
    ensures NetAt(g, feeBps) <= NetAt(g', feeBps)
  {
    MulLe(g, g', BPS_DENOMINATOR - feeBps);
    CeilMonotone(g * (BPS_DENOMINATOR - feeBps), g' * (BPS_DENOMINATOR - feeBps), BPS_DENOMINATOR);
  }

  lemma NetAtMostGross(g: nat, feeBps: nat)
    requires feeBps <= BPS_DENOMINATOR
    ensures NetAt(g, feeBps) <= g
  {
    MulLe(BPS_DENOMINATOR - feeBps, BPS_DENOMINATOR, g);
    CeilIff(g * (BPS_DENOMINATOR - feeBps), BPS_DENOMINATOR, g);
  }

  /** Below 100% every positive gross nets at least one unit. */
  lemma PositiveGrossNetsSomething(g: nat, feeBps: nat)
    requires feeBps < BPS_DENOMINATOR
    ensures NetAt(g, feeBps) >= 1 <==> g >= 1
  {
    if g >= 1 {
      MulLe(1, g, BPS_DENOMINATOR - feeBps);
      CeilIff(g * (BPS_DENOMINATOR - feeBps), BPS_DENOMINATOR, 0);
    }
  }

  /** Splitting a gross in two gains at most one unit and loses nothing. */
  lemma NetOfSum(g: nat, h: nat, feeBps: nat)
    requires feeBps <= BPS_DENOMINATOR
    ensures NetAt(g + h, feeBps) <= NetAt(g, feeBps) + NetAt(h, feeBps) <= NetAt(g + h, feeBps) + 1
  {
    var k := BPS_DENOMINATOR - feeBps;
    assert (g + h) * k == g * k + h * k;
    CeilSubadditive(g * k, h * k, BPS_DENOMINATOR);
  }

  function VerifyFeeBreakdown(gross: u64, storedFeeBps: u64, storedFee: u64, storedNet: u64):
    (r: Result<FeeBreakdown, ConversionError>)
  {
    var fb :- ComputeFeeAtBps(gross, storedFeeBps);
    if fb.fee != storedFee || fb.net != storedNet
    then Err(AccountingMismatch(gross, storedFee, fb.fee, storedNet, fb.net))
    else Ok(fb)
  }

  // -------------------------------------------------- inverse of the fee

  /** The closed-form starting point of the search for the largest gross. */
  function GrossEstimate(maxNet: nat, feeBps: nat): (e: nat)
    requires feeBps < BPS_DENOMINATOR
  {
    (maxNet * BPS_DENOMINATOR) / (BPS_DENOMINATOR - feeBps)
  }

  /** The closed form is already the exact boundary, for every gross and
      without any overflow bound. */
  lemma EstimateIsExact(maxNet: nat, feeBps: nat, g: nat)
    requires feeBps < BPS_DENOMINATOR
    ensures NetAt(g, feeBps) <= maxNet <==> g <= GrossEstimate(maxNet, feeBps)
  {
    CeilIff(g * (BPS_DENOMINATOR - feeBps), BPS_DENOMINATOR, maxNet);
    FloorIff(maxNet * BPS_DENOMINATOR, BPS_DENOMINATOR - feeBps, g);
  }

  /** `net_of` of the source: the net of one candidate gross. */
  function NetOf(gross: u64, feeBps: u64): (r: Result<u64, ConversionError>)
  {
    var fb :- ComputeFeeAtBps(gross, feeBps);
    Ok(fb.net)
  }

  /** The largest gross whose net does not exceed `maxNet`. On success the
      answer is the boundary of every gross whose fee computes, and neither
      walk moves (`steps == 0`). It fails on a rate above 100%, when the
      boundary is past u64, and when the fee of the boundary itself does not
      compute. */
  method MaxGrossForNetAtBps(maxNet: u64, feeBps: u64)
    returns (r: Result<u64, ConversionError>, ghost steps: nat)
    ensures feeBps > BPS_DENOMINATOR ==> r == Err(FeeBpsOutOfRange(feeBps, BPS_DENOMINATOR))
    ensures feeBps == BPS_DENOMINATOR ==> r == Ok(0)
    ensures feeBps < BPS_DENOMINATOR ==>
              var e := GrossEstimate(maxNet, feeBps);
              r == if e > U64_MAX then Err(Overflow(maxNet))
                   else if e * feeBps > U64_MAX then Err(Overflow(e))
                   else Ok(e)
    ensures forall max, g: u64 :: r == Ok(max) && feeBps < BPS_DENOMINATOR && NetOf(g, feeBps).Ok? ==>
              (NetOf(g, feeBps).value <= maxNet <==> g <= max)
    ensures r.Ok? ==> steps == 0
  {
    steps := 0;
    if feeBps > BPS_DENOMINATOR {
      return Err(FeeBpsOutOfRange(feeBps, BPS_DENOMINATOR)), steps;
    }
    if maxNet == 0 || feeBps == BPS_DENOMINATOR {
      if feeBps < BPS_DENOMINATOR { BoundaryOfNetOf(maxNet, feeBps); }
      return Ok(0), steps;
    }
    var estimate := (maxNet * BPS_DENOMINATOR) / (BPS_DENOMINATOR - feeBps);
    if estimate > U64_MAX {
      return Err(Overflow(maxNet)), steps;
    }
    var walked;
    walked, steps := WalkDown(maxNet, feeBps, estimate);
    if walked.Err? {
      NetOfOutcome(estimate, feeBps);
      return Err(walked.error), steps;
    }
    assert estimate * feeBps <= U64_MAX by { NetOfOutcome(estimate, feeBps); }
    var gross;
    gross, steps := WalkUp(maxNet, feeBps, walked.value);
    BoundaryOfNetOf(maxNet, feeBps);
    r := Ok(gross);
  }

  /** The first walk: down while the candidate nets too much. */
  method WalkDown(maxNet: u64, feeBps: u64, estimate: u64) returns (r: Result<u64, ConversionError>, ghost steps: nat)
    requires feeBps < BPS_DENOMINATOR && estimate == GrossEstimate(maxNet, feeBps)
    ensures r.Ok? ==> r.value == estimate && steps == 0 && (estimate > 0 ==> NetOf(estimate, feeBps).Ok?)
    ensures r.Err? ==> NetOf(estimate, feeBps) == Err(r.error)
  {
    var gross: u64 := estimate;
    steps := 0;
    while gross > 0
      invariant gross <= estimate && steps == estimate - gross
      invariant gross < estimate ==> NetsMoreThan(gross + 1, feeBps, maxNet)
      decreases gross
    {
      var net := NetOf(gross, feeBps);
      if net.Err? {
        WalkDownStays(maxNet, feeBps, gross);
        return Err(net.error), steps;
      }
      if net.value <= maxNet { break; }
      gross := gross - 1;
      steps := steps + 1;
    }
    WalkDownStays(maxNet, feeBps, gross);
    r := Ok(gross);
  }

  /** The second walk: up while the next candidate still fits. */
  method WalkUp(maxNet: u64, feeBps: u64, estimate: u64) returns (gross: u64, ghost steps: nat)
    requires feeBps < BPS_DENOMINATOR && estimate == GrossEstimate(maxNet, feeBps)
    ensures gross == estimate && steps == 0
  {
    gross, steps := estimate, 0;
    while gross < U64_MAX
      invariant estimate <= gross && steps == gross - estimate
      invariant estimate < gross ==> NetsAtMost(gross, feeBps, maxNet)
      decreases U64_MAX - gross
    {
      var net := NetOf(gross + 1, feeBps);
      if net.Err? || net.value > maxNet { break; }
      gross := gross + 1;
      steps := steps + 1;
    }
    WalkUpStays(maxNet, feeBps, gross);
  }

  predicate NetsMoreThan(gross: u64, feeBps: u64, maxNet: u64)
  {
    NetOf(gross, feeBps).Ok? && NetOf(gross, feeBps).value > maxNet
  }

  predicate NetsAtMost(gross: u64, feeBps: u64, maxNet: u64)
  {
    NetOf(gross, feeBps).Ok? && NetOf(gross, feeBps).value <= maxNet
  }

  /** A walk down that leaves only grosses netting too much has not left the
      estimate. */
  lemma WalkDownStays(maxNet: u64, feeBps: u64, gross: u64)
    requires feeBps < BPS_DENOMINATOR && gross <= GrossEstimate(maxNet, feeBps) <= U64_MAX
    requires gross < GrossEstimate(maxNet, feeBps) ==> NetsMoreThan(gross + 1, feeBps, maxNet)
    ensures gross == GrossEstimate(maxNet, feeBps)
  {
    BoundaryOfNetOf(maxNet, feeBps);
  }

  lemma WalkUpStays(maxNet: u64, feeBps: u64, gross: u64)
    requires feeBps < BPS_DENOMINATOR && GrossEstimate(maxNet, feeBps) <= gross
    requires GrossEstimate(maxNet, feeBps) < gross ==> NetsAtMost(gross, feeBps, maxNet)
    ensures gross == GrossEstimate(maxNet, feeBps)
  {
    BoundaryOfNetOf(maxNet, feeBps);
  }

  lemma NetOfOutcome(gross: u64, feeBps: u64)
    requires feeBps < BPS_DENOMINATOR
    ensures if gross * feeBps > U64_MAX then NetOf(gross, feeBps) == Err(Overflow(gross)) else NetOf(gross, feeBps).Ok?
  {
  }

  lemma BoundaryOfNetOf(maxNet: u64, feeBps: u64)
    requires feeBps < BPS_DENOMINATOR
    ensures forall g: u64 :: NetOf(g, feeBps).Ok? ==>
              (NetOf(g, feeBps).value <= maxNet <==> g <= GrossEstimate(maxNet, feeBps))
  {
    forall g: u64 | NetOf(g, feeBps).Ok?
      ensures NetOf(g, feeBps).value <= maxNet <==> g <= GrossEstimate(maxNet, feeBps)
    {
      FeeMeaning(g, feeBps);
      EstimateIsExact(maxNet, feeBps, g);
    }
  }
}
