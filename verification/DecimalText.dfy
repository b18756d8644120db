/** Decimal integers as text: what the service writes, and exactly what its
    integer parsers accept (the cursors and limits of service/src/api.rs). */
module DecimalText {
  import opened Numbers

  predicate IsDigit(c: char)
  {
    '0' <= c <= '9'
  }

  function DigitChar(d: nat): (c: char)
    requires d < 10
    ensures IsDigit(c) && c as int - '0' as int == d
  {
    '0' + d as char
  }

  function ShowNat(n: nat): (s: string)
    ensures |s| >= 1 && IsDigit(s[0])
  {
    if n < 10 then [DigitChar(n)] else ShowNat(n / 10) + [DigitChar(n % 10)]
  }

  function Show(n: int): (s: string)
  {
    if n < 0 then "-" + ShowNat(-n) else ShowNat(n)
  }

  function ParseNat(s: string): (v: Option<nat>)
  {
    if s == [] || !IsDigit(s[|s| - 1]) then None
    else
      var d := s[|s| - 1] as int - '0' as int;
      if |s| == 1 then Some(d)
      else
        match ParseNat(s[..|s| - 1])
        case None => None
        case Some(v) => Some(v * 10 + d)
  }

  /** A signed decimal with an optional sign of either kind. */
  function ParseI64(s: string): (v: Option<i64>)
  {
    var negative := s != [] && s[0] == '-';
    var digits := if negative || (s != [] && s[0] == '+') then s[1..] else s;
    match ParseNat(digits)
    case None => None
    case Some(n) =>
      var signed := if negative then 0 - n else n;
      if I64_MIN <= signed <= I64_MAX then Some(signed) else None
  }

  /** An unsigned decimal with an optional plus sign. */
  function ParseU32(s: string): (v: Option<u32>)
  {
    match ParseNat(if s != [] && s[0] == '+' then s[1..] else s)
    case None => None
    case Some(n) => if n <= 0xFFFF_FFFF then Some(n) else None
  }

  lemma {:induction false} ParseNatInvertsShow(n: nat)
    ensures ParseNat(ShowNat(n)) == Some(n)
  {
    if n >= 10 {
      ParseNatInvertsShow(n / 10);
      assert ShowNat(n)[..|ShowNat(n)| - 1] == ShowNat(n / 10);
    }
  }

  function Zeros(k: nat): (s: string)
    ensures |s| == k
  {
    seq(k, _ => '0')
  }

  lemma ParseSnoc(s: string, c: char)
    ensures ParseNat(s + [c]) ==
            if !IsDigit(c) then None
            else if s == [] then Some(c as int - '0' as int)
            else match ParseNat(s)
                 case None => None
                 case Some(v) => Some(v * 10 + (c as int - '0' as int))
  {
    assert (s + [c])[..|s|] == s;
  }

  lemma {:induction false} ZerosParse(k: nat)
    requires k >= 1
    ensures ParseNat(Zeros(k)) == Some(0)
  {
    assert Zeros(k) == Zeros(k - 1) + ['0'];
    ParseSnoc(Zeros(k - 1), '0');
    if k > 1 { ZerosParse(k - 1); }
  }

  lemma Regroup(a: string, b: string, c: char)
    ensures a + (b + [c]) == a + b + [c]
  {
  }

  lemma PaddedDigit(k: nat, d: nat)
    requires d < 10
    ensures ParseNat(Zeros(k) + [DigitChar(d)]) == Some(d)
  {
    if k > 0 { ZerosParse(k); }
    ParseSnoc(Zeros(k), DigitChar(d));
  }

  lemma ParseOneMore(s: string, v: nat, d: nat)
    requires s != [] && ParseNat(s) == Some(v) && d < 10
    ensures ParseNat(s + [DigitChar(d)]) == Some(v * 10 + d)
  {
    ParseSnoc(s, DigitChar(d));
  }

  lemma {:induction false} PaddedParses(k: nat, n: nat)
    ensures ParseNat(Zeros(k) + ShowNat(n)) == Some(n)
  {
    if n < 10 {
      PaddedDigit(k, n);
    } else {
      PaddedParses(k, n / 10);
      ParseOneMore(Zeros(k) + ShowNat(n / 10), n / 10, n % 10);
      Regroup(Zeros(k), ShowNat(n / 10), DigitChar(n % 10));
    }
  }

  /** Whatever parses is a decimal with leading zeros. */
  lemma {:induction false} ParsedIsPadded(s: string, n: nat) returns (k: nat)
    requires ParseNat(s) == Some(n)
    ensures s == Zeros(k) + ShowNat(n)
    decreases |s|
  {
    var init, last := s[..|s| - 1], s[|s| - 1];
    var d: nat := last as int - '0' as int;
    assert s == init + [last] && last == DigitChar(d);
    if init == [] {
      k := 0;
      assert Zeros(0) == [];
    } else {
      var v := ParseNat(init).value;
      k := ParsedIsPadded(init, v);
      if v == 0 {
        assert Zeros(k + 1) == Zeros(k) + ShowNat(0);
        k := k + 1;
      } else {
        PaddedStep(k, v, d);
      }
    }
  }

  lemma PaddedStep(k: nat, v: nat, d: nat)
    requires v > 0 && d < 10
    ensures Zeros(k) + ShowNat(v * 10 + d) == Zeros(k) + ShowNat(v) + [DigitChar(d)]
  {
    assert (v * 10 + d) / 10 == v && (v * 10 + d) % 10 == d;
    Regroup(Zeros(k), ShowNat(v), DigitChar(d));
  }

  /** The unsigned decimals: a value and any number of leading zeros. */
  ghost predicate Spells(s: string, n: nat)
  {
    exists k: nat :: s == Zeros(k) + ShowNat(n)
  }

  lemma ParseNatIff(s: string, n: nat)
    ensures ParseNat(s) == Some(n) <==> Spells(s, n)
  {
    if ParseNat(s) == Some(n) { var k := ParsedIsPadded(s, n); }
    forall k: nat | s == Zeros(k) + ShowNat(n) ensures ParseNat(s) == Some(n) { PaddedParses(k, n); }
  }

  /** `s` is a decimal spelling of `v`: digits, with an optional sign in front. */
  ghost predicate SpellsSigned(s: string, v: int)
  {
    || (v >= 0 && (Spells(s, v) || (s != [] && s[0] == '+' && Spells(s[1..], v))))
    || (v <= 0 && s != [] && s[0] == '-' && Spells(s[1..], 0 - v))
  }

  lemma NoSignInDigits(s: string, n: nat)
    requires Spells(s, n)
    ensures s != [] && IsDigit(s[0])
  {
    var k: nat :| s == Zeros(k) + ShowNat(n);
  }

  lemma ParseI64Iff(s: string, v: i64)
    ensures ParseI64(s) == Some(v) <==> SpellsSigned(s, v)
  {
    var magnitude: nat := if v < 0 then 0 - v else v;
    ParseNatIff(s, magnitude);
    if Spells(s, magnitude) { NoSignInDigits(s, magnitude); }
    if s != [] {
      ParseNatIff(s[1..], magnitude);
    }
  }

  lemma ParseU32Iff(s: string, n: u32)
    ensures ParseU32(s) == Some(n) <==> Spells(s, n) || (s != [] && s[0] == '+' && Spells(s[1..], n))
  {
    ParseNatIff(s, n);
    if Spells(s, n) { NoSignInDigits(s, n); }
    if s != [] { ParseNatIff(s[1..], n); }
  }
}
