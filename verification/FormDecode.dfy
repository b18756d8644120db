/** Form-value decoding of the audit filters (`percent_decode` in
    service/src/admin_api.rs), on bytes, against the encodings it inverts
    (section 2.1 of RFC 3986, with `+` for a space). */
module FormDecode {
  import opened Numbers

  type Bytes = seq<u8>

  const SPACE: u8 := 0x20
  const PLUS: u8 := 0x2B
  const PERCENT: u8 := 0x25

  datatype DecodeError = MalformedEscape | NotUtf8

  /** The value of an ASCII hexadecimal digit of either case. */
  function HexDigit(b: u8): (v: Option<u8>)
    ensures v.Some? ==> v.value < 16
  {
    if 0x30 <= b <= 0x39 then Some(b - 0x30)
    else if 0x41 <= b <= 0x46 then Some(b - 0x41 + 10)
    else if 0x61 <= b <= 0x66 then Some(b - 0x61 + 10)
    else None
  }

  /** The two bytes after a `%`, read as the platform's unsigned base-16 parser
      reads them: it also takes a leading plus sign. */
  function HexPair(hi: u8, lo: u8): (v: Option<u8>)
  {
    if HexDigit(lo).None? then None
    else if HexDigit(hi).Some? then Some(HexDigit(hi).value * 16 + HexDigit(lo).value)
    else if hi == PLUS then HexDigit(lo)
    else None
  }

  /** The decoded bytes, or nothing at a malformed escape. */
  function Unescape(value: Bytes): (r: Option<Bytes>)
    decreases |value|
  {
    if value == [] then Some([])
    else if value[0] == PERCENT then
      if |value| < 3 || HexPair(value[1], value[2]).None? then None
      else Prepend(HexPair(value[1], value[2]).value, Unescape(value[3..]))
    else Prepend(if value[0] == PLUS then SPACE else value[0], Unescape(value[1..]))
  }

  function Prepend(b: u8, rest: Option<Bytes>): (r: Option<Bytes>)
  {
    if rest.Some? then Some([b] + rest.value) else None
  }

  /** Well-formed UTF-8: Table 3-7 of the Unicode Standard. */
  predicate ValidUtf8(s: Bytes)
    decreases |s|
  {
    if s == [] then true
    else if s[0] < 0x80 then ValidUtf8(s[1..])
    else if 0xC2 <= s[0] <= 0xDF then |s| >= 2 && Tail(s[1]) && ValidUtf8(s[2..])
    else if 0xE0 <= s[0] <= 0xEF then
      && |s| >= 3 && Tail(s[1]) && Tail(s[2])
      && (s[0] == 0xE0 ==> s[1] >= 0xA0) && (s[0] == 0xED ==> s[1] <= 0x9F) && ValidUtf8(s[3..])
    else if 0xF0 <= s[0] <= 0xF4 then
      && |s| >= 4 && Tail(s[1]) && Tail(s[2]) && Tail(s[3])
      && (s[0] == 0xF0 ==> s[1] >= 0x90) && (s[0] == 0xF4 ==> s[1] <= 0x8F) && ValidUtf8(s[4..])
    else false
  }

  predicate Tail(b: u8)
  {
    0x80 <= b <= 0xBF
  }

  // ---------------------------------------------- what UTF-8 validity means

  /** A Unicode scalar value: a code point that is not a surrogate. */
  predicate IsScalar(c: int)
  {
    0 <= c <= 0x10FFFF && !(0xD800 <= c <= 0xDFFF)
  }

  function EncodeScalar(c: int): (s: Bytes)
    requires IsScalar(c)
    ensures |s| >= 1
  {
    if c < 0x80 then [c]
    else if c < 0x800 then [0xC0 + c / 64, 0x80 + c % 64]
    else if c < 0x1_0000 then [0xE0 + c / 4096, 0x80 + c / 64 % 64, 0x80 + c % 64]
    else [0xF0 + c / 262_144, 0x80 + c / 4096 % 64, 0x80 + c / 64 % 64, 0x80 + c % 64]
  }

  predicate IsText(text: seq<int>)
  {
    forall i :: 0 <= i < |text| ==> IsScalar(text[i])
  }

  function EncodeText(text: seq<int>): (s: Bytes)
    requires IsText(text)
  {
    if text == [] then [] else EncodeScalar(text[0]) + EncodeText(text[1..])
  }

  /** One encoded scalar in front does not change validity. */
  lemma ScalarInFront(c: int, rest: Bytes)
    requires IsScalar(c)
    ensures ValidUtf8(EncodeScalar(c) + rest) <==> ValidUtf8(rest)
  {
    var s := EncodeScalar(c) + rest;
    assert s[|EncodeScalar(c)|..] == rest;
  }

  lemma {:induction false} TextIsValid(text: seq<int>)
    requires IsText(text)
    ensures ValidUtf8(EncodeText(text))
  {
    if text != [] {
      TextIsValid(text[1..]);
      ScalarInFront(text[0], EncodeText(text[1..]));
    }
  }

  /** The scalar of a two-byte form; its parts are the bytes again. */
  lemma TwoBytes(a: int, b: int) returns (c: int)
    requires 0xC2 <= a <= 0xDF && 0x80 <= b <= 0xBF
    ensures IsScalar(c) && 0x80 <= c < 0x800 && c / 64 == a - 0xC0 && c % 64 == b - 0x80
  {
    c := (a - 0xC0) * 64 + (b - 0x80);
  }

  lemma ThreeBytes(a: int, b: int, x: int) returns (c: int)
    requires 0xE0 <= a <= 0xEF && 0x80 <= b <= 0xBF && 0x80 <= x <= 0xBF
    requires (a == 0xE0 ==> b >= 0xA0) && (a == 0xED ==> b <= 0x9F)
    ensures IsScalar(c) && 0x800 <= c < 0x1_0000
    ensures c / 4096 == a - 0xE0 && c / 64 % 64 == b - 0x80 && c % 64 == x - 0x80
  {
    var high := (a - 0xE0) * 64 + (b - 0x80);
    c := high * 64 + (x - 0x80);
    assert c / 64 == high && high / 64 == a - 0xE0 && high % 64 == b - 0x80;
  }

  lemma FourBytes(a: int, b: int, x: int, y: int) returns (c: int)
    requires 0xF0 <= a <= 0xF4 && 0x80 <= b <= 0xBF && 0x80 <= x <= 0xBF && 0x80 <= y <= 0xBF
    requires (a == 0xF0 ==> b >= 0x90) && (a == 0xF4 ==> b <= 0x8F)
    ensures IsScalar(c) && 0x1_0000 <= c
    ensures c / 262_144 == a - 0xF0 && c / 4096 % 64 == b - 0x80 && c / 64 % 64 == x - 0x80 && c % 64 == y - 0x80
  {
    var top := (a - 0xF0) * 64 + (b - 0x80);
    var high := top * 64 + (x - 0x80);
    c := high * 64 + (y - 0x80);
    assert c / 64 == high && c / 4096 == top;
    assert high % 64 == x - 0x80 && top / 64 == a - 0xF0 && top % 64 == b - 0x80;
  }

  /** The scalar a valid string starts with. */
  lemma FirstScalar(s: Bytes) returns (c: int, n: nat)
    requires s != [] && ValidUtf8(s)
    ensures IsScalar(c) && 1 <= n <= |s| && s[..n] == EncodeScalar(c) && ValidUtf8(s[n..])
  {
    if s[0] < 0x80 {
      c, n := s[0], 1;
    } else if s[0] <= 0xDF {
      n := 2;
      c := TwoBytes(s[0], s[1]);
    } else if s[0] <= 0xEF {
      n := 3;
      c := ThreeBytes(s[0], s[1], s[2]);
    } else {
      n := 4;
      c := FourBytes(s[0], s[1], s[2], s[3]);
    }
  }

  lemma {:induction false} ValidIsText(s: Bytes) returns (text: seq<int>)
    requires ValidUtf8(s)
    ensures IsText(text) && EncodeText(text) == s
    decreases |s|
  {
    if s == [] {
      text := [];
    } else {
      var c, n := FirstScalar(s);
      var rest := ValidIsText(s[n..]);
      text := [c] + rest;
      assert text[1..] == rest && s == s[..n] + s[n..];
    }
  }

  /** A byte string is accepted exactly when it encodes a sequence of Unicode
      scalar values. */
  lemma ValidIffText(s: Bytes)
    ensures ValidUtf8(s) <==> exists text :: IsText(text) && EncodeText(text) == s
  {
    if ValidUtf8(s) { var text := ValidIsText(s); }
    forall text | IsText(text) && EncodeText(text) == s ensures ValidUtf8(s) { TextIsValid(text); }
  }

  /** The decode loop. */
  method PercentDecode(value: Bytes) returns (r: Result<Bytes, DecodeError>)
    ensures r == match Unescape(value)
                 case None => Err(MalformedEscape)
                 case Some(out) => if ValidUtf8(out) then Ok(out) else Err(NotUtf8)
    ensures r.Ok? ==> |r.value| <= |value|
  {
    var out: Bytes := [];
    var i := 0;
    assert value[0..] == value;
    PrependNothing(Unescape(value));
    while i < |value|
      invariant 0 <= i <= |value| && |out| <= i
      invariant Unescape(value) == PrependAll(out, Unescape(value[i..]))
    {
      var rest := value[i..];
      if value[i] == PLUS {
        assert rest[1..] == value[i + 1..];
        PrependAllSnoc(out, SPACE, Unescape(value[i + 1..]));
        out := out + [SPACE];
        i := i + 1;
      } else if value[i] == PERCENT {
        if i + 3 > |value| { return Err(MalformedEscape); }
        var hex := HexPair(value[i + 1], value[i + 2]);
        if hex.None? { return Err(MalformedEscape); }
        assert rest[3..] == value[i + 3..];
        PrependAllSnoc(out, hex.value, Unescape(value[i + 3..]));
        out := out + [hex.value];
        i := i + 3;
      } else {
        assert rest[1..] == value[i + 1..];
        PrependAllSnoc(out, value[i], Unescape(value[i + 1..]));
        out := out + [value[i]];
        i := i + 1;
      }
    }
    assert out + [] == out;
    r := if ValidUtf8(out) then Ok(out) else Err(NotUtf8);
  }

  function PrependAll(out: Bytes, rest: Option<Bytes>): (r: Option<Bytes>)
  {
    if rest.Some? then Some(out + rest.value) else None
  }

  lemma PrependNothing(rest: Option<Bytes>)
    ensures PrependAll([], rest) == rest
  {
    if rest.Some? { assert [] + rest.value == rest.value; }
  }

  lemma PrependAllSnoc(out: Bytes, b: u8, rest: Option<Bytes>)
    ensures PrependAll(out, Prepend(b, rest)) == PrependAll(out + [b], rest)
  {
    if rest.Some? { assert out + ([b] + rest.value) == out + [b] + rest.value; }
  }

  // ------------------------------------------------------------ encodings

  /** How one byte is spelled. `Signed` is the spelling no encoder writes, which
      the decoder accepts all the same. */
  datatype Spelling = Literal | Plus | Escaped(upperHi: bool, upperLo: bool) | Signed(upper: bool)

  predicate Spells(how: Spelling, b: u8)
  {
    match how
    case Literal => b != PLUS && b != PERCENT
    case Plus => b == SPACE
    case Escaped(_, _) => true
    case Signed(_) => b < 16
  }

  function Digit(v: u8, upper: bool): (b: u8)
    requires v < 16
    ensures HexDigit(b) == Some(v)
  {
    if v < 10 then 0x30 + v else if upper then 0x41 + v - 10 else 0x61 + v - 10
  }

  /** The digits and signs are the ASCII ones. */
  lemma AsciiSpelling(v: u8)
    requires v < 16
    ensures Digit(v, false) == "0123456789abcdef"[v] as int && Digit(v, true) == "0123456789ABCDEF"[v] as int
    ensures SPACE == ' ' as int && PLUS == '+' as int && PERCENT == '%' as int
  {
  }

  function Spell(how: Spelling, b: u8): (s: Bytes)
    requires Spells(how, b)
    ensures |s| >= 1
  {
    match how
    case Literal => [b]
    case Plus => [PLUS]
    case Escaped(upperHi, upperLo) => [PERCENT, Digit(b / 16, upperHi), Digit(b % 16, upperLo)]
    case Signed(upper) => [PERCENT, PLUS, Digit(b, upper)]
  }

  predicate Spellable(bytes: Bytes, how: seq<Spelling>)
  {
    |how| == |bytes| && forall i :: 0 <= i < |bytes| ==> Spells(how[i], bytes[i])
  }

  function Encode(bytes: Bytes, how: seq<Spelling>): (value: Bytes)
    requires Spellable(bytes, how)
  {
    if bytes == [] then [] else Spell(how[0], bytes[0]) + Encode(bytes[1..], how[1..])
  }

  /** Decoding one spelled byte in front of anything. */
  lemma UnescapeSpelled(how: Spelling, b: u8, rest: Bytes)
    requires Spells(how, b)
    ensures Unescape(Spell(how, b) + rest) == Prepend(b, Unescape(rest))
  {
    var value := Spell(how, b) + rest;
    assert value[|Spell(how, b)|..] == rest;
  }

  /** Every byte string, in every per-byte choice of spelling, decodes to
      itself. */
  lemma {:induction false} DecodeInvertsEncode(bytes: Bytes, how: seq<Spelling>)
    requires Spellable(bytes, how)
    ensures Unescape(Encode(bytes, how)) == Some(bytes)
  {
    if bytes != [] {
      UnescapeSpelled(how[0], bytes[0], Encode(bytes[1..], how[1..]));
      DecodeInvertsEncode(bytes[1..], how[1..]);
      assert [bytes[0]] + bytes[1..] == bytes;
    }
  }

  predicate SignedAt(value: Bytes, i: nat)
  {
    i + 1 < |value| && value[i] == PERCENT && value[i + 1] == PLUS
  }

  /** The adjacent bytes a caller can look for: a percent sign, a plus sign. */
  predicate HasSignedEscape(value: Bytes)
  {
    exists i: nat | i < |value| :: SignedAt(value, i)
  }

  predicate Standard(how: seq<Spelling>)
  {
    forall i :: 0 <= i < |how| ==> !how[i].Signed?
  }

  lemma DigitOfHex(b: u8)
    requires HexDigit(b).Some?
    ensures Digit(HexDigit(b).value, b < 0x61) == b
  {
  }

  lemma Nibbles(hi: u8, lo: u8)
    requires hi < 16 && lo < 16
    ensures (hi * 16 + lo) / 16 == hi && (hi * 16 + lo) % 16 == lo
  {
  }

  lemma EncodeOneMore(first: Spelling, b: u8, how: seq<Spelling>, bytes: Bytes)
    requires Spells(first, b) && Spellable(bytes, how)
    ensures Spellable([b] + bytes, [first] + how)
    ensures Encode([b] + bytes, [first] + how) == Spell(first, b) + Encode(bytes, how)
  {
    assert ([b] + bytes)[1..] == bytes && ([first] + how)[1..] == how;
  }

  lemma SignedInTail(value: Bytes, n: nat)
    requires n <= |value| && HasSignedEscape(value[n..])
    ensures HasSignedEscape(value)
  {
    var i: nat :| i < |value[n..]| && SignedAt(value[n..], i);
    assert value[n..][i + 1] == value[n + i + 1];
    assert SignedAt(value, n + i);
  }

  /** How the decoder read the first byte. */
  lemma SpellingOfFirst(value: Bytes) returns (how: Spelling, b: u8, n: nat)
    requires value != [] && Unescape(value).Some?
    ensures Spells(how, b) && n <= |value| && value[..n] == Spell(how, b)
    ensures Unescape(value[n..]).Some? && Unescape(value) == Some([b] + Unescape(value[n..]).value)
    ensures how.Signed? ==> SignedAt(value, 0)
  {
    if value[0] == PLUS {
      how, b, n := Plus, SPACE, 1;
    } else if value[0] == PERCENT {
      var hi, lo := value[1], value[2];
      b, n := HexPair(hi, lo).value, 3;
      DigitOfHex(lo);
      if hi == PLUS {
        how := Signed(lo < 0x61);
      } else {
        DigitOfHex(hi);
        Nibbles(HexDigit(hi).value, HexDigit(lo).value);
        how := Escaped(hi < 0x61, lo < 0x61);
      }
    } else {
      how, b, n := Literal, value[0], 1;
    }
  }

  /** And nothing else decodes: whatever is accepted is some spelling of its
      result. */
  lemma {:induction false} DecodedIsSpelled(value: Bytes) returns (how: seq<Spelling>)
    requires Unescape(value).Some?
    ensures Spellable(Unescape(value).value, how) && Encode(Unescape(value).value, how) == value
    ensures !HasSignedEscape(value) ==> Standard(how)
    decreases |value|
  {
    if value == [] {
      how := [];
    } else {
      var first, b, n := SpellingOfFirst(value);
      assert n >= 1 by { assert |value[..n]| == n; }
      var rest := DecodedIsSpelled(value[n..]);
      how := [first] + rest;
      EncodeOneMore(first, b, rest, Unescape(value[n..]).value);
      assert value == value[..n] + value[n..];
      if HasSignedEscape(value[n..]) { SignedInTail(value, n); }
    }
  }

  /** The decoder accepts exactly the spellings, and returns what they spell. */
  lemma DecodesIffSpelled(value: Bytes, bytes: Bytes)
    ensures Unescape(value) == Some(bytes) <==> exists how :: Spellable(bytes, how) && Encode(bytes, how) == value
  {
    if Unescape(value) == Some(bytes) { var how := DecodedIsSpelled(value); }
    forall how | Spellable(bytes, how) && Encode(bytes, how) == value ensures Unescape(value) == Some(bytes) {
      DecodeInvertsEncode(bytes, how);
    }
  }

  lemma {:induction false} StandardHasNoSignedEscape(bytes: Bytes, how: seq<Spelling>)
    requires Spellable(bytes, how) && Standard(how)
    ensures !HasSignedEscape(Encode(bytes, how))
  {
    if bytes != [] {
      var first, rest := Spell(how[0], bytes[0]), Encode(bytes[1..], how[1..]);
      StandardHasNoSignedEscape(bytes[1..], how[1..]);
      forall i: nat ensures !SignedAt(first + rest, i) {
        assert i >= |first| ==> !SignedAt(rest, i - |first|);
      }
    }
  }

  /** The one departure from RFC 3986 is a signed escape such as `%+5`. The
      decoder agrees with the standard spellings exactly on the values that
      hold no percent sign followed by a plus sign. */
  lemma StandardIffNoSignedEscape(value: Bytes, bytes: Bytes)
    ensures (exists how :: Spellable(bytes, how) && Standard(how) && Encode(bytes, how) == value)
            <==> Unescape(value) == Some(bytes) && !HasSignedEscape(value)
  {
    if Unescape(value) == Some(bytes) { var how := DecodedIsSpelled(value); }
    forall how | Spellable(bytes, how) && Standard(how) && Encode(bytes, how) == value
      ensures Unescape(value) == Some(bytes) && !HasSignedEscape(value)
    {
      DecodeInvertsEncode(bytes, how);
      StandardHasNoSignedEscape(bytes, how);
    }
  }

  lemma SignedEscapeAccepted()
    ensures Unescape([PERCENT, PLUS, 0x35]) == Some([5])
  {
    UnescapeSpelled(Signed(true), 5, []);
    assert Spell(Signed(true), 5) + [] == [PERCENT, PLUS, 0x35];
    var none: Bytes := [];
    assert Unescape(none) == Some(none) && [5] + none == [5];
  }
}
