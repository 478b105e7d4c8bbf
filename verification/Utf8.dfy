/** UTF-8 as in section 3 of RFC 3629 (surrogates not excluded), and the decoder
    of src/co_utf8.c.  Texts end with their first zero byte. */
module Utf8 {
  import opened Basics

  type Code = c: int | 0 <= c <= 0x10FFFF

  /** The shortest form of a code point. */
  function Encode(c: Code): (s: seq<byte>)
    ensures 1 <= |s| <= 4
  {
    if c < 0x80 then [c]
    else if c < 0x800 then [0xC0 + c / 0x40, 0x80 + c % 0x40]
    else if c < 0x10000 then [0xE0 + c / 0x1000, 0x80 + c / 0x40 % 0x40, 0x80 + c % 0x40]
    else [0xF0 + c / 0x40000, 0x80 + c / 0x1000 % 0x40, 0x80 + c / 0x40 % 0x40, 0x80 + c % 0x40]
  }

  function EncodeAll(cs: seq<Code>): seq<byte> {
    if cs == [] then [] else Encode(cs[0]) + EncodeAll(cs[1..])
  }

  /** The bytes `t` begin with the code point `c`. */
  ghost predicate Starts(t: seq<byte>, c: Code) { Encode(c) <= t }

  ghost predicate Malformed(t: seq<byte>) { forall c: Code :: !Starts(t, c) }

  predicate Continues(b: byte) { 0x80 <= b < 0xC0 }

  // ---- what the first bytes say ------------------------------------------------------

  lemma OneByte(t: seq<byte>, c: Code)
    requires |t| > 0 && t[0] < 0x80
    ensures Starts(t, c) <==> c == t[0]
    ensures Starts(t, c) ==> |Encode(c)| == 1
  {
  }

  lemma NoFirstByte(t: seq<byte>, c: Code)
    requires |t| > 0 && (Continues(t[0]) || t[0] >= 0xF8)
    ensures !Starts(t, c)
  {
  }

  /** The six bits that a continuation byte carries. */
  function Bits(b: byte): (n: nat)
    ensures n < 0x40 && (Continues(b) ==> b == 0x80 + n)
  {
    b % 0x40
  }

  lemma Digits(c: nat, hi: nat, lo: nat)
    requires lo < 0x40
    ensures c == hi * 0x40 + lo <==> c / 0x40 == hi && c % 0x40 == lo
  {
  }

  lemma TwoBytes(t: seq<byte>, c: Code)
    requires |t| > 0 && 0xC0 <= t[0] < 0xE0
    ensures Starts(t, c) <==> |t| >= 2 && Continues(t[1]) && c > 0x7F && c == Two(t[0], t[1])
  {
    if 0x80 <= c < 0x800 && |t| >= 2 {
      var e := Encode(c);
      Digits(c, t[0] - 0xC0, Bits(t[1]));
      assert Starts(t, c) <==> t[0] == e[0] && t[1] == e[1];
    }
  }

  function Two(a: byte, b: byte): nat
    requires a >= 0xC0
  {
    var hi: nat := a - 0xC0;
    hi * 0x40 + Bits(b)
  }

  function Three(a: byte, b: byte, c: byte): nat
    requires a >= 0xE0
  {
    var hi: nat := a - 0xE0;
    (hi * 0x40 + Bits(b)) * 0x40 + Bits(c)
  }

  function Four(a: byte, b: byte, c: byte, d: byte): nat
    requires a >= 0xF0
  {
    var hi: nat := a - 0xF0;
    ((hi * 0x40 + Bits(b)) * 0x40 + Bits(c)) * 0x40 + Bits(d)
  }

  lemma ThreeBytes(t: seq<byte>, c: Code)
    requires |t| > 0 && 0xE0 <= t[0] < 0xF0
    ensures Starts(t, c) <==>
              |t| >= 3 && Continues(t[1]) && Continues(t[2]) && c > 0x7FF && c == Three(t[0], t[1], t[2])
  {
    if 0x800 <= c < 0x10000 && |t| >= 3 {
      var e := Encode(c);
      var hi: nat := t[0] - 0xE0;
      Digits(c / 0x40, hi, Bits(t[1]));
      Digits(c, hi * 0x40 + Bits(t[1]), Bits(t[2]));
      assert c / 0x40 / 0x40 == c / 0x1000;
      assert Starts(t, c) <==> t[0] == e[0] && t[1] == e[1] && t[2] == e[2];
    }
  }

  lemma FourBytes(t: seq<byte>, c: Code)
    requires |t| > 0 && 0xF0 <= t[0] < 0xF8
    ensures Starts(t, c) <==>
              && |t| >= 4 && Continues(t[1]) && Continues(t[2]) && Continues(t[3]) && c > 0xFFFF
              && c == Four(t[0], t[1], t[2], t[3])
  {
    if 0x10000 <= c && |t| >= 4 {
      var e := Encode(c);
      var hi: nat := t[0] - 0xF0;
      Digits(c / 0x1000, hi, Bits(t[1]));
      Digits(c / 0x40, hi * 0x40 + Bits(t[1]), Bits(t[2]));
      Digits(c, (hi * 0x40 + Bits(t[1])) * 0x40 + Bits(t[2]), Bits(t[3]));
      assert c / 0x40 / 0x40 == c / 0x1000 && c / 0x1000 / 0x40 == c / 0x40000;
      assert Starts(t, c) <==> t[0] == e[0] && t[1] == e[1] && t[2] == e[2] && t[3] == e[3];
    }
  }

  /** At most one code point starts a text. */
  lemma StartsOnce(t: seq<byte>, c: Code, d: Code)
    requires Starts(t, c) && Starts(t, d)
    ensures c == d
  {
    var b := t[0];
    if b < 0x80 { OneByte(t, c); OneByte(t, d); }
    else if b < 0xC0 || b >= 0xF8 { NoFirstByte(t, c); }
    else if b < 0xE0 { TwoBytes(t, c); TwoBytes(t, d); }
    else if b < 0xF0 { ThreeBytes(t, c); ThreeBytes(t, d); }
    else { FourBytes(t, c); FourBytes(t, d); }
  }

  // ---- sequences of code points --------------------------------------------------------

  lemma {:induction false} EncodeConcat(a: seq<Code>, b: seq<Code>)
    ensures EncodeAll(a + b) == EncodeAll(a) + EncodeAll(b)
  {
    hide Encode, EncodeAll;
    if a == [] {
      EncodeNothing();
      assert a + b == b;
    } else {
      EncodeConcat(a[1..], b);
      EncodeAllStep(a[0], a[1..]);
      EncodeAllStep(a[0], a[1..] + b);
      assert a == [a[0]] + a[1..] && a + b == [a[0]] + (a[1..] + b);
    }
  }

  lemma EncodeMore(a: seq<Code>, c: Code)
    ensures EncodeAll(a + [c]) == EncodeAll(a) + Encode(c)
  {
    EncodeConcat(a, [c]);
    assert [c][1..] == [];
    assert EncodeAll([c]) == Encode(c) + EncodeAll([]) == Encode(c);
  }

  /** Of two sequences that begin the same text one continues the other. */
  lemma {:induction false} OneContinues(t: seq<byte>, a: seq<Code>, b: seq<Code>)
    requires EncodeAll(a) <= t && EncodeAll(b) <= t
    ensures a <= b || b <= a
  {
    if a != [] && b != [] {
      var n := |Encode(a[0])|;
      assert Encode(a[0]) <= EncodeAll(a) && Encode(b[0]) <= EncodeAll(b);
      StartsOnce(t, a[0], b[0]);
      assert EncodeAll(a)[n..] == EncodeAll(a[1..]) && EncodeAll(b)[n..] == EncodeAll(b[1..]);
      OneContinues(t[n..], a[1..], b[1..]);
      assert a == [a[0]] + a[1..] && b == [b[0]] + b[1..];
    }
  }

  // ---- the decoder -----------------------------------------------------------------------

  /** From place `p` on, `s` is a text up to its only zero byte, at the end of `s`;
      so reading beyond that byte would be out of bounds. */
  ghost predicate Text(s: seq<byte>, p: nat) {
    p < |s| && s[|s| - 1] == 0 && forall i :: p <= i < |s| - 1 ==> s[i] != 0
  }

  const POWERS: seq<nat> := [1, 2, 4, 8, 16, 32, 64, 128]
  const POWERS_OF_32: seq<nat> := [1, 0x20, 0x400, 0x8000]
  const LIMITS: seq<nat> := [0xFF, 0x7F, 0x7FF, 0xFFFF]

  /** What the loop has read: `count` continuation bytes, their bits put together. */
  ghost predicate Reading(t: seq<byte>, count: nat, res: nat, ch: nat) {
    && count <= 7 && count < |t| && t[0] >= 0x80
    && (forall i :: 1 <= i <= count ==> Continues(t[i]))
    && (var first: nat := t[0]; ch == first * POWERS[count])
    && t[0] >= [0x80, 0xC0, 0xE0, 0xF0, 0xF8, 0xFC, 0xFE, 0xFF][count]
    && res == match count
              case 0 => 0
              case 1 => Bits(t[1])
              case 2 => Bits(t[1]) * 0x40 + Bits(t[2])
              case 3 => (Bits(t[1]) * 0x40 + Bits(t[2])) * 0x40 + Bits(t[3])
              case _ => res
  }

  /** The bytes for which the amount of the last shift reaches 35: FF and seven continuation bytes. */
  ghost predicate ShiftsTooFar(t: seq<byte>) {
    |t| >= 8 && t[0] == 0xFF && forall i :: 1 <= i < 8 ==> Continues(t[i])
  }

  /** `coutf8_decode`; `shift` is the amount by which it shifts the bits of the
      first byte when its loop is done, or 0.  Shifts and masks are products, quotients and remainders;
      where bits are or-ed together the lower ones are clear, so it is a sum. */
  method Decode(s: array<byte>, p: nat) returns (next: Option<nat>, code: Code, ghost shift: nat)
    requires Text(s[..], p)
    ensures next.None? <==> Malformed(s[p..])
    ensures forall c: Code :: Starts(s[p..], c) ==> next == Some(p + |Encode(c)|) && code == c
    ensures next.Some? ==> Starts(s[p..], code)
    ensures (shift >= 32 <==> ShiftsTooFar(s[p..])) && (shift >= 32 ==> next.None?)
  {
    hide ShiftsTooFar, Malformed, Starts, Encode;
    shift := 0;
    ghost var t := s[p..];
    MalformedMeans(t);
    NoShift(t);
    forall c: Code, d: Code | Starts(t, c) && Starts(t, d) ensures c == d { StartsOnce(t, c, d); }
    var ch: nat := s[p];
    var res: nat := 0;
    code := 0;
    if ch < 0x80 {
      OneByte(t, ch);
      return Some(p + 1), ch, 0;
    }
    var count: nat := 0;
    while ch / 0x40 % 2 == 1
      invariant Reading(t, count, res, ch)
      decreases 7 - count
    {
      NextByteIsThere(s[..], p, count);
      var cc := s[p + count + 1];
      if cc / 0x40 != 2 {
        NoContinuation(t, count, res, ch);
        return None, 0, 0;
      }
      ReadOn(t, count, res, ch);
      count := count + 1;
      res := res * 0x40 % 0x1_0000_0000 + Bits(cc);
      ch := ch * 2;
    }
    LastShift(t, count, res, ch);
    shift := 5 * count;
    if count > 3 {
      TooLong(t, count, res, ch);
      return None, 0, shift;
    }
    DecodedIs(t, count, res, ch);
    res := res + ch % 0x80 * POWERS_OF_32[count];
    if res > 0x10FFFF || res <= LIMITS[count] {
      return None, 0, shift;
    }
    return Some(p + count + 1), res, shift;
  }

  lemma NextByteIsThere(s: seq<byte>, p: nat, count: nat)
    requires Text(s, p) && p + count < |s| && s[p] >= 0x80 && (forall i :: 1 <= i <= count ==> Continues(s[p..][i]))
    ensures p + count + 1 < |s|
  {
    assert s[p + count] == s[p..][count] != 0;
  }

  lemma NoContinuation(t: seq<byte>, count: nat, res: nat, ch: nat)
    requires Reading(t, count, res, ch) && ch / 0x40 % 2 == 1 && count + 1 < |t| && !Continues(t[count + 1])
    ensures Malformed(t) && !ShiftsTooFar(t)
  {
    forall c: Code ensures !Starts(t, c) { ByFirstByte(t, c); }
  }

  lemma MalformedMeans(t: seq<byte>)
    ensures Malformed(t) <==> forall c: Code :: !Starts(t, c)
  {
  }

  lemma NoShift(t: seq<byte>)
    ensures t != [] && t[0] < 0x80 ==> !ShiftsTooFar(t)
  {
  }

  /** The loop takes seven rounds only behind a first byte FF. */
  lemma LastShift(t: seq<byte>, count: nat, res: nat, ch: nat)
    requires Reading(t, count, res, ch) && ch / 0x40 % 2 == 0
    ensures 5 * count >= 32 <==> ShiftsTooFar(t)
  {
    if count < 7 { AllOnes(count); }
  }

  lemma AllOnes(count: nat)
    requires count < 7
    ensures 0xFF * POWERS[count] / 0x40 % 2 == 1
  {
  }

  lemma ReadOn(t: seq<byte>, count: nat, res: nat, ch: nat)
    requires Reading(t, count, res, ch) && ch / 0x40 % 2 == 1 && count + 1 < |t| && Continues(t[count + 1])
    ensures Reading(t, count + 1, res * 0x40 % 0x1_0000_0000 + Bits(t[count + 1]), ch * 2)
  {
  }

  lemma TooLong(t: seq<byte>, count: nat, res: nat, ch: nat)
    requires Reading(t, count, res, ch) && count > 3
    ensures Malformed(t)
  {
    forall c: Code ensures !Starts(t, c) { NoFirstByte(t, c); }
  }

  lemma ByFirstByte(t: seq<byte>, c: Code)
    requires |t| > 0
    ensures Starts(t, c) ==>
              && (t[0] < 0x80 || 0xC0 <= t[0] < 0xF8) && (t[0] >= 0xC0 ==> |t| >= 2 && Continues(t[1]))
              && (t[0] >= 0xE0 ==> |t| >= 3 && Continues(t[2])) && (t[0] >= 0xF0 ==> |t| >= 4 && Continues(t[3]))
  {
    var b := t[0];
    if b < 0x80 {}
    else if b < 0xC0 || b >= 0xF8 { NoFirstByte(t, c); }
    else if b < 0xE0 { TwoBytes(t, c); }
    else if b < 0xF0 { ThreeBytes(t, c); }
    else { FourBytes(t, c); }
  }

  /** When the loop is done, range and limit decide. */
  lemma DecodedIs(t: seq<byte>, count: nat, res: nat, ch: nat)
    requires Reading(t, count, res, ch) && ch / 0x40 % 2 == 0 && count <= 3
    ensures var v := res + ch % 0x80 * POWERS_OF_32[count];
            if v > 0x10FFFF || v <= LIMITS[count] then Malformed(t) else Starts(t, v) && |Encode(v)| == count + 1
  {
    var v := res + ch % 0x80 * POWERS_OF_32[count];
    PutTogether(t, count, res, ch);
    if count == 0 {
      forall c: Code ensures !Starts(t, c) { NoFirstByte(t, c); }
    } else if count == 1 {
      forall c: Code ensures Starts(t, c) <==> c == v && v > 0x7F { TwoBytes(t, c); }
    } else if count == 2 {
      forall c: Code ensures Starts(t, c) <==> c == v && v > 0x7FF { ThreeBytes(t, c); }
    } else {
      forall c: Code ensures Starts(t, c) <==> c == v && v > 0xFFFF { FourBytes(t, c); }
    }
  }

  /** The sum that the code forms is the number with the bits read as digits. */
  lemma PutTogether(t: seq<byte>, count: nat, res: nat, ch: nat)
    requires Reading(t, count, res, ch) && ch / 0x40 % 2 == 0 && count <= 3
    ensures var v := res + ch % 0x80 * POWERS_OF_32[count];
            match count
            case 0 => t[0] < 0xC0 && v <= 0xFF
            case 1 => 0xC0 <= t[0] < 0xE0 && v == Two(t[0], t[1])
            case 2 => 0xE0 <= t[0] < 0xF0 && v == Three(t[0], t[1], t[2])
            case _ => 0xF0 <= t[0] < 0xF8 && v == Four(t[0], t[1], t[2], t[3])
  {
    var first: nat := t[0];
    assert ch == first * POWERS[count];
    if count == 0 {
      TopBit(1, ch);
    } else if count == 1 {
      TopBit(3, ch);
    } else if count == 2 {
      TopBit(7, ch);
    } else {
      TopBit(15, ch);
    }
  }

  /** Bit 6 is the highest below the multiple of 128. */
  lemma TopBit(q: nat, ch: nat)
    requires q * 0x80 <= ch < q * 0x80 + 0x80 && ch / 0x40 % 2 == 0
    ensures ch < q * 0x80 + 0x40 && ch % 0x80 == ch - q * 0x80
  {
    assert 2 * q <= ch / 0x40 <= 2 * q + 1;
  }

  // ---- a whole text ------------------------------------------------------------------------

  /** The code points up to the end of the text or to the first malformed place. */
  ghost function Codes(t: seq<byte>): seq<Code>
    decreases |t|
  {
    if t == [] || t[0] == 0 || Malformed(t) then []
    else
      var c: Code :| Starts(t, c);
      [c] + Codes(t[|Encode(c)|..])
  }

  lemma CodesStep(t: seq<byte>, c: Code)
    requires Starts(t, c) && t[0] != 0
    ensures Codes(t) == [c] + Codes(t[|Encode(c)|..])
  {
    forall d: Code | Starts(t, d) ensures d == c { StartsOnce(t, c, d); }
  }

  lemma CodesEnd(t: seq<byte>)
    requires t == [] || t[0] == 0 || Malformed(t)
    ensures Codes(t) == []
  {
  }

  lemma EncodesNonzero(c: Code)
    requires c != 0
    ensures 0 !in Encode(c)
  {
  }

  /** `Codes` reads as much as it can, and stops at a zero byte or a malformed place. */
  lemma {:induction false} CodesAre(t: seq<byte>)
    ensures EncodeAll(Codes(t)) <= t && 0 !in Codes(t)
    ensures var rest := t[|EncodeAll(Codes(t))|..]; rest == [] || rest[0] == 0 || Malformed(rest)
    decreases |t|
  {
    if t == [] || t[0] == 0 || Malformed(t) {
      CodesEnd(t);
    } else {
      var c: Code :| Starts(t, c);
      CodesStep(t, c);
      SplitStart(t, c);
      hide Codes, Encode, EncodeAll, Malformed;
      var r := t[|Encode(c)|..];
      CodesAre(r);
      EncodeAllStep(c, Codes(r));
      SplitFurther(t, Encode(c), r, EncodeAll(Codes(r)));
    }
  }

  lemma EncodeAllStep(c: Code, cs: seq<Code>)
    ensures EncodeAll([c] + cs) == Encode(c) + EncodeAll(cs)
  {
    assert ([c] + cs)[1..] == cs;
  }

  lemma SplitStart(t: seq<byte>, c: Code)
    requires Starts(t, c) && t[0] != 0
    ensures c != 0 && t == Encode(c) + t[|Encode(c)|..] && |t[|Encode(c)|..]| < |t|
  {
    assert Encode(c)[0] == t[0];
  }

  lemma SplitFurther(t: seq<byte>, a: seq<byte>, r: seq<byte>, b: seq<byte>)
    requires t == a + r && b <= r
    ensures a + b <= t && t[|a + b|..] == r[|b|..]
  {
  }

  /** Decoding what was encoded gives it back. */
  lemma {:induction false} CodesOfEncoded(cs: seq<Code>, rest: seq<byte>)
    requires 0 !in cs && (rest == [] || rest[0] == 0 || Malformed(rest))
    ensures Codes(EncodeAll(cs) + rest) == cs
  {
    hide Encode, EncodeAll, Codes, Malformed;
    if cs == [] {
      EncodeNothing();
      assert [] + rest == rest;
      CodesEnd(rest);
    } else {
      var t, e, more := EncodeAll(cs) + rest, Encode(cs[0]), EncodeAll(cs[1..]) + rest;
      assert cs == [cs[0]] + cs[1..];
      EncodeAllStep(cs[0], cs[1..]);
      assert t == e + more;
      EncodesNonzero(cs[0]);
      assert e[0] in e && t[0] == e[0];
      CodesStep(t, cs[0]);
      assert t[|e|..] == more;
      CodesOfEncoded(cs[1..], rest);
    }
  }

  lemma EncodeNothing()
    ensures EncodeAll([]) == []
  {
  }

  lemma StepIsText(s: seq<byte>, p: nat, c: Code)
    requires Text(s, p) && s[p] != 0 && Starts(s[p..], c)
    ensures c != 0 && Text(s, p + |Encode(c)|) && s[p..][|Encode(c)|..] == s[p + |Encode(c)|..]
  {
    var n := |Encode(c)|;
    assert Encode(c)[0] == s[p];
    assert c != 0;
    EncodesNonzero(c);
    assert s[p + n - 1] == s[p..][n - 1] == Encode(c)[n - 1];
    assert Encode(c)[n - 1] in Encode(c);
  }

  /** `coutf8_len` */
  method Len(s: array<byte>) returns (count: nat)
    requires Text(s[..], 0)
    ensures count == |Codes(s[..])|
  {
    hide Codes, Encode, Malformed;
    count := 0;
    var p := 0;
    assert s[0..] == s[..];
    while s[p] != 0
      invariant Text(s[..], p) && |Codes(s[..])| == count + |Codes(s[p..])|
      decreases s.Length - p
    {
      assert s[..][p..] == s[p..];
      var next, code;
      ghost var shift;
      next, code, shift := Decode(s, p);
      if next.None? {
        break;
      }
      CodesStep(s[p..], code);
      StepIsText(s[..], p, code);
      p := next.value;
      count := count + 1;
      assert s[..][p..] == s[p..];
    }
    CodesEnd(s[p..]);
  }
}
