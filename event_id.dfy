/** The event identifier: 16 random bytes, with the version nibble set to
    4 and the variant bits to `10`, written as 32 lowercase hexadecimal
    digits (a version 4 UUID without its dashes). The random source is a
    parameter: the bytes it would have produced. */
module EventId {
  import opened Js

  /** An element of a `Uint8Array`. */
  type Byte = x: int | 0 <= x < 256

  /** `a & b` on non-negative integers, bit by bit from the lowest. */
  function BitAnd(a: nat, b: nat): (r: nat)
    ensures r <= a && r <= b
    decreases a
  {
    if a == 0 || b == 0 then 0
    else 2 * BitAnd(a / 2, b / 2) + (if a % 2 == 1 && b % 2 == 1 then 1 else 0)
  }

  /** `a | b` on non-negative integers, bit by bit from the lowest. */
  function BitOr(a: nat, b: nat): (r: nat)
    ensures a <= r && b <= r && r <= a + b
    decreases a
  {
    if a == 0 then b
    else if b == 0 then a
    else 2 * BitOr(a / 2, b / 2) + (if a % 2 == 1 || b % 2 == 1 then 1 else 0)
  }

  predicate IsLowerHex(c: char)
  {
    '0' <= c <= '9' || 'a' <= c <= 'f'
  }

  /** The digit for `d` in base 16, as `Number.prototype.toString(16)`
      writes it. */
  function HexDigit(d: int): (c: char)
    requires 0 <= d < 16
    ensures IsLowerHex(c)
  {
    if d < 10 then ('0' as int + d) as char else ('a' as int + d - 10) as char
  }

  /** The value of a lowercase hexadecimal digit. */
  function HexValue(c: char): (d: int)
    requires IsLowerHex(c)
    ensures 0 <= d < 16 && HexDigit(d) == c
  {
    if c <= '9' then c as int - '0' as int else c as int - 'a' as int + 10
  }

  /** `n.toString(16)` for a non-negative integer: its base-16 digits, most
      significant first, without leading zeros. */
  function ToHex(n: nat): (s: string)
    ensures |s| >= 1 && (|s| == 1 <==> n < 16)
    ensures |s| > 1 ==> s[0] != '0'
    decreases n
  {
    if n < 16 then [HexDigit(n)] else ToHex(n / 16) + [HexDigit(n % 16)]
  }

  /** `s.slice(-n)` for `n >= 1`: the last `n` characters, or all of a
      shorter string. (`slice(-0)` would keep the whole string.) */
  function SliceLast(s: string, n: nat): (r: string)
    requires 1 <= n
    ensures |r| == if |s| <= n then |s| else n
    ensures r == s[|s| - |r|..]
  {
    if |s| <= n then s else s[|s| - n..]
  }

  /** `('0' + b.toString(16)).slice(-2)`. */
  function ByteHex(b: Byte): (h: string)
    ensures |h| == 2
    ensures b < 16 ==> h[0] == '0'
  {
    SliceLast("0" + ToHex(b), 2)
  }

  /** The padding does its job: two digits, high nibble first, for every
      byte. */
  lemma ByteHexDigits(b: Byte)
    ensures ByteHex(b) == [HexDigit(b / 16), HexDigit(b % 16)]
  {
    if b >= 16 {
      assert ToHex(b / 16) == [HexDigit(b / 16)];
    }
  }

  /** `[...bytes].map(ByteHex).join('')`. */
  function HexOf(bytes: seq<Byte>): (s: string)
    ensures |s| == 2 * |bytes|
    ensures forall i | 0 <= i < |bytes| ::
      s[2 * i] == HexDigit(bytes[i] / 16) && s[2 * i + 1] == HexDigit(bytes[i] % 16)
  {
    if bytes == [] then ""
    else
      ByteHexDigits(bytes[0]);
      ByteHex(bytes[0]) + HexOf(bytes[1..])
  }

  /** Reading the digits back; `None` for an odd length or a character
      that is not a lowercase hexadecimal digit. */
  function DecodeHex(s: string): (r: Option<seq<Byte>>)
    ensures r.Some? ==> 2 * |r.value| == |s|
    decreases |s|
  {
    if s == [] then Some([])
    else if |s| == 1 || !IsLowerHex(s[0]) || !IsLowerHex(s[1]) then None
    else
      match DecodeHex(s[2..])
      case None => None
      case Some(rest) => Some([HexValue(s[0]) * 16 + HexValue(s[1])] + rest)
  }

  lemma HexValueOfDigit(d: int)
    requires 0 <= d < 16
    ensures HexValue(HexDigit(d)) == d
  {
  }

  /** Decoding the hexadecimal form restores the bytes. */
  lemma {:induction false} DecodeHexOf(bytes: seq<Byte>)
    ensures DecodeHex(HexOf(bytes)) == Some(bytes)
    decreases |bytes|
  {
    if bytes != [] {
      var s := HexOf(bytes);
      ByteHexDigits(bytes[0]);
      assert s == ByteHex(bytes[0]) + HexOf(bytes[1..]);
      assert s[2..] == HexOf(bytes[1..]);
      HexValueOfDigit(bytes[0] / 16);
      HexValueOfDigit(bytes[0] % 16);
      DecodeHexOf(bytes[1..]);
      assert [bytes[0]] + bytes[1..] == bytes;
    }
  }

  /** Whatever decodes is the hexadecimal form of what it decodes to: the
      form is unique. */
  lemma {:induction false} HexOfDecode(s: string)
    requires DecodeHex(s).Some?
    ensures HexOf(DecodeHex(s).value) == s
    decreases |s|
  {
    if s != [] {
      var rest := DecodeHex(s[2..]).value;
      var b: Byte := HexValue(s[0]) * 16 + HexValue(s[1]);
      assert DecodeHex(s).value == [b] + rest;
      HexOfDecode(s[2..]);
      ByteHexDigits(b);
      assert ByteHex(b) == s[..2];
      assert ([b] + rest)[1..] == rest;
      assert HexOf([b] + rest) == ByteHex(b) + HexOf(rest);
      assert s == s[..2] + s[2..];
    }
  }

  /** `(b & 0x0f) | 0x40`: version 4 in the high nibble. */
  function Version4(b: Byte): (r: Byte)
    ensures r == 0x40 + b % 16
  {
    AndFifteen(b);
    assert Pow2(6) == 0x40;
    OrHighBit(b % 16, 6);
    BitOr(BitAnd(b, 0x0f), 0x40)
  }

  /** `(b & 0x3f) | 0x80`: the variant bits `10`. */
  function Variant1(b: Byte): (r: Byte)
    ensures r == 0x80 + b % 64
  {
    AndSixtyThree(b);
    assert Pow2(7) == 0x80;
    OrHighBit(b % 64, 7);
    BitOr(BitAnd(b, 0x3f), 0x80)
  }

  /** One step of `BitAnd` against an odd mask. */
  lemma AndOddStep(a: nat, m: nat)
    requires a > 0 && m % 2 == 1
    ensures BitAnd(a, m) == 2 * BitAnd(a / 2, m / 2) + a % 2
  {
  }

  lemma AndOne(a: nat)
    ensures BitAnd(a, 1) == a % 2
  {
    if a > 0 {
      AndOddStep(a, 1);
    }
  }

  lemma ModHalf4(a: nat)
    ensures a % 4 == 2 * ((a / 2) % 2) + a % 2
  {
  }

  lemma ModHalf8(a: nat)
    ensures a % 8 == 2 * ((a / 2) % 4) + a % 2
  {
  }

  lemma ModHalf16(a: nat)
    ensures a % 16 == 2 * ((a / 2) % 8) + a % 2
  {
  }

  lemma ModHalf32(a: nat)
    ensures a % 32 == 2 * ((a / 2) % 16) + a % 2
  {
  }

  lemma ModHalf64(a: nat)
    ensures a % 64 == 2 * ((a / 2) % 32) + a % 2
  {
  }

  lemma AndThree(a: nat)
    ensures BitAnd(a, 3) == a % 4
  {
    if a > 0 {
      AndOddStep(a, 3);
      AndOne(a / 2);
      ModHalf4(a);
    }
  }

  lemma AndSeven(a: nat)
    ensures BitAnd(a, 7) == a % 8
  {
    if a > 0 {
      AndOddStep(a, 7);
      AndThree(a / 2);
      ModHalf8(a);
    }
  }

  /** `a & 0x0f` keeps the low nibble. */
  lemma AndFifteen(a: nat)
    ensures BitAnd(a, 0x0f) == a % 16
  {
    if a > 0 {
      AndOddStep(a, 15);
      AndSeven(a / 2);
      ModHalf16(a);
    }
  }

  lemma AndThirtyOne(a: nat)
    ensures BitAnd(a, 31) == a % 32
  {
    if a > 0 {
      AndOddStep(a, 31);
      AndFifteen(a / 2);
      ModHalf32(a);
    }
  }

  /** `a & 0x3f` keeps the low six bits. */
  lemma AndSixtyThree(a: nat)
    ensures BitAnd(a, 0x3f) == a % 64
  {
    if a > 0 {
      AndOddStep(a, 63);
      AndThirtyOne(a / 2);
      ModHalf64(a);
    }
  }

  function Pow2(k: nat): nat
  {
    if k == 0 then 1 else 2 * Pow2(k - 1)
  }

  /** Or-ing in a bit above every bit of `a` adds it. */
  lemma {:induction false} OrHighBit(a: nat, k: nat)
    requires a < Pow2(k)
    ensures BitOr(a, Pow2(k)) == a + Pow2(k)
  {
    if a > 0 && k > 0 {
      OrHighBit(a / 2, k - 1);
    }
  }

  /** The version byte: high nibble 4, low nibble kept. */
  lemma Version4Nibbles(b: Byte)
    ensures Version4(b) / 16 == 4 && Version4(b) % 16 == b % 16
  {
  }

  /** The variant byte: high nibble 8 to 11, its two low bits and the low
      nibble kept. */
  lemma Variant1Nibbles(b: Byte)
    ensures 8 <= Variant1(b) / 16 <= 11
    ensures Variant1(b) / 16 - 8 == (b / 16) % 4
    ensures Variant1(b) % 16 == b % 16
  {
    VariantNibbles(b);
  }

  lemma VariantNibbles(b: Byte)
    ensures var v := 0x80 + b % 64; 8 <= v / 16 <= 11 && v / 16 - 8 == (b / 16) % 4 && v % 16 == b % 16
  {
    var r := b % 64;
    assert b == 64 * (b / 64) + r;
    assert b / 16 == 4 * (b / 64) + r / 16;
    assert (b / 16) % 4 == r / 16;
    assert b % 16 == r % 16;
    assert (0x80 + r) / 16 == 8 + r / 16 && (0x80 + r) % 16 == r % 16;
  }

  /** The sixteen bytes once tagged. */
  function Tagged(random: seq<Byte>): (bytes: seq<Byte>)
    requires |random| == 16
    ensures |bytes| == 16
  {
    random[6 := Version4(random[6])][8 := Variant1(random[8])]
  }

  /** 32 lowercase hexadecimal digits, a `4` where the version goes and one
      of `8`, `9`, `a`, `b` where the variant goes. */
  predicate IsUuidV4(id: string)
  {
    && |id| == 32
    && (forall i | 0 <= i < |id| :: IsLowerHex(id[i]))
    && id[12] == '4'
    && id[16] in "89ab"
  }

  /** `uuidv4()`: fill sixteen bytes from the random source, tag the version
      and variant in place, then write them out in hexadecimal. */
  method UuidV4(random: seq<Byte>) returns (id: string)
    requires |random| == 16
    ensures id == HexOf(Tagged(random))
    ensures IsUuidV4(id)
  {
    var bytes := new Byte[16](i requires 0 <= i < 16 => random[i]);
    bytes[6] := Version4(bytes[6]);
    bytes[8] := Variant1(bytes[8]);
    assert bytes[..] == Tagged(random);
    id := HexOf(bytes[..]);
    TaggedFormat(random);
  }

  /** Every character of the rendering is a lowercase hexadecimal digit. */
  lemma HexOfLower(bytes: seq<Byte>)
    ensures forall i | 0 <= i < |HexOf(bytes)| :: IsLowerHex(HexOf(bytes)[i])
  {
    var id := HexOf(bytes);
    forall i | 0 <= i < |id| ensures IsLowerHex(id[i]) {
      var k := i / 2;
      assert id[2 * k] == HexDigit(bytes[k] / 16) && id[2 * k + 1] == HexDigit(bytes[k] % 16);
      assert i == 2 * k || i == 2 * k + 1;
    }
  }

  /** A high nibble from 8 to 11 is written as one of `8`, `9`, `a`, `b`. */
  lemma VariantDigit(v: int)
    requires 8 <= v <= 11
    ensures HexDigit(v) in "89ab"
  {
    assert "89ab"[v - 8] == HexDigit(v);
  }

  /** The tagged draw renders in the version-4 format. */
  lemma TaggedFormat(random: seq<Byte>)
    requires |random| == 16
    ensures IsUuidV4(HexOf(Tagged(random)))
  {
    var bytes := Tagged(random);
    var id := HexOf(bytes);
    Version4Nibbles(random[6]);
    Variant1Nibbles(random[8]);
    assert bytes[6] == Version4(random[6]) && bytes[8] == Variant1(random[8]);
    assert id[12] == HexDigit(bytes[6] / 16);
    assert id[16] == HexDigit(bytes[8] / 16);
    VariantDigit(bytes[8] / 16);
    HexOfLower(bytes);
  }

  /** Every random digit the tagging keeps is in its place. */
  lemma TaggedDigits(random: seq<Byte>)
    requires |random| == 16
    ensures var id := HexOf(Tagged(random));
      && (forall i | 0 <= i < 16 && i != 6 && i != 8 ::
            id[2 * i] == HexDigit(random[i] / 16) && id[2 * i + 1] == HexDigit(random[i] % 16))
      && id[13] == HexDigit(random[6] % 16)
      && id[16] == HexDigit(8 + (random[8] / 16) % 4)
      && id[17] == HexDigit(random[8] % 16)
  {
    var bytes := Tagged(random);
    var id := HexOf(bytes);
    Version4Nibbles(random[6]);
    Variant1Nibbles(random[8]);
    assert bytes[6] == Version4(random[6]) && bytes[8] == Variant1(random[8]);
    assert id[13] == HexDigit(bytes[6] % 16);
    assert id[16] == HexDigit(bytes[8] / 16) && id[17] == HexDigit(bytes[8] % 16);
    forall i | 0 <= i < 16 && i != 6 && i != 8
      ensures id[2 * i] == HexDigit(random[i] / 16) && id[2 * i + 1] == HexDigit(random[i] % 16)
    {
      assert bytes[i] == random[i];
    }
  }

  /** Equal identifiers come from draws that agree on every bit the tagging
      keeps: only the six fixed bits are lost. */
  lemma UuidInjective(r1: seq<Byte>, r2: seq<Byte>)
    requires |r1| == 16 && |r2| == 16
    requires HexOf(Tagged(r1)) == HexOf(Tagged(r2))
    ensures Tagged(r1) == Tagged(r2)
    ensures forall i | 0 <= i < 16 && i != 6 && i != 8 :: r1[i] == r2[i]
    ensures r1[6] % 16 == r2[6] % 16 && r1[8] % 64 == r2[8] % 64
  {
    DecodeHexOf(Tagged(r1));
    DecodeHexOf(Tagged(r2));
    forall i | 0 <= i < 16 && i != 6 && i != 8 ensures r1[i] == r2[i] {
      assert Tagged(r1)[i] == r1[i] && Tagged(r2)[i] == r2[i];
    }
    assert Tagged(r1)[6] == Tagged(r2)[6] && Tagged(r1)[8] == Tagged(r2)[8];
  }
}
