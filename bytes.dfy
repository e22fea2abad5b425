/** Byte-level vocabulary shared by every codec of the client: bounded
    integer types, big-endian integers, Latin-1 text, hexadecimal text as
    Node's Buffer reads and writes it, and decimal text. */
module Bytes {

  type byte = x: int | 0 <= x < 0x100
  type u16 = x: int | 0 <= x < 0x1_0000
  type u32 = x: int | 0 <= x < 0x1_0000_0000
  type u64 = x: int | 0 <= x < 0x1_0000_0000_0000_0000

  datatype Option<+T> = None | Some(value: T)

  datatype Result<+T, +E> = Success(value: T) | Failure(error: E)

  /** 256 to the power n: the number of values an n-byte field holds. */
  function Pow256(n: nat): (r: nat)
    ensures r > 0
  {
    if n == 0 then 1 else 256 * Pow256(n - 1)
  }

  lemma FieldSizes()
    ensures Pow256(2) == 0x1_0000
    ensures Pow256(4) == 0x1_0000_0000
    ensures Pow256(8) == 0x1_0000_0000_0000_0000
  {
  }

  function Zeros(n: nat): (r: seq<byte>)
    ensures |r| == n && forall k :: 0 <= k < n ==> r[k] == 0
  {
    seq(n, _ => 0)
  }

  // ---------------------------------------------------------------------
  // Big-endian integers (Buffer.readUIntNBE / writeUIntNBE)

  /** The unsigned big-endian value of a byte string. */
  function BE(s: seq<byte>): (r: nat)
    ensures r < Pow256(|s|)
  {
    if s == [] then 0 else BE(s[..|s| - 1]) * 256 + s[|s| - 1]
  }

  /** The n low-order bytes of v, most significant first. */
  function ToBE(v: nat, n: nat): (r: seq<byte>)
    ensures |r| == n
  {
    if n == 0 then [] else ToBE(v / 256, n - 1) + [v % 256]
  }

  /** Writing a value that fits and reading it back gives the value. */
  lemma {:induction false} BEOfToBE(v: nat, n: nat)
    requires v < Pow256(n)
    ensures BE(ToBE(v, n)) == v
  {
    if n > 0 {
      var hi := ToBE(v / 256, n - 1);
      assert ToBE(v, n) == hi + [v % 256];
      assert (hi + [v % 256])[..n - 1] == hi;
      BEOfToBE(v / 256, n - 1);
    }
  }

  /** Reading a field and writing it back gives the same bytes. */
  lemma {:induction false} ToBEOfBE(s: seq<byte>)
    ensures ToBE(BE(s), |s|) == s
  {
    if s != [] {
      var init := s[..|s| - 1];
      ToBEOfBE(init);
      assert BE(s) / 256 == BE(init);
      assert BE(s) % 256 == s[|s| - 1];
      assert s == init + [s[|s| - 1]];
    }
  }

  /** A four-byte big-endian value spelled out. */
  lemma BE4(s: seq<byte>)
    requires |s| == 4
    ensures BE(s) == ((s[0] as int * 256 + s[1]) * 256 + s[2]) * 256 + s[3]
  {
    assert s[..1][..0] == [];
    assert BE(s[..1]) == s[0];
    assert s[..2][..1] == s[..1];
    assert BE(s[..2]) == BE(s[..1]) * 256 + s[1];
    assert s[..3][..2] == s[..2];
    assert BE(s[..3]) == BE(s[..2]) * 256 + s[2];
    assert BE(s) == BE(s[..3]) * 256 + s[3];
  }

  /** The u32 field at off (Buffer.readUInt32BE). */
  function U32At(s: seq<byte>, off: nat): (r: u32)
    requires off + 4 <= |s|
    ensures r == BE(s[off..off + 4])
  {
    FieldSizes();
    BE(s[off..off + 4])
  }

  /** A u32 written between two byte strings is read back at its offset. */
  lemma {:induction false} U32Field(pre: seq<byte>, v: nat, post: seq<byte>)
    requires v < 0x1_0000_0000
    ensures |pre| + 4 <= |pre + ToBE(v, 4) + post|
    ensures U32At(pre + ToBE(v, 4) + post, |pre|) == v
  {
    var s := pre + ToBE(v, 4) + post;
    assert s[|pre|..|pre| + 4] == ToBE(v, 4);
    FieldSizes();
    BEOfToBE(v, 4);
  }

  /** The u16 field at off (Buffer.readUInt16BE). */
  function U16At(s: seq<byte>, off: nat): (r: u16)
    requires off + 2 <= |s|
    ensures r == BE(s[off..off + 2])
  {
    FieldSizes();
    BE(s[off..off + 2])
  }

  /** The u64 field at off (Buffer.readBigUInt64BE). */
  function U64At(s: seq<byte>, off: nat): (r: u64)
    requires off + 8 <= |s|
    ensures r == BE(s[off..off + 8])
  {
    FieldSizes();
    BE(s[off..off + 8])
  }

  /** The two's-complement reading of a 4-byte field (Buffer.readInt32BE). */
  function I32(s: seq<byte>): int
    requires |s| == 4
  {
    if BE(s) < 0x8000_0000 then BE(s) else BE(s) - 0x1_0000_0000
  }

  // ---------------------------------------------------------------------
  // Text as bytes

  predicate IsLatin1(s: string) {
    forall k :: 0 <= k < |s| ==> s[k] as int < 0x100
  }

  /** Buffer.from(s) for a string of Latin-1 (in practice ASCII) characters:
      one byte per character. */
  function Latin1Bytes(s: string): (r: seq<byte>)
    requires IsLatin1(s)
    ensures |r| == |s| && forall k :: 0 <= k < |s| ==> r[k] == s[k] as int
  {
    seq(|s|, k requires 0 <= k < |s| => s[k] as int)
  }

  /** Buffer.toString("binary"): one character per byte. */
  function BinaryString(b: seq<byte>): (r: string)
    ensures |r| == |b| && IsLatin1(r)
    ensures Latin1Bytes(r) == b
  {
    seq(|b|, k requires 0 <= k < |b| => b[k] as char)
  }

  // ---------------------------------------------------------------------
  // Hexadecimal text

  const HexDigits: string := "0123456789abcdef"

  /** Buffer.toString("hex"): two lower-case digits per byte. */
  function HexLower(b: seq<byte>): (r: string)
    ensures |r| == 2 * |b|
    ensures forall k :: 0 <= k < |r| ==> IsHexChar(r[k])
  {
    if b == [] then []
    else [HexDigits[b[0] / 16], HexDigits[b[0] % 16]] + HexLower(b[1..])
  }

  predicate IsHexChar(c: char) {
    ('0' <= c <= '9') || ('a' <= c <= 'f') || ('A' <= c <= 'F')
  }

  function HexValue(c: char): (v: nat)
    requires IsHexChar(c)
    ensures v < 16
  {
    if '0' <= c <= '9' then c as int - '0' as int
    else if 'a' <= c <= 'f' then c as int - 'a' as int + 10
    else c as int - 'A' as int + 10
  }

  /** The hex text of the first n bytes is the first 2n digits. */
  lemma {:induction false} HexLowerPrefix(b: seq<byte>, n: nat)
    requires n <= |b|
    ensures |HexLower(b)| == 2 * |b| && HexLower(b)[..2 * n] == HexLower(b[..n])
  {
    if b != [] {
      HexLowerPrefix(b[1..], if n == 0 then 0 else n - 1);
      if n > 0 {
        assert b[..n] == [b[0]] + b[1..][..n - 1];
        assert HexLower(b[..n]) == [HexDigits[b[0] / 16], HexDigits[b[0] % 16]] + HexLower(b[1..][..n - 1]);
      }
    }
  }

  /** Buffer.from(s, "hex") as Node decodes it: pairs of digits, either
      case, from the left, stopping at the first pair that is not two hex
      digits and ignoring an unpaired last character. */
  function HexDecode(s: string): (r: seq<byte>)
    ensures |r| <= |s| / 2
  {
    if |s| < 2 || !IsHexChar(s[0]) || !IsHexChar(s[1]) then []
    else [HexValue(s[0]) * 16 + HexValue(s[1])] + HexDecode(s[2..])
  }

  /** Each lower-case digit reads back as its value. */
  lemma HexDigitValue(d: nat)
    requires d < 16
    ensures IsHexChar(HexDigits[d]) && HexValue(HexDigits[d]) == d
  {
  }

  /** The first two characters of a byte's hex text decode to the byte. */
  lemma HexPair(x: byte, rest: string)
    ensures HexDecode([HexDigits[x / 16], HexDigits[x % 16]] + rest) == [x] + HexDecode(rest)
  {
    var hi := HexDigits[x / 16];
    var lo := HexDigits[x % 16];
    HexDigitValue(x / 16);
    HexDigitValue(x % 16);
    var h := [hi, lo] + rest;
    assert h[0] == hi && h[1] == lo && h[2..] == rest;
    assert HexValue(hi) * 16 + HexValue(lo) == x;
  }

  lemma {:induction false} HexDecodeOfHexLower(b: seq<byte>)
    ensures HexDecode(HexLower(b)) == b
  {
    if b != [] {
      HexPair(b[0], HexLower(b[1..]));
      HexDecodeOfHexLower(b[1..]);
    }
  }

  /** Hex text followed by anything decodes to the bytes, then whatever
      the rest decodes to; decoding stops at the first pair that is not
      two hex digits. */
  lemma {:induction false} HexDecodeOfHexLowerThen(b: seq<byte>, tail: string)
    ensures HexDecode(HexLower(b) + tail) == b + HexDecode(tail)
  {
    if b == [] {
      assert HexLower(b) + tail == tail;
    } else {
      HexDecodeOfHexLowerThen(b[1..], tail);
      HexLowerThenStep(b, tail);
    }
  }

  lemma HexLowerThenStep(b: seq<byte>, tail: string)
    requires b != [] && HexDecode(HexLower(b[1..]) + tail) == b[1..] + HexDecode(tail)
    ensures HexDecode(HexLower(b) + tail) == b + HexDecode(tail)
  {
    var rest := HexLower(b[1..]) + tail;
    var pair := [HexDigits[b[0] / 16], HexDigits[b[0] % 16]];
    calc {
      HexDecode(HexLower(b) + tail);
      { HexLowerCons(b, tail); }
      HexDecode(pair + rest);
      { HexPair(b[0], rest); }
      [b[0]] + HexDecode(rest);
      [b[0]] + (b[1..] + HexDecode(tail));
      { ConsAppend(b, HexDecode(tail)); }
      b + HexDecode(tail);
    }
  }

  lemma HexLowerCons(b: seq<byte>, tail: string)
    requires b != []
    ensures HexLower(b) + tail == [HexDigits[b[0] / 16], HexDigits[b[0] % 16]] + (HexLower(b[1..]) + tail)
  {
  }

  lemma ConsAppend(b: seq<byte>, d: seq<byte>)
    requires b != []
    ensures [b[0]] + (b[1..] + d) == b + d
  {
    assert [b[0]] + b[1..] == b;
  }

  /** A string made only of hex digits decodes completely. */
  lemma {:induction false} HexDecodeLength(s: string)
    requires forall k :: 0 <= k < |s| ==> IsHexChar(s[k])
    ensures |HexDecode(s)| == |s| / 2
  {
    if |s| >= 2 {
      HexDecodeLength(s[2..]);
    }
  }

  // ---------------------------------------------------------------------
  // Decimal text

  predicate IsDigit(c: char) {
    '0' <= c <= '9'
  }

  function DigitValue(c: char): (v: nat)
    requires IsDigit(c)
    ensures v < 10
  {
    c as int - '0' as int
  }

  function DigitChar(d: nat): (c: char)
    requires d < 10
    ensures IsDigit(c) && DigitValue(c) == d
  {
    "0123456789"[d]
  }

  /** String(n) for a non-negative integer. */
  function NatToString(n: nat): (r: string)
    ensures |r| > 0 && forall k :: 0 <= k < |r| ==> IsDigit(r[k])
  {
    if n < 10 then [DigitChar(n)] else NatToString(n / 10) + [DigitChar(n % 10)]
  }

  /** String(i) for any integer. */
  function IntToString(i: int): string {
    if i < 0 then "-" + NatToString(-i) else NatToString(i)
  }

  /** The value of a string of decimal digits. */
  function DigitsValue(s: string): nat
    requires forall k :: 0 <= k < |s| ==> IsDigit(s[k])
  {
    if s == [] then 0 else DigitsValue(s[..|s| - 1]) * 10 + DigitValue(s[|s| - 1])
  }

  lemma {:induction false} DigitsValueOfNatToString(n: nat)
    ensures DigitsValue(NatToString(n)) == n
  {
    if n >= 10 {
      var r := NatToString(n);
      assert r[..|r| - 1] == NatToString(n / 10);
      DigitsValueOfNatToString(n / 10);
    }
  }

  /** The first position of x in s. */
  function IndexOf<T(==)>(s: seq<T>, x: T): (i: nat)
    requires x in s
    ensures i < |s| && s[i] == x
    ensures forall j :: 0 <= j < i ==> s[j] != x
  {
    if s[0] == x then 0 else 1 + IndexOf(s[1..], x)
  }
}
