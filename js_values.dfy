/** The dynamically typed values the announce clean-up inspects, and the
    string-to-number conversions of JavaScript it relies on: `trim`,
    `parseInt` and `BigInt(string)`. */
module JsValues {
  import opened Bytes

  /** A JavaScript number: a finite value or one of the non-finite ones. */
  datatype Number = Finite(value: real) | NaN | Infinity | NegInfinity {

    /** Number.isInteger */
    predicate IsInteger() {
      Finite? && value == value.Floor as real
    }
  }

  /** What `typeof` distinguishes for a torrent field. An object carries
      the text `String(v)` gives for it, which is what `parseInt` reads
      (an array `[8080]` has the text "8080"). */
  datatype JsValue = Undefined | Null | Num(n: Number) | BigInt(i: int) | Str(s: string) | Obj(text: string)

  /** The characters `String.prototype.trim` and `parseInt` skip:
      WhiteSpace and LineTerminator of ECMAScript. */
  predicate IsJsSpace(c: char) {
    c == '\t' || c == '\n' || c == '\U{000B}' || c == '\U{000C}' || c == '\r' || c == ' '
    || c == '\U{00A0}' || c == '\U{1680}' || ('\U{2000}' <= c <= '\U{200A}')
    || c == '\U{2028}' || c == '\U{2029}' || c == '\U{202F}' || c == '\U{205F}'
    || c == '\U{3000}' || c == '\U{FEFF}'
  }

  function TrimStart(s: string): (r: string)
    ensures |r| <= |s| && r == s[|s| - |r|..]
    ensures forall k :: 0 <= k < |s| - |r| ==> IsJsSpace(s[k])
    ensures r != [] ==> !IsJsSpace(r[0])
  {
    if s != [] && IsJsSpace(s[0]) then TrimStart(s[1..]) else s
  }

  function TrimEnd(s: string): (r: string)
    ensures |r| <= |s| && r == s[..|r|]
    ensures forall k :: |r| <= k < |s| ==> IsJsSpace(s[k])
    ensures r != [] ==> !IsJsSpace(r[|r| - 1])
  {
    if s != [] && IsJsSpace(s[|s| - 1]) then TrimEnd(s[..|s| - 1]) else s
  }

  function Trim(s: string): string {
    TrimEnd(TrimStart(s))
  }

  /** The value of c as a digit of radix up to 36, if it is one. */
  function RadixDigit(c: char): (d: Option<nat>)
    ensures d.Some? ==> d.value < 36
  {
    if '0' <= c <= '9' then Some(c as int - '0' as int)
    else if 'a' <= c <= 'z' then Some(c as int - 'a' as int + 10)
    else if 'A' <= c <= 'Z' then Some(c as int - 'A' as int + 10)
    else None
  }

  predicate IsRadixDigit(c: char, radix: nat) {
    RadixDigit(c).Some? && RadixDigit(c).value < radix
  }

  /** The length of the longest prefix of s made of digits of radix. */
  function DigitRun(s: string, radix: nat): (n: nat)
    ensures n <= |s| && forall k :: 0 <= k < n ==> IsRadixDigit(s[k], radix)
    ensures n < |s| ==> !IsRadixDigit(s[n], radix)
  {
    if s != [] && IsRadixDigit(s[0], radix) then 1 + DigitRun(s[1..], radix) else 0
  }

  /** The digit run read by parseInt is all digits of radix. */
  lemma DigitRunPrefix(s: string, radix: nat)
    ensures AllRadixDigits(s[..DigitRun(s, radix)], radix)
  {
  }

  predicate AllRadixDigits(s: string, radix: nat) {
    forall k :: 0 <= k < |s| ==> IsRadixDigit(s[k], radix)
  }

  /** The value of a string of digits of radix. */
  function RadixValue(s: string, radix: nat): nat
    requires AllRadixDigits(s, radix)
  {
    if s == [] then 0
    else
      assert IsRadixDigit(s[|s| - 1], radix);
      assert AllRadixDigits(s[..|s| - 1], radix);
      RadixValue(s[..|s| - 1], radix) * radix + RadixDigit(s[|s| - 1]).value
  }

  /** In radix 10 this is the ordinary decimal value. */
  lemma {:induction false} RadixValueDecimal(s: string)
    requires forall k :: 0 <= k < |s| ==> IsDigit(s[k])
    ensures AllRadixDigits(s, 10)
    ensures RadixValue(s, 10) == DigitsValue(s)
  {
    if s != [] {
      RadixValueDecimal(s[..|s| - 1]);
    }
  }

  /** `parseInt(s, 10)` (detectHex false) or `parseInt(s)` (detectHex
      true): leading white space, an optional sign, with detectHex an
      optional 0x prefix, then the longest run of digits; None is NaN. */
  function ParseInt(s: string, detectHex: bool): Option<int> {
    var t := TrimStart(s);
    var negative := t != [] && t[0] == '-';
    var unsigned := if t != [] && (t[0] == '-' || t[0] == '+') then t[1..] else t;
    var hex := detectHex && |unsigned| >= 2 && unsigned[0] == '0' && (unsigned[1] == 'x' || unsigned[1] == 'X');
    var radix := if hex then 16 else 10;
    var body := if hex then unsigned[2..] else unsigned;
    var n := DigitRun(body, radix);
    if n == 0 then None
    else
      DigitRunPrefix(body, radix);
      var v: int := RadixValue(body[..n], radix);
      Some(if negative then -v else v)
  }

  /** The radix a `0x`, `0o` or `0b` prefix selects, if t starts with one. */
  function LiteralRadix(t: string): Option<nat> {
    if |t| >= 2 && t[0] == '0' then
      if t[1] == 'x' || t[1] == 'X' then Some(16)
      else if t[1] == 'o' || t[1] == 'O' then Some(8)
      else if t[1] == 'b' || t[1] == 'B' then Some(2)
      else None
    else None
  }

  /** `BigInt(s)` for a string: after trimming, a whole prefixed literal
      (no sign) or a whole signed decimal literal; None is the SyntaxError
      it throws. An all-blank string is 0. */
  function StringToBigInt(s: string): Option<int> {
    var t := Trim(s);
    if t == [] then Some(0)
    else if LiteralRadix(t).Some? then
      var radix := LiteralRadix(t).value;
      var digits := t[2..];
      if digits != [] && AllRadixDigits(digits, radix) then Some(RadixValue(digits, radix)) else None
    else
      var negative := t[0] == '-';
      var digits := if t[0] == '-' || t[0] == '+' then t[1..] else t;
      if digits != [] && AllRadixDigits(digits, 10) then
        var v: int := RadixValue(digits, 10);
        Some(if negative then -v else v)
      else None
  }

  predicate IsDecimalText(s: string) {
    s != [] && forall k :: 0 <= k < |s| ==> IsDigit(s[k])
  }

  lemma {:induction false} DecimalNotTrimmed(s: string)
    requires IsDecimalText(s)
    ensures TrimStart(s) == s && Trim(s) == s
  {
    assert IsDigit(s[0]) && IsDigit(s[|s| - 1]);
    assert !IsJsSpace(s[0]) && !IsJsSpace(s[|s| - 1]);
  }

  lemma {:induction false} DecimalNotPrefixed(s: string)
    requires IsDecimalText(s)
    ensures s[0] != '-' && s[0] != '+' && LiteralRadix(s).None?
    ensures !(|s| >= 2 && s[0] == '0' && (s[1] == 'x' || s[1] == 'X'))
  {
    assert IsDigit(s[0]);
    if |s| >= 2 {
      assert IsDigit(s[1]);
    }
  }

  lemma {:induction false} DecimalRun(s: string)
    requires IsDecimalText(s)
    ensures DigitRun(s, 10) == |s|
  {
    RadixValueDecimal(s);
  }

  /** parseInt reads decimal text back as its value. */
  lemma ParseIntOfDecimal(n: nat, detectHex: bool)
    ensures ParseInt(NatToString(n), detectHex) == Some(n)
  {
    var s := NatToString(n);
    DecimalNotTrimmed(s);
    DecimalNotPrefixed(s);
    DecimalRun(s);
    RadixValueDecimal(s);
    DigitsValueOfNatToString(n);
    assert s[..|s|] == s;
  }

  /** BigInt reads decimal text back as its value. */
  lemma StringToBigIntOfDecimal(n: nat)
    ensures StringToBigInt(NatToString(n)) == Some(n)
  {
    var s := NatToString(n);
    DecimalNotTrimmed(s);
    DecimalNotPrefixed(s);
    RadixValueDecimal(s);
    DigitsValueOfNatToString(n);
    var t := Trim(s);
    assert t == s && t != [] && LiteralRadix(t).None?;
    assert AllRadixDigits(s, 10);
    assert RadixValue(s, 10) == n;
  }

  // ---------------------------------------------------------------------
  // decodeURIComponent (section 19.2.6.1 of ECMA-262, the Decode
  // operation with an empty reserved set)

  /** The octet an escape `%XY` at position i of s stands for, if one
      starts there. */
  function EscapeAt(s: string, i: nat): (r: Option<byte>)
    ensures r.Some? <==> i + 3 <= |s| && s[i] == '%' && IsHexChar(s[i + 1]) && IsHexChar(s[i + 2])
    ensures r.Some? ==> r.value == HexValue(s[i + 1]) * 16 + HexValue(s[i + 2])
  {
    if i + 3 <= |s| && s[i] == '%' && IsHexChar(s[i + 1]) && IsHexChar(s[i + 2])
    then Some(HexValue(s[i + 1]) * 16 + HexValue(s[i + 2]))
    else None
  }

  /** The octets of n escapes in a row at the start of s. */
  function EscapeRun(s: string, n: nat): (r: Option<seq<byte>>)
    ensures r.Some? ==> |r.value| == n && 3 * n <= |s|
    ensures r.Some? && n > 0 ==> EscapeAt(s, 0) == Some(r.value[0])
  {
    if n == 0 then Some([])
    else match EscapeAt(s, 0)
      case None => None
      case Some(b) =>
        match EscapeRun(s[3..], n - 1)
        case None => None
        case Some(rest) => Some([b] + rest)
  }

  /** The length of the UTF-8 sequence an octet starts, from its leading
      one bits: None for a continuation octet and from 0xF8 up. */
  function Utf8SequenceLength(b: byte): (n: Option<nat>)
    ensures n.Some? ==> 1 <= n.value <= 4
    ensures n == Some(1) <==> b < 0x80
  {
    if b < 0x80 then Some(1)
    else if b < 0xC0 then None
    else if b < 0xE0 then Some(2)
    else if b < 0xF0 then Some(3)
    else if b < 0xF8 then Some(4)
    else None
  }

  predicate IsContinuation(b: byte) {
    0x80 <= b < 0xC0
  }

  /** The character a multi-octet UTF-8 sequence encodes, if the sequence
      is valid in the sense of RFC 3629: continuation octets, the shortest
      form, no surrogate and nothing above U+10FFFF. */
  function Utf8Char(o: seq<byte>): (r: Option<char>)
    requires 2 <= |o| <= 4 && Utf8SequenceLength(o[0]) == Some(|o|)
    ensures r.Some? ==> forall k :: 1 <= k < |o| ==> IsContinuation(o[k])
    ensures r.Some? ==> Utf8Length(r.value) == |o|
  {
    if exists k :: 1 <= k < |o| && !IsContinuation(o[k]) then None
    else
      var lead := o[0] as int % (if |o| == 2 then 0x20 else if |o| == 3 then 0x10 else 0x08);
      var cp := Payload(lead, o[1..]);
      if |o| == 2 && cp < 0x80 then None
      else if |o| == 3 && (cp < 0x800 || (0xD800 <= cp < 0xE000)) then None
      else if |o| == 4 && (cp < 0x1_0000 || cp > 0x10_FFFF) then None
      else
        PayloadBound(lead, o[1..]);
        Some(cp as char)
  }

  /** The number of octets in the shortest UTF-8 encoding of c. */
  function Utf8Length(c: char): nat {
    if c as int < 0x80 then 1 else if c as int < 0x800 then 2 else if c as int < 0x1_0000 then 3 else 4
  }

  /** A character from U+0080 to U+07FF in its two octets decodes back. */
  lemma Utf8CharOfTwoOctets(c: char)
    requires 0x80 <= c as int < 0x800
    ensures Utf8Char([0xC0 + c as int / 64, 0x80 + c as int % 64]) == Some(c)
  {
    var o: seq<byte> := [0xC0 + c as int / 64, 0x80 + c as int % 64];
    assert Payload(o[0] as int % 0x20, o[1..]) == c as int;
  }

  /** The code point bits: the lead bits, then six bits per continuation
      octet. */
  function Payload(lead: nat, tail: seq<byte>): nat
    decreases |tail|
  {
    if tail == [] then lead else Payload(lead * 64 + tail[0] % 64, tail[1..])
  }

  lemma {:induction false} PayloadBound(lead: nat, tail: seq<byte>)
    ensures Payload(lead, tail) < (lead + 1) * Pow64(|tail|)
    decreases |tail|
  {
    if tail != [] {
      PayloadBound(lead * 64 + tail[0] % 64, tail[1..]);
      assert (lead * 64 + tail[0] % 64 + 1) <= (lead + 1) * 64;
      Pow64Mono(lead * 64 + tail[0] % 64 + 1, (lead + 1) * 64, |tail| - 1);
    }
  }

  function Pow64(n: nat): (r: nat)
    ensures r >= 1
  {
    if n == 0 then 1 else 64 * Pow64(n - 1)
  }

  lemma Pow64Mono(a: nat, b: nat, n: nat)
    requires a <= b
    ensures a * Pow64(n) <= b * Pow64(n)
  {
  }

  /** `decodeURIComponent(s)`: an escape `%XY` below 0x80, or escapes that
      together form one UTF-8 sequence, become their character, and every
      other character is kept. None is the URIError it throws: a `%` not
      followed by two hex digits, or escapes that are not valid UTF-8. */
  function DecodeUriComponent(s: string): (r: Option<string>)
    decreases |s|
  {
    if s == [] then Some([])
    else if s[0] != '%' then Prepend(s[0], DecodeUriComponent(s[1..]))
    else match EscapeAt(s, 0)
      case None => None
      case Some(b) =>
        match Utf8SequenceLength(b)
        case None => None
        case Some(n) =>
          if n == 1 then Prepend(b as char, DecodeUriComponent(s[3..]))
          else match EscapeRun(s, n)
            case None => None
            case Some(o) =>
              match Utf8Char(o)
              case None => None
              case Some(c) => Prepend(c, DecodeUriComponent(s[3 * n..]))
  }

  function Prepend(c: char, r: Option<string>): Option<string> {
    if r.Some? then Some([c] + r.value) else None
  }

  /** Text without `%` decodes to itself. */
  lemma {:induction false} DecodePlain(s: string)
    requires forall k :: 0 <= k < |s| ==> s[k] != '%'
    ensures DecodeUriComponent(s) == Some(s)
  {
    if s != [] {
      DecodePlain(s[1..]);
      assert [s[0]] + s[1..] == s;
    }
  }

  /** A `%` not followed by two hex digits throws, whatever text without
      `%` comes before it. */
  lemma {:induction false} DecodeStrayPercent(pre: string, post: string)
    requires forall k :: 0 <= k < |pre| ==> pre[k] != '%'
    requires !(|post| >= 2 && IsHexChar(post[0]) && IsHexChar(post[1]))
    ensures DecodeUriComponent(pre + "%" + post) == None
  {
    var s := pre + "%" + post;
    if pre == [] {
      assert s == "%" + post;
      assert EscapeAt(s, 0).None?;
    } else {
      assert s[0] == pre[0] && s[1..] == pre[1..] + "%" + post;
      DecodeStrayPercent(pre[1..], post);
    }
  }

  /** An escape below 0x80 decodes to its character, then the rest is
      decoded. */
  lemma DecodeAsciiEscape(x: byte, rest: string)
    requires x < 0x80
    ensures DecodeUriComponent(['%', HexDigits[x / 16], HexDigits[x % 16]] + rest)
      == Prepend(x as char, DecodeUriComponent(rest))
  {
    var s := ['%', HexDigits[x / 16], HexDigits[x % 16]] + rest;
    HexDigitValue(x / 16);
    HexDigitValue(x % 16);
    assert EscapeAt(s, 0) == Some(x);
    assert s[3..] == rest;
  }

  /** "100%" throws; "%41" is "A". */
  lemma DecodedNames()
    ensures DecodeUriComponent("100%") == None
    ensures DecodeUriComponent("%41") == Some("A")
  {
    DecodeStrayPercent("100", "");
    assert "100" + "%" + "" == "100%";
    DecodeAsciiEscape(0x41, "");
    assert ['%', HexDigits[0x41 / 16], HexDigits[0x41 % 16]] + "" == "%41";
    assert DecodeUriComponent("") == Some("");
    assert ['A'] + "" == "A";
  }
}
