/** Magnet links (the BEP 9 `magnet:?xt=urn:btih:` form): the checks, the
    info hash in hex or RFC 4648 base32, and the torrent-like record with
    its defaults. The query string arrives already split into (key, value)
    pairs, in order. */
module Magnet {
  import opened Bytes
  import JsValues

  const MagnetPrefix: string := "magnet:?"
  const HashPrefix: string := "urn:btih:"
  const FallbackAnnounce: string := "http://tracker.opentracker.org:1337/announce"
  const DefaultLength: nat := 1048576
  const MagnetPieceLength: nat := 32768

  datatype MagnetError =
    | InvalidFormat       // "Invalid magnet link format."
    | MissingInfoHash     // "Missing or invalid info hash in magnet link."
    | InvalidHashLength   // "Invalid info hash length."
    | MalformedName       // URIError "URI malformed" from decodeURIComponent

  /** The torrent-like record `parseMagnetLink` returns. */
  datatype TorrentInfo = TorrentInfo(
    announce: string, name: string, length: int, pieceLength: nat,
    pieces: seq<byte>, infoHash: seq<byte>, isMagnet: bool, trackers: seq<string>)

  predicate StartsWith(s: string, prefix: string) {
    |prefix| <= |s| && s[..|prefix|] == prefix
  }

  /** `s.length`: the number of UTF-16 code units of s, two for a
      character above U+FFFF. */
  function Utf16Length(s: string): (n: nat)
    ensures |s| <= n <= 2 * |s|
  {
    if s == [] then 0 else (if s[0] as int >= 0x1_0000 then 2 else 1) + Utf16Length(s[1..])
  }

  /** Text without characters above U+FFFF has one code unit per
      character. */
  lemma {:induction false} Utf16LengthOfBmp(s: string)
    requires forall k :: 0 <= k < |s| ==> (s[k] as int) < 0x1_0000
    ensures Utf16Length(s) == |s|
  {
    if s != [] {
      Utf16LengthOfBmp(s[1..]);
    }
  }

  /** Each character above U+FFFF adds one to the length JavaScript sees. */
  lemma {:induction false} Utf16LengthAppend(a: string, b: string)
    ensures Utf16Length(a + b) == Utf16Length(a) + Utf16Length(b)
  {
    if a == [] {
      assert a + b == b;
    } else {
      assert (a + b)[0] == a[0] && (a + b)[1..] == a[1..] + b;
      Utf16LengthAppend(a[1..], b);
    }
  }

  // ---------------------------------------------------------------------
  // Query parameters

  /** `searchParams.get(key)`: the first value under key. */
  function Get(params: seq<(string, string)>, key: string): (r: Option<string>)
    ensures r.None? <==> forall i :: 0 <= i < |params| ==> params[i].0 != key
    ensures r.Some? ==> exists i :: (0 <= i < |params| && params[i] == (key, r.value)
      && forall j :: 0 <= j < i ==> params[j].0 != key)
  {
    if params == [] then None
    else if params[0].0 == key then
      assert params[0] == (key, params[0].1);
      Some(params[0].1)
    else
      var r := Get(params[1..], key);
      if r.Some? then
        var i :| (0 <= i < |params[1..]| && params[1..][i] == (key, r.value)
          && forall j :: 0 <= j < i ==> params[1..][j].0 != key);
        assert params[i + 1] == (key, r.value);
        assert forall j :: 0 < j <= i ==> params[j] == params[1..][j - 1];
        r
      else r
  }

  /** `searchParams.getAll(key)`: every value under key, in order. */
  function GetAll(params: seq<(string, string)>, key: string): (r: seq<string>)
    ensures |r| <= |params|
  {
    if params == [] then []
    else (if params[0].0 == key then [params[0].1] else []) + GetAll(params[1..], key)
  }

  /** The first value getAll finds is the one get finds. */
  lemma {:induction false} GetIsFirstOfGetAll(params: seq<(string, string)>, key: string)
    ensures Get(params, key).None? <==> GetAll(params, key) == []
    ensures Get(params, key).Some? ==> GetAll(params, key)[0] == Get(params, key).value
  {
    if params != [] && params[0].0 != key {
      GetIsFirstOfGetAll(params[1..], key);
    }
  }

  /** `displayName.replace(/\+/g, " ")` */
  function PlusToSpace(s: string): (r: string)
    ensures |r| == |s|
    ensures forall i :: 0 <= i < |s| ==> r[i] == (if s[i] == '+' then ' ' else s[i])
  {
    if s == [] then [] else [if s[0] == '+' then ' ' else s[0]] + PlusToSpace(s[1..])
  }

  // ---------------------------------------------------------------------
  // Base32 (RFC 4648 section 6 alphabet)

  const Alphabet: string := "ABCDEFGHIJKLMNOPQRSTUVWXYZ234567"

  /** `alphabet.indexOf(c.toUpperCase())`: letters in either case and the
      digits 2 to 7. Besides the ASCII letters, `toUpperCase` maps U+0131
      (dotless i) to "I" and U+017F (long s) to "S", and the ligatures
      U+FB05 and U+FB06 to "ST", which `indexOf` finds as a substring at
      the index of S. Every character here is a single UTF-16 code unit. */
  function Base32Index(c: char): (r: Option<nat>)
    ensures r.Some? ==> r.value < 32 && (c as int) < 0x1_0000
  {
    if 'A' <= c <= 'Z' then Some(c as int - 'A' as int)
    else if 'a' <= c <= 'z' then Some(c as int - 'a' as int)
    else if '2' <= c <= '7' then Some(c as int - '2' as int + 26)
    else if c == '\U{0131}' then Some(8)
    else if c == '\U{017F}' || c == '\U{FB05}' || c == '\U{FB06}' then Some(18)
    else None
  }

  /** Each alphabet character has its own index. */
  lemma AlphabetIndex(v: nat)
    requires v < 32
    ensures Base32Index(Alphabet[v]) == Some(v)
  {
  }

  /** The n low bits of v, most significant first (`toString(2).padStart(n, "0")`
      for v < 2^n). */
  function Bits(v: nat, n: nat): (r: seq<bool>)
    ensures |r| == n
  {
    if n == 0 then [] else Bits(v / 2, n - 1) + [v % 2 == 1]
  }

  function Pow2(n: nat): (r: nat)
    ensures r > 0
  {
    if n == 0 then 1 else 2 * Pow2(n - 1)
  }

  /** `parseInt(bits, 2)`: the value of a bit string, most significant first. */
  function BitsValue(bs: seq<bool>): (r: nat)
    ensures r < Pow2(|bs|)
  {
    if bs == [] then 0 else 2 * BitsValue(bs[..|bs| - 1]) + (if bs[|bs| - 1] then 1 else 0)
  }

  lemma {:induction false} BitsValueOfBits(v: nat, n: nat)
    requires v < Pow2(n)
    ensures BitsValue(Bits(v, n)) == v
  {
    if n > 0 {
      var hi := Bits(v / 2, n - 1);
      assert (hi + [v % 2 == 1])[..n - 1] == hi;
      BitsValueOfBits(v / 2, n - 1);
    }
  }

  /** The valid characters of s, in order. */
  function ValidChars(s: string): (r: string)
    ensures |r| <= |s|
    ensures forall i :: 0 <= i < |r| ==> Base32Index(r[i]).Some?
  {
    if s == [] then []
    else (if Base32Index(s[0]).Some? then [s[0]] else []) + ValidChars(s[1..])
  }

  /** The five bits of an alphabet character; nothing for any other. */
  function CharBits(c: char): (r: seq<bool>)
    ensures |r| == if Base32Index(c).Some? then 5 else 0
  {
    match Base32Index(c) case None => [] case Some(v) => Bits(v, 5)
  }

  /** The bit string of the first loop: five bits per valid character. */
  function Base32Bits(s: string): (r: seq<bool>)
    ensures |r| == 5 * |ValidChars(s)|
  {
    if s == [] then [] else CharBits(s[0]) + Base32Bits(s[1..])
  }

  /** The bytes of the second loop: each whole group of eight bits. */
  function BitBytes(bits: seq<bool>): (r: seq<byte>)
    ensures |r| == |bits| / 8
    decreases |bits|
  {
    if |bits| < 8 then []
    else
      assert BitsValue(bits[..8]) < Pow2(8) == 256;
      [BitsValue(bits[..8])] + BitBytes(bits[8..])
  }

  /** `base32Decode` as a value. */
  function Base32Decode(s: string): seq<byte> {
    BitBytes(Base32Bits(s))
  }

  /** Output length is floor(5 * valid / 8): 32 valid characters give 20 bytes. */
  lemma Base32DecodeLength(s: string)
    ensures |Base32Decode(s)| == 5 * |ValidChars(s)| / 8
    ensures |ValidChars(s)| == 32 ==> |Base32Decode(s)| == 20
  {
  }

  /** Invalid characters are skipped: decoding gives the same bytes once
      they are removed. */
  lemma {:induction false} Base32SkipsInvalid(s: string)
    ensures Base32Bits(ValidChars(s)) == Base32Bits(s)
    ensures Base32Decode(ValidChars(s)) == Base32Decode(s)
  {
    if s != [] {
      Base32SkipsInvalid(s[1..]);
      var head := if Base32Index(s[0]).Some? then [s[0]] else [];
      Base32BitsAppend(head, ValidChars(s[1..]));
      if head != [] {
        assert head[1..] == [];
      }
    }
  }

  lemma {:induction false} Base32BitsAppend(a: string, b: string)
    ensures Base32Bits(a + b) == Base32Bits(a) + Base32Bits(b)
  {
    if a != [] {
      var head := CharBits(a[0]);
      assert (a + b)[0] == a[0] && (a + b)[1..] == a[1..] + b;
      assert Base32Bits(a + b) == head + Base32Bits(a[1..] + b);
      Base32BitsAppend(a[1..], b);
      assert Base32Bits(a) == head + Base32Bits(a[1..]);
      assert head + (Base32Bits(a[1..]) + Base32Bits(b)) == (head + Base32Bits(a[1..])) + Base32Bits(b);
    } else {
      assert a + b == b;
    }
  }

  function LowerChar(c: char): char {
    if 'A' <= c <= 'Z' then (c as int + 32) as char else c
  }

  /** A character and its lower-case form have the same index. */
  lemma LowerCharIndex(c: char)
    ensures Base32Index(LowerChar(c)) == Base32Index(c)
  {
  }

  /** The ASCII lower-case form of a string. */
  function Lower(s: string): (r: string)
    ensures |r| == |s|
  {
    if s == [] then [] else [LowerChar(s[0])] + Lower(s[1..])
  }

  /** Decoding ignores case. */
  lemma {:induction false} Base32IgnoresCase(s: string)
    ensures Base32Decode(Lower(s)) == Base32Decode(s)
    ensures Base32Bits(Lower(s)) == Base32Bits(s)
  {
    if s != [] {
      Base32IgnoresCase(s[1..]);
      LowerCharIndex(s[0]);
      assert Lower(s)[0] == LowerChar(s[0]) && Lower(s)[1..] == Lower(s[1..]);
    }
  }

  /** `base32Decode`: the two loops of the source (the byte list is named
      `butes` where it is declared and `bytes` where it is filled, a
      ReferenceError; this is the single list evidently meant). */
  method Base32DecodeLoops(str: string) returns (bytes: seq<byte>)
    ensures bytes == Base32Decode(str)
  {
    var bits := CollectBits(str);
    bytes := PackBytes(bits);
  }

  /** The first loop: five bits per alphabet character, others skipped. */
  method CollectBits(str: string) returns (bits: seq<bool>)
    ensures bits == Base32Bits(str)
  {
    bits := [];
    var i := 0;
    while i < |str|
      invariant 0 <= i <= |str|
      invariant bits == Base32Bits(str[..i])
    {
      Base32BitsSnoc(str, i);
      var index := Base32Index(str[i]);
      if index.None? {
        i := i + 1;
        continue;
      }
      bits := bits + Bits(index.value, 5);
      i := i + 1;
    }
    assert str[..|str|] == str;
  }

  lemma Base32BitsSnoc(s: string, i: nat)
    requires i < |s|
    ensures Base32Bits(s[..i + 1]) == Base32Bits(s[..i]) + CharBits(s[i])
  {
    assert s[..i + 1] == s[..i] + [s[i]];
    Base32BitsAppend(s[..i], [s[i]]);
    assert [s[i]][1..] == [];
  }

  /** The second loop: a byte for each whole group of eight bits. */
  method PackBytes(bits: seq<bool>) returns (bytes: seq<byte>)
    ensures bytes == BitBytes(bits)
  {
    bytes := [];
    var i := 0;
    while i < |bits|
      invariant 0 <= i < |bits| + 8
      invariant bytes + BitBytes(if i <= |bits| then bits[i..] else []) == BitBytes(bits)
      decreases |bits| - i
    {
      if i + 8 <= |bits| {
        assert BitsValue(bits[i..i + 8]) < Pow2(8) == 256;
        var b: byte := BitsValue(bits[i..i + 8]);
        assert bits[i..][..8] == bits[i..i + 8];
        assert bits[i..][8..] == bits[i + 8..];
        bytes := bytes + [b];
      }
      i := i + 8;
    }
    if i <= |bits| {
      assert bits[i..] == [];
    }
  }

  // ---------------------------------------------------------------------
  // Base32 encoding, to state the round trip

  function BytesBits(b: seq<byte>): (r: seq<bool>)
    ensures |r| == 8 * |b|
  {
    if b == [] then [] else Bits(b[0], 8) + BytesBits(b[1..])
  }

  /** n zero bits. */
  function Falses(n: nat): (r: seq<bool>)
    ensures |r| == n
  {
    seq(n, _ => false)
  }

  /** The characters for a bit string, the last group padded with zeros. */
  function BitsChars(bits: seq<bool>): (r: string)
    ensures |r| == (|bits| + 4) / 5
    decreases |bits|
  {
    if bits == [] then []
    else if |bits| < 5 then
      var padded := bits + Falses(5 - |bits|);
      assert BitsValue(padded) < Pow2(5) == 32;
      [Alphabet[BitsValue(padded)]]
    else
      assert BitsValue(bits[..5]) < Pow2(5) == 32;
      [Alphabet[BitsValue(bits[..5])]] + BitsChars(bits[5..])
  }

  /** Encoded text is made of alphabet characters only. */
  lemma {:induction false} BitsCharsValid(bits: seq<bool>)
    ensures forall k :: 0 <= k < |BitsChars(bits)| ==> Base32Index(BitsChars(bits)[k]).Some?
    decreases |bits|
  {
    if bits == [] {
    } else if |bits| < 5 {
      var padded := bits + Falses(5 - |bits|);
      assert BitsValue(padded) < Pow2(5) == 32;
      AlphabetIndex(BitsValue(padded));
    } else {
      assert BitsValue(bits[..5]) < Pow2(5) == 32;
      AlphabetIndex(BitsValue(bits[..5]));
      BitsCharsValid(bits[5..]);
    }
  }

  /** Writing a bit string's own value in as many bits gives it back. */
  lemma {:induction false} BitsOfValue(bits: seq<bool>)
    ensures Bits(BitsValue(bits), |bits|) == bits
  {
    if bits != [] {
      var init := bits[..|bits| - 1];
      BitsOfValue(init);
      var v := BitsValue(bits);
      assert v / 2 == BitsValue(init);
      assert bits == init + [bits[|bits| - 1]];
    }
  }

  /** The base32 text of a byte string (RFC 4648 section 6 without the
      `=` padding). */
  function Base32Encode(b: seq<byte>): string {
    BitsChars(BytesBits(b))
  }

  /** The bits of encoded text are the bits encoded, then fewer than five
      zeros. */
  lemma {:induction false} BitsOfChars(bits: seq<bool>)
    ensures Base32Bits(BitsChars(bits)) == bits + Falses(PadLength(|bits|))
    decreases |bits|
  {
    var zeros := Falses(PadLength(|bits|));
    if bits == [] {
    } else if |bits| < 5 {
      var padded := bits + zeros;
      GroupChar(padded);
      assert BitsChars(bits) == [Alphabet[BitsValue(padded)]];
    } else {
      var head := bits[..5];
      var tail := bits[5..];
      var c := [Alphabet[BitsValue(head)]];
      assert BitsChars(bits) == c + BitsChars(tail);
      GroupChar(head);
      BitsOfChars(tail);
      assert Base32Bits(BitsChars(tail)) == tail + zeros;
      Base32BitsAppend(c, BitsChars(tail));
      assert Base32Bits(BitsChars(bits)) == head + (tail + zeros);
      assert bits == head + tail;
    }
  }

  /** The number of zero bits that pad n bits to whole characters. */
  function PadLength(n: nat): (p: nat)
    ensures p < 5
  {
    if n == 0 then 0 else if n < 5 then 5 - n else PadLength(n - 5)
  }

  /** The character written for five bits reads back as those bits. */
  lemma GroupChar(group: seq<bool>)
    requires |group| == 5
    ensures BitsValue(group) < 32
    ensures Base32Bits([Alphabet[BitsValue(group)]]) == group
  {
    var v := BitsValue(group);
    assert v < Pow2(5) == 32;
    AlphabetIndex(v);
    BitsOfValue(group);
    var c := [Alphabet[v]];
    assert c[1..] == [];
    assert Base32Bits(c) == CharBits(Alphabet[v]) + Base32Bits([]);
  }

  /** Reading whole bytes out of encoded bits followed by fewer than eight
      extra bits gives the bytes back. */
  lemma {:induction false} BitBytesOfBytesBits(b: seq<byte>, tail: seq<bool>)
    requires |tail| < 8
    ensures BitBytes(BytesBits(b) + tail) == b
  {
    if b != [] {
      var head := Bits(b[0], 8);
      var bits := BytesBits(b) + tail;
      assert bits == head + (BytesBits(b[1..]) + tail);
      assert bits[..8] == head && bits[8..] == BytesBits(b[1..]) + tail;
      assert b[0] < Pow2(8) == 256;
      BitsValueOfBits(b[0], 8);
      BitBytesOfBytesBits(b[1..], tail);
    } else {
      assert BytesBits(b) + tail == tail;
    }
  }

  /** Base32 decoding undoes base32 encoding. */
  lemma Base32RoundTrip(b: seq<byte>)
    ensures Base32Decode(Base32Encode(b)) == b
    ensures |b| == 20 ==> |Base32Encode(b)| == 32
  {
    var bits := BytesBits(b);
    BitsOfChars(bits);
    BitBytesOfBytesBits(b, Falses(PadLength(|bits|)));
  }

  // ---------------------------------------------------------------------
  // parseMagnetLink

  /** `params.get("dn") || "Unknown"`. */
  function DisplayName(params: seq<(string, string)>): string {
    var dn := Get(params, "dn");
    if dn.Some? && dn.value != [] then dn.value else "Unknown"
  }

  /** `parseMagnetLink(uri)` with uri's query already split into params.
      The name, which the query parser has already percent-decoded, is
      decoded once more by `decodeURIComponent`. */
  function ParseMagnetLink(uri: string, params: seq<(string, string)>): (r: Result<TorrentInfo, MagnetError>)
    ensures !StartsWith(uri, MagnetPrefix) <==> r == Failure(InvalidFormat)
    ensures var xt := Get(params, "xt");
      StartsWith(uri, MagnetPrefix) ==>
        (r == Failure(MissingInfoHash) <==> xt.None? || xt.value == [] || !StartsWith(xt.value, HashPrefix))
    ensures var xt := Get(params, "xt");
      r == Failure(InvalidHashLength) <==>
        && StartsWith(uri, MagnetPrefix) && xt.Some? && xt.value != [] && StartsWith(xt.value, HashPrefix)
        && Utf16Length(xt.value[9..]) != 40 && Utf16Length(xt.value[9..]) != 32
    ensures var xt := Get(params, "xt");
      r == Failure(MalformedName) <==>
        && StartsWith(uri, MagnetPrefix) && xt.Some? && xt.value != [] && StartsWith(xt.value, HashPrefix)
        && (Utf16Length(xt.value[9..]) == 40 || Utf16Length(xt.value[9..]) == 32)
        && JsValues.DecodeUriComponent(PlusToSpace(DisplayName(params))).None?
    ensures r.Success? ==>
      var hash := Get(params, "xt").value[9..];
      var trackers := GetAll(params, "tr");
      && (Utf16Length(hash) == 40 ==> r.value.infoHash == HexDecode(hash))
      && (Utf16Length(hash) == 32 ==> r.value.infoHash == Base32Decode(hash))
      && r.value.trackers == trackers
      && r.value.announce == (if trackers != [] && trackers[0] != [] then trackers[0] else FallbackAnnounce)
      && r.value.name == JsValues.DecodeUriComponent(PlusToSpace(DisplayName(params))).value
      && r.value.length == ExactLength(Get(params, "xl"))
      && r.value.pieceLength == MagnetPieceLength && r.value.pieces == Zeros(20) && r.value.isMagnet
  {
    if !StartsWith(uri, MagnetPrefix) then Failure(InvalidFormat)
    else
      var xt := Get(params, "xt");
      if xt.None? || xt.value == [] || !StartsWith(xt.value, HashPrefix) then Failure(MissingInfoHash)
      else
        var hashString := xt.value[|HashPrefix|..];
        var infoHash :=
          if Utf16Length(hashString) == 40 then Some(HexDecode(hashString))
          else if Utf16Length(hashString) == 32 then Some(Base32Decode(hashString))
          else None;
        if infoHash.None? then Failure(InvalidHashLength)
        else
          var trackers := GetAll(params, "tr");
          var name := JsValues.DecodeUriComponent(PlusToSpace(DisplayName(params)));
          if name.None? then Failure(MalformedName)
          else
            Success(TorrentInfo(
              if trackers != [] && trackers[0] != [] then trackers[0] else FallbackAnnounce,
              name.value,
              ExactLength(Get(params, "xl")),
              MagnetPieceLength, Zeros(20), infoHash.value, true, trackers))
  }

  /** `exactLength || 1048576` with exactLength `parseInt(xl)` when xl is
      a non-empty string and null otherwise: NaN, 0 and an absent xl all
      give the default. */
  function ExactLength(xl: Option<string>): (n: int)
    ensures n != 0
    ensures xl.None? || xl.value == [] ==> n == DefaultLength
  {
    if xl.None? || xl.value == [] then DefaultLength
    else match JsValues.ParseInt(xl.value, true)
      case None => DefaultLength
      case Some(v) => if v == 0 then DefaultLength else v
  }

  /** A decimal xl is the length; 0 gives the default. */
  lemma ExactLengthOfDecimal(n: nat)
    ensures ExactLength(Some(NatToString(n))) == if n == 0 then DefaultLength else n
  {
    JsValues.ParseIntOfDecimal(n, true);
  }

  /** Once the hash has a length the parser accepts, only the name can
      still refuse the link; otherwise the hash is decoded by its length. */
  lemma AcceptedHash(uri: string, params: seq<(string, string)>)
    requires StartsWith(uri, MagnetPrefix)
    requires var xt := Get(params, "xt");
      xt.Some? && StartsWith(xt.value, HashPrefix)
      && (Utf16Length(xt.value[9..]) == 40 || Utf16Length(xt.value[9..]) == 32)
    ensures var r := ParseMagnetLink(uri, params);
      var hash := Get(params, "xt").value[9..];
      && (r.Success? <==> JsValues.DecodeUriComponent(PlusToSpace(DisplayName(params))).Some?)
      && (r.Failure? ==> r.error == MalformedName)
      && (r.Success? && Utf16Length(hash) == 40 ==> r.value.infoHash == HexDecode(hash))
      && (r.Success? && Utf16Length(hash) == 32 ==> r.value.infoHash == Base32Decode(hash))
  {
    assert Get(params, "xt").value != [];
  }

  /** A leading xt pair leaves the name to the pairs after it. */
  lemma NameBesideHash(xt: string, rest: seq<(string, string)>)
    ensures DisplayName([("xt", xt)] + rest) == DisplayName(rest)
  {
    var params := [("xt", xt)] + rest;
    assert params[1..] == rest;
  }

  /** A magnet link with a 40-digit hex hash yields that hash. */
  lemma HexMagnetYieldsHash(uri: string, h: seq<byte>, rest: seq<(string, string)>)
    requires StartsWith(uri, MagnetPrefix) && |h| == 20
    ensures var r := ParseMagnetLink(uri, [("xt", HashPrefix + HexLower(h))] + rest);
      && (r.Success? <==> JsValues.DecodeUriComponent(PlusToSpace(DisplayName(rest))).Some?)
      && (r.Failure? ==> r.error == MalformedName)
      && (r.Success? ==> r.value.infoHash == h)
  {
    var xt := HashPrefix + HexLower(h);
    var params := [("xt", xt)] + rest;
    NameBesideHash(xt, rest);
    assert Get(params, "xt") == Some(xt);
    assert xt[..9] == HashPrefix && xt[9..] == HexLower(h);
    Utf16LengthOfBmp(HexLower(h));
    HexDecodeOfHexLower(h);
    AcceptedHash(uri, params);
  }

  /** The length test counts UTF-16 code units: 38 hex digits and one
      character above U+FFFF make 40, so the hex branch is taken and the
      19 bytes before that character are the hash. */
  lemma AstralHashTakesHexBranch(uri: string, h: seq<byte>, rest: seq<(string, string)>)
    requires StartsWith(uri, MagnetPrefix) && |h| == 19
    ensures var r := ParseMagnetLink(uri, [("xt", HashPrefix + HexLower(h) + "\U{1F600}")] + rest);
      && (r.Success? <==> JsValues.DecodeUriComponent(PlusToSpace(DisplayName(rest))).Some?)
      && (r.Success? ==> r.value.infoHash == h)
  {
    var hash := HexLower(h) + "\U{1F600}";
    var xt := HashPrefix + HexLower(h) + "\U{1F600}";
    assert xt == HashPrefix + hash;
    assert xt[..9] == HashPrefix && xt[9..] == hash;
    var params := [("xt", xt)] + rest;
    NameBesideHash(xt, rest);
    assert Get(params, "xt") == Some(xt);
    AstralHash(h);
    AcceptedHash(uri, params);
  }

  lemma AstralHash(h: seq<byte>)
    requires |h| == 19
    ensures Utf16Length(HexLower(h) + "\U{1F600}") == 40
    ensures HexDecode(HexLower(h) + "\U{1F600}") == h
  {
    Utf16LengthOfBmp(HexLower(h));
    Utf16LengthAppend(HexLower(h), "\U{1F600}");
    assert Utf16Length("\U{1F600}") == 2;
    HexDecodeOfHexLowerThen(h, "\U{1F600}");
    assert HexDecode("\U{1F600}") == [];
    assert h + [] == h;
  }

  /** A magnet link with a 32-character base32 hash yields that hash. */
  lemma Base32MagnetYieldsHash(uri: string, h: seq<byte>, rest: seq<(string, string)>)
    requires StartsWith(uri, MagnetPrefix) && |h| == 20
    ensures var r := ParseMagnetLink(uri, [("xt", HashPrefix + Base32Encode(h))] + rest);
      && (r.Success? <==> JsValues.DecodeUriComponent(PlusToSpace(DisplayName(rest))).Some?)
      && (r.Success? ==> r.value.infoHash == h)
  {
    var xt := HashPrefix + Base32Encode(h);
    var params := [("xt", xt)] + rest;
    NameBesideHash(xt, rest);
    Base32RoundTrip(h);
    BitsCharsValid(BytesBits(h));
    Utf16LengthOfBmp(Base32Encode(h));
    assert Get(params, "xt") == Some(xt);
    assert xt[..9] == HashPrefix && xt[9..] == Base32Encode(h);
    AcceptedHash(uri, params);
  }

  /** The name is decoded a second time: `dn=100%25` reaches the parser
      as "100%", whose stray `%` makes the link refused. */
  lemma StrayPercentNameRefused(uri: string, h: seq<byte>)
    requires StartsWith(uri, MagnetPrefix) && |h| == 20
    ensures ParseMagnetLink(uri, [("xt", HashPrefix + HexLower(h)), ("dn", "100%")]) == Failure(MalformedName)
  {
    var rest := [("dn", "100%")];
    assert [("xt", HashPrefix + HexLower(h))] + rest == [("xt", HashPrefix + HexLower(h)), ("dn", "100%")];
    assert DisplayName(rest) == "100%";
    assert PlusToSpace("100%") == "100%";
    JsValues.DecodedNames();
    HexMagnetYieldsHash(uri, h, rest);
  }

  /** ... and `dn=%2541` reaches it as "%41", which becomes "A". */
  lemma NameDecodedTwice(uri: string, h: seq<byte>)
    requires StartsWith(uri, MagnetPrefix) && |h| == 20
    ensures var r := ParseMagnetLink(uri, [("xt", HashPrefix + HexLower(h)), ("dn", "%41")]);
      r.Success? && r.value.name == "A"
  {
    var rest := [("dn", "%41")];
    var params := [("xt", HashPrefix + HexLower(h))] + rest;
    assert params == [("xt", HashPrefix + HexLower(h)), ("dn", "%41")];
    assert DisplayName(rest) == "%41";
    assert PlusToSpace("%41") == "%41";
    JsValues.DecodedNames();
    NameBesideHash(HashPrefix + HexLower(h), rest);
    HexMagnetYieldsHash(uri, h, rest);
  }
}
