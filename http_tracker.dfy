/** The HTTP tracker client: the peer id it announces with, the announce
    parameters it sends, and how it reads the decoded tracker reply
    (BEP 3, with the compact peer list of BEP 23). */
module HttpTracker {
  import opened Bytes
  import opened CompactPeers

  const PeerIdPrefix: string := "-MT0001-"
  const StandardPort: u16 := 6881
  const DefaultEvent: string := "started"

  /** The parameter names of an announce, in the order they are sent. */
  const ParamNames: seq<string> :=
    ["info_hash", "peer_id", "port", "uploaded", "downloaded", "left", "compact", "event"]

  // ---------------------------------------------------------------------
  // Peer id

  /** generatePeerId: the prefix followed by the lower-case hex text of 12
      random bytes, as the bytes of that text. The random bytes are a
      parameter; the id is 32 bytes long, not the 20 that BEP 3 asks for. */
  function GeneratePeerId(random: seq<byte>): (id: seq<byte>)
    requires |random| == 12
  {
    Latin1Bytes(PeerIdPrefix + HexLower(random))
  }

  /** The id is the prefix and 24 hex digits that read back as the random
      bytes: 32 bytes in all. */
  lemma PeerIdShape(random: seq<byte>)
    requires |random| == 12
    ensures var id := GeneratePeerId(random);
      && |id| == 32
      && id[..8] == Latin1Bytes(PeerIdPrefix)
      && HexDecode(BinaryString(id[8..])) == random
  {
    var text := PeerIdPrefix + HexLower(random);
    var id := GeneratePeerId(random);
    assert text[..8] == PeerIdPrefix && text[8..] == HexLower(random);
    assert id[..8] == Latin1Bytes(text[..8]);
    assert BinaryString(id[8..]) == text[8..];
    HexDecodeOfHexLower(random);
  }

  // ---------------------------------------------------------------------
  // Announce URL

  /** The fields of a torrent the announce reads. The length is absent
      (`undefined`) for a torrent whose info dictionary has no `length`
      key, as a multi-file torrent's has not. */
  datatype Torrent = Torrent(announce: string, infoHash: seq<byte>, length: Option<int>)

  /** The text `URLSearchParams` makes of the length: its decimal text,
      or "undefined" when it is absent. */
  function LengthText(length: Option<int>): string {
    match length
    case None => "undefined"
    case Some(n) => IntToString(n)
  }

  /** The announce URL before its query is serialised: the tracker's
      address and the parameters in order, each value as the text it
      becomes. */
  datatype TrackerUrl = TrackerUrl(base: string, params: seq<(string, string)>)

  // ---------------------------------------------------------------------
  // How the query is serialised

  /** The UTF-8 bytes of Latin-1 text: a character below U+0080 is one
      byte, any other two. `URLSearchParams` encodes each value so before
      percent-encoding it. */
  function Utf8OfLatin1(s: string): (r: seq<byte>)
    requires IsLatin1(s)
    ensures |r| >= |s|
  {
    if s == [] then []
    else
      var c := s[0] as int;
      (if c < 0x80 then [c] else [0xC0 + c / 64, 0x80 + c % 64]) + Utf8OfLatin1(s[1..])
  }

  /** A character at or above U+0080 makes the UTF-8 bytes longer than the
      text. */
  lemma {:induction false} Utf8OfLatin1Grows(s: string, k: nat)
    requires IsLatin1(s) && k < |s| && s[k] as int >= 0x80
    ensures |Utf8OfLatin1(s)| > |s|
  {
    if k > 0 {
      Utf8OfLatin1Grows(s[1..], k - 1);
    }
  }

  /** ASCII text is its own UTF-8. */
  lemma {:induction false} Utf8OfAscii(s: string)
    requires forall k :: 0 <= k < |s| ==> s[k] as int < 0x80
    ensures Utf8OfLatin1(s) == Latin1Bytes(s)
  {
    if s != [] {
      Utf8OfAscii(s[1..]);
      assert Latin1Bytes(s) == [s[0] as int] + Latin1Bytes(s[1..]);
    }
  }

  /** The bytes the form serialiser keeps: ASCII letters and digits and
      `*`, `-`, `.`, `_`. */
  predicate IsFormSafe(x: byte) {
    x == 0x2A || x == 0x2D || x == 0x2E || 0x30 <= x <= 0x39 || 0x41 <= x <= 0x5A
    || x == 0x5F || 0x61 <= x <= 0x7A
  }

  /** The upper-case ASCII hex digit of d. */
  function HexDigitByte(d: nat): (r: byte)
    requires d < 16
  {
    if d < 10 then 0x30 + d else 0x37 + d
  }

  /** The value of an ASCII hex digit, in either case. */
  function HexByteValue(y: byte): (v: Option<nat>)
    ensures v.Some? ==> v.value < 16
    ensures forall d :: 0 <= d < 16 && y == HexDigitByte(d) ==> v == Some(d)
  {
    if 0x30 <= y <= 0x39 then Some(y - 0x30)
    else if 0x41 <= y <= 0x46 then Some(y - 0x37)
    else if 0x61 <= y <= 0x66 then Some(y - 0x57)
    else None
  }

  /** One byte of a value in the `application/x-www-form-urlencoded` form
      of the URL Standard: kept, a space as `+`, or `%` and two upper-case
      hex digits. */
  function FormByte(x: byte): seq<byte> {
    if IsFormSafe(x) then [x]
    else if x == 0x20 then [0x2B]
    else [0x25, HexDigitByte(x / 16), HexDigitByte(x % 16)]
  }

  /** The serialised form of a value's bytes. */
  function FormEncode(b: seq<byte>): seq<byte> {
    if b == [] then [] else FormByte(b[0]) + FormEncode(b[1..])
  }

  /** How a tracker reads a query value back: `%` and two hex digits is
      that byte, `+` a space, any other byte itself. */
  function FormDecode(q: seq<byte>): seq<byte>
    decreases |q|
  {
    if q == [] then []
    else if q[0] == 0x25 && |q| >= 3 && HexByteValue(q[1]).Some? && HexByteValue(q[2]).Some? then
      [HexByteValue(q[1]).value * 16 + HexByteValue(q[2]).value] + FormDecode(q[3..])
    else if q[0] == 0x2B then [0x20] + FormDecode(q[1..])
    else [q[0]] + FormDecode(q[1..])
  }

  /** A serialised byte reads back as that byte, whatever follows. */
  lemma FormByteDecodes(x: byte, rest: seq<byte>)
    ensures FormDecode(FormByte(x) + rest) == [x] + FormDecode(rest)
  {
    var q := FormByte(x) + rest;
    if IsFormSafe(x) {
      assert q[0] == x && q[1..] == rest;
    } else if x == 0x20 {
      assert q[0] == 0x2B && q[1..] == rest;
    } else {
      assert q[0] == 0x25 && q[1] == HexDigitByte(x / 16) && q[2] == HexDigitByte(x % 16) && q[3..] == rest;
      assert HexByteValue(q[1]) == Some(x / 16) && HexByteValue(q[2]) == Some(x % 16);
    }
  }

  /** Reading back the serialised form of any bytes gives those bytes. */
  lemma {:induction false} FormRoundTrip(b: seq<byte>)
    ensures FormDecode(FormEncode(b)) == b
  {
    if b != [] {
      calc {
        FormDecode(FormEncode(b));
        FormDecode(FormByte(b[0]) + FormEncode(b[1..]));
        { FormByteDecodes(b[0], FormEncode(b[1..])); }
        [b[0]] + FormDecode(FormEncode(b[1..]));
        { FormRoundTrip(b[1..]); }
        [b[0]] + b[1..];
        b;
      }
    }
  }

  /** The info_hash value as written: the hash as a binary string, which
      `URLSearchParams` encodes as UTF-8 before percent-encoding, so each
      byte from 0x80 up goes as two. */
  function SentInfoHashAsWritten(infoHash: seq<byte>): seq<byte> {
    FormEncode(Utf8OfLatin1(BinaryString(infoHash)))
  }

  /** The info_hash value as BEP 3 means it: the hash bytes themselves,
      percent-encoded. */
  function SentInfoHash(infoHash: seq<byte>): seq<byte> {
    FormEncode(infoHash)
  }

  /** As written, a tracker reads any hash with a byte from 0x80 up
      wrongly. */
  lemma InfoHashMangledAsWritten(infoHash: seq<byte>, k: nat)
    requires k < |infoHash| && infoHash[k] >= 0x80
    ensures FormDecode(SentInfoHashAsWritten(infoHash)) != infoHash
  {
    var s := BinaryString(infoHash);
    FormRoundTrip(Utf8OfLatin1(s));
    Utf8OfLatin1Grows(s, k);
  }

  /** As written, the byte 0xAB goes as `%C2%AB`. */
  lemma InfoHashByteAsWritten()
    ensures SentInfoHashAsWritten([0xAB]) == [0x25, 0x43, 0x32, 0x25, 0x41, 0x42]
  {
    var one := BinaryString([0xAB]);
    assert one == [0xAB as char];
    assert Utf8OfLatin1(one) == [0xC2, 0xAB];
    assert FormEncode([0xC2, 0xAB]) == FormByte(0xC2) + FormByte(0xAB);
  }

  /** A hash of bytes below 0x80 reads back right even as written. */
  lemma InfoHashAsciiAsWritten(infoHash: seq<byte>)
    requires forall k :: 0 <= k < |infoHash| ==> infoHash[k] < 0x80
    ensures FormDecode(SentInfoHashAsWritten(infoHash)) == infoHash
  {
    var s := BinaryString(infoHash);
    Utf8OfAscii(s);
    FormRoundTrip(Utf8OfLatin1(s));
  }

  /** Percent-encoding the hash bytes themselves, a tracker reads back
      every hash. */
  lemma SentInfoHashRoundTrip(infoHash: seq<byte>)
    ensures FormDecode(SentInfoHash(infoHash)) == infoHash
  {
    FormRoundTrip(infoHash);
  }

  // ---------------------------------------------------------------------
  // Tracker reply

  /** A value as the bencode decoder hands it over: an integer, a byte
      string (a Buffer), a list or a dictionary; Absent is a key the
      dictionary does not have. */
  datatype BValue =
    | Absent
    | Int(i: int)
    | Bytes(b: seq<byte>)
    | List(items: seq<BValue>)
    | Dict(entries: map<string, BValue>)

  /** JavaScript truthiness of a decoded value: undefined and 0 are false,
      every other number and every Buffer, list and object is true. */
  predicate Truthy(v: BValue) {
    match v
    case Absent => false
    case Int(i) => i != 0
    case _ => true
  }

  /** `v || 0`. */
  function OrZero(v: BValue): (r: BValue)
    ensures Truthy(v) ==> r == v
    ensures !Truthy(v) ==> r == Int(0)
  {
    if Truthy(v) then v else Int(0)
  }

  /** `response.key`: the field, or Absent. */
  function Field(response: map<string, BValue>, key: string): BValue {
    if key in response then response[key] else Absent
  }

  /** The compact peer buffer the reply carries, if its peers field is a
      Buffer. A Buffer is truthy even when empty, so `if (response.peers)`
      adds nothing to `Buffer.isBuffer`. */
  function PeersBuffer(response: map<string, BValue>): (b: Option<seq<byte>>)
    ensures b.Some? <==> Field(response, "peers").Bytes?
  {
    match Field(response, "peers")
    case Bytes(b) => Some(b)
    case _ => None
  }

  /** The result object of parseTrackerResponse. */
  datatype Announce = Announce(interval: BValue, complete: BValue, incomplete: BValue, peers: seq<PeerAddress>)

  /** What escapes parseTrackerResponse: readUInt16BE reading past the end
      of the buffer. */
  datatype ParseError = RangeError

  /** The peer list the reply gives, or the error a partial last entry
      raises. */
  function ReplyPeers(response: map<string, BValue>): Result<seq<PeerAddress>, ParseError> {
    match PeersBuffer(response)
    case None => Success([])
    case Some(b) => if |b| % 6 == 0 then Success(Decode(b)) else Failure(RangeError)
  }

  /** A compact buffer encoding some peers, in a reply, gives exactly those
      peers back; a buffer with a partial last entry is refused. */
  lemma ReplyPeersOfEncoded(response: map<string, BValue>, ps: seq<PeerAddress>, tail: seq<byte>)
    requires |tail| < 6
    requires Field(response, "peers") == Bytes(Encode(ps) + tail)
    ensures tail == [] ==> ReplyPeers(response) == Success(ps)
    ensures tail != [] ==> ReplyPeers(response) == Failure(RangeError)
  {
    DecodeEncode(ps, tail);
    assert |Encode(ps) + tail| == 6 * |ps| + |tail|;
    if tail == [] {
      assert Encode(ps) + tail == Encode(ps);
    }
  }

  /** A reply without a Buffer of peers has no peers: a missing field or
      the dictionary-list form both give the empty list. */
  lemma ReplyPeersWithoutBuffer(response: map<string, BValue>)
    requires !Field(response, "peers").Bytes?
    ensures ReplyPeers(response) == Success([])
  {
  }

  // ---------------------------------------------------------------------
  // The client

  class TrackerClient {
    const peerId: seq<byte>
    const port: u16

    /** The constructor; random stands for `crypto.randomBytes(12)`. */
    constructor(random: seq<byte>)
      requires |random| == 12
      ensures peerId == GeneratePeerId(random) && port == StandardPort
    {
      peerId := GeneratePeerId(random);
      port := StandardPort;
    }

    /** buildTrackerUrl(torrent, event): the announce address and the
        eight parameters. The info hash and the peer id go as binary
        strings, one character per byte; the numbers as their decimal
        text. */
    function BuildTrackerUrl(torrent: Torrent, event: string): (url: TrackerUrl)
      ensures url.base == torrent.announce
      ensures |url.params| == |ParamNames|
      ensures forall k :: 0 <= k < |ParamNames| ==> url.params[k].0 == ParamNames[k]
    {
      TrackerUrl(torrent.announce, [
        ("info_hash", BinaryString(torrent.infoHash)),
        ("peer_id", BinaryString(peerId)),
        ("port", NatToString(port)),
        ("uploaded", "0"),
        ("downloaded", "0"),
        ("left", LengthText(torrent.length)),
        ("compact", "1"),
        ("event", event)])
    }

    /** The values before they are serialised: the info hash and peer id
        bytes as binary strings, the port, nothing uploaded or
        downloaded, the length left (the text "undefined" when the
        torrent has no length), a compact reply asked for, and the
        event. (How the info hash is then serialised is
        SentInfoHashAsWritten.) */
    lemma BuildTrackerUrlValues(torrent: Torrent, event: string)
      ensures var ps := BuildTrackerUrl(torrent, event).params;
        && Latin1Bytes(ps[0].1) == torrent.infoHash
        && Latin1Bytes(ps[1].1) == peerId
        && DigitsValue(ps[2].1) == port as int
        && ps[3].1 == "0" && ps[4].1 == "0"
        && (torrent.length.Some? && torrent.length.value >= 0 ==> DigitsValue(ps[5].1) == torrent.length.value)
        && (torrent.length.None? ==> ps[5].1 == "undefined")
        && ps[6].1 == "1" && ps[7].1 == event
    {
      DigitsValueOfNatToString(port);
      if torrent.length.Some? && torrent.length.value >= 0 {
        DigitsValueOfNatToString(torrent.length.value);
      }
    }

    /** The announce URL `announceToTracker` fetches: `buildTrackerUrl`
        with its default event. */
    function AnnounceUrl(torrent: Torrent): (url: TrackerUrl)
      ensures url.base == torrent.announce && |url.params| == 8 && url.params[7] == ("event", "started")
    {
      BuildTrackerUrl(torrent, DefaultEvent)
    }

    /** parseTrackerResponse: interval copied, the counts with 0 for a
        missing or zero field, and one peer per six bytes of a compact
        buffer, read by a loop that steps six bytes at a time. A buffer
        whose length is not a multiple of six makes the last
        readUInt16BE read out of range, and the error escapes. */
    method ParseTrackerResponse(response: map<string, BValue>) returns (r: Result<Announce, ParseError>)
      ensures r.Failure? <==> ReplyPeers(response).Failure?
      ensures r.Success? ==>
        && r.value.interval == Field(response, "interval")
        && r.value.complete == OrZero(Field(response, "complete"))
        && r.value.incomplete == OrZero(Field(response, "incomplete"))
        && r.value.peers == ReplyPeers(response).value
    {
      var peers: seq<PeerAddress> := [];
      var field := Field(response, "peers");
      if Truthy(field) && field.Bytes? {
        var b := field.b;
        DecodeLength(b);
        var i := 0;
        while i < |b|
          invariant 0 <= i <= |b| && i % 6 == 0
          invariant peers == Decode(b)[..i / 6]
          decreases |b| - i
        {
          if i + 6 > |b| {
            return Failure(RangeError);
          }
          var ip := b[i..i + 4];
          var peerPort := U16At(b, i + 4);
          DecodeAt(b, i / 6);
          assert Decode(b)[..i / 6 + 1] == Decode(b)[..i / 6] + [EntryAt(b, i)];
          peers := peers + [PeerAddress(ip, peerPort)];
          i := i + 6;
        }
        assert Decode(b)[..|b| / 6] == Decode(b);
      }
      r := Success(Announce(Field(response, "interval"), OrZero(Field(response, "complete")),
                            OrZero(Field(response, "incomplete")), peers));
    }
  }
}
