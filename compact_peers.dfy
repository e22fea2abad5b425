/** The compact peer list both trackers return (BEP 23, and the tail of a
    BEP 15 announce response): six bytes per peer, a big-endian IPv4
    address followed by a big-endian port. */
module CompactPeers {
  import opened Bytes

  type Octets = s: seq<byte> | |s| == 4 witness [0, 0, 0, 0]

  /** A peer as the trackers report it: `{ip, port}` with the address
      kept as its four octets. */
  datatype PeerAddress = PeerAddress(octets: Octets, port: u16) {

    /** `Array.from(slice).join(".")`: the dotted-decimal text of the address. */
    function Ip(): string {
      NatToString(octets[0]) + "." + NatToString(octets[1]) + "."
        + NatToString(octets[2]) + "." + NatToString(octets[3])
    }
  }

  /** The peer stored in the six bytes at off. */
  function EntryAt(b: seq<byte>, off: nat): (p: PeerAddress)
    requires off + 6 <= |b|
    ensures p.octets == b[off..off + 4] && p.port == BE(b[off + 4..off + 6])
  {
    PeerAddress(b[off..off + 4], U16At(b, off + 4))
  }

  /** The whole six-byte entries of b, in order; a trailing partial entry
      contributes nothing. */
  function Decode(b: seq<byte>): (ps: seq<PeerAddress>)
    decreases |b|
  {
    if |b| < 6 then [] else [EntryAt(b, 0)] + Decode(b[6..])
  }

  /** One peer per whole entry. */
  lemma {:induction false} DecodeLength(b: seq<byte>)
    ensures |Decode(b)| == |b| / 6
    decreases |b|
  {
    if |b| >= 6 {
      DecodeLength(b[6..]);
    }
  }

  /** The k-th decoded peer is the one stored at byte 6k. */
  lemma {:induction false} DecodeAt(b: seq<byte>, k: nat)
    requires k < |b| / 6
    ensures 6 * k + 6 <= |b| && k < |Decode(b)| && Decode(b)[k] == EntryAt(b, 6 * k)
    decreases k
  {
    DecodeLength(b);
    if k > 0 {
      var rest := b[6..];
      assert |rest| / 6 == |b| / 6 - 1;
      DecodeAt(rest, k - 1);
      assert Decode(b) == [EntryAt(b, 0)] + Decode(rest);
      EntryShift(b, 6 * (k - 1));
    }
  }

  /** The entry at off after dropping six bytes is the one at off + 6. */
  lemma EntryShift(b: seq<byte>, off: nat)
    requires off + 12 <= |b|
    ensures EntryAt(b[6..], off) == EntryAt(b, off + 6)
  {
    assert b[6..][off..off + 4] == b[off + 6..off + 10];
    assert b[6..][off + 4..off + 6] == b[off + 10..off + 12];
  }

  /** The entries from byte i on: the one at i, then the rest. */
  lemma DecodeStep(b: seq<byte>, i: nat)
    requires i + 6 <= |b|
    ensures Decode(b[i..]) == [EntryAt(b, i)] + Decode(b[i + 6..])
  {
    var rest := b[i..];
    assert rest[6..] == b[i + 6..];
    assert rest[0..4] == b[i..i + 4];
    assert rest[4..6] == b[i + 4..i + 6];
    assert EntryAt(rest, 0) == EntryAt(b, i);
  }

  function EncodeOne(p: PeerAddress): (b: seq<byte>)
    ensures |b| == 6
  {
    p.octets + ToBE(p.port, 2)
  }

  /** The tracker side: the compact list for a sequence of peers. */
  function Encode(ps: seq<PeerAddress>): (b: seq<byte>)
    ensures |b| == 6 * |ps|
  {
    if ps == [] then [] else EncodeOne(ps[0]) + Encode(ps[1..])
  }

  /** Decoding an encoded list, with any partial entry after it, gives the
      list back. */
  lemma {:induction false} DecodeEncode(ps: seq<PeerAddress>, tail: seq<byte>)
    requires |tail| < 6
    ensures Decode(Encode(ps) + tail) == ps
  {
    if ps == [] {
      assert Encode(ps) + tail == tail;
    } else {
      var b := Encode(ps) + tail;
      var first := EncodeOne(ps[0]);
      assert b == first + (Encode(ps[1..]) + tail);
      assert b[6..] == Encode(ps[1..]) + tail;
      DecodeEncode(ps[1..], tail);
      FieldSizes();
      BEOfToBE(ps[0].port, 2);
      assert b[0..4] == ps[0].octets;
      assert b[4..6] == ToBE(ps[0].port, 2);
      assert EntryAt(b, 0) == ps[0];
    }
  }
}
