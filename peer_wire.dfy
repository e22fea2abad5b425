/** The peer side of a download (backend/peer-manager.js): the BitTorrent
    handshake, the length-prefixed messages of the peer wire protocol
    (BEP 3), the have/bitfield bookkeeping of what each peer offers, block
    requests, and the piece counter that drives progress notices. */
module PeerWire {
  import opened Bytes
  import CompactPeers
  import JsValues

  const BlockSize: nat := 16384
  const ProtocolName: string := "BitTorrent protocol"
  /** The length the client demands of a peer's handshake reply. */
  const HandshakeReplyLength: nat := 68

  const ChokeId: byte := 0
  const UnchokeId: byte := 1
  const InterestedId: byte := 2
  const HaveId: byte := 4
  const BitfieldId: byte := 5
  const RequestId: byte := 6
  const PieceId: byte := 7

  // ---------------------------------------------------------------------
  // Handshake

  lemma HexIsLatin1(s: string)
    requires forall k :: 0 <= k < |s| ==> IsHexChar(s[k])
    ensures IsLatin1(s)
  {
  }

  /** The peer id `createHandshake` builds, as written: `-MT0001` (seven
      characters, no closing dash) and the first 12 hex digits of 12
      random bytes, so 19 bytes. */
  function HandshakePeerIdAsWritten(random: seq<byte>): (r: seq<byte>)
    requires |random| == 12
    ensures |r| == 19 && r[..7] == Latin1Bytes("-MT0001")
    ensures HexDecode(BinaryString(r[7..])) == random[..6]
  {
    var hex := HexLower(random)[..12];
    HexIsLatin1(hex);
    var text := "-MT0001" + hex;
    assert IsLatin1(text);
    var r := Latin1Bytes(text);
    assert text[7..] == hex && BinaryString(r[7..]) == hex;
    HexLowerPrefix(random, 6);
    HexDecodeOfHexLower(random[..6]);
    r
  }

  /** The 20-byte peer id: `-MT0001-` and the first 12 hex digits. */
  function HandshakePeerId(random: seq<byte>): (r: seq<byte>)
    requires |random| == 12
    ensures |r| == 20 && r[..8] == Latin1Bytes("-MT0001-")
    ensures HexDecode(BinaryString(r[8..])) == random[..6]
  {
    var hex := HexLower(random)[..12];
    HexIsLatin1(hex);
    var text := "-MT0001-" + hex;
    assert IsLatin1(text);
    var r := Latin1Bytes(text);
    assert text[8..] == hex && BinaryString(r[8..]) == hex;
    HexLowerPrefix(random, 6);
    HexDecodeOfHexLower(random[..6]);
    r
  }

  function HandshakeWith(infoHash: seq<byte>, peerId: seq<byte>): seq<byte> {
    [19] + Latin1Bytes(ProtocolName) + Zeros(8) + infoHash + peerId
  }

  /** `createHandshake` as written, and as `connectToPeer` sends it: length
      byte 19, the protocol name, 8 reserved zero bytes, the info hash and
      the 19-byte peer id. With a 20-byte info hash it is 67 bytes, one
      short of what the client itself requires of a reply. */
  function HandshakeAsWritten(infoHash: seq<byte>, random: seq<byte>): (r: seq<byte>)
    requires |random| == 12
    ensures |r| == 47 + |infoHash|
    ensures r[0] == 19 && r[1..20] == Latin1Bytes(ProtocolName) && r[20..28] == Zeros(8)
    ensures r[28..28 + |infoHash|] == infoHash && r[28 + |infoHash|..] == HandshakePeerIdAsWritten(random)
    ensures |infoHash| == 20 ==> |r| < HandshakeReplyLength
  {
    var r := HandshakeWith(infoHash, HandshakePeerIdAsWritten(random));
    assert r == [19] + Latin1Bytes(ProtocolName) + Zeros(8) + infoHash + HandshakePeerIdAsWritten(random);
    r
  }

  /** The handshake: length byte 19, the protocol name, 8 reserved zero
      bytes, the info hash and a 20-byte peer id; with a 20-byte info hash
      it is exactly the 68 bytes a reply must have. */
  function Handshake(infoHash: seq<byte>, random: seq<byte>): (r: seq<byte>)
    requires |random| == 12
    ensures |r| == 48 + |infoHash|
    ensures r[0] == 19 && r[1..20] == Latin1Bytes(ProtocolName) && r[20..28] == Zeros(8)
    ensures r[28..28 + |infoHash|] == infoHash && r[28 + |infoHash|..] == HandshakePeerId(random)
    ensures |infoHash| == 20 ==> |r| == HandshakeReplyLength
  {
    var r := HandshakeWith(infoHash, HandshakePeerId(random));
    assert r == [19] + Latin1Bytes(ProtocolName) + Zeros(8) + infoHash + HandshakePeerId(random);
    r
  }

  // ---------------------------------------------------------------------
  // Messages

  /** A message of the peer wire protocol: its id and its payload. */
  datatype Message = Message(id: byte, payload: seq<byte>)

  /** The messages `processMessages` finds in one data buffer, in order:
      four-byte big-endian length prefixes, a zero length being a
      keep-alive that is skipped; a message cut short ends the scan and its
      bytes are dropped. */
  function Frames(data: seq<byte>): seq<Message>
    decreases |data|
  {
    if |data| < 4 then []
    else
      var length := U32At(data, 0);
      if length == 0 then Frames(data[4..])
      else if 4 + length > |data| then []
      else [Message(data[4], data[5..4 + length])] + Frames(data[4 + length..])
  }

  /** A keep-alive at offset is skipped. */
  lemma FramesKeepAlive(data: seq<byte>, offset: nat)
    requires offset + 4 <= |data| && U32At(data, offset) == 0
    ensures Frames(data[offset..]) == Frames(data[offset + 4..])
  {
    assert data[offset..][0..4] == data[offset..offset + 4];
    assert data[offset..][4..] == data[offset + 4..];
  }

  /** A message cut short at offset ends the scan. */
  lemma FramesCut(data: seq<byte>, offset: nat)
    requires offset + 4 <= |data| && 0 < U32At(data, offset) && offset + 4 + U32At(data, offset) > |data|
    ensures Frames(data[offset..]) == []
  {
    assert data[offset..][0..4] == data[offset..offset + 4];
  }

  /** A whole message at offset is the next frame. */
  lemma FramesMessage(data: seq<byte>, offset: nat)
    requires offset + 4 <= |data| && 0 < U32At(data, offset) && offset + 4 + U32At(data, offset) <= |data|
    ensures var length := U32At(data, offset);
      Frames(data[offset..])
        == [Message(data[offset + 4], data[offset + 5..offset + 4 + length])] + Frames(data[offset + 4 + length..])
  {
    var rest := data[offset..];
    var length := U32At(data, offset);
    assert rest[0..4] == data[offset..offset + 4];
    assert U32At(rest, 0) == length;
    assert Frames(rest) == [Message(rest[4], rest[5..4 + length])] + Frames(rest[4 + length..]);
    assert rest[4] == data[offset + 4];
    assert rest[5..4 + length] == data[offset + 5..offset + 4 + length];
    assert rest[4 + length..] == data[offset + 4 + length..];
  }

  predicate Encodable(m: Message) {
    |m.payload| < 0xFFFF_FFFF
  }

  /** The bytes of one message on the wire. */
  function EncodeMessage(m: Message): (r: seq<byte>)
    requires Encodable(m)
    ensures |r| == 5 + |m.payload|
  {
    ToBE(1 + |m.payload|, 4) + [m.id] + m.payload
  }

  function EncodeAll(ms: seq<Message>): seq<byte>
    requires forall i :: 0 <= i < |ms| ==> Encodable(ms[i])
  {
    if ms == [] then [] else EncodeMessage(ms[0]) + EncodeAll(ms[1..])
  }

  /** The fields of one encoded message in front of any bytes. */
  lemma EncodedFields(m: Message, rest: seq<byte>)
    requires Encodable(m)
    ensures var d := EncodeMessage(m) + rest;
      && U32At(d, 0) == 1 + |m.payload| && d[4] == m.id
      && d[5..5 + |m.payload|] == m.payload && d[5 + |m.payload|..] == rest
  {
    var d := EncodeMessage(m) + rest;
    U32Field([], 1 + |m.payload|, [m.id] + m.payload + rest);
    assert [] + ToBE(1 + |m.payload|, 4) + ([m.id] + m.payload + rest) == d;
  }

  /** One encoded message in front of any bytes is found first. */
  lemma FramesOfOne(m: Message, rest: seq<byte>)
    requires Encodable(m)
    ensures Frames(EncodeMessage(m) + rest) == [m] + Frames(rest)
  {
    EncodedFields(m, rest);
  }

  /** Messages written back to back, followed by bytes holding no whole
      message, are found again in order. */
  lemma {:induction false} FramesOfEncoded(ms: seq<Message>, tail: seq<byte>)
    requires forall i :: 0 <= i < |ms| ==> Encodable(ms[i])
    requires Frames(tail) == []
    ensures Frames(EncodeAll(ms) + tail) == ms
  {
    if ms == [] {
      assert EncodeAll(ms) + tail == tail;
    } else {
      var rest := EncodeAll(ms[1..]) + tail;
      assert EncodeAll(ms) + tail == EncodeMessage(ms[0]) + rest;
      FramesOfOne(ms[0], rest);
      FramesOfEncoded(ms[1..], tail);
    }
  }

  /** Four zero bytes (a keep-alive) are skipped. */
  lemma KeepAliveSkipped(rest: seq<byte>)
    ensures Frames([0, 0, 0, 0] + rest) == Frames(rest)
  {
    var d: seq<byte> := [0, 0, 0, 0] + rest;
    assert d[0..4] == [0, 0, 0, 0] == ToBE(0, 4);
    BEOfToBE(0, 4);
    assert d[4..] == rest;
  }

  /** A message cut anywhere before its end yields nothing: the bytes that
      arrived are not kept for the next data event. */
  lemma CutMessageDropped(m: Message, cut: nat)
    requires Encodable(m) && cut < 5 + |m.payload|
    ensures Frames(EncodeMessage(m)[..cut]) == []
  {
    var d := EncodeMessage(m)[..cut];
    if cut >= 4 {
      FieldSizes();
      BEOfToBE(1 + |m.payload|, 4);
      assert d[0..4] == EncodeMessage(m)[0..4] == ToBE(1 + |m.payload|, 4);
    }
  }

  /** The message id as `processMessages` reads it as written: a
      big-endian u32 at offset 4 of the frame instead of the single id
      byte; None is the RangeError past the end of the buffer, which
      abandons the rest of the buffer. */
  function MessageIdAsWritten(data: seq<byte>, off: nat): (r: Option<u32>)
    requires off + 4 <= |data|
    ensures r.Some? <==> off + 8 <= |data|
    ensures r.Some? ==> r.value == BE(data[off + 4..off + 8])
  {
    if off + 8 <= |data| then Some(U32At(data, off + 4)) else None
  }

  /** The bytes of an unchoke followed by a have of piece 3. */
  lemma UnchokeThenHave()
    ensures EncodeAll([Message(UnchokeId, []), Message(HaveId, [0, 0, 0, 3])])
      == [0, 0, 0, 1, 1, 0, 0, 0, 5, 4, 0, 0, 0, 3]
  {
    var ms := [Message(UnchokeId, []), Message(HaveId, [0, 0, 0, 3])];
    assert ToBE(1, 4) == [0, 0, 0, 1];
    assert ToBE(5, 4) == [0, 0, 0, 5];
    assert EncodeAll(ms[1..]) == EncodeMessage(ms[1]) + EncodeAll(ms[2..]);
    assert ms[2..] == [];
  }

  /** An unchoke followed by a have message: read as written, the first
      id is 0x01000000 (an unknown message); a lone unchoke raises a
      RangeError. */
  lemma UnchokeMisreadAsWritten()
    ensures var d: seq<byte> := [0, 0, 0, 1, 1, 0, 0, 0, 5, 4, 0, 0, 0, 3];
      && d == EncodeAll([Message(UnchokeId, []), Message(HaveId, [0, 0, 0, 3])])
      && MessageIdAsWritten(d, 0) == Some(0x0100_0000)
    ensures MessageIdAsWritten(EncodeMessage(Message(UnchokeId, [])), 0) == None
  {
    var d: seq<byte> := [0, 0, 0, 1, 1, 0, 0, 0, 5, 4, 0, 0, 0, 3];
    UnchokeThenHave();
    BE4(d[4..8]);
  }

  /** Read as one byte, the same bytes are an unchoke and a have. */
  lemma UnchokeReadAsOneByte()
    ensures Frames([0, 0, 0, 1, 1, 0, 0, 0, 5, 4, 0, 0, 0, 3])
      == [Message(UnchokeId, []), Message(HaveId, [0, 0, 0, 3])]
  {
    var ms := [Message(UnchokeId, []), Message(HaveId, [0, 0, 0, 3])];
    UnchokeThenHave();
    FramesOfEncoded(ms, []);
    assert EncodeAll(ms) + [] == EncodeAll(ms);
  }

  /** `sendInterestedMessage`: length 1, id 2. */
  function Interested(): (r: seq<byte>)
    ensures r == EncodeMessage(Message(InterestedId, []))
  {
    assert ToBE(1, 4) == [0, 0, 0, 1];
    [0, 0, 0, 1, 2]
  }

  // ---------------------------------------------------------------------
  // Bitfield

  /** Bit k (0 the least significant) of v: `v & (1 << k)` is non-zero. */
  predicate Bit(v: nat, k: nat) {
    if k == 0 then v % 2 == 1 else Bit(v / 2, k - 1)
  }

  /** Piece i is advertised by bit 7 - i mod 8 of byte i div 8. */
  predicate Advertised(data: seq<byte>, i: nat)
    requires i < 8 * |data|
  {
    Bit(data[i / 8], 7 - i % 8)
  }

  /** The pieces a bitfield advertises among the first n. */
  function BitfieldPieces(data: seq<byte>, n: nat): set<nat> {
    set i: nat | i < n && i < 8 * |data| && Advertised(data, i)
  }

  /** Eight flags packed most significant first. */
  function Pack(bits: seq<bool>): nat {
    if bits == [] then 0 else Pack(bits[..|bits| - 1]) * 2 + (if bits[|bits| - 1] then 1 else 0)
  }

  lemma {:induction false} PackBound(bits: seq<bool>)
    requires |bits| <= 8
    ensures Pack(bits) < 256
    ensures |bits| <= 7 ==> Pack(bits) < 128
    ensures |bits| <= 6 ==> Pack(bits) < 64
    ensures |bits| <= 5 ==> Pack(bits) < 32
    ensures |bits| <= 4 ==> Pack(bits) < 16
    ensures |bits| <= 3 ==> Pack(bits) < 8
    ensures |bits| <= 2 ==> Pack(bits) < 4
    ensures |bits| <= 1 ==> Pack(bits) < 2
  {
    if bits != [] {
      PackBound(bits[..|bits| - 1]);
    }
  }

  lemma {:induction false} PackBit(bits: seq<bool>, k: nat)
    requires k < |bits|
    ensures Bit(Pack(bits), k) == bits[|bits| - 1 - k]
    decreases k
  {
    var init := bits[..|bits| - 1];
    assert Pack(bits) / 2 == Pack(init);
    if k > 0 {
      PackBit(init, k - 1);
    }
  }

  /** The eight flags of byte i of the bitfield of `have`, padded with
      false past its end. */
  function Chunk(have: seq<bool>): (c: seq<bool>)
    ensures |c| == 8
    ensures forall b :: 0 <= b < 8 ==> c[b] == (b < |have| && have[b])
  {
    if |have| >= 8 then have[..8] else have + seq(8 - |have|, _ => false)
  }

  /** The bitfield message payload a peer owning `have` sends. */
  function EncodeBitfield(have: seq<bool>): (r: seq<byte>)
    ensures |r| == (|have| + 7) / 8
    decreases |have|
  {
    if have == [] then []
    else
      PackBound(Chunk(have));
      [Pack(Chunk(have))] + EncodeBitfield(have[if |have| >= 8 then 8 else |have|..])
  }

  lemma {:induction false} EncodeBitfieldAt(have: seq<bool>, i: nat)
    requires i < |have|
    ensures i < 8 * |EncodeBitfield(have)| && Advertised(EncodeBitfield(have), i) == have[i]
    decreases |have|
  {
    var e := EncodeBitfield(have);
    if i < 8 {
      PackBit(Chunk(have), 7 - i);
      assert e[0] == Pack(Chunk(have));
    } else {
      var rest := have[8..];
      EncodeBitfieldAt(rest, i - 8);
      assert e[1..] == EncodeBitfield(rest);
      assert (i - 8) / 8 == i / 8 - 1 && (i - 8) % 8 == i % 8;
      assert e[i / 8] == EncodeBitfield(rest)[(i - 8) / 8];
    }
  }

  /** A peer's bitfield announces exactly the pieces it has. */
  lemma BitfieldRoundTrip(have: seq<bool>)
    ensures BitfieldPieces(EncodeBitfield(have), |have|) == set i: nat | i < |have| && have[i]
  {
    var e := EncodeBitfield(have);
    forall i: nat | i < |have|
      ensures i in BitfieldPieces(e, |have|) <==> have[i]
    {
      EncodeBitfieldAt(have, i);
    }
  }

  /** `parseBitfield`: every advertised piece below n joins the peer's set. */
  method ParseBitfield(data: seq<byte>, n: nat, pieces: set<nat>) returns (r: set<nat>)
    ensures r == pieces + BitfieldPieces(data, n)
  {
    r := pieces;
    var i := 0;
    while i < |data|
      invariant 0 <= i <= |data|
      invariant r == pieces + (set j: nat | j < n && j < 8 * i && Advertised(data, j))
    {
      var byte := data[i];
      var bit := 0;
      while bit < 8
        invariant 0 <= bit <= 8
        invariant r == pieces + (set j: nat | j < n && j < 8 * i + bit && Advertised(data, j))
      {
        var pieceIndex := i * 8 + bit;
        assert pieceIndex / 8 == i && pieceIndex % 8 == bit;
        ghost var before := set j: nat | j < n && j < 8 * i + bit && Advertised(data, j);
        ghost var after := set j: nat | j < n && j < 8 * i + bit + 1 && Advertised(data, j);
        if pieceIndex < n && Bit(byte, 7 - bit) {
          r := r + {pieceIndex};
          assert after == before + {pieceIndex};
        } else {
          assert after == before;
        }
        bit := bit + 1;
      }
      i := i + 1;
    }
    assert BitfieldPieces(data, n) == set j: nat | j < n && j < 8 * |data| && Advertised(data, j);
  }

  // ---------------------------------------------------------------------
  // Block requests

  /** A request message: length 13, id 6, piece index, block offset, block length. */
  function RequestMessage(index: u32, begin: u32, length: u32): (r: seq<byte>)
    ensures |r| == 17
  {
    [0, 0, 0, 13] + [RequestId] + ToBE(index, 4) + ToBE(begin, 4) + ToBE(length, 4)
  }

  /** A request message reads back as its length prefix, its id and the
      three fields it was built from. */
  lemma RequestMessageFields(index: u32, begin: u32, length: u32)
    ensures var r := RequestMessage(index, begin, length);
      U32At(r, 0) == 13 && r[4] == RequestId
      && U32At(r, 5) == index && U32At(r, 9) == begin && U32At(r, 13) == length
  {
    var prefix: seq<byte> := [0, 0, 0, 13];
    var i := ToBE(index, 4);
    var b := ToBE(begin, 4);
    var l := ToBE(length, 4);
    BE4(prefix);
    assert (prefix + [RequestId] + i + b + l)[0..4] == prefix;
    U32Field(prefix + [RequestId], index, b + l);
    assert prefix + [RequestId] + i + (b + l) == prefix + [RequestId] + i + b + l;
    U32Field(prefix + [RequestId] + i, begin, l);
    U32Field(prefix + [RequestId] + i + b, length, []);
    assert prefix + [RequestId] + i + b + l + [] == prefix + [RequestId] + i + b + l;
  }

  /** One block of a piece: where it starts and how long it is. */
  datatype Block = Block(begin: u32, length: u32)

  function Min(a: nat, b: nat): nat {
    if a < b then a else b
  }

  /** The blocks `requestPiece` asks for from begin on: 16 KiB each, the
      last one shorter. A piece length fits the u32 fields of a request. */
  function BlocksFrom(begin: nat, pieceLength: nat): seq<Block>
    requires pieceLength < 0x1_0000_0000
    decreases pieceLength - begin
  {
    if begin >= pieceLength then []
    else [Block(begin, Min(BlockSize, pieceLength - begin))] + BlocksFrom(begin + BlockSize, pieceLength)
  }

  /** When the blocks from begin are the suffix of blocks at k, the k-th
      block starts at begin and the rest follow it. */
  lemma BlocksSuffixStep(blocks: seq<Block>, k: nat, begin: nat, pieceLength: nat)
    requires pieceLength < 0x1_0000_0000 && begin < pieceLength
    requires k <= |blocks| && BlocksFrom(begin, pieceLength) == blocks[k..]
    ensures k < |blocks| && blocks[k] == Block(begin, Min(BlockSize, pieceLength - begin))
    ensures BlocksFrom(begin + BlockSize, pieceLength) == blocks[k + 1..]
  {
    var rest := BlocksFrom(begin + BlockSize, pieceLength);
    assert blocks[k..] == [Block(begin, Min(BlockSize, pieceLength - begin))] + rest;
    assert blocks[k..][0] == blocks[k];
    assert blocks[k..][1..] == blocks[k + 1..];
  }

  function Blocks(pieceLength: nat): seq<Block>
    requires pieceLength < 0x1_0000_0000
  {
    BlocksFrom(0, pieceLength)
  }

  function TotalLength(bs: seq<Block>): nat {
    if bs == [] then 0 else bs[0].length + TotalLength(bs[1..])
  }

  /** The blocks of a piece follow one another without gap or overlap,
      each at most 16 KiB, and together they cover the piece exactly. */
  lemma {:induction false} BlocksCoverPiece(begin: nat, pieceLength: nat)
    requires begin <= pieceLength < 0x1_0000_0000
    ensures TotalLength(BlocksFrom(begin, pieceLength)) == pieceLength - begin
    ensures |BlocksFrom(begin, pieceLength)| == (pieceLength - begin + BlockSize - 1) / BlockSize
    ensures forall k :: 0 <= k < |BlocksFrom(begin, pieceLength)| ==>
      var b := BlocksFrom(begin, pieceLength)[k];
      b.begin == begin + k * BlockSize && 0 < b.length <= BlockSize && b.begin + b.length <= pieceLength
    decreases pieceLength - begin
  {
    var bs := BlocksFrom(begin, pieceLength);
    if begin < pieceLength {
      if begin + BlockSize <= pieceLength {
        BlocksCoverPiece(begin + BlockSize, pieceLength);
        var rest := BlocksFrom(begin + BlockSize, pieceLength);
        assert bs[1..] == rest;
        forall k | 0 < k < |bs| ensures bs[k].begin == begin + k * BlockSize {
          assert bs[k] == rest[k - 1];
        }
      } else {
        assert BlocksFrom(begin + BlockSize, pieceLength) == [];
        assert bs == [Block(begin, pieceLength - begin)];
      }
    }
  }

  /** A socket write to one peer. */
  datatype Sent = Sent(peer: string, bytes: seq<byte>)

  /** The request messages for a sequence of blocks of piece index. */
  function Requests(peer: string, index: u32, bs: seq<Block>): (r: seq<Sent>)
    ensures |r| == |bs|
  {
    if bs == [] then [] else [Sent(peer, RequestMessage(index, bs[0].begin, bs[0].length))] + Requests(peer, index, bs[1..])
  }

  /** The k-th request asks for the k-th block. */
  lemma {:induction false} RequestsAt(peer: string, index: u32, bs: seq<Block>, k: nat)
    requires k < |bs|
    ensures Requests(peer, index, bs)[k] == Sent(peer, RequestMessage(index, bs[k].begin, bs[k].length))
    decreases k
  {
    if k > 0 {
      RequestsAt(peer, index, bs[1..], k - 1);
    }
  }

  /** Requests for one more block append one more message. */
  lemma {:induction false} RequestsSnoc(peer: string, index: u32, bs: seq<Block>, k: nat)
    requires k < |bs|
    ensures Requests(peer, index, bs[..k + 1])
      == Requests(peer, index, bs[..k]) + [Sent(peer, RequestMessage(index, bs[k].begin, bs[k].length))]
    decreases k
  {
    if k > 0 {
      RequestsSnoc(peer, index, bs[1..], k - 1);
      assert bs[..k + 1][1..] == bs[1..][..k];
      assert bs[..k][1..] == bs[1..][..k - 1];
    } else {
      assert bs[..1][1..] == [];
    }
  }

  /** One pass of requestPiece's loop: the block at begin is the next
      block, and its request the next message. */
  lemma RequestStep(peer: string, index: u32, blocks: seq<Block>, k: nat, begin: nat, pieceLength: nat)
    requires pieceLength < 0x1_0000_0000 && begin < pieceLength
    requires k <= |blocks| && BlocksFrom(begin, pieceLength) == blocks[k..]
    ensures k < |blocks| && BlocksFrom(begin + BlockSize, pieceLength) == blocks[k + 1..]
    ensures Requests(peer, index, blocks[..k + 1])
      == Requests(peer, index, blocks[..k]) + [Sent(peer, RequestMessage(index, begin, Min(BlockSize, pieceLength - begin)))]
  {
    BlocksSuffixStep(blocks, k, begin, pieceLength);
    RequestsSnoc(peer, index, blocks, k);
  }

  /** Every request `requestPiece` writes for piece index, in order. */
  function PieceRequests(peer: string, index: u32, pieceLength: nat): (r: seq<Sent>)
    requires pieceLength < 0x1_0000_0000
  {
    Requests(peer, index, Blocks(pieceLength))
  }

  /** `requestPieces`: the lowest piece missing here that the peer has. */
  function FirstWanted(have: seq<bool>, offered: set<nat>): (r: Option<nat>)
    ensures r.Some? ==> r.value < |have| && !have[r.value] && r.value in offered
    ensures r.Some? ==> forall j :: 0 <= j < r.value ==> have[j] || j !in offered
    ensures r.None? ==> forall j :: 0 <= j < |have| ==> have[j] || j !in offered
    decreases |have|
  {
    if have == [] then None
    else
      var earlier := FirstWanted(have[..|have| - 1], offered);
      if earlier.Some? then earlier
      else if !have[|have| - 1] && |have| - 1 in offered then Some(|have| - 1)
      else None
  }

  /** The first wanted piece of a prefix that contains it is the first of
      the whole. */
  lemma {:induction false} FirstWantedPrefix(have: seq<bool>, offered: set<nat>, i: nat)
    requires i < |have| && !have[i] && i in offered
    requires FirstWanted(have[..i], offered).None?
    ensures FirstWanted(have, offered) == Some(i)
    decreases |have|
  {
    if i < |have| - 1 {
      assert have[..|have| - 1][..i] == have[..i];
      FirstWantedPrefix(have[..|have| - 1], offered, i);
    } else {
      assert have[..|have| - 1] == have[..i];
    }
  }

  // ---------------------------------------------------------------------
  // Piece counter and notices

  /** `Math.round(downloaded / total * 100)`, in exact arithmetic. */
  function Progress(downloaded: nat, total: nat): nat
    requires total > 0
  {
    (200 * downloaded + total) / (2 * total)
  }

  lemma MulMono(c: nat, a: nat, b: nat)
    requires a <= b
    ensures c * a <= c * b
  {
  }

  lemma MulCancel(c: nat, x: nat, y: nat)
    requires c > 0 && c * x < c * y
    ensures x < y
  {
    if x >= y {
      MulMono(c, y, x);
      assert false;
    }
  }

  /** Progress is the nearest integer to 100 * downloaded / total, halves
      rounded up. */
  lemma ProgressRounds(downloaded: nat, total: nat)
    requires total > 0
    ensures 2 * total * Progress(downloaded, total) <= 200 * downloaded + total
    ensures 200 * downloaded + total < 2 * total * (Progress(downloaded, total) + 1)
  {
    var a := 200 * downloaded + total;
    var c := 2 * total;
    var q := a / c;
    assert a == c * q + a % c;
    assert c * (q + 1) == c * q + c;
  }

  /** 0 before the first piece, 100 once all are in, never above 100, and
      it never goes back as pieces arrive. */
  lemma ProgressBounds(downloaded: nat, total: nat, later: nat)
    requires total > 0 && downloaded <= later
    ensures downloaded == 0 ==> Progress(downloaded, total) == 0
    ensures downloaded == total ==> Progress(downloaded, total) == 100
    ensures downloaded <= total ==> Progress(downloaded, total) <= 100
    ensures Progress(downloaded, total) <= Progress(later, total)
  {
    var p := Progress(downloaded, total);
    var p' := Progress(later, total);
    ProgressRounds(downloaded, total);
    ProgressRounds(later, total);
    MulCancel(2 * total, p, p' + 1);
    if downloaded <= total {
      assert 2 * total * p < 2 * total * 101;
      MulCancel(2 * total, p, 101);
    }
    if downloaded == total {
      assert 2 * total * 100 <= 200 * downloaded + total;
      MulCancel(2 * total, 99, p + 1);
    }
    if downloaded == 0 {
      assert 2 * total * p < 2 * total * 1;
      MulCancel(2 * total, p, 1);
    }
  }

  /** With 200 pieces, the 199th rounds to 100: the notices say
      "completed" and download-complete goes out while a piece is still
      missing. */
  lemma CompletionBeforeLastPiece()
    ensures Progress(199, 200) == 100
  {
  }

  // The counter as the constructor names it: it sets `downloadPieces`,
  // so `downloadedPieces` is never given a value before its first `++`.

  /** `counter++` done k times on a JavaScript number. An unset property
      is `undefined`, which `++` turns into NaN. */
  function CountUp(counter: JsValues.Number, k: nat): JsValues.Number {
    if k == 0 then counter
    else match CountUp(counter, k - 1)
      case Finite(v) => JsValues.Finite(v + 1.0)
      case other => other
  }

  /** `Math.round(counter / total * 100) === 100`: the status says
      "completed" and download-complete goes out. Multiplied out by
      2 * total, 99.5 <= 100 * counter / total < 100.5. */
  predicate ReportsComplete(counter: JsValues.Number, total: nat)
    requires total > 0
  {
    counter.Finite? && 199.0 * total as real <= 200.0 * counter.value < 201.0 * total as real
  }

  /** Counting from 0, the counter is the number of pieces counted. */
  lemma {:induction false} CountUpFromZero(k: nat)
    ensures CountUp(JsValues.Finite(0.0), k) == JsValues.Finite(k as real)
  {
    if k > 0 {
      CountUpFromZero(k - 1);
    }
  }

  /** On a counter that is a whole number, the test agrees with Progress. */
  lemma ReportsCompleteOfCount(downloaded: nat, total: nat)
    requires total > 0
    ensures ReportsComplete(JsValues.Finite(downloaded as real), total) <==> Progress(downloaded, total) == 100
  {
    var p := Progress(downloaded, total);
    ProgressRounds(downloaded, total);
    if p == 100 {
      assert 199 * total <= 200 * downloaded < 201 * total;
    } else if 199 * total <= 200 * downloaded < 201 * total {
      MulCancel(2 * total, p, 101);
      MulCancel(2 * total, 99, p);
      assert false;
    }
  }

  /** As declared, the counter starts as `undefined`: after any number of
      pieces it is NaN, so every notice reports NaN as its progress and
      "downloading" as its status, and download-complete is never sent. */
  lemma {:induction false} CounterUnsetAsWritten(k: nat, total: nat)
    requires total > 0
    ensures CountUp(JsValues.NaN, k) == JsValues.NaN
    ensures !ReportsComplete(CountUp(JsValues.NaN, k), total)
  {
    if k > 0 {
      CounterUnsetAsWritten(k - 1, total);
    }
  }

  datatype Notice =
    | ProgressNotice(downloadId: string, progress: nat, downloadedPieces: nat, totalPieces: nat, completed: bool)
    | CompleteNotice(downloadId: string)

  /** The manager's download state: which pieces are in, the counter, and
      the notices sent so far. */
  datatype Board = Board(have: seq<bool>, downloaded: nat, notices: seq<Notice>)

  function CountTrue(s: seq<bool>): (c: nat)
    ensures c <= |s|
  {
    if s == [] then 0 else CountTrue(s[..|s| - 1]) + (if s[|s| - 1] then 1 else 0)
  }

  lemma {:induction false} CountTrueSet(s: seq<bool>, i: nat)
    requires i < |s| && !s[i]
    ensures CountTrue(s[i := true]) == CountTrue(s) + 1
  {
    var t := s[i := true];
    if i < |s| - 1 {
      assert t[..|t| - 1] == s[..|s| - 1][i := true];
      CountTrueSet(s[..|s| - 1], i);
    } else {
      assert t[..|t| - 1] == s[..|s| - 1];
    }
  }

  lemma {:induction false} CountTrueAll(s: seq<bool>)
    ensures CountTrue(s) == |s| <==> forall k :: 0 <= k < |s| ==> s[k]
  {
    if s != [] {
      CountTrueAll(s[..|s| - 1]);
      if !s[|s| - 1] {
        assert CountTrue(s) < |s|;
      }
    }
  }

  /** The counter counts the pieces that are in. */
  predicate Consistent(b: Board) {
    b.downloaded == CountTrue(b.have)
  }

  function Notices(downloadId: string, downloaded: nat, total: nat): seq<Notice>
    requires total > 0
  {
    var p := Progress(downloaded, total);
    [ProgressNotice(downloadId, p, downloaded, total, p == 100)] + (if p == 100 then [CompleteNotice(downloadId)] else [])
  }

  /** `handlePieceData`: a piece not yet in is marked, counted and
      announced; a piece already in, or an index past the last piece,
      changes nothing. */
  function Deliver(downloadId: string, b: Board, index: nat): (r: Board)
    ensures |r.have| == |b.have|
    ensures forall k :: 0 <= k < |b.have| ==> r.have[k] == (b.have[k] || k == index)
    ensures index < |b.have| && !b.have[index] ==>
      r.downloaded == b.downloaded + 1 && r.notices == b.notices + Notices(downloadId, b.downloaded + 1, |b.have|)
    ensures !(index < |b.have| && !b.have[index]) ==> r == b
  {
    if index < |b.have| && !b.have[index] then
      var downloaded := b.downloaded + 1;
      Board(b.have[index := true], downloaded, b.notices + Notices(downloadId, downloaded, |b.have|))
    else b
  }

  /** Delivery keeps the counter equal to the number of pieces in. */
  lemma DeliverKeepsCount(downloadId: string, b: Board, index: nat)
    requires Consistent(b)
    ensures Consistent(Deliver(downloadId, b, index))
  {
    if index < |b.have| && !b.have[index] {
      CountTrueSet(b.have, index);
    }
  }

  /** A block of a piece already in does nothing: delivery is idempotent. */
  lemma DeliverIdempotent(downloadId: string, b: Board, index: nat)
    ensures Deliver(downloadId, Deliver(downloadId, b, index), index) == Deliver(downloadId, b, index)
  {
  }

  /** The last missing piece brings progress to 100, a "completed" progress
      notice and a download-complete notice. */
  lemma LastPieceCompletes(downloadId: string, b: Board, index: nat)
    requires Consistent(b) && index < |b.have| && !b.have[index]
    requires b.downloaded + 1 == |b.have|
    ensures var r := Deliver(downloadId, b, index);
      && (forall k :: 0 <= k < |r.have| ==> r.have[k])
      && r.notices == b.notices + [ProgressNotice(downloadId, 100, |b.have|, |b.have|, true), CompleteNotice(downloadId)]
  {
    DeliverKeepsCount(downloadId, b, index);
    var r := Deliver(downloadId, b, index);
    CountTrueAll(r.have);
    ProgressBounds(|b.have|, |b.have|, |b.have|);
  }

  /** The index 2^32 - 1, the largest `readUInt32BE` gives, is not a
      JavaScript array index: assigning to it sets a plain property and
      leaves the length alone. */
  const NonIndex: nat := 0xFFFF_FFFF

  /** `handlePieceData` as written, on the piece array `have` and whether
      its non-index property is set. An index past the last piece grows
      the array to index + 1 (the gap reads as missing); the one index
      that is not an array index sets the property instead. Either way the
      counter goes up. */
  function DeliverAsWritten(have: seq<bool>, beyond: bool, downloaded: nat, index: u32): (r: (seq<bool>, bool, nat))
    ensures index == NonIndex ==>
      r == (have, true, if beyond then downloaded else downloaded + 1)
    ensures index != NonIndex && index < |have| ==>
      r.1 == beyond && |r.0| == |have| && r.0[index]
      && (forall k :: 0 <= k < |have| && k != index ==> r.0[k] == have[k])
      && r.2 == (if have[index] then downloaded else downloaded + 1)
    ensures index != NonIndex && index >= |have| ==>
      r.1 == beyond && |r.0| == index + 1 && r.0[..|have|] == have && r.0[index]
      && (forall k :: |have| <= k < index ==> !r.0[k])
      && r.2 == downloaded + 1
  {
    if index == NonIndex then (have, true, if beyond then downloaded else downloaded + 1)
    else if index < |have| then
      if !have[index] then (have[index := true], beyond, downloaded + 1) else (have, beyond, downloaded)
    else (have + seq(index - |have|, _ => false) + [true], beyond, downloaded + 1)
  }

  /** A one-piece download receiving a stray block for index 5 and then its
      only piece: as written, progress ends at 33 and no download-complete
      is ever sent; with the index checked, the stray block is ignored and
      the piece completes the download. */
  lemma StrayIndexAsWritten(downloadId: string)
    ensures var (h1, p1, d1) := DeliverAsWritten([false], false, 0, 5);
      var (h2, p2, d2) := DeliverAsWritten(h1, p1, d1, 0);
      |h2| == 6 && d2 == 2 && Progress(d2, |h2|) == 33
    ensures var b := Deliver(downloadId, Deliver(downloadId, Board([false], 0, []), 5), 0);
      b.have == [true] && b.notices == Notices(downloadId, 1, 1) && Progress(1, 1) == 100
  {
    var h1 := [false] + seq(4, _ => false) + [true];
    assert DeliverAsWritten([false], false, 0, 5) == (h1, false, 1);
    assert h1[0 := true] == [true, false, false, false, false, true];
  }

  /** A one-piece download receiving a block for index 2^32 - 1: as
      written, the length stays 1, the counter reaches 1 and progress 100,
      so the download is reported complete without its piece; with the
      index checked, nothing changes. */
  lemma NonIndexCompletesAsWritten(downloadId: string)
    ensures var (h, p, d) := DeliverAsWritten([false], false, 0, NonIndex);
      h == [false] && d == 1 && Progress(d, |h|) == 100
    ensures Deliver(downloadId, Board([false], 0, []), NonIndex) == Board([false], 0, [])
  {
  }

  // ---------------------------------------------------------------------
  // Handling messages

  /** What the client keeps per connected peer. */
  datatype PeerRecord = PeerRecord(handshakeReceived: bool, choked: bool, interested: bool, pieces: set<nat>)

  const FreshRecord := PeerRecord(false, true, false, {})

  /** A peer's record together with the download state. */
  datatype Outcome = Outcome(peer: PeerRecord, board: Board)

  /** `handleMessage` for one message. */
  function Apply(downloadId: string, o: Outcome, m: Message): Outcome {
    var p := m.payload;
    if m.id == ChokeId then Outcome(o.peer.(choked := true), o.board)
    else if m.id == UnchokeId then Outcome(o.peer.(choked := false), o.board)
    else if m.id == HaveId then
      if |p| >= 4 then Outcome(o.peer.(pieces := o.peer.pieces + {U32At(p, 0)}), o.board) else o
    else if m.id == BitfieldId then
      Outcome(o.peer.(pieces := o.peer.pieces + BitfieldPieces(p, |o.board.have|)), o.board)
    else if m.id == PieceId then
      if |p| >= 8 then Outcome(o.peer, Deliver(downloadId, o.board, U32At(p, 0))) else o
    else o
  }

  /** The messages of one buffer, handled in order. */
  function ApplyAll(downloadId: string, o: Outcome, ms: seq<Message>): Outcome
    decreases |ms|
  {
    if ms == [] then o else ApplyAll(downloadId, Apply(downloadId, o, ms[0]), ms[1..])
  }

  lemma ApplyAllCons(downloadId: string, o: Outcome, m: Message, ms: seq<Message>)
    ensures ApplyAll(downloadId, o, [m] + ms) == ApplyAll(downloadId, Apply(downloadId, o, m), ms)
  {
    assert ([m] + ms)[1..] == ms;
  }

  /** Handling any messages keeps the counter right, keeps every piece
      that is in, never forgets what a peer offers, and only adds notices. */
  lemma {:induction false} ApplyAllPreserves(downloadId: string, o: Outcome, ms: seq<Message>)
    requires Consistent(o.board)
    ensures var r := ApplyAll(downloadId, o, ms);
      && Consistent(r.board)
      && |r.board.have| == |o.board.have|
      && (forall k :: 0 <= k < |o.board.have| && o.board.have[k] ==> r.board.have[k])
      && o.peer.pieces <= r.peer.pieces
      && r.peer.handshakeReceived == o.peer.handshakeReceived
      && o.board.notices <= r.board.notices
    decreases |ms|
  {
    if ms != [] {
      var o1 := Apply(downloadId, o, ms[0]);
      if ms[0].id == PieceId && |ms[0].payload| >= 8 {
        DeliverKeepsCount(downloadId, o.board, U32At(ms[0].payload, 0));
      }
      assert o.board.notices <= o1.board.notices;
      ApplyAllPreserves(downloadId, o1, ms[1..]);
    }
  }

  /** Gathering the messages of two buffers handles them one after the other. */
  lemma {:induction false} ApplyAllAppend(downloadId: string, o: Outcome, a: seq<Message>, b: seq<Message>)
    ensures ApplyAll(downloadId, o, a + b) == ApplyAll(downloadId, ApplyAll(downloadId, o, a), b)
    decreases |a|
  {
    if a != [] {
      assert (a + b)[0] == a[0] && (a + b)[1..] == a[1..] + b;
      ApplyAllAppend(downloadId, Apply(downloadId, o, a[0]), a[1..], b);
    } else {
      assert a + b == b;
    }
  }

  /** An unchoke only changes the choke flag: it sends no request. */
  lemma UnchokeRequestsNothing(downloadId: string, o: Outcome, p: seq<byte>)
    ensures Apply(downloadId, o, Message(UnchokeId, p)) == Outcome(o.peer.(choked := false), o.board)
  {
  }

  // ---------------------------------------------------------------------
  // Peer keys

  /** `${peer.ip}:${peer.port}` */
  function PeerKey(p: CompactPeers.PeerAddress): string {
    p.Ip() + ":" + NatToString(p.port)
  }

  lemma {:induction false} IndexOfAfter(x: string, y: string, c: char)
    requires c !in x
    ensures c in x + [c] + y && IndexOf(x + [c] + y, c) == |x|
  {
    var s := x + [c] + y;
    assert s[|x|] == c;
    if x != [] {
      assert s[1..] == x[1..] + [c] + y;
      assert s[0] == x[0];
      IndexOfAfter(x[1..], y, c);
    }
  }

  /** Text split at the first separator splits the same way. */
  lemma SplitAtSeparator(x: string, y: string, x': string, y': string, c: char)
    requires c !in x && c !in x'
    requires x + [c] + y == x' + [c] + y'
    ensures x == x' && y == y'
  {
    var s := x + [c] + y;
    IndexOfAfter(x, y, c);
    IndexOfAfter(x', y', c);
    assert x == s[..|x|] && x' == s[..|x'|];
    assert y == s[|x| + 1..] && y' == s[|x'| + 1..];
  }

  lemma NoSeparatorInDigits(n: nat, c: char)
    requires !IsDigit(c)
    ensures c !in NatToString(n)
  {
  }

  lemma NatToStringInjective(a: nat, b: nat)
    requires NatToString(a) == NatToString(b)
    ensures a == b
  {
    DigitsValueOfNatToString(a);
    DigitsValueOfNatToString(b);
  }

  function Dotted(a: string, b: string, c: string, d: string, e: string): string {
    a + "." + b + "." + c + "." + d + ":" + e
  }

  lemma DottedSplit(a: string, b: string, c: string, d: string, e: string)
    ensures Dotted(a, b, c, d, e) == a + ['.'] + (b + ['.'] + (c + ['.'] + (d + [':'] + e)))
  {
  }

  lemma DottedInjective(a: string, b: string, c: string, d: string, e: string,
                        a': string, b': string, c': string, d': string, e': string)
    requires '.' !in a && '.' !in b && '.' !in c && ':' !in d
    requires '.' !in a' && '.' !in b' && '.' !in c' && ':' !in d'
    requires Dotted(a, b, c, d, e) == Dotted(a', b', c', d', e')
    ensures a == a' && b == b' && c == c' && d == d' && e == e'
  {
    DottedSplit(a, b, c, d, e);
    DottedSplit(a', b', c', d', e');
    SplitAtSeparator(a, b + ['.'] + (c + ['.'] + (d + [':'] + e)), a', b' + ['.'] + (c' + ['.'] + (d' + [':'] + e')), '.');
    SplitAtSeparator(b, c + ['.'] + (d + [':'] + e), b', c' + ['.'] + (d' + [':'] + e'), '.');
    SplitAtSeparator(c, d + [':'] + e, c', d' + [':'] + e', '.');
    SplitAtSeparator(d, e, d', e', ':');
  }

  /** Distinct peers get distinct keys, so the peer map holds one record
      per address and port. */
  lemma PeerKeyInjective(p: CompactPeers.PeerAddress, q: CompactPeers.PeerAddress)
    requires PeerKey(p) == PeerKey(q)
    ensures p == q
  {
    var po, qo := p.octets, q.octets;
    NoSeparatorInDigits(po[0], '.'); NoSeparatorInDigits(qo[0], '.');
    NoSeparatorInDigits(po[1], '.'); NoSeparatorInDigits(qo[1], '.');
    NoSeparatorInDigits(po[2], '.'); NoSeparatorInDigits(qo[2], '.');
    NoSeparatorInDigits(po[3], ':'); NoSeparatorInDigits(qo[3], ':');
    assert PeerKey(p) == Dotted(NatToString(po[0]), NatToString(po[1]), NatToString(po[2]), NatToString(po[3]), NatToString(p.port));
    assert PeerKey(q) == Dotted(NatToString(qo[0]), NatToString(qo[1]), NatToString(qo[2]), NatToString(qo[3]), NatToString(q.port));
    DottedInjective(NatToString(po[0]), NatToString(po[1]), NatToString(po[2]), NatToString(po[3]), NatToString(p.port),
                    NatToString(qo[0]), NatToString(qo[1]), NatToString(qo[2]), NatToString(qo[3]), NatToString(q.port));
    NatToStringInjective(po[0], qo[0]);
    NatToStringInjective(po[1], qo[1]);
    NatToStringInjective(po[2], qo[2]);
    NatToStringInjective(po[3], qo[3]);
    NatToStringInjective(p.port, q.port);
    assert po == qo;
  }

  lemma {:induction false} CountTrueNone(s: seq<bool>)
    requires forall k :: 0 <= k < |s| ==> !s[k]
    ensures CountTrue(s) == 0
  {
    if s != [] {
      CountTrueNone(s[..|s| - 1]);
    }
  }

  /** One timer `startDownload` sets: its delay in milliseconds and the
      peer it connects to; None when the index is past the peer list, where
      the callback throws on `peer.ip`. */
  datatype Scheduled = Scheduled(delay: nat, peer: Option<CompactPeers.PeerAddress>)

  /** `Math.min(5, length)` on JavaScript numbers; NaN stays NaN. An
      absent `torrent.length` (a multi-file torrent) is `undefined`, which
      `Math.min` reads as NaN. */
  function MinFive(length: JsValues.Number): (m: JsValues.Number)
    ensures !m.Infinity? && (m.Finite? ==> m.value <= 5.0)
    ensures m.NaN? <==> length.NaN?
  {
    match length
    case NaN => JsValues.NaN
    case Infinity => JsValues.Finite(5.0)
    case NegInfinity => JsValues.NegInfinity
    case Finite(v) => JsValues.Finite(if v < 5.0 then v else 5.0)
  }

  /** `i < m` for a whole number i and a JavaScript number m; every
      comparison with NaN is false. */
  predicate Below(i: nat, m: JsValues.Number) {
    match m
    case Finite(v) => (i as real) < v
    case Infinity => true
    case _ => false
  }

  /** How many timers `startDownload` sets for a length: none unless the
      length is positive, at most five, and otherwise the length rounded
      up. */
  function TimerCount(length: JsValues.Number): (n: nat)
    ensures n <= 5
    ensures n > 0 <==> length.Infinity? || (length.Finite? && length.value > 0.0)
    ensures length.Finite? && 0.0 < length.value <= 5.0 ==> (n - 1) as real < length.value <= n as real
    ensures length.Infinity? || (length.Finite? && length.value >= 5.0) ==> n == 5
  {
    match length
    case Finite(v) =>
      if v <= 0.0 then 0
      else if v >= 5.0 then 5
      else if v == v.Floor as real then v.Floor
      else v.Floor + 1
    case Infinity => 5
    case _ => 0
  }

  /** The loop test `i < Math.min(5, length)` holds exactly for the
      first TimerCount(length) values of i. */
  lemma BelowTimerCount(i: nat, length: JsValues.Number)
    ensures Below(i, MinFive(length)) <==> i < TimerCount(length)
  {
  }

  /** A whole length n sets min(5, n) timers. */
  lemma TimerCountOfWhole(n: nat)
    ensures TimerCount(JsValues.Finite(n as real)) == Min(5, n)
  {
  }

  function CeilDiv(a: nat, b: nat): nat
    requires b > 0
  {
    (a + b - 1) / b
  }

  class PeerManager {
    const downloadId: string
    const infoHash: seq<byte>
    const pieceLength: nat
    /** One flag per piece: in or not. */
    const pieces: array<bool>
    var downloadedPieces: nat
    var peers: map<string, PeerRecord>
    /** Every io.emit, in order. */
    var notices: seq<Notice>
    /** Every socket.write, in order. */
    var wire: seq<Sent>
    /** The peers whose socket the client destroyed. */
    var destroyed: set<string>

    ghost predicate Valid()
      reads this, pieces
    {
      && downloadedPieces == CountTrue(pieces[..])
      && pieces.Length <= 0x1_0000_0000
      && pieceLength < 0x1_0000_0000
    }

    function State(): Board
      reads this, pieces
    {
      Board(pieces[..], downloadedPieces, notices)
    }

    /** One flag per 20-byte hash in `pieces` (the last one possibly
        partial), all false, no peers yet. The source calls `Math.cell`,
        which does not exist; this is the `Math.ceil` it evidently means.
        Its counter is declared as `downloadPieces` but counted as
        `downloadedPieces`; here it is the one field downloadedPieces. */
    constructor(downloadId: string, infoHash: seq<byte>, piecesField: seq<byte>, pieceLength: nat)
      requires CeilDiv(|piecesField|, 20) < 0x1_0000_0000 && pieceLength < 0x1_0000_0000
      ensures Valid() && fresh(pieces)
      ensures this.downloadId == downloadId && this.infoHash == infoHash && this.pieceLength == pieceLength
      ensures pieces.Length == CeilDiv(|piecesField|, 20) && forall k :: 0 <= k < pieces.Length ==> !pieces[k]
      ensures downloadedPieces == 0 && peers == map[] && notices == [] && wire == [] && destroyed == {}
    {
      this.downloadId := downloadId;
      this.infoHash := infoHash;
      this.pieceLength := pieceLength;
      pieces := new bool[CeilDiv(|piecesField|, 20)](_ => false);
      downloadedPieces := 0;
      peers := map[];
      notices := [];
      wire := [];
      destroyed := {};
      new;
      CountTrueNone(pieces[..]);
    }

    /** The connect callback of `connectToPeer`: send the handshake that
        `createHandshake` builds, with its 19-byte peer id, and start a
        fresh record for the peer. */
    method OnConnected(key: string, random: seq<byte>)
      requires |random| == 12
      modifies this
      ensures peers == old(peers)[key := FreshRecord]
      ensures wire == old(wire) + [Sent(key, HandshakeAsWritten(infoHash, random))]
      ensures downloadedPieces == old(downloadedPieces) && notices == old(notices) && destroyed == old(destroyed)
    {
      wire := wire + [Sent(key, HandshakeAsWritten(infoHash, random))];
      peers := peers[key := FreshRecord];
    }

    /** The error and close callbacks: forget the peer. */
    method DropPeer(key: string)
      modifies this
      ensures peers == old(peers) - {key}
      ensures downloadedPieces == old(downloadedPieces) && notices == old(notices)
      ensures wire == old(wire) && destroyed == old(destroyed)
    {
      peers := peers - {key};
    }

    /** The timeout callback: destroy the socket and forget the peer. */
    method OnTimeout(key: string)
      modifies this
      ensures peers == old(peers) - {key} && destroyed == old(destroyed) + {key}
      ensures downloadedPieces == old(downloadedPieces) && notices == old(notices) && wire == old(wire)
    {
      destroyed := destroyed + {key};
      peers := peers - {key};
    }

    /** `handlePeerMessage`: data from an unknown peer is ignored; before
        the handshake, a buffer of at least 68 bytes is taken as the
        handshake reply (answered with an interested message, anything after
        it handled as messages) and a shorter one is dropped; afterwards
        every buffer is handled as messages. */
    method HandlePeerMessage(key: string, data: seq<byte>)
      requires Valid()
      modifies this, pieces
      ensures Valid() && destroyed == old(destroyed)
      ensures key !in old(peers) ==> peers == old(peers) && State() == old(State()) && wire == old(wire)
      ensures key in old(peers) ==>
        && peers.Keys == old(peers).Keys
        && (forall k :: k in peers && k != key ==> peers[k] == old(peers)[k])
        && var rec := old(peers)[key];
           if rec.handshakeReceived then
             && wire == old(wire)
             && Outcome(peers[key], State()) == ApplyAll(downloadId, Outcome(rec, old(State())), Frames(data))
           else if |data| >= HandshakeReplyLength then
             && wire == old(wire) + [Sent(key, Interested())]
             && Outcome(peers[key], State())
                == ApplyAll(downloadId, Outcome(rec.(handshakeReceived := true), old(State())), Frames(data[HandshakeReplyLength..]))
           else peers == old(peers) && State() == old(State()) && wire == old(wire)
    {
      if key !in peers {
        return;
      }
      var rec := peers[key];
      if !rec.handshakeReceived {
        if |data| >= HandshakeReplyLength {
          peers := peers[key := rec.(handshakeReceived := true)];
          SendInterestedMessage(key);
          if |data| > HandshakeReplyLength {
            ProcessMessages(key, data[HandshakeReplyLength..]);
          } else {
            assert Frames(data[HandshakeReplyLength..]) == [];
          }
        }
      } else {
        ProcessMessages(key, data);
      }
    }

    /** `processMessages`: the messages of one buffer, handled in order. */
    method ProcessMessages(key: string, data: seq<byte>)
      requires Valid() && key in peers
      modifies this, pieces
      ensures Valid() && key in peers
      ensures Outcome(peers[key], State()) == ApplyAll(downloadId, old(Outcome(peers[key], State())), Frames(data))
      ensures peers.Keys == old(peers).Keys && forall k :: k in peers && k != key ==> peers[k] == old(peers)[k]
      ensures wire == old(wire) && destroyed == old(destroyed)
    {
      ghost var goal := ApplyAll(downloadId, Outcome(peers[key], State()), Frames(data));
      var offset := 0;
      while offset < |data|
        invariant 0 <= offset <= |data|
        invariant Valid() && key in peers
        invariant ApplyAll(downloadId, Outcome(peers[key], State()), Frames(data[offset..])) == goal
        invariant peers.Keys == old(peers).Keys && forall k :: k in peers && k != key ==> peers[k] == old(peers)[k]
        invariant wire == old(wire) && destroyed == old(destroyed)
        decreases |data| - offset
      {
        if offset + 4 > |data| {
          break;
        }
        var messageLength := U32At(data, offset);
        if messageLength == 0 {
          FramesKeepAlive(data, offset);
          offset := offset + 4;
          continue;
        }
        if offset + 4 + messageLength > |data| {
          FramesCut(data, offset);
          break;
        }
        HandleFrame(key, data, offset, messageLength);
        offset := offset + 4 + messageLength;
      }
      assert Frames(data[offset..]) == [];
    }

    /** The message case of the processMessages loop: the id at offset + 4
        and the payload after it go to handleMessage. */
    method HandleFrame(key: string, data: seq<byte>, offset: nat, messageLength: nat)
      requires Valid() && key in peers
      requires offset + 4 + messageLength <= |data| && 0 < messageLength == U32At(data, offset)
      modifies this, pieces
      ensures Valid() && key in peers
      ensures ApplyAll(downloadId, Outcome(peers[key], State()), Frames(data[offset + 4 + messageLength..]))
        == ApplyAll(downloadId, old(Outcome(peers[key], State())), Frames(data[offset..]))
      ensures peers.Keys == old(peers).Keys && forall k :: k in peers && k != key ==> peers[k] == old(peers)[k]
      ensures wire == old(wire) && destroyed == old(destroyed)
    {
      var messageId := data[offset + 4];
      var messageData := data[offset + 5..offset + 4 + messageLength];
      FramesMessage(data, offset);
      ApplyAllCons(downloadId, Outcome(peers[key], State()), Message(messageId, messageData),
        Frames(data[offset + 4 + messageLength..]));
      HandleMessage(key, messageId, messageData);
    }

    /** `handleMessage`: choke and unchoke set the flag, have and bitfield
        add to what the peer offers, piece hands the piece index on. */
    method HandleMessage(key: string, messageId: byte, payload: seq<byte>)
      requires Valid() && key in peers
      modifies this, pieces
      ensures Valid() && key in peers
      ensures Outcome(peers[key], State()) == Apply(downloadId, old(Outcome(peers[key], State())), Message(messageId, payload))
      ensures peers.Keys == old(peers).Keys && forall k :: k in peers && k != key ==> peers[k] == old(peers)[k]
      ensures wire == old(wire) && destroyed == old(destroyed)
    {
      var rec := peers[key];
      if messageId == ChokeId {
        peers := peers[key := rec.(choked := true)];
      } else if messageId == UnchokeId {
        peers := peers[key := rec.(choked := false)];
      } else if messageId == HaveId {
        if |payload| >= 4 {
          var pieceIndex := U32At(payload, 0);
          peers := peers[key := rec.(pieces := rec.pieces + {pieceIndex})];
        }
      } else if messageId == BitfieldId {
        var offered := ParseBitfield(payload, pieces.Length, rec.pieces);
        peers := peers[key := rec.(pieces := offered)];
      } else if messageId == PieceId {
        if |payload| >= 8 {
          var pieceIndex := U32At(payload, 0);
          var blockOffset := U32At(payload, 4);
          HandlePieceData(pieceIndex, blockOffset, payload[8..]);
        }
      }
    }

    /** `handlePieceData`: the block's data is not kept; the piece is
        marked as in (see Deliver). */
    method HandlePieceData(pieceIndex: nat, blockOffset: nat, block: seq<byte>)
      requires Valid()
      modifies this, pieces
      ensures Valid()
      ensures State() == Deliver(downloadId, old(State()), pieceIndex)
      ensures peers == old(peers) && wire == old(wire) && destroyed == old(destroyed)
    {
      if pieceIndex < pieces.Length && !pieces[pieceIndex] {
        CountTrueSet(pieces[..], pieceIndex);
        pieces[pieceIndex] := true;
        downloadedPieces := downloadedPieces + 1;
        var progress := Progress(downloadedPieces, pieces.Length);
        notices := notices + [ProgressNotice(downloadId, progress, downloadedPieces, pieces.Length, progress == 100)];
        if progress == 100 {
          notices := notices + [CompleteNotice(downloadId)];
        }
      }
    }

    /** `sendInterestedMessage` */
    method SendInterestedMessage(key: string)
      modifies this
      ensures wire == old(wire) + [Sent(key, Interested())]
      ensures peers == old(peers) && downloadedPieces == old(downloadedPieces)
      ensures notices == old(notices) && destroyed == old(destroyed)
    {
      wire := wire + [Sent(key, Interested())];
    }

    /** `requestPieces`: nothing while choked; otherwise the blocks of the
        lowest missing piece the peer has. The source calls
        `requestPieces(i, peerConnection)` there, which throws on the
        number it takes for a connection; this is the `requestPiece` it
        evidently means. */
    method RequestPieces(key: string)
      requires Valid() && key in peers
      modifies this`wire
      ensures Valid()
      ensures peers[key].choked ==> wire == old(wire)
      ensures !peers[key].choked ==>
        wire == old(wire) + (match FirstWanted(pieces[..], peers[key].pieces)
                             case None => []
                             case Some(i) => PieceRequests(key, i, pieceLength))
    {
      var rec := peers[key];
      if rec.choked {
        return;
      }
      var i := 0;
      while i < pieces.Length
        invariant 0 <= i <= pieces.Length
        invariant FirstWanted(pieces[..i], rec.pieces).None?
        invariant wire == old(wire)
      {
        assert pieces[..i + 1][..i] == pieces[..i];
        if !pieces[i] && i in rec.pieces {
          FirstWantedPrefix(pieces[..], rec.pieces, i);
          RequestPiece(i, key);
          return;
        }
        i := i + 1;
      }
      assert pieces[..i] == pieces[..];
    }

    /** `requestPiece`: one request per 16 KiB block. */
    method RequestPiece(pieceIndex: u32, key: string)
      requires Valid()
      modifies this`wire
      ensures Valid()
      ensures wire == old(wire) + PieceRequests(key, pieceIndex, pieceLength)
    {
      ghost var blocks := Blocks(pieceLength);
      ghost var k := 0;
      var offset: nat := 0;
      while offset < pieceLength
        invariant k <= |blocks| && BlocksFrom(offset, pieceLength) == blocks[k..]
        invariant wire == old(wire) + Requests(key, pieceIndex, blocks[..k])
        decreases pieceLength - offset
      {
        var length := Min(BlockSize, pieceLength - offset);
        var message := RequestMessage(pieceIndex, offset, length);
        RequestStep(key, pieceIndex, blocks, k, offset, pieceLength);
        wire := wire + [Sent(key, message)];
        offset := offset + BlockSize;
        k := k + 1;
      }
      assert blocks[..k] == blocks;
    }

    /** `stopDownload`: destroy every peer's socket and forget them all. */
    method StopDownload()
      modifies this
      ensures peers == map[] && destroyed == old(destroyed) + old(peers).Keys
      ensures downloadedPieces == old(downloadedPieces) && notices == old(notices) && wire == old(wire)
    {
      destroyed := destroyed + peers.Keys;
      peers := map[];
    }

    /** `startDownload`: one timer, one second apart, for each whole i
        below `Math.min(5, torrent.length)`, connecting to the peer at
        index i. A length that is NaN (absent), zero or negative sets
        none. The peer list is read first (for its length, which is
        logged): when `torrent.peers` is absent that read throws a
        TypeError, and no timer is set. */
    method StartDownload(peerList: Option<seq<CompactPeers.PeerAddress>>, length: JsValues.Number)
      returns (thrown: bool, schedule: seq<Scheduled>)
      ensures thrown <==> peerList.None?
      ensures thrown ==> schedule == []
      ensures !thrown ==> |schedule| == TimerCount(length)
      ensures !thrown ==> forall i :: 0 <= i < |schedule| ==>
        schedule[i] == Scheduled(1000 * i, if i < |peerList.value| then Some(peerList.value[i]) else None)
    {
      schedule := [];
      if peerList.None? {
        return true, schedule;
      }
      thrown := false;
      var peers := peerList.value;
      var maxConnections := MinFive(length);
      var i: nat := 0;
      while Below(i, maxConnections)
        invariant i <= TimerCount(length)
        invariant |schedule| == i
        invariant forall j :: 0 <= j < i ==>
          schedule[j] == Scheduled(1000 * j, if j < |peers| then Some(peers[j]) else None)
        decreases 5 - i
      {
        BelowTimerCount(i, length);
        var peer := if i < |peers| then Some(peers[i]) else None;
        schedule := schedule + [Scheduled(i * 1000, peer)];
        i := i + 1;
      }
      BelowTimerCount(i, length);
    }
  }
}
