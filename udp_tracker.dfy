/** The UDP tracker client of BEP 15 (backend/udp-tracker.js).

    The socket is modelled by what the client sends (the `sent` log of
    datagrams) and by the sequence of callbacks it receives while a step
    is waiting: incoming datagrams, the send-error callback, the step's
    own timer and the global timer. Each step settles at most once; the
    `isResolved` flag of the source is the loop variable of
    `AwaitResponse`. */
module UdpTracker {
  import opened Bytes
  import opened JsValues
  import CompactPeers

  const ProtocolId: u64 := 0x41727101980
  const ActionConnect: u32 := 0
  const ActionAnnounce: u32 := 1
  const ActionError: u32 := 3
  const DefaultPort: u16 := 6881
  /** numwant = -1 written as a signed 32-bit value: its two's complement. */
  const NumWantDefault: u32 := 0xFFFF_FFFF
  const PeerIdPrefix: string := "-MT0001-"

  /** The fixed four-byte fields of an announce, as the bytes written. */
  const AnnounceActionField: seq<byte> := [0, 0, 0, 1]
  const ZeroField: seq<byte> := [0, 0, 0, 0]
  const NumWantField: seq<byte> := [0xFF, 0xFF, 0xFF, 0xFF]

  /** What the fixed fields read as; numwant is -1 as a signed value. */
  lemma FixedFields()
    ensures BE(AnnounceActionField) == ActionAnnounce && BE(ZeroField) == 0
    ensures BE(NumWantField) == NumWantDefault && I32(NumWantField) == -1
  {
    BE4(AnnounceActionField);
    BE4(ZeroField);
    BE4(NumWantField);
  }

  type Bytes20 = s: seq<byte> | |s| == 20 witness Zeros(20)

  /** Why a step rejected. `TrackerError` carries the bytes from offset 8
      of an action-3 datagram (the source turns them into text). */
  datatype Failure =
    | TrackerError(message: seq<byte>)
    | SendFailed
    | ConnectTimeout
    | AnnounceTimeout
    | GlobalTimeout
    | SocketFailed
    | MissingConnectionId
    | InvalidInfoHash
    | ValueOutOfRange

  /** One callback delivered to a waiting step. */
  datatype Event =
    | Datagram(bytes: seq<byte>)
    | SendError
    | StepTimeout
    | GlobalTimeoutFired
    | SocketError

  /** The two request/response exchanges, with the transaction id each sent. */
  datatype Step = Connect(transactionId: u32) | Announce(transactionId: u32)

  datatype AnnounceResult = AnnounceResult(interval: u32, complete: u32, incomplete: u32,
                                           peers: seq<CompactPeers.PeerAddress>)

  datatype Settled = Connected(connectionId: u64) | Announced(result: AnnounceResult)

  /** What one callback does to a step: nothing, resolve it or reject it. */
  datatype Reaction = NoEffect | Resolve(value: Settled) | Reject(failure: Failure)

  // ---------------------------------------------------------------------
  // Peer id

  /** generatePeerId: the 8-byte prefix `-MT0001-` followed by 12 random
      bytes, cut to 20 bytes. */
  function GeneratePeerId(random: seq<byte>): (r: Bytes20)
    requires |random| == 12
    ensures r[..8] == Latin1Bytes(PeerIdPrefix) && r[8..] == random
  {
    var whole := Latin1Bytes(PeerIdPrefix) + random;
    whole[..20]
  }

  // ---------------------------------------------------------------------
  // Connect exchange

  /** The protocol id 0x41727101980 as the eight bytes written. */
  const ProtocolIdField: seq<byte> := [0x00, 0x00, 0x04, 0x17, 0x27, 0x10, 0x19, 0x80]

  lemma ProtocolIdFieldValue()
    ensures BE(ProtocolIdField) == ProtocolId
  {
    var p := ProtocolIdField;
    assert p[..1][..0] == [] && BE(p[..1]) == 0x00;
    assert p[..2][..1] == p[..1] && BE(p[..2]) == 0x0000;
    assert p[..3][..2] == p[..2] && BE(p[..3]) == 0x04;
    assert p[..4][..3] == p[..3] && BE(p[..4]) == 0x0417;
    assert p[..5][..4] == p[..4] && BE(p[..5]) == 0x0417_27;
    assert p[..6][..5] == p[..5] && BE(p[..6]) == 0x0417_2710;
    assert p[..7][..6] == p[..6] && BE(p[..7]) == 0x0417_2710_19;
    assert p[..|p| - 1] == p[..7];
  }

  /** The 16-byte connect request: the protocol id, action 0 and the
      transaction id. */
  function ConnectRequest(transactionId: u32): (r: seq<byte>)
    ensures |r| == 16
  {
    ProtocolIdField + ZeroField + ToBE(transactionId, 4)
  }

  lemma ConnectRequestFields(transactionId: u32)
    ensures var r := ConnectRequest(transactionId);
      U64At(r, 0) == ProtocolId && U32At(r, 8) == ActionConnect && U32At(r, 12) == transactionId
  {
    var r := ConnectRequest(transactionId);
    FieldSizes();
    ProtocolIdFieldValue();
    FixedFields();
    BEOfToBE(transactionId, 4);
    var t := ToBE(transactionId, 4);
    assert r == (ProtocolIdField + ZeroField) + t;
    assert |ProtocolIdField + ZeroField| == 12 && |t| == 4;
    assert r[0..8] == ProtocolIdField;
    assert r[8..12] == ZeroField;
    U32Field(ProtocolIdField + ZeroField, transactionId, []);
    assert (ProtocolIdField + ZeroField) + t + [] == r;
  }

  /** The connect-response handler for one datagram. */
  function ConnectDatagram(expected: u32, msg: seq<byte>): (r: Reaction)
    ensures r.Resolve? <==> |msg| >= 16 && U32At(msg, 0) == ActionConnect && U32At(msg, 4) == expected
    ensures r.Resolve? ==> r.value == Connected(U64At(msg, 8))
    ensures r.Reject? <==> |msg| >= 16 && U32At(msg, 0) == ActionError
    ensures r.Reject? ==> r.failure == TrackerError(msg[8..])
  {
    if |msg| >= 16 then
      var action := U32At(msg, 0);
      var transactionId := U32At(msg, 4);
      if action == ActionConnect && transactionId == expected then Resolve(Connected(U64At(msg, 8)))
      else if action == ActionError then Reject(TrackerError(msg[8..]))
      else NoEffect
    else NoEffect
  }

  /** A tracker's connect response, for stating what the handler accepts. */
  function ConnectResponse(transactionId: u32, connectionId: u64): seq<byte> {
    ToBE(ActionConnect, 4) + ToBE(transactionId, 4) + ToBE(connectionId, 8)
  }

  /** A tracker's error response: action 3, a transaction id, a message. */
  function ErrorResponse(transactionId: u32, message: seq<byte>): seq<byte> {
    ToBE(ActionError, 4) + ToBE(transactionId, 4) + message
  }

  /** The response to our own request resolves the connect step with the
      connection id; a response carrying any other transaction id is
      ignored. */
  lemma ConnectResponseAccepted(sentId: u32, receivedId: u32, connectionId: u64)
    ensures ConnectDatagram(sentId, ConnectResponse(receivedId, connectionId))
      == if receivedId == sentId then Resolve(Connected(connectionId)) else NoEffect
  {
    FieldSizes();
    var m := ConnectResponse(receivedId, connectionId);
    assert m[0..4] == ToBE(ActionConnect, 4);
    assert m[4..8] == ToBE(receivedId, 4);
    assert m[8..16] == ToBE(connectionId, 8);
    BEOfToBE(ActionConnect, 4);
    BEOfToBE(receivedId, 4);
    BEOfToBE(connectionId, 8);
  }

  /** An error response rejects the step with its message, whatever its
      transaction id, once it is long enough for the step's length check. */
  lemma ErrorResponseRejects(step: Step, receivedId: u32, message: seq<byte>)
    requires |message| >= (if step.Connect? then 8 else 12)
    ensures React(step, Datagram(ErrorResponse(receivedId, message))) == Reject(TrackerError(message))
  {
    FieldSizes();
    var m := ErrorResponse(receivedId, message);
    assert m[0..4] == ToBE(ActionError, 4);
    assert m[8..] == message;
    BEOfToBE(ActionError, 4);
  }

  // ---------------------------------------------------------------------
  // Announce exchange

  /** The cleaned-up values the announce request carries. */
  datatype AnnounceFields = AnnounceFields(
    connectionId: u64, transactionId: u32, infoHash: Bytes20, peerId: Bytes20,
    downloaded: u64, left: u64, uploaded: u64, event: u32, key: u32, port: u16)

  /** The request bytes, field after field in BEP 15 order. */
  function AnnounceBytes(f: AnnounceFields): seq<byte> {
    ToBE(f.connectionId, 8) + AnnounceActionField + ToBE(f.transactionId, 4)
      + f.infoHash + f.peerId
      + ToBE(f.downloaded, 8) + ToBE(f.left, 8) + ToBE(f.uploaded, 8)
      + ToBE(f.event, 4) + ZeroField + ToBE(f.key, 4) + NumWantField + ToBE(f.port, 2)
  }

  function AnnounceHeader(f: AnnounceFields): seq<byte> {
    ToBE(f.connectionId, 8) + AnnounceActionField + ToBE(f.transactionId, 4)
  }

  function AnnounceCounters(f: AnnounceFields): seq<byte> {
    ToBE(f.downloaded, 8) + ToBE(f.left, 8) + ToBE(f.uploaded, 8)
  }

  function AnnounceTail(f: AnnounceFields): seq<byte> {
    ToBE(f.event, 4) + ZeroField + ToBE(f.key, 4) + NumWantField + ToBE(f.port, 2)
  }

  lemma AnnounceParts(f: AnnounceFields)
    ensures var r := AnnounceBytes(f);
      && |r| == 98 && r[0..16] == AnnounceHeader(f) && r[16..36] == f.infoHash && r[36..56] == f.peerId
      && r[56..80] == AnnounceCounters(f) && r[80..98] == AnnounceTail(f)
  {
    var r := AnnounceBytes(f);
    var h := AnnounceHeader(f);
    var c := AnnounceCounters(f);
    var t := AnnounceTail(f);
    assert r == h + f.infoHash + f.peerId + c + t;
  }

  lemma HeaderFields(f: AnnounceFields)
    ensures var h := AnnounceHeader(f);
      BE(h[0..8]) == f.connectionId && BE(h[8..12]) == ActionAnnounce && BE(h[12..16]) == f.transactionId
  {
    FieldSizes();
    var h := AnnounceHeader(f);
    assert h[0..8] == ToBE(f.connectionId, 8) && h[8..12] == AnnounceActionField && h[12..16] == ToBE(f.transactionId, 4);
    BEOfToBE(f.connectionId, 8);
    FixedFields();
    BEOfToBE(f.transactionId, 4);
  }

  lemma CounterFields(f: AnnounceFields)
    ensures var c := AnnounceCounters(f);
      BE(c[0..8]) == f.downloaded && BE(c[8..16]) == f.left && BE(c[16..24]) == f.uploaded
  {
    FieldSizes();
    var c := AnnounceCounters(f);
    assert c[0..8] == ToBE(f.downloaded, 8) && c[8..16] == ToBE(f.left, 8) && c[16..24] == ToBE(f.uploaded, 8);
    BEOfToBE(f.downloaded, 8);
    BEOfToBE(f.left, 8);
    BEOfToBE(f.uploaded, 8);
  }

  lemma TailFields(f: AnnounceFields)
    ensures var t := AnnounceTail(f);
      && BE(t[0..4]) == f.event && BE(t[4..8]) == 0 && BE(t[8..12]) == f.key
      && BE(t[12..16]) == NumWantDefault && BE(t[16..18]) == f.port
  {
    FieldSizes();
    var t := AnnounceTail(f);
    assert t[0..4] == ToBE(f.event, 4) && t[4..8] == ZeroField && t[8..12] == ToBE(f.key, 4);
    assert t[12..16] == NumWantField && t[16..18] == ToBE(f.port, 2);
    BEOfToBE(f.event, 4);
    BEOfToBE(f.key, 4);
    FixedFields();
    BEOfToBE(f.port, 2);
  }

  lemma HeaderInRequest(f: AnnounceFields)
    ensures var r := AnnounceBytes(f);
      && |r| == 98 && U64At(r, 0) == f.connectionId && U32At(r, 8) == ActionAnnounce && U32At(r, 12) == f.transactionId
  {
    var r := AnnounceBytes(f);
    var h := AnnounceHeader(f);
    AnnounceParts(f);
    HeaderFields(f);
    assert r[0..8] == h[0..8] && r[8..12] == h[8..12] && r[12..16] == h[12..16];
  }

  lemma CountersInRequest(f: AnnounceFields)
    ensures var r := AnnounceBytes(f);
      && |r| == 98 && U64At(r, 56) == f.downloaded && U64At(r, 64) == f.left && U64At(r, 72) == f.uploaded
  {
    var r := AnnounceBytes(f);
    var c := AnnounceCounters(f);
    AnnounceParts(f);
    CounterFields(f);
    assert r[56..64] == c[0..8] && r[64..72] == c[8..16] && r[72..80] == c[16..24];
  }

  lemma TailInRequest(f: AnnounceFields)
    ensures var r := AnnounceBytes(f);
      && |r| == 98 && U32At(r, 80) == f.event && U32At(r, 84) == 0 && U32At(r, 88) == f.key
      && I32(r[92..96]) == -1 && U16At(r, 96) == f.port
  {
    var r := AnnounceBytes(f);
    var t := AnnounceTail(f);
    AnnounceParts(f);
    TailFields(f);
    assert r[80..84] == t[0..4] && r[84..88] == t[4..8] && r[88..92] == t[8..12];
    assert r[92..96] == t[12..16] && r[96..98] == t[16..18];
  }

  /** The 98-byte announce request: what each field offset holds, numwant
      being -1 read as a signed 32-bit value. */
  function AnnounceRequest(f: AnnounceFields): (r: seq<byte>)
    ensures |r| == 98
    ensures U64At(r, 0) == f.connectionId && U32At(r, 8) == ActionAnnounce && U32At(r, 12) == f.transactionId
    ensures r[16..36] == f.infoHash && r[36..56] == f.peerId
    ensures U64At(r, 56) == f.downloaded && U64At(r, 64) == f.left && U64At(r, 72) == f.uploaded
    ensures U32At(r, 80) == f.event && U32At(r, 84) == 0 && U32At(r, 88) == f.key
    ensures I32(r[92..96]) == -1 && U16At(r, 96) == f.port
  {
    AnnounceParts(f);
    HeaderInRequest(f);
    CountersInRequest(f);
    TailInRequest(f);
    AnnounceBytes(f)
  }

  /** The announce-response handler for one datagram. */
  function AnnounceDatagram(expected: u32, msg: seq<byte>): (r: Reaction)
    ensures r.Resolve? <==> |msg| >= 20 && U32At(msg, 0) == ActionAnnounce && U32At(msg, 4) == expected
    ensures r.Resolve? ==> r.value == Announced(AnnounceResult(
      U32At(msg, 8), U32At(msg, 16), U32At(msg, 12), CompactPeers.Decode(msg[20..])))
    ensures r.Reject? <==> |msg| >= 20 && U32At(msg, 0) == ActionError
    ensures r.Reject? ==> r.failure == TrackerError(msg[8..])
  {
    if |msg| >= 20 then
      var action := U32At(msg, 0);
      var transactionId := U32At(msg, 4);
      if action == ActionAnnounce && transactionId == expected then
        var interval := U32At(msg, 8);
        var leechers := U32At(msg, 12);
        var seeders := U32At(msg, 16);
        Resolve(Announced(AnnounceResult(interval, seeders, leechers, CompactPeers.Decode(msg[20..]))))
      else if action == ActionError then Reject(TrackerError(msg[8..]))
      else NoEffect
    else NoEffect
  }

  /** A tracker's announce response: header, then the compact peers. */
  function AnnounceResponse(transactionId: u32, interval: u32, leechers: u32, seeders: u32,
                            peers: seq<CompactPeers.PeerAddress>): seq<byte> {
    AnnounceActionField + ToBE(transactionId, 4) + ToBE(interval, 4) + ToBE(leechers, 4)
      + ToBE(seeders, 4) + CompactPeers.Encode(peers)
  }

  /** The response to our own announce resolves with seeders as `complete`,
      leechers as `incomplete` and every whole peer entry in order, a
      trailing partial entry being ignored; any other transaction id is
      ignored. */
  lemma AnnounceResponseAccepted(sentId: u32, receivedId: u32, interval: u32, leechers: u32, seeders: u32,
                                 peers: seq<CompactPeers.PeerAddress>, partial: seq<byte>)
    requires |partial| < 6
    ensures AnnounceDatagram(sentId, AnnounceResponse(receivedId, interval, leechers, seeders, peers) + partial)
      == if receivedId == sentId then Resolve(Announced(AnnounceResult(interval, seeders, leechers, peers)))
         else NoEffect
  {
    FieldSizes();
    var body := CompactPeers.Encode(peers);
    var m := AnnounceResponse(receivedId, interval, leechers, seeders, peers) + partial;
    assert m[0..4] == AnnounceActionField;
    assert m[4..8] == ToBE(receivedId, 4);
    assert m[8..12] == ToBE(interval, 4);
    assert m[12..16] == ToBE(leechers, 4);
    assert m[16..20] == ToBE(seeders, 4);
    assert m[20..] == body + partial;
    FixedFields();
    BEOfToBE(receivedId, 4);
    BEOfToBE(interval, 4);
    BEOfToBE(leechers, 4);
    BEOfToBE(seeders, 4);
    CompactPeers.DecodeEncode(peers, partial);
  }

  // ---------------------------------------------------------------------
  // One waiting step

  /** What a callback does to a step that has not settled yet. */
  function React(step: Step, ev: Event): Reaction {
    match ev
    case Datagram(m) =>
      (match step
       case Connect(t) => ConnectDatagram(t, m)
       case Announce(t) => AnnounceDatagram(t, m))
    case SendError => Reject(SendFailed)
    case StepTimeout => Reject(if step.Connect? then ConnectTimeout else AnnounceTimeout)
    case GlobalTimeoutFired => Reject(GlobalTimeout)
    case SocketError => Reject(SocketFailed)
  }

  /** The reaction of each callback in turn, as if none had settled. */
  function Reactions(step: Step, events: seq<Event>): (rs: seq<Reaction>)
    ensures |rs| == |events|
    ensures forall i :: 0 <= i < |events| ==> rs[i] == React(step, events[i])
  {
    if events == [] then []
    else Reactions(step, events[..|events| - 1]) + [React(step, events[|events| - 1])]
  }

  /** The settlement of a step: the first reaction that does something,
      or NoEffect while none has. */
  function Settle(rs: seq<Reaction>): Reaction {
    if rs == [] then NoEffect
    else
      var earlier := Settle(rs[..|rs| - 1]);
      if earlier != NoEffect then earlier else rs[|rs| - 1]
  }

  /** A step whose callbacks all did nothing is still waiting. */
  lemma {:induction false} SettleWhileNothingHappens(rs: seq<Reaction>)
    requires forall i :: 0 <= i < |rs| ==> rs[i] == NoEffect
    ensures Settle(rs) == NoEffect
  {
    if rs != [] {
      SettleWhileNothingHappens(rs[..|rs| - 1]);
    }
  }

  /** The first callback that does something decides the step. */
  lemma {:induction false} SettleIsFirstEffect(rs: seq<Reaction>, i: nat)
    requires i < |rs| && rs[i] != NoEffect
    requires forall j :: 0 <= j < i ==> rs[j] == NoEffect
    ensures Settle(rs) == rs[i]
    decreases |rs|
  {
    if i == |rs| - 1 {
      SettleWhileNothingHappens(rs[..i]);
    } else {
      SettleIsFirstEffect(rs[..|rs| - 1], i);
    }
  }

  /** The settlement is always one of the reactions (or none). */
  lemma {:induction false} SettleIsSomeReaction(rs: seq<Reaction>)
    ensures Settle(rs) == NoEffect || Settle(rs) in rs
  {
    if rs != [] {
      SettleIsSomeReaction(rs[..|rs| - 1]);
      assert forall r :: r in rs[..|rs| - 1] ==> r in rs;
    }
  }

  /** Once a step has settled, later callbacks change nothing. */
  lemma {:induction false} SettledStaysSettled(rs: seq<Reaction>, later: seq<Reaction>)
    requires Settle(rs) != NoEffect
    ensures Settle(rs + later) == Settle(rs)
    decreases |later|
  {
    if later != [] {
      var init := later[..|later| - 1];
      SettledStaysSettled(rs, init);
      assert (rs + later)[..|rs + later| - 1] == rs + init;
    } else {
      assert rs + later == rs;
    }
  }

  /** A callback that does nothing (a stale or malformed datagram) can be
      dropped from the sequence without changing the settlement. */
  lemma {:induction false} IgnoredCallbackIsInvisible(before: seq<Reaction>, after: seq<Reaction>)
    ensures Settle(before + [NoEffect] + after) == Settle(before + after)
    decreases |after|
  {
    if after == [] {
      assert (before + [NoEffect])[..|before|] == before;
      assert before + [NoEffect] + after == before + [NoEffect];
      assert before + after == before;
    } else {
      var init := after[..|after| - 1];
      IgnoredCallbackIsInvisible(before, init);
      assert (before + [NoEffect] + after)[..|before| + |after|] == before + [NoEffect] + init;
      assert (before + after)[..|before| + |after| - 1] == before + init;
    }
  }

  /** The connect step only ever resolves with a connection id. */
  lemma ConnectSettlesWithConnectionId(transactionId: u32, events: seq<Event>)
    ensures Settle(Reactions(Connect(transactionId), events)).Resolve? ==>
      Settle(Reactions(Connect(transactionId), events)).value.Connected?
  {
    var rs := Reactions(Connect(transactionId), events);
    SettleIsSomeReaction(rs);
    if Settle(rs).Resolve? {
      var i :| 0 <= i < |rs| && rs[i] == Settle(rs);
      ConnectReactionConnects(transactionId, events[i]);
    }
  }

  /** A connect callback resolves only with a connection id. */
  lemma ConnectReactionConnects(transactionId: u32, ev: Event)
    ensures React(Connect(transactionId), ev).Resolve? ==> React(Connect(transactionId), ev).value.Connected?
  {
  }

  /** The datagram callback of a step (`responseHandler`), with the
      announce handler's peer loop written out. */
  method OnDatagram(step: Step, msg: seq<byte>) returns (x: Reaction)
    ensures x == React(step, Datagram(msg))
  {
    match step
    case Connect(t) =>
      x := ConnectDatagram(t, msg);
    case Announce(t) =>
      if |msg| >= 20 && U32At(msg, 0) == ActionAnnounce && U32At(msg, 4) == t {
        var peers := CollectPeers(msg);
        x := Resolve(Announced(AnnounceResult(U32At(msg, 8), U32At(msg, 16), U32At(msg, 12), peers)));
      } else {
        x := AnnounceDatagram(t, msg);
      }
  }

  /** The peer loop of the announce handler: six-byte entries from
      offset 20 while a whole entry remains. */
  method CollectPeers(msg: seq<byte>) returns (peers: seq<CompactPeers.PeerAddress>)
    requires |msg| >= 20
    ensures peers == CompactPeers.Decode(msg[20..])
  {
    peers := [];
    var i := 20;
    while i < |msg|
      invariant 20 <= i
      invariant peers + PeersFrom(msg, i) == CompactPeers.Decode(msg[20..])
      decreases |msg| - i
    {
      PeersFromStep(msg, i);
      if i + 6 <= |msg| {
        var entry := CompactPeers.EntryAt(msg, i);
        assert peers + [entry] + PeersFrom(msg, i + 6) == peers + PeersFrom(msg, i);
        peers := peers + [entry];
      }
      i := i + 6;
    }
    assert PeersFrom(msg, i) == [];
    assert peers + [] == peers;
  }

  /** The peers stored from byte i on (none once i is past the end). */
  ghost function PeersFrom(msg: seq<byte>, i: nat): seq<CompactPeers.PeerAddress> {
    if i <= |msg| then CompactPeers.Decode(msg[i..]) else []
  }

  lemma PeersFromStep(msg: seq<byte>, i: nat)
    ensures i + 6 <= |msg| ==> PeersFrom(msg, i) == [CompactPeers.EntryAt(msg, i)] + PeersFrom(msg, i + 6)
    ensures i + 6 > |msg| ==> PeersFrom(msg, i) == [] && PeersFrom(msg, i + 6) == []
  {
    if i + 6 <= |msg| {
      CompactPeers.DecodeStep(msg, i);
    }
  }

  /** Waiting for a step's response: each event is one callback, and
      `isResolved` makes every callback after the first settling one
      return at once. */
  method AwaitResponse(step: Step, events: seq<Event>) returns (r: Reaction)
    ensures r == Settle(Reactions(step, events))
  {
    ghost var rs := Reactions(step, events);
    var isResolved := false;
    r := NoEffect;
    var i := 0;
    while i < |events|
      invariant 0 <= i <= |events|
      invariant isResolved == (r != NoEffect)
      invariant r == Settle(rs[..i])
    {
      SettleSnoc(rs, i);
      if !isResolved {
        var x := Callback(step, events[i]);
        assert x == rs[i];
        if x != NoEffect {
          isResolved := true;
          r := x;
        }
      }
      i := i + 1;
    }
    assert rs[..i] == rs;
  }

  /** One callback: the datagram handler for a datagram, otherwise the
      error or timeout handler. */
  method Callback(step: Step, ev: Event) returns (x: Reaction)
    ensures x == React(step, ev)
  {
    if ev.Datagram? {
      x := OnDatagram(step, ev.bytes);
    } else {
      x := React(step, ev);
    }
  }

  /** One more callback settles the step only if nothing earlier did. */
  lemma SettleSnoc(rs: seq<Reaction>, i: nat)
    requires i < |rs|
    ensures Settle(rs[..i + 1]) == if Settle(rs[..i]) != NoEffect then Settle(rs[..i]) else rs[i]
  {
    assert rs[..i + 1][..i] == rs[..i];
  }

  // ---------------------------------------------------------------------
  // Announce arguments

  /** `toBigInt`: a non-negative integer from whatever the torrent holds;
      negative, non-finite, unparsable or other values become 0, numbers
      are floored. */
  function ToBigInt(v: JsValue): (r: nat)
    ensures v.BigInt? ==> r == (if v.i >= 0 then v.i else 0)
    ensures v.Num? && v.n.Finite? && v.n.value >= 0.0 ==> r as real <= v.n.value < r as real + 1.0
    ensures v.Num? && !(v.n.Finite? && v.n.value >= 0.0) ==> r == 0
    ensures v.Str? && r > 0 ==> StringToBigInt(v.s) == Some(r)
    ensures v.Str? ==> r == (if Trim(v.s) != "" && StringToBigInt(v.s).Some? && StringToBigInt(v.s).value >= 0
                             then StringToBigInt(v.s).value else 0)
    ensures v.Undefined? || v.Null? || v.Obj? ==> r == 0
  {
    match v
    case BigInt(i) => if i >= 0 then i else 0
    case Num(n) => if !n.Finite? || n.value < 0.0 then 0 else n.value.Floor
    case Str(s) =>
      if Trim(s) != "" then
        match StringToBigInt(s)
        case Some(p) => if p >= 0 then p else 0
        case None => 0
      else 0
    case _ => 0
  }

  /** A counter given as decimal text is read as that number. */
  lemma ToBigIntOfDecimal(n: nat)
    ensures ToBigInt(Str(NatToString(n))) == n
  {
    StringToBigIntOfDecimal(n);
    DecimalNotTrimmed(NatToString(n));
  }

  /** `left`: what remains of the length, never negative. */
  function Remaining(total: nat, downloaded: nat): (r: nat)
    ensures r == if downloaded < total then total - downloaded else 0
    ensures r + downloaded >= total
  {
    if total > downloaded then total - downloaded else 0
  }

  /** The announce event: the given integer, or 0 for anything else. */
  function CleanEvent(v: JsValue): (r: int)
    ensures !(v.Num? && v.n.IsInteger()) ==> r == 0
    ensures v.Num? && v.n.IsInteger() ==> r as real == v.n.value
  {
    if v.Num? && v.n.IsInteger() then v.n.value.Floor else 0
  }

  /** The port `typeof`/`parseInt(…, 10)` and the range check give. */
  function PortCandidate(v: JsValue): Option<int> {
    match v
    case Num(n) => if n.IsInteger() then Some(n.value.Floor) else None
    case Str(s) => ParseInt(s, false)
    case BigInt(i) => ParseInt(IntToString(i), false)
    case Obj(text) => ParseInt(text, false)
    case _ => None
  }

  /** The client port: a given integer in 1..65535, or 6881. */
  function CleanPort(v: JsValue): (r: u16)
    ensures r == DefaultPort || (PortCandidate(v) == Some(r) && r > 0)
    ensures (PortCandidate(v).Some? && 0 < PortCandidate(v).value < 0x1_0000) <==> PortCandidate(v) == Some(r)
  {
    var p := PortCandidate(v);
    if p.Some? && 0 < p.value < 0x1_0000 then p.value else DefaultPort
  }

  /** A port in range is kept, given as a number, as decimal text, or as
      an object whose text is that decimal text (such as `[p]`). */
  lemma CleanPortKeepsValidPort(p: nat)
    requires 0 < p < 0x1_0000
    ensures CleanPort(Num(Finite(p as real))) == p
    ensures CleanPort(Str(NatToString(p))) == p
    ensures CleanPort(Obj(NatToString(p))) == p
  {
    ParseIntOfDecimal(p, false);
  }

  /** The torrent fields the announce reads. */
  datatype InfoHashValue = BufferValue(bytes: seq<byte>) | StringValue(text: string) | OtherValue

  datatype AnnounceInput = AnnounceInput(
    infoHash: InfoHashValue, downloaded: JsValue, length: JsValue, uploaded: JsValue,
    event: JsValue, port: JsValue)

  function StripHexPrefix(s: string): string {
    if |s| >= 2 && s[..2] == "0x" then s[2..] else s
  }

  /** `normaliseInfoHash`: exactly 20 bytes or nothing. A buffer is cut or
      zero-padded at its end; a hex string (optionally `0x`-prefixed) is
      decoded, then cut or zero-padded at its front; any other value gives
      nothing. */
  function NormaliseInfoHash(h: InfoHashValue): (r: Option<Bytes20>)
    ensures r.None? <==> h.OtherValue?
    ensures h.BufferValue? && |h.bytes| >= 20 ==> r.value == h.bytes[..20]
    ensures h.BufferValue? && |h.bytes| < 20 ==>
      r.value[..|h.bytes|] == h.bytes && r.value[|h.bytes|..] == Zeros(20 - |h.bytes|)
    ensures h.StringValue? ==> var d := HexDecode(StripHexPrefix(h.text));
      && (|d| >= 20 ==> r.value == d[..20])
      && (|d| < 20 ==> r.value[..20 - |d|] == Zeros(20 - |d|) && r.value[20 - |d|..] == d)
  {
    match h
    case BufferValue(b) =>
      if |b| >= 20 then Some(b[..20])
      else
        var padded := b + Zeros(20 - |b|);
        assert padded[..|b|] == b;
        Some(padded)
    case StringValue(s) =>
      var d := HexDecode(StripHexPrefix(s));
      if |d| >= 20 then Some(d[..20])
      else
        var padded := Zeros(20 - |d|) + d;
        assert padded[..20 - |d|] == Zeros(20 - |d|);
        Some(padded)
    case OtherValue => None
  }

  /** The hex text of a 20-byte hash, with or without `0x`, and the hash
      itself as a buffer all normalise to that hash. */
  lemma NormaliseRecoversHash(h: Bytes20)
    ensures NormaliseInfoHash(StringValue(HexLower(h))) == Some(h)
    ensures NormaliseInfoHash(StringValue("0x" + HexLower(h))) == Some(h)
    ensures NormaliseInfoHash(BufferValue(h)) == Some(h)
  {
    HexDecodeOfHexLower(h);
    var t := HexLower(h);
    assert StripHexPrefix("0x" + t) == t by {
      assert ("0x" + t)[..2] == "0x";
      assert ("0x" + t)[2..] == t;
    }
    assert StripHexPrefix(t) == t by {
      if |t| >= 2 {
        assert IsHexChar(t[1]);
        assert t[1] != 'x';
      }
    }
    assert h[..20] == h;
  }

  predicate FitsU64(n: nat) {
    n < 0x1_0000_0000_0000_0000
  }

  /** The checks and clean-up `sendAnnounceRequest` does before sending:
      a connection id (0 counts as missing) first, then the info hash, then
      the counters and event, which Buffer's writers refuse when they do
      not fit their fields. */
  function PrepareAnnounce(connectionId: Option<u64>, t: AnnounceInput, peerId: Bytes20,
                           transactionId: u32, key: u32): (r: Result<AnnounceFields, Failure>)
    ensures (connectionId.None? || connectionId.value == 0) ==> r == Failure(MissingConnectionId)
    ensures connectionId.Some? && connectionId.value != 0 && t.infoHash.OtherValue? ==> r == Failure(InvalidInfoHash)
    ensures r.Failure? ==> r.error in {MissingConnectionId, InvalidInfoHash, ValueOutOfRange}
    ensures connectionId.Some? && connectionId.value != 0 && !t.infoHash.OtherValue? && r.Failure? ==>
      r.error == ValueOutOfRange
    ensures r.Success? ==>
      var f := r.value;
      && Some(f.connectionId) == connectionId && f.connectionId != 0
      && Some(f.infoHash) == NormaliseInfoHash(t.infoHash)
      && f.peerId == peerId && f.transactionId == transactionId && f.key == key
      && f.downloaded == ToBigInt(t.downloaded) && f.uploaded == ToBigInt(t.uploaded)
      && f.left == Remaining(ToBigInt(t.length), ToBigInt(t.downloaded))
      && f.event == CleanEvent(t.event) && f.port == CleanPort(t.port)
    ensures connectionId.Some? && connectionId.value != 0 && !t.infoHash.OtherValue? ==>
      (r.Success? <==>
        && FitsU64(ToBigInt(t.downloaded)) && FitsU64(ToBigInt(t.uploaded))
        && FitsU64(Remaining(ToBigInt(t.length), ToBigInt(t.downloaded)))
        && 0 <= CleanEvent(t.event) < 0x1_0000_0000)
  {
    if connectionId.None? || connectionId.value == 0 then Failure(MissingConnectionId)
    else
      var hash := NormaliseInfoHash(t.infoHash);
      if hash.None? then Failure(InvalidInfoHash)
      else
        var downloaded := ToBigInt(t.downloaded);
        var uploaded := ToBigInt(t.uploaded);
        var remaining := Remaining(ToBigInt(t.length), downloaded);
        var event := CleanEvent(t.event);
        if FitsU64(downloaded) && FitsU64(remaining) && FitsU64(uploaded) && 0 <= event < 0x1_0000_0000 then
          Success(AnnounceFields(connectionId.value, transactionId, hash.value, peerId,
                                 downloaded, remaining, uploaded, event, key, CleanPort(t.port)))
        else Failure(ValueOutOfRange)
  }

  // ---------------------------------------------------------------------
  // Writing requests into buffers

  /** Copies src into a at off (Buffer.copy and the write helpers). */
  method Blit(a: array<byte>, off: nat, src: seq<byte>, ghost before: seq<byte>)
    requires off + |src| <= a.Length && a[..off] == before
    modifies a
    ensures a[..off + |src|] == before + src
  {
    var i := 0;
    while i < |src|
      invariant 0 <= i <= |src|
      invariant a[..off + i] == before + src[..i]
    {
      a[off + i] := src[i];
      assert a[..off + i + 1] == a[..off + i] + [src[i]];
      assert src[..i + 1] == src[..i] + [src[i]];
      i := i + 1;
    }
    assert src[..|src|] == src;
  }

  method BuildConnectRequest(transactionId: u32) returns (request: array<byte>)
    ensures fresh(request) && request[..] == ConnectRequest(transactionId)
  {
    FieldSizes();
    request := new byte[16](_ => 0);
    Blit(request, 0, ProtocolIdField, []);
    Blit(request, 8, ZeroField, ProtocolIdField);
    Blit(request, 12, ToBE(transactionId, 4), ProtocolIdField + ZeroField);
    assert request[..] == request[..16];
  }

  /** The announce writer, field after field at an advancing offset (split
      into the header, the two ids, the counters and the tail). */
  method BuildAnnounceRequest(f: AnnounceFields) returns (request: array<byte>)
    ensures fresh(request) && request[..] == AnnounceRequest(f)
  {
    request := new byte[98](_ => 0);
    var offset := 0;
    offset := WriteHeader(request, offset, f, []);
    Blit(request, offset, f.infoHash, AnnounceHeader(f)); offset := offset + 20;
    Blit(request, offset, f.peerId, AnnounceHeader(f) + f.infoHash); offset := offset + 20;
    offset := WriteCounters(request, offset, f, AnnounceHeader(f) + f.infoHash + f.peerId);
    offset := WriteTail(request, offset, f, AnnounceHeader(f) + f.infoHash + f.peerId + AnnounceCounters(f));
    assert AnnounceHeader(f) + f.infoHash + f.peerId + AnnounceCounters(f) + AnnounceTail(f) == AnnounceBytes(f);
    assert request[..] == request[..98];
  }

  method WriteHeader(a: array<byte>, offset: nat, f: AnnounceFields, ghost before: seq<byte>) returns (next: nat)
    requires offset + 16 <= a.Length && a[..offset] == before
    modifies a
    ensures next == offset + 16 && a[..next] == before + AnnounceHeader(f)
  {
    next := offset;
    Blit(a, next, ToBE(f.connectionId, 8), before); next := next + 8;
    Blit(a, next, AnnounceActionField, before + ToBE(f.connectionId, 8)); next := next + 4;
    Blit(a, next, ToBE(f.transactionId, 4), before + ToBE(f.connectionId, 8) + AnnounceActionField); next := next + 4;
  }

  method WriteCounters(a: array<byte>, offset: nat, f: AnnounceFields, ghost before: seq<byte>) returns (next: nat)
    requires offset + 24 <= a.Length && a[..offset] == before
    modifies a
    ensures next == offset + 24 && a[..next] == before + AnnounceCounters(f)
  {
    next := offset;
    Blit(a, next, ToBE(f.downloaded, 8), before); next := next + 8;
    Blit(a, next, ToBE(f.left, 8), before + ToBE(f.downloaded, 8)); next := next + 8;
    Blit(a, next, ToBE(f.uploaded, 8), before + ToBE(f.downloaded, 8) + ToBE(f.left, 8)); next := next + 8;
  }

  method WriteTail(a: array<byte>, offset: nat, f: AnnounceFields, ghost before: seq<byte>) returns (next: nat)
    requires offset + 18 <= a.Length && a[..offset] == before
    modifies a
    ensures next == offset + 18 && a[..next] == before + AnnounceTail(f)
  {
    next := offset;
    ghost var written := before;
    Blit(a, next, ToBE(f.event, 4), written); written := written + ToBE(f.event, 4); next := next + 4;
    Blit(a, next, ZeroField, written); written := written + ZeroField; next := next + 4;
    Blit(a, next, ToBE(f.key, 4), written); written := written + ToBE(f.key, 4); next := next + 4;
    Blit(a, next, NumWantField, written); written := written + NumWantField; next := next + 4;
    Blit(a, next, ToBE(f.port, 2), written); written := written + ToBE(f.port, 2); next := next + 2;
  }

  // ---------------------------------------------------------------------
  // The client

  /** The announce as a whole: connect, then (with the connection id the
      tracker gave) announce. NoEffect means still waiting. */
  function UdpAnnounceOutcome(peerId: Bytes20, connectId: u32, connectEvents: seq<Event>,
                              announceId: u32, key: u32, t: AnnounceInput,
                              announceEvents: seq<Event>): Reaction {
    var c := Settle(Reactions(Connect(connectId), connectEvents));
    if c.Resolve? && c.value.Connected? then
      match PrepareAnnounce(Some(c.value.connectionId), t, peerId, announceId, key)
      case Failure(e) => Reject(e)
      case Success(_) => Settle(Reactions(Announce(announceId), announceEvents))
    else c
  }

  class UdpTrackerClient {
    var socketOpen: bool
    var connectionId: Option<u64>
    var transactionId: Option<u32>
    const peerId: Bytes20
    /** Every datagram handed to socket.send, in order. */
    var sent: seq<seq<byte>>

    constructor(random: seq<byte>)
      requires |random| == 12
      ensures peerId == GeneratePeerId(random)
      ensures !socketOpen && connectionId == None && transactionId == None && sent == []
    {
      peerId := GeneratePeerId(random);
      socketOpen := false;
      connectionId := None;
      transactionId := None;
      sent := [];
    }

    method CloseSocket()
      modifies this
      ensures !socketOpen
      ensures connectionId == old(connectionId) && transactionId == old(transactionId) && sent == old(sent)
    {
      socketOpen := false;
    }

    /** `connectToTracker`: a fresh transaction id, the connect request,
        then the first settling callback. */
    method ConnectToTracker(newTransactionId: u32, events: seq<Event>) returns (r: Reaction)
      modifies this
      ensures transactionId == Some(newTransactionId)
      ensures sent == old(sent) + [ConnectRequest(newTransactionId)]
      ensures r == Settle(Reactions(Connect(newTransactionId), events))
      ensures socketOpen == old(socketOpen) && connectionId == old(connectionId)
    {
      transactionId := Some(newTransactionId);
      var request := BuildConnectRequest(newTransactionId);
      sent := sent + [request[..]];
      r := AwaitResponse(Connect(newTransactionId), events);
    }

    /** `sendAnnounceRequest`: a fresh transaction id (set even when the
        request is then refused), the checks, the 98-byte request, then the
        first settling callback. */
    method SendAnnounceRequest(newTransactionId: u32, key: u32, t: AnnounceInput, events: seq<Event>)
      returns (r: Reaction)
      modifies this
      ensures transactionId == Some(newTransactionId)
      ensures socketOpen == old(socketOpen) && connectionId == old(connectionId)
      ensures match PrepareAnnounce(old(connectionId), t, peerId, newTransactionId, key)
        case Failure(e) => r == Reject(e) && sent == old(sent)
        case Success(f) =>
          && sent == old(sent) + [AnnounceRequest(f)]
          && r == Settle(Reactions(Announce(newTransactionId), events))
    {
      transactionId := Some(newTransactionId);
      var prepared := PrepareAnnounce(connectionId, t, peerId, newTransactionId, key);
      if prepared.Failure? {
        r := Reject(prepared.error);
        return;
      }
      var request := BuildAnnounceRequest(prepared.value);
      sent := sent + [request[..]];
      r := AwaitResponse(Announce(newTransactionId), events);
    }

    /** `announceToUDPTracker`: open the socket, connect, store the
        connection id, announce, and close the socket once the outcome is
        known. */
    method AnnounceToUdpTracker(connectId: u32, connectEvents: seq<Event>, announceId: u32, key: u32,
                                t: AnnounceInput, announceEvents: seq<Event>) returns (r: Reaction)
      modifies this
      ensures r == UdpAnnounceOutcome(peerId, connectId, connectEvents, announceId, key, t, announceEvents)
      ensures socketOpen <==> r == NoEffect
      ensures var c := Settle(Reactions(Connect(connectId), connectEvents));
        if c.Resolve? && c.value.Connected? then
          && connectionId == Some(c.value.connectionId)
          && transactionId == Some(announceId)
          && sent == old(sent) + [ConnectRequest(connectId)]
               + match PrepareAnnounce(Some(c.value.connectionId), t, peerId, announceId, key)
                 case Failure(_) => []
                 case Success(f) => [AnnounceRequest(f)]
        else
          && connectionId == old(connectionId)
          && transactionId == Some(connectId)
          && sent == old(sent) + [ConnectRequest(connectId)]
    {
      socketOpen := true;
      var c := ConnectToTracker(connectId, connectEvents);
      if c.Resolve? && c.value.Connected? {
        connectionId := Some(c.value.connectionId);
        r := SendAnnounceRequest(announceId, key, t, announceEvents);
      } else {
        r := c;
      }
      if r != NoEffect {
        CloseSocket();
      }
    }
  }
}
