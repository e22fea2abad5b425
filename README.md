# mytorrent core, modelled in Dafny

mytorrent is a small BitTorrent client: a Node.js backend behind a web
front end. This project models the five backend files that hold its
protocol and bookkeeping logic, and proves properties of that model.

- **UDP tracker.** `backend/udp-tracker.js` is the client of BEP 15. It
  covers:
  - the 16-byte connect request and the 98-byte announce request;
  - the clean-up of the announce arguments;
  - which datagrams resolve or reject each request step;
  - the 6-byte compact peer list.
- **Peer wire.** `backend/peer-manager.js` speaks the peer wire protocol of
  BEP 3. It covers:
  - the handshake;
  - splitting a buffer into length-prefixed messages;
  - what each peer offers, from have and bitfield messages;
  - choking;
  - 16 KiB block requests;
  - the piece bitmap and its counter, which drive the progress notices.
- **Download registry.** `backend/download-manager.js` is the registry of
  simulated downloads. It covers start, pause and resume, and the
  one-second tick that marks pieces as in.
- **Magnet links.** `backend/magnet-parser.js` parses magnet links, with the
  info hash given in hex or in base32 (RFC 4648 section 6 alphabet).
- **HTTP tracker.** `backend/tracker.js` is the HTTP tracker client. It
  covers the peer id, the announce parameters and the reading of a decoded
  reply, including the compact peers of BEP 23.

Each file keeps the form of its source:

- **Objects that change their fields are classes.**
  - `UdpTracker.UdpTrackerClient`;
  - `PeerWire.PeerManager`, with its `pieces` array and `peers` map;
  - `Downloads.DownloadState` and `Downloads.DownloadManager`;
  - `HttpTracker.TrackerClient`.
- **Loops are methods with loop invariants.** Each is proved against a
  function that specifies it. Examples:
  - the announce writer works at an advancing offset in a byte array;
  - the peer loops;
  - `processMessages`, `parseBitfield` and `requestPiece`;
  - the tick's fill loop;
  - both loops of `base32Decode`.
- **Pure code is functions**, with lemmas stating what they promise. This
  covers the codecs, `normaliseInfoHash`, `toBigInt` and `parseMagnetLink`.

**Files:**

| file | contents |
|---|---|
| `bytes.dfy` | byte types, big-endian fields, hex, decimal text |
| `compact_peers.dfy` | the compact peer list that both trackers use |
| `js_values.dfy` | the JavaScript values the announce clean-up inspects, plus `parseInt`, `BigInt(string)` and `trim` |
| `udp_tracker.dfy`, `peer_wire.dfy`, `downloads.dfy`, `magnet.dfy`, `http_tracker.dfy` | one per source file |

**How the world outside the code is modelled:**

- **Sockets, timers and `io.emit`.**
  - What the client sends is an output sequence: the `sent`, `wire`,
    `notices` and `emitted` fields.
  - What reaches a waiting step is an input sequence of events:
    datagrams, the send-error callback, the step's timer, the global timer
    and socket errors.
  - A live interval is an id in `intervals`.
  - One timer firing is one call of `Tick`.
- **BEP 15 request steps.** Each step settles at most once. The source's
  `isResolved` flag is a local of `AwaitResponse`, and `Settle` is the
  first callback that does something.
- **Random values are parameters.** They are:
  - transaction ids;
  - the announce key;
  - the peer-id bytes;
  - the tick's `Math.floor(Math.random() * 3)`;
  - the speed.
- **Integer arithmetic instead of floats.** `Math.round(d / n * 100)` is
  modelled as `(200 * d + n) div (2 * n)`, the exact rounding (see
  the section Left out for where doubles differ). Every field width is explicit: u16, u32, u64,
  numwant as a two's-complement int32, and the range a `Buffer` writer
  accepts.

**Where the code is followed rather than the intended design:**

- **Base32.** `base32Decode` skips characters outside the alphabet instead
  of failing (`Magnet.Base32SkipsInvalid`).
- **Magnet `xt`.** Only the first `xt` is read, and a missing `xl` gives
  1048576. The hash length is counted in UTF-16 code units, so a hash with
  a character above U+FFFF can take the hex branch with 39 characters
  (`Magnet.AstralHashTakesHexBranch`).
- **Magnet name.** The query parser has already percent-decoded `dn`,
  and `decodeURIComponent` decodes it a second time: `dn=%2541` gives
  "A" (`Magnet.NameDecodedTwice`), and `dn=100%25` reaches it as "100%",
  whose URIError refuses the link (`Magnet.StrayPercentNameRefused`).
- **HTTP announce.**
  - The peer id is 32 bytes (`HttpTracker.PeerIdShape`).
  - `left` is the whole length.
  - A reply in the dictionary-list form gives no peers.
- **Absent or negative length.** A torrent whose info dictionary has no
  `length` key, as a multi-file torrent's has not, has an undefined length.
  The HTTP announce then sends `left=undefined`. Given a peer list,
  `startDownload` compares against NaN and sets no timer, so no peer is
  contacted (`PeerWire.TimerCount`). A magnet link with a negative `xl`
  sets none either.
- **Absent peer list.** Neither torrent builder sets `peers`. When it is
  absent, `startDownload` throws a TypeError at
  backend/peer-manager.js:281, reading its length, before any timer is set.
- **Handshake.** `connectToPeer` sends the handshake `createHandshake`
  builds, with its 19-byte peer id (`PeerWire.HandshakeAsWritten`); the
  intended 68-byte one is stated beside it (`PeerWire.Handshake`).
- **Piece delivery.** `handlePieceData` verifies no hash: any piece message
  marks its piece.
- **Early completion.** Progress is a rounded percentage. So, for example,
  199 pieces of 200 already report 100 and send download-complete
  (`PeerWire.CompletionBeforeLastPiece`).

**Where the code would crash, the evident intent is modelled instead.**
Each case is noted at the member concerned:

- `Math.cell` is read as `Math.ceil` (backend/peer-manager.js:21).
- `requestPieces(i, peerConnection)` is read as `requestPiece`
  (backend/peer-manager.js:219).
- `simulationDownload` is read as `simulateDownload`
  (backend/download-manager.js:80).
- The byte list is declared as `butes` but filled as `bytes`
  (backend/magnet-parser.js:65, 68).

**Where the code runs but is evidently wrong**, both versions are modelled.
These are listed under "## Findings". Piece delivery, the piece counter
and the message id use the corrected version in the rest of the model; the handshake and the
info_hash serialisation are what the client sends, so the class sends
them as written and the corrected version is stated beside it.

## Model

| member | source | states |
|---|---|---|
| Bytes.BEOfToBE | backend/udp-tracker.js:236-248 | a value written big-endian into a field it fits reads back as that value |
| Bytes.U32Field | backend/udp-tracker.js:99-100 | a u32 written between any two byte strings reads back at its offset |
| Bytes.HexDecodeOfHexLower | backend/magnet-parser.js:23 | decoding the lower-case hex text of bytes gives those bytes back |
| Bytes.HexDecodeOfHexLowerThen | backend/magnet-parser.js:23 | hex text followed by anything decodes to its bytes and then to what the rest decodes to |
| Bytes.DigitsValueOfNatToString | backend/tracker.js:22-25 | the decimal text of a number reads back as that number |
| CompactPeers.EntryAt | backend/udp-tracker.js:279-281 | a peer's address is the four bytes at its offset and its port the big-endian u16 after them |
| CompactPeers.DecodeLength | backend/tracker.js:60-64 | a compact buffer of length n holds n div 6 peers |
| CompactPeers.DecodeAt | backend/udp-tracker.js:277-282 | the k-th peer is the entry stored at byte 6k |
| CompactPeers.DecodeEncode | backend/tracker.js:59-64 | decoding the compact list of any peers, followed by any partial entry, gives exactly those peers in order |
| JsValues.TrimStart | backend/udp-tracker.js:209 | the result is a suffix of the text, every character removed before it is white space, and it starts with no white space |
| JsValues.TrimEnd | backend/udp-tracker.js:209 | the result is a prefix of the text, every character removed after it is white space, and it ends with no white space |
| JsValues.DigitRun | backend/udp-tracker.js:230 | parseInt reads the longest prefix of digits, and stops at the first non-digit |
| JsValues.ParseIntOfDecimal | backend/udp-tracker.js:230 | parseInt reads the decimal text of a number as that number |
| JsValues.StringToBigIntOfDecimal | backend/udp-tracker.js:211 | BigInt reads the decimal text of a number as that number |
| UdpTracker.FixedFields | backend/udp-tracker.js:237-247 | the action field reads 1, the IP field 0, and the numwant field -1 as a signed and 0xFFFFFFFF as an unsigned value |
| UdpTracker.GeneratePeerId | backend/udp-tracker.js:362-366 | the peer id is 20 bytes: `-MT0001-` then the 12 random bytes |
| UdpTracker.ProtocolIdFieldValue | backend/udp-tracker.js:83 | the eight protocol-id bytes read as 0x41727101980 |
| UdpTracker.ConnectRequest | backend/udp-tracker.js:82 | the connect request is 16 bytes |
| UdpTracker.ConnectRequestFields | backend/udp-tracker.js:82-85 | the connect request holds the protocol id at 0, action 0 at 8 and the transaction id at 12 |
| UdpTracker.ConnectDatagram | backend/udp-tracker.js:98-124 | a datagram resolves the connect step iff it has at least 16 bytes, action 0 and the sent transaction id, with the u64 at byte 8 as the connection id; it rejects iff it has at least 16 bytes and action 3, with the bytes from 8 on; otherwise it does nothing |
| UdpTracker.ConnectResponseAccepted | backend/udp-tracker.js:98-113 | a tracker's connect response resolves the step with its connection id exactly when it carries the transaction id sent |
| UdpTracker.ErrorResponseRejects | backend/udp-tracker.js:114-122 | an action-3 datagram long enough for the step's length check rejects either step with its message, whatever its transaction id |
| UdpTracker.AnnounceParts | backend/udp-tracker.js:236-248 | the announce is 98 bytes: a header of 16, the info hash at 16, the peer id at 36, the counters at 56 and the tail at 80 |
| UdpTracker.HeaderInRequest | backend/udp-tracker.js:236-238 | the request holds the connection id at 0, action 1 at 8 and the transaction id at 12 |
| UdpTracker.CountersInRequest | backend/udp-tracker.js:241-243 | the request holds downloaded at 56, left at 64 and uploaded at 72 |
| UdpTracker.TailInRequest | backend/udp-tracker.js:244-248 | the request holds the event at 80, IP 0 at 84, the key at 88, numwant -1 at 92 and the port at 96 |
| UdpTracker.AnnounceRequest | backend/udp-tracker.js:183-248 | the announce request is 98 bytes, with every field at its BEP 15 offset |
| UdpTracker.AnnounceDatagram | backend/udp-tracker.js:261-309 | a datagram resolves the announce step iff it has at least 20 bytes, action 1 and the sent transaction id. The interval comes from byte 8, `complete` from the seeders at 16, `incomplete` from the leechers at 12, and the peers from byte 20 on. It rejects iff it has at least 20 bytes and action 3; otherwise it does nothing |
| UdpTracker.AnnounceResponseAccepted | backend/udp-tracker.js:261-299 | a tracker's announce response, with any trailing partial entry, resolves with its counts and exactly its peers in order, when it carries the transaction id sent; with any other id it is ignored |
| UdpTracker.SettleWhileNothingHappens | backend/udp-tracker.js:89-93 | a step whose callbacks all did nothing is still pending |
| UdpTracker.SettleIsFirstEffect | backend/udp-tracker.js:89-93 | the first callback that does something decides the step |
| UdpTracker.SettleIsSomeReaction | backend/udp-tracker.js:89-93 | a settled step settled with one of its callbacks' reactions |
| UdpTracker.SettledStaysSettled | backend/udp-tracker.js:252-256 | once a step has settled, no later datagram, send error or timeout changes it |
| UdpTracker.IgnoredCallbackIsInvisible | backend/udp-tracker.js:98-124 | a stale or malformed datagram can be removed from the history without changing the outcome |
| UdpTracker.ConnectSettlesWithConnectionId | backend/udp-tracker.js:104-113 | the connect step only ever resolves with a connection id |
| UdpTracker.OnDatagram | backend/udp-tracker.js:255-299 | the datagram handler, with its peer loop, reacts as the announce or connect rule says |
| UdpTracker.CollectPeers | backend/udp-tracker.js:276-283 | the peer loop from byte 20 yields the whole six-byte entries in order |
| UdpTracker.AwaitResponse | backend/udp-tracker.js:89-158 | with the isResolved flag, a step's outcome is its first settling callback |
| UdpTracker.ToBigInt | backend/udp-tracker.js:201-218 | a bigint is kept if non-negative; a finite non-negative number is floored; a string that is not blank gives the value BigInt parses from it when that is non-negative; everything else, negative and unparsable values included, gives 0 |
| UdpTracker.ToBigIntOfDecimal | backend/udp-tracker.js:209-212 | a counter given as decimal text is read as its number |
| UdpTracker.Remaining | backend/udp-tracker.js:223 | left is length minus downloaded when positive, else 0 |
| UdpTracker.CleanEvent | backend/udp-tracker.js:225 | an integer event is kept, anything else becomes 0 |
| UdpTracker.CleanPort | backend/udp-tracker.js:228-233 | the port is the candidate integer when it is in 1..65535, otherwise 6881. A number is its own candidate; a string, bigint or object gives what parseInt(…, 10) reads from its text |
| UdpTracker.CleanPortKeepsValidPort | backend/udp-tracker.js:229-233 | a port in range is kept, given as a number, as decimal text, or as an object whose text is that number (such as `[8080]`) |
| UdpTracker.NormaliseInfoHash | backend/udp-tracker.js:368-400 | the result is null exactly for a value that is neither a buffer nor a string. Otherwise it is 20 bytes: a buffer is cut, or zero-padded at its end; hex text, with an optional 0x, is decoded, then cut or zero-padded at its front |
| UdpTracker.NormaliseRecoversHash | backend/udp-tracker.js:368-386 | a 20-byte hash, its hex text and its 0x-prefixed hex text all normalise to that hash |
| UdpTracker.PrepareAnnounce | backend/udp-tracker.js:186-233 | a missing or zero connection id rejects first, then an invalid info hash. Otherwise the fields are the cleaned values, and the request is refused, with ValueOutOfRange, exactly when a counter or the event does not fit its field |
| UdpTracker.BuildConnectRequest | backend/udp-tracker.js:82-85 | the buffer written is the connect request |
| UdpTracker.BuildAnnounceRequest | backend/udp-tracker.js:183-248 | the buffer written at the advancing offset is the announce request |
| UdpTracker.WriteHeader | backend/udp-tracker.js:236-238 | the header is written at the offset, and the bytes before it are kept |
| UdpTracker.WriteCounters | backend/udp-tracker.js:241-243 | the counters are written at the offset, and the bytes before it are kept |
| UdpTracker.WriteTail | backend/udp-tracker.js:244-248 | the tail is written at the offset, and the bytes before it are kept |
| UdpTracker.UdpTrackerClient.constructor | backend/udp-tracker.js:5-10 | no socket, connection id or transaction id yet; the peer id generated |
| UdpTracker.UdpTrackerClient.CloseSocket | backend/udp-tracker.js:12-21 | the socket is closed and nothing else changes |
| UdpTracker.UdpTrackerClient.ConnectToTracker | backend/udp-tracker.js:76-174 | it stores the new transaction id, sends the connect request, and returns the step's outcome |
| UdpTracker.UdpTrackerClient.SendAnnounceRequest | backend/udp-tracker.js:177-360 | it stores the new transaction id even when the request is then refused. A refused request sends nothing and rejects; otherwise it sends the announce request and returns the step's outcome |
| UdpTracker.UdpTrackerClient.AnnounceToUdpTracker | backend/udp-tracker.js:23-74 | it connects, then announces with the connection id received. The socket stays open exactly while the outcome is pending. After a connect that resolves, the connection id is the one received, the transaction id the announce one, and the datagrams sent are the connect request and, unless the announce is refused, the announce request. Otherwise the connection id is unchanged, the transaction id is the connect one and only the connect request is sent |
| PeerWire.HandshakePeerIdAsWritten | backend/peer-manager.js:35 | as written, the handshake peer id is 19 bytes: `-MT0001`, then hex digits that read back as the first 6 random bytes |
| PeerWire.HandshakePeerId | backend/peer-manager.js:35 | the peer id is 20 bytes: `-MT0001-`, then hex digits that read back as the first 6 random bytes |
| PeerWire.HandshakeAsWritten | backend/peer-manager.js:30-38 | as written, the handshake is 19, the protocol name, 8 zero bytes, the info hash and the 19-byte peer id: 67 bytes for a 20-byte hash, short of the 68 the client demands |
| PeerWire.Handshake | backend/peer-manager.js:30-38 | the handshake is 19, the protocol name, 8 zero bytes, the info hash and the peer id: 68 bytes for a 20-byte hash |
| PeerWire.FramesKeepAlive | backend/peer-manager.js:122-126 | a zero length prefix is skipped by four bytes |
| PeerWire.FramesCut | backend/peer-manager.js:128 | a message longer than the bytes left ends the scan |
| PeerWire.FramesMessage | backend/peer-manager.js:128-135 | a whole message yields its id byte and the payload up to its end, and the scan goes on after it |
| PeerWire.FramesOfEncoded | backend/peer-manager.js:116-137 | messages written back to back are found again, each once and in order |
| PeerWire.KeepAliveSkipped | backend/peer-manager.js:123-126 | four zero bytes change nothing |
| PeerWire.CutMessageDropped | backend/peer-manager.js:128 | a message cut anywhere before its end yields nothing; the bytes are not kept |
| PeerWire.MessageIdAsWritten | backend/peer-manager.js:130 | as written, the id is the big-endian u32 at frame offset 4, and fewer than four bytes there raise an error |
| PeerWire.UnchokeMisreadAsWritten | backend/peer-manager.js:130 | as written, an unchoke followed by a have reads as id 0x01000000, and a lone unchoke raises an error |
| PeerWire.UnchokeReadAsOneByte | backend/peer-manager.js:130 | read as one byte, the same bytes are an unchoke and a have of piece 3 |
| PeerWire.Interested | backend/peer-manager.js:190-195 | the interested message is length 1 and id 2 |
| PeerWire.EncodeBitfieldAt | backend/peer-manager.js:203 | piece 8i+b is bit 7-b of byte i |
| PeerWire.BitfieldRoundTrip | backend/peer-manager.js:198-207 | a peer's bitfield announces exactly the pieces it has |
| PeerWire.ParseBitfield | backend/peer-manager.js:198-210 | the peer's set gains exactly the advertised pieces below the piece count |
| PeerWire.RequestMessage | backend/peer-manager.js:233 | a request is 17 bytes |
| PeerWire.RequestMessageFields | backend/peer-manager.js:233-238 | a request holds length 13, id 6, the piece index, the offset and the length |
| PeerWire.BlocksCoverPiece | backend/peer-manager.js:230-231 | blocks start at 0, 16384 and so on; each is 1 to 16384 bytes; they fit the piece and together cover it exactly |
| PeerWire.RequestsAt | backend/peer-manager.js:230-241 | the k-th request asks for the k-th block |
| PeerWire.FirstWanted | backend/peer-manager.js:217-222 | the chosen piece is missing here and held by the peer, and no lower piece is both; with no choice, no piece is |
| PeerWire.FirstWantedPrefix | backend/peer-manager.js:217-222 | the loop's choice is the first wanted piece of the whole bitmap |
| PeerWire.ProgressRounds | backend/peer-manager.js:255 | progress is 100·d/n rounded to the nearest integer, halves up |
| PeerWire.ProgressBounds | backend/peer-manager.js:255 | progress is 0 with nothing in, 100 with all in, at most 100, and does not fall as pieces arrive |
| PeerWire.CompletionBeforeLastPiece | backend/peer-manager.js:255-269 | with 200 pieces, 199 already give progress 100 |
| PeerWire.Deliver | backend/peer-manager.js:251-275 | a piece not yet in is marked, counted and announced, with a download-complete when progress reaches 100; a piece already in changes nothing |
| PeerWire.DeliverKeepsCount | backend/peer-manager.js:251-253 | the counter stays equal to the number of pieces in |
| PeerWire.DeliverIdempotent | backend/peer-manager.js:251 | delivering the same piece twice is delivering it once |
| PeerWire.CountUpFromZero | backend/peer-manager.js:253 | a counter started at 0 holds the number of pieces counted |
| PeerWire.ReportsCompleteOfCount | backend/peer-manager.js:255-274 | on a whole-number counter, `progress === 100` holds exactly when Progress is 100 |
| PeerWire.CounterUnsetAsWritten | backend/peer-manager.js:251-274 | as written the counter starts unset (the constructor at backend/peer-manager.js:23 sets `downloadPieces`), so after any number of pieces it is NaN and no notice reports completion |
| PeerWire.LastPieceCompletes | backend/peer-manager.js:255-274 | the last missing piece brings a completed progress notice at 100 and a download-complete |
| PeerWire.DeliverAsWritten | backend/peer-manager.js:251-253 | as written, an index past the last piece grows the bitmap to that index, with the gap still missing, and counts a piece; the index 2^32 - 1 sets a property instead, leaving the bitmap, and counts a piece the first time |
| PeerWire.StrayIndexAsWritten | backend/peer-manager.js:251-255 | a one-piece download with a stray index 5 ends at 33% as written; with the index checked it completes |
| PeerWire.NonIndexCompletesAsWritten | backend/peer-manager.js:251-269 | as written, a one-piece download receiving index 2^32 - 1 keeps its one missing piece yet counts 1 of 1, progress 100; with the index checked nothing changes |
| PeerWire.ApplyAllPreserves | backend/peer-manager.js:140-187 | handling messages keeps the counter right and keeps every piece that is in. It never forgets what a peer offers, keeps the handshake flag, and only appends notices |
| PeerWire.ApplyAllAppend | backend/peer-manager.js:119-136 | handling two runs of messages is handling one after the other |
| PeerWire.UnchokeRequestsNothing | backend/peer-manager.js:151-154 | an unchoke only clears the choke flag |
| PeerWire.PeerKeyInjective | backend/peer-manager.js:43 | distinct addresses and ports give distinct peer keys |
| PeerWire.PeerManager.constructor | backend/peer-manager.js:18-23 | one false flag per 20-byte hash, rounded up, for fewer than 2^32 flags as `new Array` demands; no peers; a zero counter |
| PeerWire.PeerManager.OnConnected | backend/peer-manager.js:49-63 | it writes the handshake `createHandshake` builds, as written, and starts a fresh record for the peer |
| PeerWire.PeerManager.DropPeer | backend/peer-manager.js:70-84 | an error or close removes only that peer |
| PeerWire.PeerManager.OnTimeout | backend/peer-manager.js:75-79 | a timeout destroys that peer's socket and removes only that peer |
| PeerWire.PeerManager.HandlePeerMessage | backend/peer-manager.js:88-113 | data for an unknown peer is ignored. Before the handshake, fewer than 68 bytes change nothing; 68 or more set the flag, write interested and handle the bytes after 68 as messages. After the handshake, every buffer is handled as messages |
| PeerWire.PeerManager.ProcessMessages | backend/peer-manager.js:116-137 | the peer and the download state end as the messages of the buffer, handled in order, leave them; other peers and the wire are untouched |
| PeerWire.PeerManager.HandleFrame | backend/peer-manager.js:128-135 | one whole message is handled and the scan goes on after it |
| PeerWire.PeerManager.HandleMessage | backend/peer-manager.js:140-187 | choke and unchoke set the flag; have and bitfield add what the peer offers; piece delivers its index; anything else changes nothing |
| PeerWire.PeerManager.HandlePieceData | backend/peer-manager.js:247-276 | the bitmap, counter and notices change as Deliver says |
| PeerWire.PeerManager.SendInterestedMessage | backend/peer-manager.js:190-195 | one interested message is written to the peer |
| PeerWire.PeerManager.RequestPieces | backend/peer-manager.js:213-223 | while choked nothing is written; otherwise the requests for the first wanted piece are written, if there is one |
| PeerWire.PeerManager.RequestPiece | backend/peer-manager.js:226-244 | one request per block of the piece, in order |
| PeerWire.PeerManager.StopDownload | backend/peer-manager.js:293-299 | every peer's socket is destroyed and the peer map is left empty |
| PeerWire.MinFive | backend/peer-manager.js:284 | `Math.min(5, length)` is never above 5 and is NaN exactly when the length is |
| PeerWire.TimerCount | backend/peer-manager.js:284-289 | no timer unless the length is positive (NaN, 0 and negative lengths set none), at most five, and otherwise the length rounded up |
| PeerWire.BelowTimerCount | backend/peer-manager.js:284-285 | the loop test `i < Math.min(5, length)` holds exactly for the first TimerCount(length) values of i |
| PeerWire.TimerCountOfWhole | backend/peer-manager.js:284 | a whole length n sets min(5, n) timers |
| PeerWire.PeerManager.StartDownload | backend/peer-manager.js:279-290 | an absent peer list throws and sets no timer. Otherwise TimerCount(length) timers, one second apart; each connects to the peer at its index, or to none past the list |
| Downloads.DownloadId | backend/download-manager.js:8 | the id given, or the hex info hash when it is absent or empty |
| Downloads.FirstFalse | backend/download-manager.js:122 | the lowest false index, with every entry before it true, or none when all are true |
| Downloads.FirstFalseOfFilled | backend/download-manager.js:122 | in a bitmap that is a prefix of trues, the next piece is the one just after the prefix |
| Downloads.FillLowestOfFilled | backend/download-manager.js:121-127 | filling a prefix of trues k times extends it by k, up to the whole bitmap |
| Downloads.FindFirstFalse | backend/download-manager.js:122 | findIndex gives the lowest false index, or -1 |
| Downloads.DownloadState.constructor | backend/download-manager.js:15-25 | totalPieces flags, all false; a zero counter and progress; downloading |
| Downloads.DownloadState.MarkLowest | backend/download-manager.js:121-127 | k pieces are marked, lowest first, the counter rises by k, and the bitmap stays a prefix of trues |
| Downloads.DownloadState.Complete | backend/download-manager.js:97-100 | completed, progress 100, speed 0 |
| Downloads.DownloadState.Report | backend/download-manager.js:129-130 | progress is the rounded percentage and does not fall |
| Downloads.DownloadState.Entry | backend/download-manager.js:152-155 | the entry carries its id and the state's fields |
| Downloads.DownloadManager.constructor | backend/download-manager.js:2-5 | no downloads and no timers |
| Downloads.DownloadManager.StartDownload | backend/download-manager.js:7-31 | a known id changes nothing. A pieces field that is not whole hashes is refused. Otherwise the new state is registered with pieces.length / 20 pieces, all out, and its timer starts |
| Downloads.DownloadManager.SimulateDownload | backend/download-manager.js:92-145 | a registered download gets a timer |
| Downloads.DownloadManager.PauseDownload | backend/download-manager.js:33-64 | true exactly for a downloading download: then it is paused, its speed is 0, its timer goes and download-paused is emitted; false changes nothing |
| Downloads.DownloadManager.ResumeDownload | backend/download-manager.js:66-90 | true exactly for a paused download: then it is downloading, with a new timer, and download-resumed is emitted; false changes nothing |
| Downloads.DownloadManager.Tick | backend/download-manager.js:96-141 | all pieces in: completed, progress 100, speed 0, timer gone, download-complete emitted. Not downloading: the timer goes and nothing else changes. Otherwise min(r+1, left) lowest pieces are marked and a progress notice is emitted. Progress never falls |
| Downloads.DownloadManager.GetDownloadState | backend/download-manager.js:147-149 | the state registered under the id, or none |
| Downloads.DownloadManager.GetAllDownloads | backend/download-manager.js:151-156 | one entry per registered id, in insertion order, each carrying its id, no two alike |
| Downloads.DownloadManager.OrderCoversKeys | backend/download-manager.js:151-156 | the insertion order lists each registered id once |
| Magnet.Get | backend/magnet-parser.js:12 | the value of the first pair with the key, or none when no pair has it |
| Magnet.GetIsFirstOfGetAll | backend/magnet-parser.js:32-38 | get finds nothing exactly when getAll is empty, and otherwise the first of getAll |
| Magnet.PlusToSpace | backend/magnet-parser.js:39 | every `+` becomes a space and nothing else changes |
| Magnet.Base32Index | backend/magnet-parser.js:58-60 | an index is below 32, and every character with one is a single UTF-16 code unit |
| Magnet.AlphabetIndex | backend/magnet-parser.js:53-59 | each alphabet character has its own index |
| Magnet.BitsValueOfBits | backend/magnet-parser.js:61-68 | five- or eight-bit text of a value reads back as that value |
| Magnet.Base32DecodeLength | backend/magnet-parser.js:52-72 | the output is floor(5 × valid characters / 8) bytes: 20 for 32 valid characters |
| Magnet.Base32SkipsInvalid | backend/magnet-parser.js:59-60 | decoding gives the same bytes once the invalid characters are removed |
| Magnet.LowerCharIndex | backend/magnet-parser.js:58 | a character and its lower-case form have the same index |
| Magnet.Base32IgnoresCase | backend/magnet-parser.js:58 | decoding ignores case |
| Magnet.Base32DecodeLoops | backend/magnet-parser.js:52-73 | the two loops compute the base32 decoding |
| Magnet.CollectBits | backend/magnet-parser.js:54-62 | the first loop collects five bits per valid character, in order |
| Magnet.PackBytes | backend/magnet-parser.js:65-70 | the second loop packs each whole group of eight bits |
| Magnet.Base32RoundTrip | backend/magnet-parser.js:52-72 | decoding the base32 text of any bytes gives them back; 20 bytes are 32 characters |
| Magnet.ParseMagnetLink | backend/magnet-parser.js:3-49 | input not starting with `magnet:?`, a missing or non-`urn:btih:` xt, and a hash of neither 40 nor 32 UTF-16 code units are each refused with their own error, exactly when they occur, in that order; after them, a name that `decodeURIComponent` cannot decode is refused with its URIError, and only these four refuse. On success: the hash decoded as hex for 40 units and as base32 for 32; the trackers in order; the first tracker or the fallback as announce; the name or "Unknown" with `+` as space, decoded once more; the length; 32768; 20 zero bytes; isMagnet |
| Magnet.Utf16LengthOfBmp | backend/magnet-parser.js:21-24 | text without characters above U+FFFF has as many code units as characters |
| Magnet.Utf16LengthAppend | backend/magnet-parser.js:21-24 | the code units of two texts add up |
| Magnet.ExactLength | backend/magnet-parser.js:34-40 | the length is never 0, and an absent or empty xl gives 1048576 |
| Magnet.ExactLengthOfDecimal | backend/magnet-parser.js:34-40 | a decimal xl is the length, and 0 gives 1048576 |
| Magnet.HexMagnetYieldsHash | backend/magnet-parser.js:21-23 | a 40-digit hex hash yields those 20 bytes |
| Magnet.Base32MagnetYieldsHash | backend/magnet-parser.js:24-26 | a 32-character base32 hash yields those 20 bytes |
| Magnet.AcceptedHash | backend/magnet-parser.js:21-39 | once the hash has 40 or 32 code units only the name can refuse the link, and the hash is decoded by its length |
| Magnet.StrayPercentNameRefused | backend/magnet-parser.js:32-39 | a name arriving as "100%" refuses the link with the URIError |
| Magnet.NameDecodedTwice | backend/magnet-parser.js:32-39 | a name arriving as "%41" becomes "A" |
| JsValues.Utf8Char | backend/magnet-parser.js:39 | a multi-octet UTF-8 sequence is accepted only with continuation octets and in its shortest form |
| JsValues.Utf8CharOfTwoOctets | backend/magnet-parser.js:39 | a character from U+0080 to U+07FF in its two octets decodes back |
| JsValues.DecodePlain | backend/magnet-parser.js:39 | `decodeURIComponent` keeps text without `%` |
| JsValues.DecodeStrayPercent | backend/magnet-parser.js:39 | a `%` not followed by two hex digits throws, whatever `%`-free text precedes it |
| JsValues.DecodeAsciiEscape | backend/magnet-parser.js:39 | an escape below 0x80 becomes its character and the rest is decoded |
| JsValues.DecodedNames | backend/magnet-parser.js:39 | "100%" throws and "%41" is "A" |
| Magnet.AstralHashTakesHexBranch | backend/magnet-parser.js:21-23 | 38 hex digits and one character above U+FFFF are 40 code units: the hex branch is taken and yields the 19 bytes before that character |
| Magnet.BitsCharsValid | backend/magnet-parser.js:53 | base32 text made by encoding holds alphabet characters only |
| HttpTracker.PeerIdShape | backend/tracker.js:11-16 | the peer id is 32 bytes: `-MT0001-` then 24 hex digits that read back as the random bytes |
| HttpTracker.Utf8OfLatin1Grows | backend/tracker.js:19-20 | a character from U+0080 up makes the UTF-8 bytes of the text longer than the text |
| HttpTracker.Utf8OfAscii | backend/tracker.js:19-20 | ASCII text is its own UTF-8 |
| HttpTracker.HexByteValue | backend/tracker.js:19-30 | an ASCII hex digit has a value below 16, and each upper-case digit written for d reads back as d |
| HttpTracker.FormByteDecodes | backend/tracker.js:30 | a byte as the form serialiser writes it reads back as that byte, whatever follows |
| HttpTracker.FormRoundTrip | backend/tracker.js:30 | reading back the form-serialised bytes of any value gives those bytes |
| HttpTracker.InfoHashMangledAsWritten | backend/tracker.js:19-20 | as written, a hash with a byte from 0x80 up does not read back as itself |
| HttpTracker.InfoHashByteAsWritten | backend/tracker.js:19-20 | as written, the byte 0xAB goes as `%C2%AB` |
| HttpTracker.InfoHashAsciiAsWritten | backend/tracker.js:19-20 | as written, a hash of bytes below 0x80 reads back as itself |
| HttpTracker.SentInfoHashRoundTrip | backend/tracker.js:19-20 | percent-encoding the hash bytes themselves, every hash reads back as itself |
| HttpTracker.OrZero | backend/tracker.js:52-53 | a truthy value is kept and anything else becomes 0 |
| HttpTracker.PeersBuffer | backend/tracker.js:57-59 | there is a compact buffer exactly when the peers field is a byte string |
| HttpTracker.ReplyPeersOfEncoded | backend/tracker.js:59-64 | a reply carrying the compact list of some peers gives exactly those peers; one with a partial last entry fails |
| HttpTracker.ReplyPeersWithoutBuffer | backend/tracker.js:57-66 | a reply whose peers are absent or not a byte string has no peers |
| HttpTracker.TrackerClient.constructor | backend/tracker.js:5-9 | the generated peer id and port 6881 |
| HttpTracker.TrackerClient.BuildTrackerUrl | backend/tracker.js:18-31 | the announce address, with the eight parameters in order: info_hash, peer_id, port, uploaded, downloaded, left, compact, event |
| HttpTracker.TrackerClient.BuildTrackerUrlValues | backend/tracker.js:19-28 | before serialisation, the parameters read back as the info hash bytes, the peer id bytes, the port, 0, 0, the length ("undefined" when the torrent has none), 1 and the event |
| HttpTracker.TrackerClient.AnnounceUrl | backend/tracker.js:18-35 | the URL fetched goes to the torrent's announce address, with eight parameters and the event "started" |
| HttpTracker.TrackerClient.ParseTrackerResponse | backend/tracker.js:49-69 | the interval is copied, and the counts are 0 when absent or falsy. A compact buffer gives its peers in order; a buffer with a partial entry fails, and only then |

## Left out

- **Sockets, timers and Promises are left out.** This covers `dgram` and `net`, `setTimeout` and `setInterval`, and Promise settlement.
  - Their effects are modelled as input events and output sequences.
  - The 10 s and 15 s delays and the one-second stagger are not modelled as time; only their order and count are kept.
- **`crypto.randomBytes` and `Math.random` are parameters.**
- **Float arithmetic is left out.**
  - The random `downloadSpeed` of a peer-manager notice is dropped.
  - A tick's speed is `100 * speedUnits` for a given `speedUnits` below 500.
  - `toBigInt`, the announce event and the port read a number as a real, with NaN and the infinities as separate values.
- PeerWire.Progress: it is the exact rounding of 100·d/n, which the tick's progress also uses. `Math.round` on doubles differs where d/n·100 lands just below or above a half: 16 pairs with n ≤ 400 differ, for example 23 of 40 (58 here, 57 in doubles) and 29 of 200 (15 here, 14 in doubles, as `29/200*100` is 14.499999999999998).
- **WHATWG `URL` parsing is left out.** The magnet query arrives as (key, value) pairs, and the UDP tracker's host and port are not modelled.
- **`URLSearchParams` serialisation is modelled only for the info_hash value** (`HttpTracker.SentInfoHashAsWritten`): its UTF-8 encoding and the form percent-encoding. The other values are kept as the text they are before serialisation. The HTTP announce URL is modelled as the base address plus the ordered (name, text) pairs.
- **`announceToTracker` (backend/tracker.js:33-47) is left out, apart from the URL it builds (`HttpTracker.TrackerClient.AnnounceUrl`).** It is `fetch` and the `bncode` decoder wrapped around `buildTrackerUrl` and `parseTrackerResponse`. The decoded reply is a `BValue` dictionary.
- **Logging and the text of the error messages are left out.** An error is a datatype value, and a tracker's error message is kept as its bytes.
- **The PeerManager constructor's throw paths are left out.** These throw for a missing torrent or a missing `pieces` field; the model's types make both present.
- **`connectToPeer`'s socket set-up is left out.** What it does to the peer map is modelled, by OnConnected, DropPeer and OnTimeout.
- **`startDownload`'s timer callbacks** are returned as a schedule rather than run.
- **`backend/torrent-parser.js`, `backend/create-test-torrent.js`, `backend/server.js` and the front end are not part of this model.**
- **Magnet.Base32Index:** `toUpperCase` followed by `indexOf` is written out as a list of the characters it finds in the alphabet: the ASCII letters and digits 2 to 7, ı (U+0131) and ſ (U+017F), and the ligatures ﬅ (U+FB05) and ﬆ (U+FB06), whose upper case "ST" is found at the index of S. The list comes from Unicode's case mappings, which are not themselves modelled.
- **Bytes.HexDecode:** Node's hex decoder is modelled for characters up to U+00FF, every other character ending the digits; how Node reads the code units of characters above U+00FF is not modelled.
- **JsValues.ParseInt:** the text is read as an exact integer. The rounding of very long digit strings to a double is not modelled.
- **PeerWire.PeerManager.HandleMessage:** the block data of a piece message is not kept, as in the source.
- **PeerWire.BlocksFrom:** piece lengths are below 2^32, so that every request field fits a u32.

## Findings

| source | as written | input that shows it | evidently intended | confidence | as-written member | corrected member |
|---|---|---|---|---|---|---|
| backend/peer-manager.js:130 | the message id is read with `readUInt32BE(offset + 4)`, four bytes | `00 00 00 01 01 00 00 00 05 04 00 00 00 03` (unchoke, then have of piece 3) reads as id 0x01000000, an unknown message. A lone unchoke `00 00 00 01 01` raises a RangeError, and the rest of the buffer is lost | the single id byte at offset 4, as the client's own writers use it (backend/peer-manager.js:193, 235) | not executed | PeerWire.UnchokeMisreadAsWritten | PeerWire.UnchokeReadAsOneByte |
| backend/peer-manager.js:251-253 | `this.pieces[pieceIndex] = true` for any index from the wire; a JavaScript array grows | a one-piece download that receives a piece message for index 5 and then its only piece ends with 6 flags, a counter of 2 and 33%, and never sends download-complete (with backend/peer-manager.js:21 and :23 read as intended; as written the constructor throws, and otherwise the counter is NaN) | an index past the last piece is ignored | not executed | PeerWire.StrayIndexAsWritten | PeerWire.Deliver |
| backend/peer-manager.js:251-255 | `this.pieces[pieceIndex] = true` also for the index 4294967295, which `readUInt32BE` can give and which is not a JavaScript array index | a one-piece download that receives a piece message for index 4294967295 keeps its length 1 and its missing piece, counts 1, reports progress 100 and sends download-complete (with backend/peer-manager.js:21 and :23 read as intended, as in the row above) | an index past the last piece is ignored | not executed | PeerWire.NonIndexCompletesAsWritten | PeerWire.Deliver |
| backend/peer-manager.js:23 | the constructor sets `this.downloadPieces = 0`, while handlePieceData counts `this.downloadedPieces++` (:253) | with :21 read as `Math.ceil`, every piece leaves the counter NaN (`undefined++`), so each notice reports NaN progress and "downloading", and download-complete is never sent | one counter, `downloadedPieces`, starting at 0 | not executed | PeerWire.CounterUnsetAsWritten | PeerWire.LastPieceCompletes |
| backend/peer-manager.js:35 | the handshake peer id is `-MT0001` followed by 12 hex digits: 19 bytes | with a 20-byte info hash the handshake is 67 bytes, and a peer running this same client drops it by the 68-byte check at backend/peer-manager.js:95 | a 20-byte id `-MT0001-` followed by 12 hex digits, making the 68-byte handshake | not executed | PeerWire.HandshakeAsWritten | PeerWire.Handshake |
| backend/tracker.js:19-20 | the info hash goes to `URLSearchParams` as a binary string, which serialises each character from U+0080 up as two UTF-8 bytes | a hash with the byte 0xAB sends `%C2%AB` for it, so a tracker reads 21 bytes or more and not the hash; only hashes whose bytes are all below 0x80 arrive intact | the 20 hash bytes themselves, percent-encoded, as BEP 3 asks | not executed | HttpTracker.InfoHashMangledAsWritten | HttpTracker.SentInfoHashRoundTrip |
