/** The download registry: one state object per download id, the
    start, pause and resume guards, and the body of the one-second timer
    that marks pieces as in. Timers are a set of ids holding a live
    interval; each timer firing is a call of Tick. */
module Downloads {
  import opened Bytes
  import CompactPeers
  import PeerWire

  datatype Status = Downloading | Paused | Completed

  /** The torrent fields the registry reads. */
  datatype Torrent = Torrent(
    name: string, infoHash: seq<byte>, pieces: seq<byte>,
    peers: Option<seq<CompactPeers.PeerAddress>>)

  /** The io.emit calls of the registry. */
  datatype Emitted =
    | DownloadPaused(downloadId: string)
    | DownloadResumed(downloadId: string)
    | DownloadComplete(downloadId: string)
    | DownloadProgress(downloadId: string, progress: nat, downloadedPieces: nat,
                       totalPieces: nat, downloadSpeed: nat, status: Status)

  /** What `startDownload` did. */
  datatype StartOutcome =
    | Started
    | AlreadyExists
    /** `new Array(length / 20)` throws a RangeError when the pieces field
        is not a whole number of hashes. */
    | InvalidPieceCount

  /** `providedDownloadId || torrent.infoHash.toString("hex")`: an absent
      or empty id falls back to the hash. */
  function DownloadId(torrent: Torrent, provided: Option<string>): (id: string)
    ensures provided.Some? && provided.value != [] ==> id == provided.value
    ensures provided.None? || provided.value == [] ==> id == HexLower(torrent.infoHash)
  {
    if provided.Some? && provided.value != [] then provided.value else HexLower(torrent.infoHash)
  }

  // ---------------------------------------------------------------------
  // The bitmap

  /** The bitmap with the first d of n pieces in. */
  function Filled(n: nat, d: nat): (s: seq<bool>)
    ensures |s| == n && forall i :: 0 <= i < n ==> s[i] == (i < d)
  {
    seq(n, i => i < d)
  }

  /** `pieces.findIndex(piece => !piece)`: the lowest index still false. */
  function FirstFalse(s: seq<bool>): (r: Option<nat>)
    ensures r.Some? ==> r.value < |s| && !s[r.value] && forall j :: 0 <= j < r.value ==> s[j]
    ensures r.None? ==> forall j :: 0 <= j < |s| ==> s[j]
  {
    if s == [] then None
    else if !s[0] then Some(0)
    else match FirstFalse(s[1..])
      case None => None
      case Some(i) => Some(i + 1)
  }

  /** The tick's fill rule: k times, mark the lowest false entry. */
  function FillLowest(s: seq<bool>, k: nat): (r: seq<bool>)
    ensures |r| == |s|
    decreases k
  {
    if k == 0 then s
    else match FirstFalse(s)
      case None => s
      case Some(i) => FillLowest(s[i := true], k - 1)
  }

  /** In a bitmap that is a prefix of trues, the lowest false entry is the
      one just after the prefix. */
  lemma FirstFalseOfFilled(n: nat, d: nat)
    requires d <= n
    ensures FirstFalse(Filled(n, d)) == if d < n then Some(d) else None
  {
    if d < n {
      FirstFalseAt(Filled(n, d), d);
    } else {
      FirstFalseAt(Filled(n, d), n);
    }
  }

  /** Filling a prefix of trues k times extends the prefix by k, up to
      the whole bitmap. */
  lemma {:induction false} FillLowestOfFilled(n: nat, d: nat, k: nat)
    requires d <= n
    ensures FillLowest(Filled(n, d), k) == Filled(n, PeerWire.Min(d + k, n))
    decreases k
  {
    FirstFalseOfFilled(n, d);
    if k > 0 && d < n {
      assert Filled(n, d)[d := true] == Filled(n, d + 1);
      FillLowestOfFilled(n, d + 1, k - 1);
    } else if k > 0 {
      assert PeerWire.Min(d + k, n) == d;
    }
  }

  /** `findIndex(piece => !piece)` on the bitmap, -1 when every piece is in. */
  method FindFirstFalse(pieces: array<bool>) returns (index: int)
    ensures index == (match FirstFalse(pieces[..]) case None => -1 case Some(i) => i)
  {
    index := 0;
    while index < pieces.Length
      invariant 0 <= index <= pieces.Length
      invariant forall j :: 0 <= j < index ==> pieces[j]
    {
      if !pieces[index] {
        FirstFalseAt(pieces[..], index);
        return;
      }
      index := index + 1;
    }
    FirstFalseAt(pieces[..], index);
    index := -1;
  }

  /** What FirstFalse gives once the entries before i are known. */
  lemma FirstFalseAt(s: seq<bool>, i: nat)
    requires i <= |s| && forall j :: 0 <= j < i ==> s[j]
    ensures i < |s| && !s[i] ==> FirstFalse(s) == Some(i)
    ensures i == |s| ==> FirstFalse(s) == None
  {
  }

  // ---------------------------------------------------------------------
  // One download

  class DownloadState {
    const torrent: Torrent
    const totalPieces: nat
    /** One flag per piece: in or not. */
    const pieces: array<bool>
    const peers: seq<CompactPeers.PeerAddress>
    var downloadedPieces: nat
    var progress: nat
    var downloadSpeed: nat
    var status: Status

    /** The bitmap is the first downloadedPieces pieces and no more, and
        the progress shown is the rounded percentage of pieces in. */
    ghost predicate Valid()
      reads this, pieces
    {
      && pieces.Length == totalPieces
      && downloadedPieces <= totalPieces && progress <= 100
      && pieces[..] == Filled(totalPieces, downloadedPieces)
      && (totalPieces > 0 ==> progress == PeerWire.Progress(downloadedPieces, totalPieces))
    }

    /** The state `startDownload` registers: nothing in yet. */
    constructor(torrent: Torrent, totalPieces: nat)
      ensures Valid() && fresh(pieces)
      ensures this.torrent == torrent && this.totalPieces == totalPieces
      ensures peers == (match torrent.peers case None => [] case Some(ps) => ps)
      ensures downloadedPieces == 0 && progress == 0 && downloadSpeed == 0 && status == Downloading
    {
      this.torrent := torrent;
      this.totalPieces := totalPieces;
      pieces := new bool[totalPieces](_ => false);
      peers := match torrent.peers case None => [] case Some(ps) => ps;
      downloadedPieces := 0;
      progress := 0;
      downloadSpeed := 0;
      status := Downloading;
      new;
      assert pieces[..] == Filled(totalPieces, 0);
      if totalPieces > 0 {
        PeerWire.ProgressBounds(0, totalPieces, 0);
      }
    }

    /** The tick's `for` loop: k times, mark the lowest missing piece and
        count it. */
    method MarkLowest(k: nat)
      requires Valid() && downloadedPieces + k <= totalPieces
      modifies this, pieces
      ensures pieces[..] == FillLowest(old(pieces[..]), k)
      ensures downloadedPieces == old(downloadedPieces) + k
      ensures pieces[..] == Filled(totalPieces, downloadedPieces)
      ensures progress == old(progress) && downloadSpeed == old(downloadSpeed) && status == old(status)
    {
      ghost var start := downloadedPieces;
      FillLowestOfFilled(totalPieces, start, k);
      var i := 0;
      while i < k
        invariant 0 <= i <= k
        invariant downloadedPieces == start + i <= totalPieces
        invariant pieces[..] == Filled(totalPieces, downloadedPieces)
        invariant progress == old(progress) && downloadSpeed == old(downloadSpeed) && status == old(status)
      {
        FirstFalseOfFilled(totalPieces, downloadedPieces);
        var nextPieceIndex := FindFirstFalse(pieces);
        if nextPieceIndex != -1 {
          pieces[nextPieceIndex] := true;
          downloadedPieces := downloadedPieces + 1;
          assert pieces[..] == Filled(totalPieces, downloadedPieces);
        }
        i := i + 1;
      }
    }

    /** The tick's completion branch. */
    method Complete()
      requires Valid() && downloadedPieces >= totalPieces
      modifies this
      ensures Valid() && old(progress) <= progress
      ensures status == Completed && progress == 100 && downloadSpeed == 0
      ensures downloadedPieces == old(downloadedPieces)
    {
      if totalPieces > 0 {
        PeerWire.ProgressBounds(downloadedPieces, totalPieces, totalPieces);
      }
      status := Completed;
      progress := 100;
      downloadSpeed := 0;
    }

    /** The end of a tick: the rounded percentage and the new speed. */
    method Report(speed: nat)
      requires 0 < totalPieces == pieces.Length && downloadedPieces <= totalPieces
      requires pieces[..] == Filled(totalPieces, downloadedPieces)
      requires progress <= PeerWire.Progress(downloadedPieces, totalPieces)
      modifies this
      ensures Valid() && old(progress) <= progress
      ensures progress == PeerWire.Progress(downloadedPieces, totalPieces) && downloadSpeed == speed
      ensures downloadedPieces == old(downloadedPieces) && status == old(status)
    {
      PeerWire.ProgressBounds(downloadedPieces, totalPieces, totalPieces);
      progress := PeerWire.Progress(downloadedPieces, totalPieces);
      downloadSpeed := speed;
    }

    /** The `{downloadId: id, ...state}` entry of `getAllDownloads`: the
        fields as they are now, the bitmap shared. */
    function Entry(id: string): (e: DownloadEntry)
      reads this
      ensures e.downloadId == id && e.pieces == pieces
    {
      DownloadEntry(id, torrent, totalPieces, downloadedPieces, pieces, peers, progress, downloadSpeed, status)
    }
  }

  datatype DownloadEntry = DownloadEntry(
    downloadId: string, torrent: Torrent, totalPieces: nat, downloadedPieces: nat,
    pieces: array<bool>, peers: seq<CompactPeers.PeerAddress>, progress: nat,
    downloadSpeed: nat, status: Status)

  // ---------------------------------------------------------------------
  // The registry

  class DownloadManager {
    /** activeTorrents, keyed by download id. */
    var active: map<string, DownloadState>
    /** The keys of activeTorrents in insertion order (a Map iterates so). */
    var order: seq<string>
    /** The ids in downloadIntervals: a live timer. */
    var intervals: set<string>
    /** Every io.emit, in order. */
    var emitted: seq<Emitted>

    ghost predicate Valid()
      reads this
    {
      && (forall i, j :: 0 <= i < j < |order| ==> order[i] != order[j])
      && (forall id :: id in active <==> id in order)
    }

    constructor()
      ensures Valid()
      ensures active == map[] && order == [] && intervals == {} && emitted == []
    {
      active := map[];
      order := [];
      intervals := {};
      emitted := [];
    }

    /** The state registered under id, if any. */
    function Target(id: string): set<object>
      reads this
    {
      if id in active then {active[id]} else {}
    }

    /** `startDownload`: a known id changes nothing; otherwise a new state
        with totalPieces = pieces.length / 20, all pieces out, and a timer. */
    method StartDownload(torrent: Torrent, provided: Option<string>) returns (outcome: StartOutcome)
      requires Valid()
      modifies this
      ensures Valid()
      ensures var id := DownloadId(torrent, provided);
        && (id in old(active) ==> outcome == AlreadyExists)
        && (id !in old(active) && |torrent.pieces| % 20 != 0 ==> outcome == InvalidPieceCount)
        && (outcome != Started ==>
              active == old(active) && order == old(order) && intervals == old(intervals))
        && (outcome == Started <==> id !in old(active) && |torrent.pieces| % 20 == 0)
        && (outcome == Started ==>
              && id in active && fresh(active[id]) && active[id].Valid()
              && active == old(active)[id := active[id]] && order == old(order) + [id]
              && intervals == old(intervals) + {id}
              && active[id].torrent == torrent && active[id].totalPieces == |torrent.pieces| / 20
              && active[id].downloadedPieces == 0 && active[id].progress == 0
              && active[id].status == Downloading)
      ensures emitted == old(emitted)
    {
      var id := DownloadId(torrent, provided);
      if id in active {
        return AlreadyExists;
      }
      if |torrent.pieces| % 20 != 0 {
        return InvalidPieceCount;
      }
      var state := new DownloadState(torrent, |torrent.pieces| / 20);
      active := active[id := state];
      order := order + [id];
      SimulateDownload(id);
      outcome := Started;
    }

    /** `simulateDownload`: start the timer of a registered download. */
    method SimulateDownload(id: string)
      modifies this
      ensures intervals == if id in active then old(intervals) + {id} else old(intervals)
      ensures active == old(active) && order == old(order) && emitted == old(emitted)
    {
      if id !in active {
        return;
      }
      intervals := intervals + {id};
    }

    /** `pauseDownload`: only a download that is downloading pauses; its
        timer goes and its speed drops to 0. */
    method PauseDownload(id: string) returns (ok: bool)
      requires Valid()
      modifies this, Target(id)
      ensures Valid() && active == old(active) && order == old(order)
      ensures ok <==> id in active && old(active[id].status) == Downloading
      ensures ok ==> (active[id].status == Paused && active[id].downloadSpeed == 0
        && intervals == old(intervals) - {id} && emitted == old(emitted) + [DownloadPaused(id)])
      ensures !ok ==> intervals == old(intervals) && emitted == old(emitted)
      ensures forall s :: s in old(Target(id)) && !ok ==> unchanged(s)
      ensures id in active ==> (active[id].progress == old(active[id].progress)
        && active[id].downloadedPieces == old(active[id].downloadedPieces))
    {
      if id !in active {
        return false;
      }
      var state := active[id];
      if state.status != Downloading {
        return false;
      }
      intervals := intervals - {id};
      state.status := Paused;
      state.downloadSpeed := 0;
      emitted := emitted + [DownloadPaused(id)];
      ok := true;
    }

    /** `resumeDownload`: only a paused download resumes, with a new timer.
        The source calls `simulationDownload`, which does not exist; this is
        the `simulateDownload` it evidently means. */
    method ResumeDownload(id: string) returns (ok: bool)
      requires Valid()
      modifies this, Target(id)
      ensures Valid() && active == old(active) && order == old(order)
      ensures ok <==> id in active && old(active[id].status) == Paused
      ensures ok ==> (active[id].status == Downloading
        && active[id].downloadSpeed == old(active[id].downloadSpeed)
        && intervals == old(intervals) + {id} && emitted == old(emitted) + [DownloadResumed(id)])
      ensures !ok ==> intervals == old(intervals) && emitted == old(emitted)
      ensures forall s :: s in old(Target(id)) && !ok ==> unchanged(s)
      ensures id in active ==> (active[id].progress == old(active[id].progress)
        && active[id].downloadedPieces == old(active[id].downloadedPieces))
    {
      if id !in active {
        return false;
      }
      var state := active[id];
      if state.status != Paused {
        return false;
      }
      state.status := Downloading;
      SimulateDownload(id);
      emitted := emitted + [DownloadResumed(id)];
      ok := true;
    }

    /** One firing of the timer of download id over its state object (the
        one the interval closure captured). random3 is
        `Math.floor(Math.random() * 3)`, speedUnits
        `Math.floor(Math.random() * 500)`. */
    method Tick(id: string, state: DownloadState, random3: nat, speedUnits: nat)
      requires state.Valid() && random3 < 3 && speedUnits < 500
      modifies this, state, state.pieces
      ensures state.Valid()
      ensures active == old(active) && order == old(order)
      ensures old(state.downloadedPieces) >= state.totalPieces ==>
        && state.status == Completed && state.progress == 100 && state.downloadSpeed == 0
        && state.downloadedPieces == old(state.downloadedPieces)
        && intervals == old(intervals) - {id} && emitted == old(emitted) + [DownloadComplete(id)]
      ensures old(state.downloadedPieces) < state.totalPieces && old(state.status) != Downloading ==>
        && state.status == old(state.status) && state.progress == old(state.progress)
        && state.downloadSpeed == old(state.downloadSpeed)
        && state.downloadedPieces == old(state.downloadedPieces)
        && intervals == old(intervals) - {id} && emitted == old(emitted)
      ensures old(state.downloadedPieces) < state.totalPieces && old(state.status) == Downloading ==>
        var k := PeerWire.Min(random3 + 1, state.totalPieces - old(state.downloadedPieces));
        && state.pieces[..] == FillLowest(old(state.pieces[..]), k)
        && state.downloadedPieces == old(state.downloadedPieces) + k
        && state.progress == PeerWire.Progress(state.downloadedPieces, state.totalPieces)
        && state.downloadSpeed == 100 * speedUnits && state.status == Downloading
        && intervals == old(intervals)
        && emitted == old(emitted) + [DownloadProgress(id, state.progress, state.downloadedPieces,
                                                      state.totalPieces, state.downloadSpeed, Downloading)]
      ensures old(state.progress) <= state.progress
    {
      var total := state.totalPieces;
      if state.downloadedPieces >= total {
        state.Complete();
        emitted := emitted + [DownloadComplete(id)];
        intervals := intervals - {id};
        return;
      }
      if state.status != Downloading {
        intervals := intervals - {id};
        return;
      }
      var piecesToDownload := PeerWire.Min(random3 + 1, total - state.downloadedPieces);
      ghost var start := state.downloadedPieces;
      state.MarkLowest(piecesToDownload);
      PeerWire.ProgressBounds(start, total, state.downloadedPieces);
      state.Report(100 * speedUnits);
      emitted := emitted + [DownloadProgress(id, state.progress, state.downloadedPieces,
                                            total, state.downloadSpeed, state.status)];
    }

    /** `getDownloadState`: the state registered under id, or absent. */
    method GetDownloadState(id: string) returns (r: Option<DownloadState>)
      ensures r.Some? <==> id in active
      ensures r.Some? ==> r.value == active[id]
    {
      if id in active {
        r := Some(active[id]);
      } else {
        r := None;
      }
    }

    /** `getAllDownloads`: one entry per registered id, in insertion order,
        each carrying its id. */
    method GetAllDownloads() returns (entries: seq<DownloadEntry>)
      requires Valid()
      ensures |entries| == |active| && |entries| == |order|
      ensures forall i :: 0 <= i < |entries| ==> entries[i] == active[order[i]].Entry(order[i])
      ensures forall id :: id in active <==> exists i :: 0 <= i < |entries| && entries[i].downloadId == id
      ensures forall i, j :: 0 <= i < j < |entries| ==> entries[i].downloadId != entries[j].downloadId
    {
      OrderCoversKeys();
      entries := [];
      var i := 0;
      while i < |order|
        invariant 0 <= i <= |order| && |entries| == i
        invariant forall j :: 0 <= j < i ==> entries[j] == active[order[j]].Entry(order[j])
      {
        entries := entries + [active[order[i]].Entry(order[i])];
        i := i + 1;
      }
      forall id | id in active
        ensures exists i :: 0 <= i < |entries| && entries[i].downloadId == id
      {
        var k := IndexOf(order, id);
        assert entries[k].downloadId == id;
      }
    }

    /** The insertion order lists each key exactly once. */
    lemma OrderCoversKeys()
      requires Valid()
      ensures |order| == |active|
    {
      DistinctCard(order, active.Keys);
    }
  }

  /** A list without repeats that holds exactly the elements of a set is
      as long as the set is large. */
  lemma {:induction false} DistinctCard(s: seq<string>, keys: set<string>)
    requires forall i, j :: 0 <= i < j < |s| ==> s[i] != s[j]
    requires forall x :: x in keys <==> x in s
    ensures |s| == |keys|
  {
    if s != [] {
      var rest := keys - {s[0]};
      forall x ensures x in rest <==> x in s[1..] {
        if x in s[1..] {
          var k := IndexOf(s[1..], x);
          assert s[k + 1] == x;
        }
      }
      DistinctCard(s[1..], rest);
    } else {
      assert keys == {};
    }
  }
}
