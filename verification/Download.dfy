/** Downloads: the device sends a file piece by piece, the controller puts the pieces back
    together, whatever their order. */
module Download {
  import opened Bytes
  import opened Chunks
  import Crc32
  import FileReceiver
  import Hex
  import Paths
  import opened Words

  // ---------------------------------------------------------------------------------
  // The device
  // ---------------------------------------------------------------------------------

  /** What the device publishes for a "get_mqtt" job, on `fs/data` and `fs/result`. */
  datatype Publication =
    | Piece(job: string, k: nat, offset: nat, path: string, data: string)
    | Outcome(job: string, status: string, detail: string, path: string, size: nat, chunks: nat, crc: string)

  function CutSize(requested: nat): (n: nat)
    ensures 0 < n <= FileReceiver.CHUNK_BYTES
  {
    if requested == 0 || requested > FileReceiver.CHUNK_BYTES then FileReceiver.CHUNK_BYTES else requested
  }

  function PieceOf(job: string, u: Shipment, k: nat): Publication
    requires k * u.chunk < |u.data|
  {
    Piece(job, k, k * u.chunk, u.path, Hex.Encode(Slice(u, k)))
  }

  /** The pieces from the `k`-th on, at most `budget` of them. */
  function Pieces(job: string, u: Shipment, k: nat, budget: nat): seq<Publication>
    decreases budget
  {
    if budget > 0 && k * u.chunk < |u.data| then [PieceOf(job, u, k)] + Pieces(job, u, k + 1, budget - 1) else []
  }

  function Refusal(job: string, status: string, detail: string): Publication {
    Outcome(job, status, detail, "", 0, 0, "")
  }

  function Success(job: string, u: Shipment, chunks: nat): Publication {
    Outcome(job, "ok", "", u.path, |u.data|, chunks, Hex.Checksum(Crc32.Crc(u.data)))
  }

  /** `sendMqttFile`; the transport accepts `budget` pieces and then fails. */
  function Transmission(files: map<string, seq<Byte>>, job: string, name: string, requested: nat,
        budget: nat): seq<Publication> {
    var path := Paths.Normalize(name);
    if !Paths.Allowed(path) then [Refusal(job, "rejected", "path_or_filesystem_unavailable")]
    else if path !in files then [Refusal(job, "failed", "open_failed")]
    else if |files[path]| > FileReceiver.MAX_BYTES then [Refusal(job, "rejected", "file_too_large")]
    else
      var u := Shipment(path, files[path], CutSize(requested));
      var pieces := Pieces(job, u, 0, budget);
      if |pieces| * u.chunk < |u.data| then pieces + [Refusal(job, "failed", "publish_failed")]
      else pieces + [Success(job, u, |pieces|)]
  }

  lemma {:induction false} PiecesNext(job: string, u: Shipment, k: nat, budget: nat)
    requires (k + budget) * u.chunk < |u.data|
    ensures Pieces(job, u, k, budget + 1) == Pieces(job, u, k, budget) + [PieceOf(job, u, k + budget)]
    ensures |Pieces(job, u, k, budget)| == budget
    decreases budget
  {
    hide PieceOf;
    assert k * u.chunk <= (k + budget) * u.chunk by {
      Monotone(k, k + budget, u.chunk);
    }
    if budget > 0 {
      PiecesNext(job, u, k + 1, budget - 1);
    } else {
      assert Pieces(job, u, k + 1, 0) == [];
    }
  }

  lemma {:induction false} Monotone(a: nat, b: nat, c: nat)
    requires a <= b
    ensures a * c <= b * c
  {
    assert b * c == a * c + (b - a) * c;
  }

  /** The pieces are all there are, once they cover the file. */
  lemma {:induction false} PiecesStop(job: string, u: Shipment, k: nat, count: nat, budget: nat)
    requires count <= budget && |u.data| <= (k + count) * u.chunk
    ensures Pieces(job, u, k, budget) == Pieces(job, u, k, count)
    decreases count
  {
    hide PieceOf;
    if count > 0 && k * u.chunk < |u.data| {
      PiecesStop(job, u, k + 1, count - 1, budget - 1);
    }
  }

  class FileSender {
    var files: map<string, seq<Byte>>
    var sent: seq<Publication>

    constructor (files: map<string, seq<Byte>>)
      ensures this.files == files && sent == []
    {
      this.files, sent := files, [];
    }

    method Publish(m: Publication)
      modifies this`sent
      ensures sent == old(sent) + [m]
    {
      sent := sent + [m];
    }

    /** `file.read` */
    static method Read(data: seq<Byte>, position: nat, buffer: array<Byte>, want: nat) returns (got: nat)
      requires position <= |data| && want <= buffer.Length
      modifies buffer
      ensures got == if |data| - position < want then |data| - position else want
      ensures buffer[..got] == data[position..position + got]
    {
      got := 0;
      while got < want && position + got < |data|
        invariant got <= want && position + got <= |data|
        invariant buffer[..got] == data[position..position + got]
      {
        buffer[got] := data[position + got];
        got := got + 1;
        assert buffer[..got] == buffer[..got - 1] + [data[position + got - 1]];
      }
    }

    /** `delivered` says whether the transport takes the final result. */
    method SendMqttFile(job: string, name: string, requested: nat, budget: nat, delivered: bool) returns (ok: bool)
      modifies this`sent
      ensures sent == old(sent) + Transmission(files, job, name, requested, budget)
      ensures ok <==> sent[|sent| - 1].Outcome? && sent[|sent| - 1].status == "ok" && delivered
    {
      hide Paths.Normalize, Paths.Allowed, Hex.Encode, Hex.Checksum, Crc32.Update, Pieces;
      OnlyOkIsOk();
      var normalized := Paths.NormalizePath(name);
      if !Paths.Allowed(normalized) {
        Publish(Refusal(job, "rejected", "path_or_filesystem_unavailable"));
        return false;
      }
      if normalized !in files {
        Publish(Refusal(job, "failed", "open_failed"));
        return false;
      }
      var data := files[normalized];
      if |data| > 16384 {
        Publish(Refusal(job, "rejected", "file_too_large"));
        return false;
      }
      var u := Shipment(normalized, data, CutSize(requested));
      var complete := SendPieces(job, u, budget);
      ok := complete && delivered;
    }

    /** The loop of `sendMqttFile` and what follows it. */
    method SendPieces(job: string, u: Shipment, budget: nat) returns (ok: bool)
      requires 0 < u.chunk <= 384
      modifies this`sent
      ensures var pieces := Pieces(job, u, 0, budget);
        && ok == (|u.data| <= |pieces| * u.chunk)
        && sent == old(sent) + pieces
                   + [if ok then Success(job, u, |pieces|) else Refusal(job, "failed", "publish_failed")]
    {
      hide Hex.Encode, Hex.Checksum, Crc32.Update, Pieces;
      var buffer := new Byte[384];
      var k, crc, position := 0, 0, 0;
      Crc32.UpdateNothing(0);
      NoPieces(job, u);
      while position < |u.data|
        invariant position == Reach(u, k) && (k > 0 ==> (k - 1) * u.chunk < |u.data|) && k <= budget
        invariant sent == old(sent) + Pieces(job, u, 0, k) && |Pieces(job, u, 0, k)| == k
        invariant crc == Crc32.Update(0, Prefix(u, k))
      {
        SliceBounds(u, k);
        PrefixNext(u, k);
        var got := Read(u.data, position, buffer, u.chunk);
        SliceLength(u, k);
        assert buffer[..got] == Slice(u, k);
        crc := Crc32.Crc32Update(crc, buffer, got);
        Crc32.UpdateComposes(0, Prefix(u, k), Slice(u, k));
        var text := Hex.HexEncode(buffer, got);
        PiecesNext(job, u, 0, k);
        if k == budget {
          Publish(Refusal(job, "failed", "publish_failed"));
          return false;
        }
        Publish(Piece(job, k, position, u.path, text));
        position := position + got;
        k := k + 1;
      }
      PiecesStop(job, u, 0, k, budget);
      assert Prefix(u, k) == u.data;
      Publish(Outcome(job, "ok", "", u.path, position, k, Hex.Checksum(crc)));
      ok := true;
    }
  }

  lemma {:induction false} NoPieces(job: string, u: Shipment)
    ensures Pieces(job, u, 0, 0) == [] && Reach(u, 0) == 0 && Prefix(u, 0) == []
  {}

  lemma {:induction false} SliceLength(u: Shipment, k: nat)
    requires k * u.chunk < |u.data|
    ensures |Slice(u, k)| == if |u.data| - Reach(u, k) < u.chunk then |u.data| - Reach(u, k) else u.chunk
    ensures Reach(u, k + 1) == Reach(u, k) + |Slice(u, k)|
  {
    SliceBounds(u, k);
    assert (k + 1) * u.chunk == k * u.chunk + u.chunk;
  }

  lemma {:induction false} OnlyOkIsOk()
    ensures "rejected" != "ok" && "failed" != "ok"
  {
    assert "rejected"[0] != "ok"[0] && "failed"[0] != "ok"[0];
  }

  // ---------------------------------------------------------------------------------
  // The controller
  // ---------------------------------------------------------------------------------

  /** The fields `_record_file_transfer_unlocked` reads of a "get_mqtt" message; `k` is None
      when the sequence number is no integer. */
  datatype Report =
    | FsData(job: string, path: string, k: Option<int>, data: string)
    | FsResult(job: string, status: string, crc: string)

  /** An element of `file_downloads`; `saved` is the content of the local file. */
  datatype Entry = Entry(path: string, chunks: map<int, seq<Byte>>, broken: bool, saved: Option<seq<Byte>>,
                         crc: string, status: string)

  lemma {:induction false} HasMember(keys: set<int>)
    ensures keys == {} || exists k :: k in keys
  {
    assert (forall k :: k !in keys) ==> keys == {};
  }

  lemma {:induction false} LeastExists(keys: set<int>)
    requires keys != {}
    ensures exists m :: m in keys && forall x :: x in keys ==> m <= x
    decreases |keys|
  {
    HasMember(keys);
    var k :| k in keys;
    var rest := keys - {k};
    if rest != {} {
      LeastExists(rest);
      var m :| m in rest && forall x :: x in rest ==> m <= x;
      assert forall x :: x in keys ==> x == k || x in rest;
      assert (if k <= m then k else m) in keys;
    } else {
      assert forall x :: x in keys ==> x == k || x in rest;
    }
  }

  /** `sorted(keys)` */
  function Sorted(keys: set<int>): (r: seq<int>)
    ensures forall i :: 0 <= i < |r| ==> r[i] in keys
    decreases |keys|
  {
    if keys == {} then []
    else
      LeastExists(keys);
      var m :| m in keys && forall x :: x in keys ==> m <= x;
      [m] + Sorted(keys - {m})
  }

  /** `b"".join(chunks[index] for index in indices)` */
  function Join(chunks: map<int, seq<Byte>>, indices: seq<int>): seq<Byte>
    requires forall i :: 0 <= i < |indices| ==> indices[i] in chunks
  {
    if indices == [] then [] else Join(chunks, indices[..|indices| - 1]) + chunks[indices[|indices| - 1]]
  }

  function Joined(chunks: map<int, seq<Byte>>): seq<Byte> {
    Join(chunks, Sorted(chunks.Keys))
  }

  function Verdict(expected: string, actual: string): string {
    if expected == "" || expected == actual then "ok" else "crc_mismatch"
  }

  function Close(e: Entry, expected: string): Entry {
    var data := Joined(e.chunks);
    var actual := Hex.Checksum(Crc32.Crc(data));
    e.(saved := Some(data), crc := actual, status := Verdict(expected, actual))
  }

  function AddChunk(e: Entry, m: Report): Entry
    requires m.FsData?
  {
    var named := if m.path != "" then e.(path := m.path) else e;
    if m.k.Some? && Hex.FromHex(m.data).Some? then
      named.(chunks := named.chunks[m.k.value := Hex.FromHex(m.data).value])
    else named.(broken := true)
  }

  /** `_record_file_transfer_unlocked` */
  function Record(entries: map<string, Entry>, m: Report): map<string, Entry> {
    if m.FsData? then
      if m.job == "" then entries
      else
        var e := if m.job in entries then entries[m.job] else Entry(m.path, map[], false, None, "", "");
        entries[m.job := AddChunk(e, m)]
    else if m.status == "ok" && m.job in entries then entries[m.job := Close(entries[m.job], m.crc)]
    else entries
  }

  function RecordAll(entries: map<string, Entry>, reports: seq<Report>): map<string, Entry> {
    if reports == [] then entries
    else Record(RecordAll(entries, reports[..|reports| - 1]), reports[|reports| - 1])
  }

  class FileDownloads {
    var entries: map<string, Entry>

    constructor ()
      ensures entries == map[]
    {
      entries := map[];
    }

    method RecordFileTransfer(m: Report)
      modifies this
      ensures entries == Record(old(entries), m)
    {
      hide Hex.FromHex, Hex.Checksum, Crc32.Crc, Sorted;
      if m.FsData? {
        if m.job == "" {
          return;
        }
        if m.job !in entries {
          entries := entries[m.job := Entry(m.path, map[], false, None, "", "")];
        }
        var e := entries[m.job];
        if m.path != "" {
          e := e.(path := m.path);
        }
        var bytes := Hex.FromHex(m.data);
        if m.k.Some? && bytes.Some? {
          e := e.(chunks := e.chunks[m.k.value := bytes.value]);
        } else {
          e := e.(broken := true);
        }
        entries := entries[m.job := e];
      } else if m.status == "ok" {
        if m.job !in entries {
          return;
        }
        var e := entries[m.job];
        var data := JoinSorted(e.chunks);
        var actual := Hex.Checksum(Crc32.Crc(data));
        entries := entries[m.job := e.(saved := Some(data), crc := actual, status := Verdict(m.crc, actual))];
      }
    }

    static method JoinSorted(chunks: map<int, seq<Byte>>) returns (data: seq<Byte>)
      ensures data == Joined(chunks)
    {
      hide Sorted;
      var indices := Sorted(chunks.Keys);
      data := [];
      for i := 0 to |indices|
        invariant data == Join(chunks, indices[..i])
      {
        assert indices[..i + 1][..i] == indices[..i];
        data := data + chunks[indices[i]];
      }
      assert indices[..|indices|] == indices;
    }
  }

  // ---------------------------------------------------------------------------------
  // Reassembly
  // ---------------------------------------------------------------------------------

  /** The chunks present among numbers `k` and up, in order. */
  function Gather(chunks: map<int, seq<Byte>>, u: Shipment, k: nat): seq<Byte>
    requires Valid(u) || u.data == []
    decreases |u.data| - Reach(u, k)
  {
    if k * u.chunk < |u.data| then
      SliceBounds(u, k);
      (if k in chunks then chunks[k] else []) + Gather(chunks, u, k + 1)
    else []
  }

  lemma {:induction false} JoinFirst(chunks: map<int, seq<Byte>>, first: int, rest: seq<int>)
    requires first in chunks && forall i :: 0 <= i < |rest| ==> rest[i] in chunks
    ensures Join(chunks, [first] + rest) == chunks[first] + Join(chunks, rest)
  {
    var all := [first] + rest;
    if rest == [] {
      assert all[..0] == [] && Join(chunks, [first]) == Join(chunks, []) + chunks[first];
    } else {
      assert all[..|all| - 1] == [first] + rest[..|rest| - 1];
      JoinFirst(chunks, first, rest[..|rest| - 1]);
    }
  }

  lemma {:induction false} SortedFirst(keys: set<int>, m: int)
    requires m in keys && forall x :: x in keys ==> m <= x
    ensures Sorted(keys) == [m] + Sorted(keys - {m})
  {}

  /** Sorting visits the chunk numbers in order. */
  lemma {:induction false} SortedGathers(chunks: map<int, seq<Byte>>, u: Shipment, k: nat, keys: set<int>)
    requires Valid(u) || u.data == []
    requires forall x :: x in keys <==> x in chunks && k <= x
    requires forall x :: x in chunks ==> 0 <= x && x * u.chunk < |u.data|
    ensures Join(chunks, Sorted(keys)) == Gather(chunks, u, k)
    decreases |u.data| - Reach(u, k)
  {
    hide Sorted, Join;
    if k * u.chunk < |u.data| {
      SliceBounds(u, k);
      if k in chunks {
        SortedFirst(keys, k);
        SortedGathers(chunks, u, k + 1, keys - {k});
        JoinFirst(chunks, k, Sorted(keys - {k}));
      } else {
        SortedGathers(chunks, u, k + 1, keys);
      }
    } else {
      forall x | x in keys
        ensures false
      {
        Monotone(k, x, u.chunk);
      }
      NothingToJoin(chunks, keys);
    }
  }

  lemma {:induction false} NothingToJoin(chunks: map<int, seq<Byte>>, keys: set<int>)
    requires keys == {}
    ensures Sorted(keys) == [] && Join(chunks, Sorted(keys)) == []
  {}

  /** Genuine chunks give back the rest of the file if none is missing, else less. */
  lemma {:induction false} GatherIsRest(chunks: map<int, seq<Byte>>, u: Shipment, k: nat)
    requires Valid(u) || u.data == []
    requires forall x: nat :: x in chunks && x * u.chunk < |u.data| ==> chunks[x] == Slice(u, x)
    ensures |Gather(chunks, u, k)| <= |u.data| - Reach(u, k)
    ensures (forall x: nat :: k <= x && x * u.chunk < |u.data| ==> x in chunks) ==>
      Gather(chunks, u, k) == u.data[Reach(u, k)..]
    ensures |Gather(chunks, u, k)| == |u.data| - Reach(u, k) ==>
      forall x: nat :: k <= x && x * u.chunk < |u.data| ==> x in chunks
    decreases |u.data| - Reach(u, k)
  {
    if k * u.chunk < |u.data| {
      SliceBounds(u, k);
      SliceLength(u, k);
      PrefixNext(u, k);
      GatherIsRest(chunks, u, k + 1);
    } else {
      forall x: nat | k <= x
        ensures x * u.chunk >= |u.data|
      {
        Monotone(k, x, u.chunk);
      }
    }
  }

  // ---------------------------------------------------------------------------------
  // From the device's file to the controller's
  // ---------------------------------------------------------------------------------

  /** What arrives of a publication. */
  function Received(m: Publication): Report {
    match m
    case Piece(job, k, _, path, data) => FsData(job, path, Some(k), data)
    case Outcome(job, status, _, _, _, _, crc) => FsResult(job, status, crc)
  }

  predicate HasPiece(reports: seq<Report>, job: string, u: Shipment, k: nat) {
    k * u.chunk < |u.data| && exists i :: 0 <= i < |reports| && reports[i] == Received(PieceOf(job, u, k))
  }

  /** Every piece reported for the job is one the device sent; results, and messages for
      other jobs, may be anything. */
  predicate Genuine(reports: seq<Report>, job: string, u: Shipment) {
    forall i :: 0 <= i < |reports| && reports[i].FsData? && reports[i].job == job ==> IsPiece(reports[i], job, u)
  }

  predicate IsPiece(m: Report, job: string, u: Shipment) {
    m.FsData? && m.k.Some? && m.k.value >= 0 && m.k.value * u.chunk < |u.data|
    && m == Received(PieceOf(job, u, m.k.value))
  }

  ghost predicate Collected(chunks: map<int, seq<Byte>>, reports: seq<Report>, job: string, u: Shipment) {
    && (forall x :: x in chunks ==> 0 <= x && x * u.chunk < |u.data| && chunks[x] == Slice(u, x))
    && (forall k: nat :: k in chunks <==> HasPiece(reports, job, u, k))
  }

  lemma {:induction false} PieceAdds(e: Entry, job: string, u: Shipment, m: Report)
    requires IsPiece(m, job, u)
    ensures AddChunk(e, m).chunks == e.chunks[m.k.value := Slice(u, m.k.value)]
  {
    hide Hex.FromHex, Hex.Encode, Slice;
    Hex.FromHexOfEncode(Slice(u, m.k.value));
  }

  lemma {:induction false} HasPieceNext(reports: seq<Report>, m: Report, job: string, u: Shipment, k: nat)
    ensures HasPiece(reports + [m], job, u, k) <==>
      HasPiece(reports, job, u, k) || (k * u.chunk < |u.data| && m == Received(PieceOf(job, u, k)))
  {
    hide PieceOf, Received;
    if k * u.chunk < |u.data| {
      var p := Received(PieceOf(job, u, k));
      var all := reports + [m];
      assert all[|reports|] == m;
      if HasPiece(reports, job, u, k) {
        var i :| 0 <= i < |reports| && reports[i] == p;
        assert all[i] == p;
      }
    }
  }

  lemma {:induction false} PiecesDiffer(m: Report, job: string, u: Shipment, k: nat)
    requires k * u.chunk < |u.data|
    ensures m == Received(PieceOf(job, u, k)) ==> m.FsData? && m.job == job && m.k == Some(k)
    ensures IsPiece(m, job, u) ==> (m == Received(PieceOf(job, u, k)) <==> m.k == Some(k))
  {
    hide Slice, Hex.Encode;
  }

  /** Whatever the order, the losses and the repetitions, the chunks kept are the device's
      slices, one for each piece that arrived. */
  lemma {:induction false} ChunksAreCollected(entries: map<string, Entry>, reports: seq<Report>, job: string,
        u: Shipment)
    requires job != "" && job in entries && entries[job].chunks == map[] && Genuine(reports, job, u)
    ensures var after := RecordAll(entries, reports); job in after && Collected(after[job].chunks, reports, job, u)
  {
    hide Hex.FromHex, Hex.Encode, AddChunk, Close, PieceOf, Slice;
    if reports != [] {
      var n := |reports| - 1;
      var front, m := reports[..n], reports[n];
      assert reports == front + [m];
      assert forall i :: 0 <= i < n ==> front[i] == reports[i];
      ChunksAreCollected(entries, front, job, u);
      var before := RecordAll(entries, front);
      RecordOne(before, m, job, u);
      forall k: nat
        ensures HasPiece(reports, job, u, k) <==>
          HasPiece(front, job, u, k) || (k * u.chunk < |u.data| && m == Received(PieceOf(job, u, k)))
      {
        HasPieceNext(front, m, job, u, k);
      }
      forall k: nat | k * u.chunk < |u.data|
        ensures m == Received(PieceOf(job, u, k)) <==> m.FsData? && m.job == job && m.k == Some(k)
      {
        PiecesDiffer(m, job, u, k);
      }
    }
  }

  lemma {:induction false} RecordOne(entries: map<string, Entry>, m: Report, job: string, u: Shipment)
    requires job != "" && job in entries && (m.FsData? && m.job == job ==> IsPiece(m, job, u))
    ensures job in Record(entries, m)
    ensures Record(entries, m)[job].chunks ==
      if m.FsData? && m.job == job then entries[job].chunks[m.k.value := Slice(u, m.k.value)] else entries[job].chunks
  {
    hide Hex.FromHex, Hex.Encode, AddChunk, PieceOf, Slice, Joined, Hex.Checksum, Crc32.Crc;
    if m.FsData? && m.job == job {
      PieceAdds(entries[job], job, u, m);
    }
  }

  ghost predicate AllArrived(reports: seq<Report>, job: string, u: Shipment) {
    forall k: nat :: k * u.chunk < |u.data| ==> HasPiece(reports, job, u, k)
  }

  /** The file saved at the end is the device's file if and only if every piece arrived
      before the result, at least once and in any order. */
  lemma {:induction false} SavedFileIsFaithful(entries: map<string, Entry>, reports: seq<Report>, job: string,
        u: Shipment, crc: string)
    requires job != "" && job in entries && entries[job].chunks == map[] && Genuine(reports, job, u)
    requires Valid(u) || u.data == []
    ensures var after := Record(RecordAll(entries, reports), FsResult(job, "ok", crc));
      job in after && (after[job].saved == Some(u.data) <==> AllArrived(reports, job, u))
  {
    hide RecordAll, HasPiece, Sorted, Join, Gather, Hex.Checksum, Crc32.Crc, Slice;
    ChunksAreCollected(entries, reports, job, u);
    var chunks := RecordAll(entries, reports)[job].chunks;
    SortedGathers(chunks, u, 0, chunks.Keys);
    GatherIsRest(chunks, u, 0);
    assert u.data[0..] == u.data;
    assert |Gather(chunks, u, 0)| == |u.data| ==> AllArrived(reports, job, u);
  }

  /** A result that carries a checksum is judged by the bytes that were saved. */
  lemma {:induction false} OkMeansChecksum(entries: map<string, Entry>, reports: seq<Report>, job: string, crc: Word)
    requires job in RecordAll(entries, reports)
    ensures var e := Record(RecordAll(entries, reports), FsResult(job, "ok", Hex.Checksum(crc)))[job];
      e.saved.Some? && (e.status == "ok" <==> Crc32.Crc(e.saved.value) == crc)
  {
    hide RecordAll, Joined, Hex.Checksum, Crc32.Crc;
    var data := Joined(RecordAll(entries, reports)[job].chunks);
    assert "crc_mismatch"[0] != "ok"[0];
    Hex.ParseOfChecksum(crc);
    Hex.ParseOfChecksum(Crc32.Crc(data));
    assert |Hex.Checksum(crc)| == 8;
  }

  /** The whole path: what the device sends for an allowed file of at most 16384 bytes, once
      each of its pieces has arrived, is saved as that file and found correct. */
  lemma {:induction false} DownloadRoundTrip(files: map<string, seq<Byte>>, job: string, name: string, requested: nat,
        budget: nat, entries: map<string, Entry>, reports: seq<Report>)
    requires Paths.Allowed(Paths.Normalize(name)) && Paths.Normalize(name) in files
    requires |files[Paths.Normalize(name)]| <= FileReceiver.MAX_BYTES <= budget
    requires job != "" && job in entries && entries[job].chunks == map[]
    requires var u := Shipment(Paths.Normalize(name), files[Paths.Normalize(name)], CutSize(requested));
      Genuine(reports, job, u) && AllArrived(reports, job, u)
    ensures var sent := Transmission(files, job, name, requested, budget);
      && sent != []
      && var after := Record(RecordAll(entries, reports), Received(sent[|sent| - 1]));
      job in after && after[job].saved == Some(files[Paths.Normalize(name)]) && after[job].status == "ok"
  {
    hide Paths.Normalize, Paths.Allowed, Pieces, RecordAll, Record, AllArrived, Genuine, Hex.Checksum, Crc32.Crc;
    var path := Paths.Normalize(name);
    var u := Shipment(path, files[path], CutSize(requested));
    EnoughBudget(job, u, budget);
    var crc := Crc32.Crc(u.data);
    SavedFileIsFaithful(entries, reports, job, u, Hex.Checksum(crc));
    ChunksAreCollected(entries, reports, job, u);
    OkMeansChecksum(entries, reports, job, crc);
    var sent := Transmission(files, job, name, requested, budget);
    assert sent[|sent| - 1] == Success(job, u, |Pieces(job, u, 0, budget)|);
  }

  lemma {:induction false} EnoughBudget(job: string, u: Shipment, budget: nat)
    requires u.chunk > 0 && |u.data| <= budget
    ensures |u.data| <= |Pieces(job, u, 0, budget)| * u.chunk
  {
    CoversFile(job, u, 0, budget);
  }

  lemma {:induction false} CoversFile(job: string, u: Shipment, k: nat, budget: nat)
    requires u.chunk > 0 && |u.data| <= k * u.chunk + budget
    ensures |u.data| <= (k + |Pieces(job, u, k, budget)|) * u.chunk
    decreases budget
  {
    hide PieceOf;
    if budget > 0 && k * u.chunk < |u.data| {
      assert (k + 1) * u.chunk == k * u.chunk + u.chunk;
      CoversFile(job, u, k + 1, budget - 1);
      assert |Pieces(job, u, k, budget)| == 1 + |Pieces(job, u, k + 1, budget - 1)|;
    } else {
      assert |Pieces(job, u, k, budget)| == 0;
    }
  }
}
