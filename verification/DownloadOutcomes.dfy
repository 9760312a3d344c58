/** What one "get_mqtt" job makes the device publish, and what one message makes the controller
    record, cause by cause. */
module DownloadOutcomes {
  import opened Bytes
  import opened Chunks
  import Crc32
  import opened Download
  import Hex
  import Paths

  // ---------------------------------------------------------------------------------
  // The device
  // ---------------------------------------------------------------------------------

  /** A job whose file cannot be sent is answered by one result, which names the cause. */
  lemma {:induction false} RefusedTransmission(files: map<string, seq<Byte>>, job: string, name: string, requested: nat,
        budget: nat)
    ensures var path, sent := Paths.Normalize(name), Transmission(files, job, name, requested, budget);
      && (!Paths.Allowed(path) ==>
            sent == [Outcome(job, "rejected", "path_or_filesystem_unavailable", "", 0, 0, "")])
      && (Paths.Allowed(path) && path !in files ==> sent == [Outcome(job, "failed", "open_failed", "", 0, 0, "")])
      && (Paths.Allowed(path) && path in files && |files[path]| > 16384 ==>
            sent == [Outcome(job, "rejected", "file_too_large", "", 0, 0, "")])
  {
    hide Paths.Normalize, Paths.Allowed, Pieces;
  }

  predicate IsPieceNumber(m: Publication, job: string, u: Shipment, n: nat) {
    n * u.chunk < |u.data| && m == PieceOf(job, u, n)
  }

  /** The pieces are the slices from the `k`-th on, until the budget or the file is used up. */
  lemma {:induction false} PiecesAre(job: string, u: Shipment, k: nat, budget: nat)
    ensures var pieces := Pieces(job, u, k, budget);
      && |pieces| <= budget && (|pieces| == budget || |u.data| <= (k + |pieces|) * u.chunk)
      && forall i :: 0 <= i < |pieces| ==> IsPieceNumber(pieces[i], job, u, k + i)
    decreases budget
  {
    hide PieceOf;
    if budget > 0 && k * u.chunk < |u.data| {
      PiecesAre(job, u, k + 1, budget - 1);
      var pieces, rest := Pieces(job, u, k, budget), Pieces(job, u, k + 1, budget - 1);
      assert IsPieceNumber(pieces[0], job, u, k);
      hide IsPieceNumber;
      forall i | 0 <= i < |pieces|
        ensures IsPieceNumber(pieces[i], job, u, k + i)
      {
        assert i > 0 ==> pieces[i] == rest[i - 1] && IsPieceNumber(rest[i - 1], job, u, k + 1 + (i - 1));
      }
    }
  }

  /** The size of the pieces: as asked for, but at most 384 bytes. */
  function PieceSize(requested: nat): nat {
    if 1 <= requested <= 384 then requested else 384
  }

  /** Piece `i` of a file: its place and its bytes. */
  predicate IsPieceOf(m: Publication, job: string, path: string, data: seq<Byte>, size: nat, i: nat) {
    var end := if (i + 1) * size < |data| then (i + 1) * size else |data|;
    i * size < |data| && m == Piece(job, i, i * size, path, Hex.Encode(data[i * size..end]))
  }

  lemma {:induction false} PieceIs(job: string, path: string, data: seq<Byte>, size: nat, i: nat)
    requires i * size < |data|
    ensures IsPieceOf(PieceOf(job, Shipment(path, data, size), i), job, path, data, size, i)
  {
    hide Hex.Encode;
  }

  /** Any other job is answered by the pieces of the file in order, as many as the transport
      takes, and one result: the file's size, checksum and number of pieces if they are all, else
      a failure. */
  lemma {:induction false} FileTransmission(files: map<string, seq<Byte>>, job: string, name: string, requested: nat,
        budget: nat)
    requires var path := Paths.Normalize(name); Paths.Allowed(path) && path in files && |files[path]| <= 16384
    ensures var path, size := Paths.Normalize(name), PieceSize(requested);
      var data, sent := files[path], Transmission(files, job, name, requested, budget);
      var n := |sent| - 1;
      && 0 <= n <= budget && (n == budget || |data| <= n * size)
      && (forall i :: 0 <= i < n ==> IsPieceOf(sent[i], job, path, data, size, i))
      && sent[n] == if |data| <= n * size
                    then Outcome(job, "ok", "", path, |data|, n, Hex.Checksum(Crc32.Crc(data)))
                    else Outcome(job, "failed", "publish_failed", "", 0, 0, "")
  {
    hide Paths.Normalize, Paths.Allowed, Pieces, Hex.Checksum, Crc32.Crc, IsPieceOf, PieceOf;
    var path, size := Paths.Normalize(name), PieceSize(requested);
    var u := Shipment(path, files[path], size);
    PiecesAre(job, u, 0, budget);
    forall i: nat | i * size < |u.data|
      ensures IsPieceOf(PieceOf(job, u, i), job, path, u.data, size, i)
    {
      PieceIs(job, path, u.data, size, i);
    }
  }

  // ---------------------------------------------------------------------------------
  // The controller
  // ---------------------------------------------------------------------------------

  /** A message changes no other download. */
  lemma {:induction false} RecordLeavesOthers(entries: map<string, Entry>, m: Report, job: string)
    requires job != m.job
    ensures job in Record(entries, m) <==> job in entries
    ensures job in entries ==> Record(entries, m)[job] == entries[job]
  {
    hide AddChunk, Close;
  }

  /** A result that is not "ok", or that comes for an unknown download, and a piece without a
      job change nothing at all. */
  lemma {:induction false} IdleReports(entries: map<string, Entry>, m: Report)
    requires if m.FsData? then m.job == "" else m.status != "ok" || m.job !in entries
    ensures Record(entries, m) == entries
  {
    hide AddChunk, Close;
  }

  /** A piece that has no number or is not hexadecimal marks the download as broken and keeps its
      pieces; a good one is kept under its number, instead of any earlier one. */
  lemma {:induction false} PieceOutcome(entries: map<string, Entry>, m: Report)
    requires m.FsData? && m.job != ""
    ensures var e := Record(entries, m)[m.job];
      var known := m.job in entries;
      var chunks := if known then entries[m.job].chunks else map[];
      && e.path == (if m.path != "" || !known then m.path else entries[m.job].path)
      && e.saved == (if known then entries[m.job].saved else None)
      && if m.k == None || Hex.FromHex(m.data) == None then e.broken && e.chunks == chunks
         else
           && e.broken == (known && entries[m.job].broken)
           && e.chunks == chunks[m.k.value := Hex.FromHex(m.data).value]
  {
    hide Hex.FromHex;
  }

  /** An "ok" result for a known download saves the join of its pieces and records its checksum; it
      is found correct if the result carries that checksum or none. */
  lemma {:induction false} ResultOutcome(entries: map<string, Entry>, job: string, crc: string)
    requires job in entries
    ensures var before, e := entries[job], Record(entries, FsResult(job, "ok", crc))[job];
      var data := Joined(before.chunks);
      && e.saved == Some(data) && e.crc == Hex.Checksum(Crc32.Crc(data))
      && (e.status == "ok" <==> crc == "" || crc == Hex.Checksum(Crc32.Crc(data)))
      && e.(saved := before.saved, crc := before.crc, status := before.status) == before
  {
    hide Joined, Hex.Checksum, Crc32.Crc;
    assert "crc_mismatch"[0] != "ok"[0];
  }
}
