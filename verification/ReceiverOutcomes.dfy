/** What one message makes the receiver do, from the message and the state alone. */
module ReceiverOutcomes {
  import opened Bytes
  import Crc32
  import opened FileReceiver
  import Hex
  import Paths
  import opened ReceiverHistory
  import opened Words

  // ---------------------------------------------------------------------------------
  // A data message
  // ---------------------------------------------------------------------------------

  /** The data are digit pairs, at most a chunk of them. */
  predicate Decodes(encoded: string) {
    Hex.AllPairs(encoded) && |encoded| <= 2 * CHUNK_BYTES
  }

  /** The chunk fits what is still missing of the file, and is not empty. */
  predicate InSize(d: Device, encoded: string) {
    0 < |encoded| / 2 && d.receivedSize + |encoded| / 2 <= d.expectedSize
  }

  /** The transfer is over and its file gone: one failed result for its job and one
      acknowledgement, both with the cause. */
  predicate Aborted(d: Device, e: Device, seqNo: Word, status: string, cause: string) {
    && !e.active && d.path !in e.files && e.files == d.files - {d.path}
    && e.sent == d.sent + [Result(d.jobId, "put_mqtt", "failed", cause), FileState, Ack(d.jobId, seqNo, status, cause)]
  }

  /** The file is longer by `chunk`, and nothing else is different in the file system. */
  predicate Grown(d: Device, files: map<string, seq<Byte>>, chunk: seq<Byte>) {
    d.path in d.files && files == d.files[d.path := d.files[d.path] + chunk]
  }

  /** The chunk is stored and acknowledged, and the transfer goes on. */
  predicate Continued(d: Device, e: Device, chunk: seq<Byte>) {
    && Grown(d, e.files, chunk)
    && e.active && e.jobId == d.jobId && e.path == d.path
    && e.expectedSize == d.expectedSize && e.expectedCrc == d.expectedCrc
    && e.receivedSize == |e.files[d.path]| && e.crc == Crc32.Crc(e.files[d.path])
    && e.nextSeq == d.nextSeq + 1
    && e.sent == d.sent + [Ack(d.jobId, d.nextSeq, "ok", "")]
  }

  /** The last chunk is acknowledged, and the file stands if and only if it has the announced
      checksum. */
  predicate Completed(d: Device, e: Device, chunk: seq<Byte>)
    requires d.path in d.files
  {
    var content := d.files[d.path] + chunk;
    && !e.active
    && if Crc32.Crc(content) == d.expectedCrc
       then
         && Grown(d, e.files, chunk)
         && e.sent == d.sent + [Ack(d.jobId, d.nextSeq, "ok", ""),
                                PutDone(d.jobId, d.path, |content|, Crc32.Crc(content)), FileState]
       else
         && e.files == d.files - {d.path}
         && e.sent == d.sent + [Ack(d.jobId, d.nextSeq, "ok", ""),
                                Result(d.jobId, "put_mqtt", "failed", "crc_or_size_mismatch"), FileState]
  }

  lemma {:induction false} RejectAborts(d: Device, seqNo: Word, status: string, cause: string)
    requires d.active && cause != ""
    ensures Aborted(d, Reject(d, d.jobId, seqNo, status, cause), seqNo, status, cause)
  {
    hide Finish;
    FinishPublishes(d, false, cause);
  }

  lemma {:induction false} CausesAreNamed()
    ensures "unexpected_sequence" != "" && "decode_failed" != "" && "size_overflow" != "" && "write_failed" != ""
  {}

  lemma {:induction false} DecodesIff(encoded: string)
    ensures Hex.Decode(encoded, CHUNK_BYTES).Some? <==> Decodes(encoded)
    ensures Decodes(encoded) ==> |Hex.Decode(encoded, CHUNK_BYTES).value| == |encoded| / 2
  {
    hide Hex.Pairs;
    Hex.PairsIff(encoded);
  }

  /** A message that is not for an active transfer is answered by one acknowledgement and changes
      nothing. */
  lemma {:induction false} StrayDataOutcome(d: Device, job: string, seqNo: Word, encoded: string, writes: bool)
    requires !d.active || job != d.jobId
    ensures Data(d, job, seqNo, encoded, writes)
         == d.(sent := d.sent + [Ack(job, seqNo, "rejected", "no_active_transfer")])
  {
    hide Hex.Decode, Finish, Append;
  }

  /** A message for the active transfer that cannot be taken: whatever the cause, the transfer
      ends with it and its file is removed. */
  lemma {:induction false} BadDataOutcome(d: Device, seqNo: Word, encoded: string, writes: bool)
    requires d.active
    ensures var e := Data(d, d.jobId, seqNo, encoded, writes);
      && (seqNo != d.nextSeq ==> Aborted(d, e, seqNo, "rejected", "unexpected_sequence"))
      && (seqNo == d.nextSeq && !Decodes(encoded) ==> Aborted(d, e, seqNo, "rejected", "decode_failed"))
      && (seqNo == d.nextSeq && Decodes(encoded) && !InSize(d, encoded) ==>
            Aborted(d, e, seqNo, "rejected", "size_overflow"))
      && (seqNo == d.nextSeq && Decodes(encoded) && InSize(d, encoded) && !writes ==>
            Aborted(d, e, seqNo, "failed", "write_failed"))
  {
    hide Hex.Decode, Finish, Append, Reject, Aborted, Decodes;
    CausesAreNamed();
    DecodesIff(encoded);
    RejectAborts(d, seqNo, "rejected", "unexpected_sequence");
    RejectAborts(d, seqNo, "rejected", "decode_failed");
    RejectAborts(d, seqNo, "rejected", "size_overflow");
    RejectAborts(d, seqNo, "failed", "write_failed");
  }

  /** One that can be taken: its bytes go to the end of the file, which completes the transfer
      if and only if the announced size is reached. */
  lemma {:induction false} GoodDataOutcome(d: Device, encoded: string)
    requires Inv(d) && d.active && Decodes(encoded) && InSize(d, encoded)
    ensures d.path in d.files && Hex.Pairs(encoded).Some? && |Hex.Pairs(encoded).value| == |encoded| / 2
    ensures var e, chunk := Data(d, d.jobId, d.nextSeq, encoded, true), Hex.Pairs(encoded).value;
      if d.receivedSize + |chunk| < d.expectedSize then Continued(d, e, chunk) else Completed(d, e, chunk)
  {
    hide Hex.Decode, Hex.Pairs, Finish, Append, Crc32.Crc, OpenAfter, Concat, Paths.Allowed, Decodes;
    DecodesIff(encoded);
    var chunk := Hex.Decode(encoded, CHUNK_BYTES).value;
    DecodeIsPairs(encoded);
    AppendExtends(d, chunk);
    AppendRest(d, chunk);
    AppendSends(d, chunk);
    NextNumberFits(d);
    AppendGrows(d, chunk);
    var stored := Append(d, chunk).Publish(Ack(d.jobId, d.nextSeq, "ok", ""));
    if stored.receivedSize >= stored.expectedSize {
      FinishPublishes(stored, true, "");
      assert stored.files - {d.path} == d.files - {d.path};
    }
  }

  lemma {:induction false} DecodeIsPairs(encoded: string)
    requires Hex.Decode(encoded, CHUNK_BYTES).Some?
    ensures Hex.Decode(encoded, CHUNK_BYTES) == Hex.Pairs(encoded)
  {
    hide Hex.Pairs;
  }

  lemma {:induction false} AppendGrows(d: Device, chunk: seq<Byte>)
    requires d.path in d.files && d.nextSeq + 1 < MODULUS
    ensures Grown(d, Append(d, chunk).files, chunk) && Append(d, chunk).nextSeq == d.nextSeq + 1
  {
    hide Crc32.Update;
  }

  lemma {:induction false} NextNumberFits(d: Device)
    requires Inv(d) && d.active
    ensures d.nextSeq + 1 < MODULUS
  {
    hide Crc32.Crc, OpenAfter, Paths.Allowed;
    CountFits(d.accepted);
  }

  /** In short: a message for the active transfer is acknowledged as "ok" and its bytes stored, or
      it ends the transfer, removes the file and is answered by exactly one failed result and one
      acknowledgement of another status. */
  lemma {:induction false} DataTakenIff(d: Device, seqNo: Word, encoded: string, writes: bool)
    requires Inv(d) && d.active
    ensures var e := Data(d, d.jobId, seqNo, encoded, writes);
      if seqNo == d.nextSeq && Decodes(encoded) && InSize(d, encoded) && writes
      then d.sent + [Ack(d.jobId, seqNo, "ok", "")] <= e.sent
      else exists status, cause :: Aborted(d, e, seqNo, status, cause) && status != "ok"
  {
    hide Data, Inv, Aborted, Decodes, InSize, Grown;
    var e := Data(d, d.jobId, seqNo, encoded, writes);
    BadDataOutcome(d, seqNo, encoded, writes);
    StatusesDiffer();
    if seqNo != d.nextSeq {
      assert Aborted(d, e, seqNo, "rejected", "unexpected_sequence");
    } else if !Decodes(encoded) {
      assert Aborted(d, e, seqNo, "rejected", "decode_failed");
    } else if !InSize(d, encoded) {
      assert Aborted(d, e, seqNo, "rejected", "size_overflow");
    } else if !writes {
      assert Aborted(d, e, seqNo, "failed", "write_failed");
    } else {
      GoodDataOutcome(d, encoded);
    }
  }

  lemma {:induction false} StatusesDiffer()
    ensures "rejected" != "ok" && "failed" != "ok" && "ready" != "ok"
  {
    assert "rejected"[0] != "ok"[0] && "failed"[0] != "ok"[0] && "ready"[0] != "ok"[0];
  }

  // ---------------------------------------------------------------------------------
  // A put job
  // ---------------------------------------------------------------------------------

  /** What is said of the transfer that a new one takes the place of. */
  function Superseded(d: Device): seq<Message> {
    if d.active then [Result(d.jobId, "put_mqtt", "failed", "superseded"), FileState] else []
  }

  /** The files without the one being received. */
  function Others(d: Device): map<string, seq<Byte>> {
    if d.active then d.files - {d.path} else d.files
  }

  /** A job that names a path that is not allowed, or a size or checksum that is not, is rejected
      and leaves the active transfer alone. */
  lemma {:induction false} RejectedBeginOutcome(d: Device, job: string, path: string, size: nat, crc: Word, opens: bool)
    ensures var e, allowed := Begin(d, job, path, size, crc, opens), Paths.Allowed(Paths.Normalize(path));
      && (!allowed ==>
            e == d.Publish(Result(job, "put_mqtt", "rejected", "path_or_filesystem_unavailable")))
      && (allowed && !(0 < size <= 16384 && crc != 0) ==>
            e == d.Publish(Result(job, "put_mqtt", "rejected", "invalid_size_or_crc")))
  {
    hide Paths.Normalize, Paths.Allowed, Finish, Activate;
  }

  /** Any other ends the active transfer and removes its file; then it begins, on an empty file,
      if the file can be opened. */
  lemma {:induction false} BeginOutcome(d: Device, job: string, path: string, size: nat, crc: Word, opens: bool)
    requires Paths.Allowed(Paths.Normalize(path)) && 0 < size <= 16384 && crc != 0
    ensures var e, stored := Begin(d, job, path, size, crc, opens), Paths.Normalize(path);
      if opens
      then
        && e.active && e.jobId == job && e.path == stored && e.expectedSize == size && e.expectedCrc == crc
        && e.receivedSize == 0 && e.crc == 0 && e.nextSeq == 0
        && e.files == Others(d)[stored := []]
        && e.sent == d.sent + Superseded(d) + [Ack(job, 0, "ready", "")]
      else
        && !e.active && e.files == Others(d)
        && e.sent == d.sent + Superseded(d) + [Result(job, "put_mqtt", "failed", "open_failed")]
  {
    hide Paths.Normalize, Paths.Allowed, Finish;
    FinishIdle(d);
    if d.active {
      assert "superseded" != "";
      FinishPublishes(d, false, "superseded");
    }
  }

  // ---------------------------------------------------------------------------------
  // A delete job
  // ---------------------------------------------------------------------------------

  /** The job is answered by one result and the state of the files. "ok" is reported if and only
      if the path is allowed, there is such a file and it could be removed, and then exactly that
      file is gone; else nothing changes. */
  lemma {:induction false} DeleteOutcome(d: Device, job: string, path: string, removes: bool)
    ensures var e, stored := Delete(d, job, path, removes), Paths.Normalize(path);
      var gone := Paths.Allowed(stored) && stored in d.files && removes;
      && e.sent == d.sent + [
           if gone then Result(job, "delete", "ok", "") else Result(job, "delete", "failed", "delete_failed"),
           FileState]
      && e.files == (if gone then d.files - {stored} else d.files)
      && (Result(job, "delete", "ok", "") in e.sent[|d.sent|..] <==> gone)
      && (Result(job, "delete", "ok", "") in e.sent[|d.sent|..] ==> stored !in e.files)
      && e.(sent := d.sent, files := d.files) == d
  {
    hide Paths.Normalize, Paths.Allowed;
    StatusesDiffer();
  }
}
