/** The device's side of file transfer: one incoming file at a time, fed chunk by chunk. */
module FileReceiver {
  import opened Bytes
  import Crc32
  import Hex
  import Paths
  import opened Words

  const CHUNK_BYTES: nat := 384
  const MAX_BYTES: nat := 16384

  // ---------------------------------------------------------------------------------
  // State and messages
  // ---------------------------------------------------------------------------------

  /** What the device publishes about files. */
  datatype Message =
    | Ack(job: string, seqNo: Word, status: string, detail: string)
    | Result(job: string, op: string, status: string, detail: string)
    | PutDone(job: string, path: string, size: nat, crc: Word)
    | FileState

  /** The fields of `incomingFile_`, the file system, and what was published so far.
      `accepted` is the history of the chunks written since the transfer began. */
  datatype Device = Device(
    active: bool, jobId: string, path: string, expectedSize: nat, receivedSize: nat, expectedCrc: Word, crc: Word,
    nextSeq: Word, files: map<string, seq<Byte>>, sent: seq<Message>, accepted: seq<seq<Byte>>)
  {
    function Publish(m: Message): Device {
      this.(sent := sent + [m])
    }
  }

  function Start(files: map<string, seq<Byte>>): Device {
    Device(false, "", "", 0, 0, 0, 0, 0, files, [], [])
  }

  // ---------------------------------------------------------------------------------
  // What each handler does
  // ---------------------------------------------------------------------------------

  function Completes(d: Device, ok: bool): bool {
    ok && d.receivedSize == d.expectedSize && (d.expectedCrc == 0 || d.crc == d.expectedCrc)
  }

  /** `finishMqttPut` */
  function Finish(d: Device, ok: bool, detail: string): Device {
    if !d.active then d
    else if !Completes(d, ok) then
      d.(active := false, files := d.files - {d.path})
        .Publish(Result(d.jobId, "put_mqtt", "failed", if detail == "" then "crc_or_size_mismatch" else detail))
        .Publish(FileState)
    else
      d.(active := false).Publish(PutDone(d.jobId, d.path, d.receivedSize, d.crc)).Publish(FileState)
  }

  /** `beginMqttPut`; `opens` says whether the file system opens the file. */
  function Begin(d: Device, jobId: string, path: string, size: nat, expectedCrc: Word, opens: bool): Device {
    var normalized := Paths.Normalize(path);
    if !Paths.Allowed(normalized) then
      d.Publish(Result(jobId, "put_mqtt", "rejected", "path_or_filesystem_unavailable"))
    else if size == 0 || size > MAX_BYTES || expectedCrc == 0 then
      d.Publish(Result(jobId, "put_mqtt", "rejected", "invalid_size_or_crc"))
    else
      var e := Finish(d, false, "superseded");
      if !opens then e.Publish(Result(jobId, "put_mqtt", "failed", "open_failed"))
      else Activate(e, jobId, normalized, size, expectedCrc)
  }

  /** The new transfer, on an empty file. */
  function Activate(d: Device, jobId: string, path: string, size: nat, expectedCrc: Word): Device {
    Device(true, jobId, path, size, 0, expectedCrc, 0, 0, d.files[path := []], d.sent, [])
      .Publish(Ack(jobId, 0, "ready", ""))
  }

  function Reject(d: Device, jobId: string, seqNo: Word, status: string, detail: string): Device {
    Finish(d, false, detail).Publish(Ack(jobId, seqNo, status, detail))
  }

  /** `handleFileData` on a "put_mqtt" message; `writes` says whether the write succeeds. */
  function Data(d: Device, jobId: string, seqNo: Word, encoded: string, writes: bool): Device {
    if !d.active || jobId != d.jobId then d.Publish(Ack(jobId, seqNo, "rejected", "no_active_transfer"))
    else if seqNo != d.nextSeq then Reject(d, jobId, seqNo, "rejected", "unexpected_sequence")
    else
      match Hex.Decode(encoded, CHUNK_BYTES)
      case None => Reject(d, jobId, seqNo, "rejected", "decode_failed")
      case Some(chunk) =>
        if chunk == [] || d.receivedSize + |chunk| > d.expectedSize then
          Reject(d, jobId, seqNo, "rejected", "size_overflow")
        else if !writes then Reject(d, jobId, seqNo, "failed", "write_failed")
        else
          var e := Append(d, chunk).Publish(Ack(jobId, seqNo, "ok", ""));
          if e.receivedSize >= e.expectedSize then Finish(e, true, "") else e
  }

  /** A chunk written to the open file and counted. */
  function Append(d: Device, chunk: seq<Byte>): Device {
    var content := if d.path in d.files then d.files[d.path] else [];
    d.(files := d.files[d.path := content + chunk], crc := Crc32.Update(d.crc, chunk),
       receivedSize := d.receivedSize + |chunk|, nextSeq := (d.nextSeq + 1) % MODULUS, accepted := d.accepted + [chunk])
  }

  /** `deletePath`; `removes` says whether the file system removes the file. */
  function Delete(d: Device, jobId: string, path: string, removes: bool): Device {
    var normalized := Paths.Normalize(path);
    if Paths.Allowed(normalized) && normalized in d.files && removes then
      d.(files := d.files - {normalized}).Publish(Result(jobId, "delete", "ok", "")).Publish(FileState)
    else
      d.Publish(Result(jobId, "delete", "failed", "delete_failed")).Publish(FileState)
  }

  /** The messages that reach these handlers, with what the file system does. */
  datatype Event =
    | PutJob(job: string, path: string, size: nat, crc: Word, opens: bool)
    | PutData(job: string, seqNo: Word, data: string, writes: bool)
    | DeleteJob(job: string, path: string, removes: bool)

  function Step(d: Device, e: Event): Device {
    match e
    case PutJob(job, path, size, crc, opens) => Begin(d, job, path, size, crc, opens)
    case PutData(job, seqNo, data, writes) => Data(d, job, seqNo, data, writes)
    case DeleteJob(job, path, removes) => Delete(d, job, path, removes)
  }

  function Run(d: Device, events: seq<Event>): Device {
    if events == [] then d else Step(Run(d, events[..|events| - 1]), events[|events| - 1])
  }

  lemma {:induction false} FinishIdle(d: Device)
    ensures !d.active ==> forall ok, detail :: Finish(d, ok, detail) == d
  {}

  lemma {:induction false} AppendKeeps(d: Device)
    ensures forall chunk ::
      var e := Append(d, chunk);
      e.receivedSize == d.receivedSize + |chunk| && e.expectedSize == d.expectedSize && e.active == d.active
  {}

  // ---------------------------------------------------------------------------------
  // The class
  // ---------------------------------------------------------------------------------

  class Manager {
    var active: bool
    var jobId: string
    var path: string
    var expectedSize: nat
    var receivedSize: nat
    var expectedCrc: Word
    var crc: Word
    var nextSeq: Word
    var files: map<string, seq<Byte>>
    var sent: seq<Message>
    ghost var accepted: seq<seq<Byte>>

    constructor (files: map<string, seq<Byte>>)
      ensures State() == Start(files)
    {
      active, jobId, path, expectedSize, receivedSize := false, "", "", 0, 0;
      expectedCrc, crc, nextSeq := 0, 0, 0;
      this.files, sent, accepted := files, [], [];
    }

    ghost function State(): Device
      reads this
    {
      Device(active, jobId, path, expectedSize, receivedSize, expectedCrc, crc, nextSeq, files, sent, accepted)
    }

    method Publish(m: Message)
      modifies this`sent
      ensures State() == old(State()).Publish(m)
    {
      sent := sent + [m];
    }

    /** `delivered` says whether the transport takes the result of a completed transfer. */
    method FinishMqttPut(ok: bool, detail: string, delivered: bool) returns (published: bool)
      modifies this
      ensures State() == Finish(old(State()), ok, detail)
      ensures published == (old(active) && Completes(old(State()), ok) && delivered)
    {
      if !active {
        return false;
      }
      var job, received, actual, expected := jobId, receivedSize, crc, expectedCrc;
      if !ok || received != expectedSize || (expected != 0 && actual != expected) {
        files := files - {path};
        active := false;
        Publish(Result(job, "put_mqtt", "failed", if detail == "" then "crc_or_size_mismatch" else detail));
        Publish(FileState);
        return false;
      }
      active := false;
      Publish(PutDone(job, path, received, actual));
      published := delivered;
      Publish(FileState);
    }

    method BeginMqttPut(job: string, name: string, size: nat, expected: Word, opens: bool) returns (ok: bool)
      modifies this
      ensures State() == Begin(old(State()), job, name, size, expected, opens)
    {
      hide Paths.Normalize, Paths.Allowed, Finish, Activate;
      FinishIdle(State());
      var normalized := Paths.NormalizePath(name);
      if !Paths.Allowed(normalized) {
        Publish(Result(job, "put_mqtt", "rejected", "path_or_filesystem_unavailable"));
        return false;
      }
      if size == 0 || size > MAX_BYTES || expected == 0 {
        Publish(Result(job, "put_mqtt", "rejected", "invalid_size_or_crc"));
        return false;
      }
      if active {
        var _ := FinishMqttPut(false, "superseded", true);
      }
      if !opens {
        Publish(Result(job, "put_mqtt", "failed", "open_failed"));
        return false;
      }
      Fill(job, normalized, size, expected);
      ok := true;
    }

    /** The part of `beginMqttPut` that fills `incomingFile_`. */
    method Fill(job: string, normalized: string, size: nat, expected: Word)
      modifies this
      ensures State() == Activate(old(State()), job, normalized, size, expected)
    {
      active, jobId, path, files := true, job, normalized, files[normalized := []];
      expectedSize, receivedSize, expectedCrc, crc, nextSeq, accepted := size, 0, expected, 0, 0, [];
      assert State() == Device(true, job, normalized, size, 0, expected, 0, 0,
                               old(files)[normalized := []], old(sent), []);
      Publish(Ack(job, 0, "ready", ""));
    }

    /** The part of `handleFileData` that stores a chunk. */
    method WriteChunk(buffer: array<Byte>, len: nat)
      requires len <= buffer.Length
      modifies this
      ensures State() == Append(old(State()), buffer[..len])
    {
      hide Crc32.Update;
      files := files[path := (if path in files then files[path] else []) + buffer[..len]];
      crc := Crc32.Crc32Update(crc, buffer, len);
      receivedSize := receivedSize + len;
      nextSeq := (nextSeq + 1) % MODULUS;
      accepted := accepted + [buffer[..len]];
    }

    method HandleFileData(job: string, seqNo: Word, encoded: string, writes: bool)
      modifies this
      ensures State() == Data(old(State()), job, seqNo, encoded, writes)
    {
      hide Hex.Decode, Append, Finish;
      FinishIdle(State());
      AppendKeeps(State());
      if !active || job != jobId {
        Publish(Ack(job, seqNo, "rejected", "no_active_transfer"));
        return;
      }
      if seqNo != nextSeq {
        var _ := FinishMqttPut(false, "unexpected_sequence", true);
        Publish(Ack(job, seqNo, "rejected", "unexpected_sequence"));
        return;
      }
      var buffer := new Byte[384];
      var decoded, decodedLen := Hex.DecodeHexBytes(encoded, buffer, 384);
      if !decoded {
        var _ := FinishMqttPut(false, "decode_failed", true);
        Publish(Ack(job, seqNo, "rejected", "decode_failed"));
        return;
      }
      if decodedLen == 0 || receivedSize + decodedLen > expectedSize {
        var _ := FinishMqttPut(false, "size_overflow", true);
        Publish(Ack(job, seqNo, "rejected", "size_overflow"));
        return;
      }
      if !writes {
        var _ := FinishMqttPut(false, "write_failed", true);
        Publish(Ack(job, seqNo, "failed", "write_failed"));
        return;
      }
      WriteChunk(buffer, decodedLen);
      Publish(Ack(job, seqNo, "ok", ""));
      if receivedSize >= expectedSize {
        var _ := FinishMqttPut(true, "", true);
      }
    }

    method DeletePath(job: string, name: string, removes: bool) returns (ok: bool)
      modifies this
      ensures State() == Delete(old(State()), job, name, removes)
    {
      hide Paths.Normalize, Paths.Allowed;
      var normalized := Paths.NormalizePath(name);
      ok := false;
      if Paths.Allowed(normalized) && normalized in files && removes {
        files := files - {normalized};
        ok := true;
      }
      Publish(Result(job, "delete", if ok then "ok" else "failed", if ok then "" else "delete_failed"));
      Publish(FileState);
    }
  }

  // ---------------------------------------------------------------------------------
  // The invariant of every run
  // ---------------------------------------------------------------------------------

  function Concat(chunks: seq<seq<Byte>>): seq<Byte> {
    if chunks == [] then [] else Concat(chunks[..|chunks| - 1]) + chunks[|chunks| - 1]
  }

  /** Which transfer the published messages leave open: each "ready" opens one, and only a
      finishing result for the same job closes it. */
  datatype Open = Closed | Opened(job: string) | Broken

  predicate Finishes(m: Message) {
    m.PutDone? || (m.Result? && m.op == "put_mqtt" && m.status == "failed" && m.detail != "open_failed")
  }

  function After(open: Open, m: Message): Open {
    if m.Ack? && m.status == "ready" then (if open == Closed then Opened(m.job) else Broken)
    else if Finishes(m) then (if open == Opened(m.job) then Closed else Broken)
    else open
  }

  function OpenAfter(sent: seq<Message>): Open {
    if sent == [] then Closed else After(OpenAfter(sent[..|sent| - 1]), sent[|sent| - 1])
  }

  ghost predicate Transfer(d: Device) {
    && d.path in d.files && d.files[d.path] == Concat(d.accepted)
    && d.receivedSize == |d.files[d.path]| < d.expectedSize <= MAX_BYTES
    && d.crc == Crc32.Crc(d.files[d.path]) && d.expectedCrc != 0
    && d.nextSeq == |d.accepted| && (forall i :: 0 <= i < |d.accepted| ==> d.accepted[i] != [])
    && Paths.Allowed(d.path)
  }

  ghost predicate Inv(d: Device) {
    && (d.active ==> Transfer(d))
    && OpenAfter(d.sent) == if d.active then Opened(d.jobId) else Closed
  }

  lemma {:induction false} PublishOpens(d: Device, m: Message)
    ensures OpenAfter(d.Publish(m).sent) == After(OpenAfter(d.sent), m)
  {
    assert d.Publish(m).sent[..|d.sent|] == d.sent;
  }

  lemma {:induction false} ConcatNext(chunks: seq<seq<Byte>>, chunk: seq<Byte>)
    ensures Concat(chunks + [chunk]) == Concat(chunks) + chunk
  {
    assert (chunks + [chunk])[..|chunks|] == chunks;
  }

  lemma {:induction false} CountFits(chunks: seq<seq<Byte>>)
    requires forall i :: 0 <= i < |chunks| ==> chunks[i] != []
    ensures |chunks| <= |Concat(chunks)|
  {
    if chunks != [] {
      CountFits(chunks[..|chunks| - 1]);
    }
  }

  /** A transfer that finishes is closed by one result for its own job. It reports success
      exactly when the file has the announced size and checksum, which then stands; else the
      path is removed. */
  lemma {:induction false} FinishOutcome(d: Device, ok: bool, detail: string)
    requires d.active && Paths.Allowed(d.path) && OpenAfter(d.sent) == Opened(d.jobId) && detail != "open_failed"
    ensures var e := Finish(d, ok, detail);
      && Inv(e) && !e.active
      && (if Completes(d, ok)
          then e.files == d.files && PutDone(d.jobId, d.path, d.receivedSize, d.crc) in e.sent
          else d.path !in e.files && e.files == d.files - {d.path})
  {
    var e := if Completes(d, ok) then d.(active := false) else d.(active := false, files := d.files - {d.path});
    var m := if Completes(d, ok) then PutDone(d.jobId, d.path, d.receivedSize, d.crc)
             else Result(d.jobId, "put_mqtt", "failed", if detail == "" then "crc_or_size_mismatch" else detail);
    assert "crc_or_size_mismatch"[0] != "open_failed"[0];
    PublishOpens(e, m);
    PublishOpens(e.Publish(m), FileState);
    assert e.Publish(m).Publish(FileState).sent[|d.sent|] == m;
  }

  lemma {:induction false} BeginKeepsInv(d: Device, jobId: string, path: string, size: nat, expectedCrc: Word,
        opens: bool)
    requires Inv(d)
    ensures Inv(Begin(d, jobId, path, size, expectedCrc, opens))
  {
    hide Paths.Normalize, Paths.Allowed, Finish, OpenAfter, Crc32.Crc;
    var normalized := Paths.Normalize(path);
    assert "rejected"[0] != "failed"[0];
    if !Paths.Allowed(normalized) {
      PublishOpens(d, Result(jobId, "put_mqtt", "rejected", "path_or_filesystem_unavailable"));
    } else if size == 0 || size > MAX_BYTES || expectedCrc == 0 {
      PublishOpens(d, Result(jobId, "put_mqtt", "rejected", "invalid_size_or_crc"));
    } else {
      if d.active {
        assert "superseded"[0] != "open_failed"[0];
        FinishOutcome(d, false, "superseded");
      } else {
        FinishIdle(d);
      }
      var e := Finish(d, false, "superseded");
      if !opens {
        PublishOpens(e, Result(jobId, "put_mqtt", "failed", "open_failed"));
      } else {
        ActivateKeepsInv(e, jobId, normalized, size, expectedCrc);
      }
    }
  }

  lemma {:induction false} ActivateKeepsInv(d: Device, jobId: string, path: string, size: nat, expectedCrc: Word)
    requires Inv(d) && !d.active && Paths.Allowed(path) && 0 < size <= MAX_BYTES && expectedCrc != 0
    ensures Inv(Activate(d, jobId, path, size, expectedCrc))
  {
    hide Paths.Allowed;
    Crc32.UpdateNothing(0);
    PublishOpens(d, Ack(jobId, 0, "ready", ""));
    var e := Device(true, jobId, path, size, 0, expectedCrc, 0, 0, d.files[path := []], d.sent, []);
    PublishOpens(e, Ack(jobId, 0, "ready", ""));
  }

  lemma {:induction false} RejectKeepsInv(d: Device, jobId: string, seqNo: Word, status: string, detail: string)
    requires Inv(d) && d.active && detail != "open_failed" && status != "ready"
    ensures Inv(Reject(d, jobId, seqNo, status, detail)) && !Reject(d, jobId, seqNo, status, detail).active
    ensures d.path !in Reject(d, jobId, seqNo, status, detail).files
  {
    hide Finish, OpenAfter;
    FinishOutcome(d, false, detail);
    PublishOpens(Finish(d, false, detail), Ack(jobId, seqNo, status, detail));
  }

  /** A stored chunk, acknowledged: the file is what was accepted, and so are its size and
      running CRC. */
  lemma {:induction false} AppendExtends(d: Device, chunk: seq<Byte>)
    requires Inv(d) && d.active && chunk != [] && d.receivedSize + |chunk| <= d.expectedSize
    ensures var e := Append(d, chunk).Publish(Ack(d.jobId, d.nextSeq, "ok", ""));
      && e.active && e.path == d.path && OpenAfter(e.sent) == Opened(d.jobId)
      && e.path in e.files && e.files[e.path] == d.files[d.path] + chunk == Concat(e.accepted)
      && e.receivedSize == |e.files[e.path]| && e.crc == Crc32.Crc(e.files[e.path])
      && e.nextSeq == |e.accepted| && (forall i :: 0 <= i < |e.accepted| ==> e.accepted[i] != [])
  {
    hide Crc32.Update, Paths.Allowed;
    var e := Append(d, chunk);
    Crc32.UpdateComposes(0, d.files[d.path], chunk);
    CrcIs(d.files[d.path]);
    CrcIs(d.files[d.path] + chunk);
    ConcatNext(d.accepted, chunk);
    CountFits(e.accepted);
    PublishOpens(e, Ack(d.jobId, d.nextSeq, "ok", ""));
    assert "ok"[0] != "ready"[0];
  }

  lemma {:induction false} CrcIs(data: seq<Byte>)
    ensures Crc32.Crc(data) == Crc32.Update(0, data)
  {}

  lemma {:induction false} DataKeepsInv(d: Device, jobId: string, seqNo: Word, encoded: string, writes: bool)
    requires Inv(d)
    ensures Inv(Data(d, jobId, seqNo, encoded, writes))
  {
    hide Hex.Decode, Finish, OpenAfter, Append, Crc32.Crc, Paths.Allowed, Concat, Reject;
    StatusWords();
    if !d.active || jobId != d.jobId {
      PublishOpens(d, Ack(jobId, seqNo, "rejected", "no_active_transfer"));
    } else if seqNo != d.nextSeq {
      RejectKeepsInv(d, jobId, seqNo, "rejected", "unexpected_sequence");
    } else {
      match Hex.Decode(encoded, CHUNK_BYTES) {
        case None => RejectKeepsInv(d, jobId, seqNo, "rejected", "decode_failed");
        case Some(chunk) =>
          if chunk == [] || d.receivedSize + |chunk| > d.expectedSize {
            RejectKeepsInv(d, jobId, seqNo, "rejected", "size_overflow");
          } else if !writes {
            RejectKeepsInv(d, jobId, seqNo, "failed", "write_failed");
          } else {
            AppendExtends(d, chunk);
            AppendRest(d, chunk);
            var e := Append(d, chunk).Publish(Ack(jobId, seqNo, "ok", ""));
            if e.receivedSize >= e.expectedSize {
              FinishOutcome(e, true, "");
            }
          }
      }
    }
  }

  lemma {:induction false} AppendRest(d: Device, chunk: seq<Byte>)
    ensures var e := Append(d, chunk);
      e.jobId == d.jobId && e.path == d.path && e.expectedSize == d.expectedSize && e.expectedCrc == d.expectedCrc
  {}

  lemma {:induction false} StatusWords()
    ensures "rejected" != "ready" && "failed" != "ready" && "" != "open_failed"
    ensures "unexpected_sequence" != "open_failed" && "decode_failed" != "open_failed"
    ensures "size_overflow" != "open_failed" && "write_failed" != "open_failed"
  {
    assert "rejected"[2] != "ready"[2] && "failed"[0] != "ready"[0];
    assert "unexpected_sequence"[0] != "open_failed"[0] && "decode_failed"[0] != "open_failed"[0];
    assert "size_overflow"[0] != "open_failed"[0] && "write_failed"[0] != "open_failed"[0];
  }

  lemma {:induction false} DeleteKeepsInv(d: Device, jobId: string, path: string, removes: bool)
    requires Inv(d) && (d.active ==> Paths.Normalize(path) != d.path)
    ensures Inv(Delete(d, jobId, path, removes))
  {
    hide Paths.Normalize, Paths.Allowed, OpenAfter;
    var normalized := Paths.Normalize(path);
    var gone := Paths.Allowed(normalized) && normalized in d.files && removes;
    var e := if gone then d.(files := d.files - {normalized}) else d;
    var m := if gone then Result(jobId, "delete", "ok", "") else Result(jobId, "delete", "failed", "delete_failed");
    assert "delete"[0] != "put_mqtt"[0];
    PublishOpens(e, m);
    PublishOpens(e.Publish(m), FileState);
  }

  /** A delete job may not name the file being received. */
  predicate Harmless(d: Device, e: Event) {
    e.DeleteJob? && d.active ==> Paths.Normalize(e.path) != d.path
  }

  lemma {:induction false} StepKeepsInv(d: Device, e: Event)
    requires Inv(d) && Harmless(d, e)
    ensures Inv(Step(d, e))
  {
    hide Inv, Begin, Data, Delete, Paths.Normalize;
    match e {
      case PutJob(job, path, size, crc, opens) => BeginKeepsInv(d, job, path, size, crc, opens);
      case PutData(job, seqNo, data, writes) => DataKeepsInv(d, job, seqNo, data, writes);
      case DeleteJob(job, path, removes) => DeleteKeepsInv(d, job, path, removes);
    }
  }

  ghost predicate HarmlessRun(d: Device, events: seq<Event>) {
    forall i :: 0 <= i < |events| ==> Harmless(Run(d, events[..i]), events[i])
  }

  /** Over every sequence of messages and file system faults: while a transfer is active
      the file is the concatenation of the accepted chunks, shorter than announced, with the
      running size, CRC and sequence number to match; and every "ready" has been closed by
      exactly one result, except the one of the active transfer. */
  lemma {:induction false} RunKeepsInv(d: Device, events: seq<Event>)
    requires Inv(d) && HarmlessRun(d, events)
    ensures Inv(Run(d, events))
  {
    hide Inv, Step, Harmless;
    if events != [] {
      var n := |events| - 1;
      var front := events[..n];
      assert forall i :: 0 <= i < n ==> front[..i] == events[..i] && front[i] == events[i];
      assert HarmlessRun(d, front);
      RunKeepsInv(d, front);
      StepKeepsInv(Run(d, front), events[n]);
    }
  }

  lemma {:induction false} StartInv(files: map<string, seq<Byte>>)
    ensures Inv(Start(files))
  {}
}
