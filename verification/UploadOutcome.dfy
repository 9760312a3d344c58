/** Which uploads can succeed at all, and what damage to the data is always caught. */
module UploadOutcome {
  import opened Bytes
  import opened Chunks
  import Crc32
  import opened FileReceiver
  import Hex
  import Paths
  import opened UploadProtocol
  import opened Words

  // ---------------------------------------------------------------------------------
  // A network that loses nothing
  // ---------------------------------------------------------------------------------

  /** An upload with every message delivered once, in order, up to its `k`-th chunk. */
  function Script(job: string, u: Shipment, k: nat): seq<Action>
    requires k > 0 ==> (k - 1) * u.chunk <= |u.data|
    decreases k
  {
    if k == 0 then
      [Begins(job, u), Delivers(JobPacket(job, u), true), SeesReady(job, Ack(job, 0, "ready", ""))]
    else
      ScriptBound(u, k - 1);
      Script(job, u, k - 1)
      + [Delivers(ChunkPacket(job, u, k - 1), true), SeesOk(job, Ack(job, (k - 1) % MODULUS, "ok", ""))]
  }

  lemma {:induction false} ScriptBound(u: Shipment, k: nat)
    requires k * u.chunk <= |u.data|
    ensures k > 0 ==> (k - 1) * u.chunk <= |u.data|
  {
    assert k > 0 ==> (k - 1) * u.chunk == k * u.chunk - u.chunk;
  }

  /** Chunk `k` is due: the device waits for it and it is on its way. */
  ghost predicate Due(s: System, job: string, u: Shipment, k: nat) {
    && SystemInv(s) && job in s.uploads && s.uploads[job] == u
    && s.device.active && s.device.jobId == job && s.device.nextSeq == k
    && s.phases[job] == AwaitOk(k) && k * u.chunk < |u.data| && ChunkPacket(job, u, k) in s.network
  }

  lemma {:induction false} BeginAccepts(d: Device, job: string, u: Shipment)
    requires Valid(u) && Acceptable(u)
    ensures var p := JobPacket(job, u);
      var e := Begin(d, job, p.path, p.size, Hex.Parse(p.crc), true);
      e.active && e.jobId == job && e.nextSeq == 0 && Ack(job, 0, "ready", "") in e.sent
  {
    hide Finish, Paths.Normalize, Paths.Allowed, Crc32.Crc, Hex.Parse, Hex.Checksum;
    Hex.ParseOfChecksum(Crc32.Crc(u.data));
    var e := Finish(d, false, "superseded");
    assert Activate(e, job, StoredPath(u), |u.data|, Crc32.Crc(u.data)).sent[|e.sent|] == Ack(job, 0, "ready", "");
  }

  /** The chunk the device waits for is stored and acknowledged. */
  lemma {:induction false} ChunkIsTaken(d: Device, uploads: map<string, Shipment>, k: nat)
    requires DeviceInv(d, uploads) && d.active && d.nextSeq == k
    requires var u := uploads[d.jobId]; Valid(u) && k * u.chunk < |u.data| && ChunksFit(u)
    ensures var u, p := uploads[d.jobId], ChunkPacket(d.jobId, uploads[d.jobId], k);
      var e := Data(d, d.jobId, k % MODULUS, p.data, true);
      && Ack(d.jobId, k % MODULUS, "ok", "") in e.sent
      && (if (k + 1) * u.chunk < |u.data| then e.active && e.jobId == d.jobId && e.nextSeq == k + 1
          else !e.active && Complete(e, d.jobId, u))
  {
    hide Inv, Finish, Append, Hex.Decode, Hex.Encode, Crc32.Crc, StoredPath, Receiving, Slice;
    var u := uploads[d.jobId];
    var chunk := Slice(u, k);
    var stored := Append(d, chunk).Publish(Ack(d.jobId, k, "ok", ""));
    ActiveIsSmall(d, uploads);
    SmallChunkNumber(u, k);
    PrefixNext(u, k);
    ChunkIsShort(u, k);
    ChunkHasRoom(d, uploads, k);
    Hex.DecodeOfEncode(chunk, 384);
    AppendActive(d, chunk);
    ChunkStored(d, uploads, k);
    ReceivingNow(stored, u);
    assert stored.sent[|d.sent|] == Ack(d.jobId, k, "ok", "");
    if |u.data| <= (k + 1) * u.chunk {
      FinishCompleted(stored);
      var e := Finish(stored, true, "");
      assert e.sent[|d.sent|] == Ack(d.jobId, k, "ok", "");
      assert e.sent[|d.sent| + 1] == PutDone(d.jobId, stored.path, stored.receivedSize, stored.crc);
      assert Prefix(u, k + 1) == u.data;
    }
  }

  lemma {:induction false} ReceivingNow(d: Device, u: Shipment)
    requires Receiving(d, u)
    ensures d.path == StoredPath(u) && d.expectedSize == |u.data| && d.path in d.files
    ensures d.files[d.path] == Prefix(u, d.nextSeq)
  {
    hide StoredPath, Crc32.Crc;
  }

  lemma {:induction false} ChunkIsShort(u: Shipment, k: nat)
    requires Valid(u) && k * u.chunk < |u.data| && ChunksFit(u)
    ensures |Slice(u, k)| <= CHUNK_BYTES
  {
    PrefixNext(u, k);
  }

  lemma {:induction false} ChunkHasRoom(d: Device, uploads: map<string, Shipment>, k: nat)
    requires DeviceInv(d, uploads) && d.active && d.nextSeq == k
    requires var u := uploads[d.jobId]; Valid(u) && k * u.chunk < |u.data|
    ensures d.receivedSize + |Slice(uploads[d.jobId], k)| == Reach(uploads[d.jobId], k + 1) <= d.expectedSize
  {
    hide Paths.Allowed, Crc32.Crc, StoredPath, Concat, OpenAfter;
    NextChunkNumber(uploads[d.jobId], k);
  }

  // ---------------------------------------------------------------------------------
  // The script, played after any run
  // ---------------------------------------------------------------------------------

  lemma {:induction false} ExecuteMore(files: map<string, seq<Byte>>, actions: seq<Action>, a: Action)
    ensures Execute(files, actions + [a]) == Next(Execute(files, actions), a)
  {
    hide Next;
    assert (actions + [a])[..|actions|] == actions;
  }

  lemma {:induction false} ExecuteTwoMore(files: map<string, seq<Byte>>, actions: seq<Action>, a: Action, b: Action)
    ensures Execute(files, actions + [a, b]) == Next(Next(Execute(files, actions), a), b)
  {
    hide Next, Execute;
    ExecuteMore(files, actions, a);
    ExecuteMore(files, actions + [a], b);
    assert actions + [a] + [b] == actions + [a, b];
  }

  lemma {:induction false} OpeningRound(s: System, job: string, u: Shipment)
    requires SystemInv(s) && job !in s.uploads && Valid(u) && Acceptable(u)
    ensures var a, b, c := Begins(job, u), Delivers(JobPacket(job, u), true), SeesReady(job, Ack(job, 0, "ready", ""));
      Due(Next(Next(Next(s, a), b), c), job, u, 0)
  {
    hide SystemInv, Begin, Acceptable, JobPacket, ChunkPacket, Harmless;
    var s1 := Next(s, Begins(job, u));
    NextKeeps(s, Begins(job, u));
    var s2 := Next(s1, Delivers(JobPacket(job, u), true));
    NextKeeps(s1, Delivers(JobPacket(job, u), true));
    BeginAccepts(s1.device, job, u);
    JobReceived(s1.device, job, u);
    NextKeeps(s2, SeesReady(job, Ack(job, 0, "ready", "")));
  }

  lemma {:induction false} JobReceived(d: Device, job: string, u: Shipment)
    ensures var p := JobPacket(job, u);
      Step(d, Received(p, true)) == Begin(d, job, p.path, p.size, Hex.Parse(p.crc), true)
  {
    hide Begin, Hex.Parse, Hex.Checksum, RequestedPath, Crc32.Crc;
  }

  lemma {:induction false} ChunkReceived(d: Device, job: string, u: Shipment, k: nat)
    requires k * u.chunk <= |u.data|
    ensures Step(d, Received(ChunkPacket(job, u, k), true))
        == Data(d, job, k % MODULUS, ChunkPacket(job, u, k).data, true)
  {
    hide Data, Slice, Hex.Encode;
  }

  ghost predicate Finished(s: System, job: string, u: Shipment) {
    job in s.phases && job in s.uploads && s.uploads[job] == u && s.phases[job] == Done && Complete(s.device, job, u)
  }

  lemma {:induction false} ChunkRound(s: System, job: string, u: Shipment, k: nat)
    requires Due(s, job, u, k) && ChunksFit(u)
    ensures var a, b := Delivers(ChunkPacket(job, u, k), true), SeesOk(job, Ack(job, k % MODULUS, "ok", ""));
      var t := Next(Next(s, a), b);
      if (k + 1) * u.chunk < |u.data| then Due(t, job, u, k + 1) else Finished(t, job, u)
  {
    hide SystemInv, Data, ChunkPacket, Complete, ChunksFit, Next;
    DueFacts(s, job, u, k);
    SmallChunkNumber(u, k);
    ChunkIsTaken(s.device, s.uploads, k);
    NextKeeps(s, Delivers(ChunkPacket(job, u, k), true));
    DeliverRound(s, job, u, k);
    var s1 := Next(s, Delivers(ChunkPacket(job, u, k), true));
    NextKeeps(s1, SeesOk(job, Ack(job, k % MODULUS, "ok", "")));
    OkRound(s1, job, k);
  }

  lemma {:induction false} DeliverRound(s: System, job: string, u: Shipment, k: nat)
    requires k * u.chunk <= |u.data| && ChunkPacket(job, u, k) in s.network
    ensures Next(s, Delivers(ChunkPacket(job, u, k), true))
         == s.(device := Data(s.device, job, k % MODULUS, ChunkPacket(job, u, k).data, true))
  {
    hide ChunkPacket, Data, Step, Received;
    ChunkReceived(s.device, job, u, k);
  }

  lemma {:induction false} OkRound(s: System, job: string, k: nat)
    requires k < MODULUS && job in s.uploads && job in s.phases && s.phases[job] == AwaitOk(k)
    requires Ack(job, k, "ok", "") in s.device.sent
    ensures var t, u := Next(s, SeesOk(job, Ack(job, k, "ok", ""))), s.uploads[job];
      t.device == s.device && t.uploads == s.uploads
      && (if (k + 1) * u.chunk < |u.data|
          then t.phases == s.phases[job := AwaitOk(k + 1)] && ChunkPacket(job, u, k + 1) in t.network
          else t.phases == s.phases[job := Done])
  {
    hide ChunkPacket;
  }

  lemma {:induction false} DueFacts(s: System, job: string, u: Shipment, k: nat)
    requires Due(s, job, u, k)
    ensures Valid(u) && DeviceInv(s.device, s.uploads) && |u.data| <= MAX_BYTES && s.phases.Keys == s.uploads.Keys
  {
    hide DeviceInv, Genuine, PhaseInv;
    ActiveIsSmall(s.device, s.uploads);
  }

  lemma {:induction false} ScriptRuns(files: map<string, seq<Byte>>, actions: seq<Action>, job: string, u: Shipment,
        k: nat)
    requires job !in Execute(files, actions).uploads && Valid(u) && Acceptable(u)
    requires k > 0 ==> (k - 1) * u.chunk < |u.data|
    ensures var t := Execute(files, actions + Script(job, u, k));
      if k * u.chunk < |u.data| then Due(t, job, u, k) else Finished(t, job, u)
    decreases k
  {
    hide Execute, Next, Due, Finished, Acceptable, ChunkPacket, JobPacket, Script;
    if k == 0 {
      ScriptOpens(files, actions, job, u);
    } else {
      ScriptBound(u, k - 1);
      ScriptRuns(files, actions, job, u, k - 1);
      ScriptNext(files, actions, job, u, k - 1);
      AcceptableFits(u);
      ChunkRound(Execute(files, actions + Script(job, u, k - 1)), job, u, k - 1);
    }
  }

  lemma {:induction false} ScriptOpens(files: map<string, seq<Byte>>, actions: seq<Action>, job: string, u: Shipment)
    requires job !in Execute(files, actions).uploads && Valid(u) && Acceptable(u)
    ensures Due(Execute(files, actions + Script(job, u, 0)), job, u, 0)
  {
    hide Execute, Next, Due, Acceptable, JobPacket;
    var a, b, c := Begins(job, u), Delivers(JobPacket(job, u), true), SeesReady(job, Ack(job, 0, "ready", ""));
    EveryRunKeepsInv(files, actions);
    ExecuteTwoMore(files, actions, a, b);
    ExecuteMore(files, actions + [a, b], c);
    assert actions + Script(job, u, 0) == actions + [a, b] + [c];
    OpeningRound(Execute(files, actions), job, u);
  }

  lemma {:induction false} ScriptNext(files: map<string, seq<Byte>>, actions: seq<Action>, job: string, u: Shipment,
        k: nat)
    requires k * u.chunk <= |u.data|
    ensures k > 0 ==> (k - 1) * u.chunk <= |u.data|
    ensures Execute(files, actions + Script(job, u, k + 1))
         == Next(Next(Execute(files, actions + Script(job, u, k)), Delivers(ChunkPacket(job, u, k), true)),
                 SeesOk(job, Ack(job, k % MODULUS, "ok", "")))
  {
    hide Execute, Next, ChunkPacket;
    ScriptBound(u, k);
    var a, b := Delivers(ChunkPacket(job, u, k), true), SeesOk(job, Ack(job, k % MODULUS, "ok", ""));
    ExecuteTwoMore(files, actions + Script(job, u, k), a, b);
    assert Script(job, u, k + 1) == Script(job, u, k) + [a, b];
    assert actions + Script(job, u, k + 1) == actions + Script(job, u, k) + [a, b];
  }

  lemma {:induction false} AcceptableFits(u: Shipment)
    requires Acceptable(u)
    ensures ChunksFit(u)
  {}

  /** The number of chunks. */
  lemma {:induction false} LastRound(u: Shipment, k: nat) returns (n: nat)
    requires Valid(u) && (k > 0 ==> (k - 1) * u.chunk < |u.data|)
    ensures n > 0 && (n - 1) * u.chunk < |u.data| <= n * u.chunk
    decreases |u.data| - k
  {
    assert k > 0 ==> k * u.chunk == (k - 1) * u.chunk + u.chunk;
    assert k <= k * u.chunk;
    if |u.data| <= k * u.chunk {
      n := k;
    } else {
      n := LastRound(u, k + 1);
    }
  }

  ghost predicate FinishesAfter(files: map<string, seq<Byte>>, actions: seq<Action>, job: string, u: Shipment,
        more: seq<Action>)
  {
    var t := Execute(files, actions + [Begins(job, u)] + more);
    job in t.phases && t.phases[job] == Done && job in t.uploads && t.uploads[job] == u
  }

  /** Whatever has happened so far, a new upload can still finish if and only if the device
      is able to take it: an allowed path, 1 to 16384 bytes, chunks of at most 384 bytes, and
      a checksum that is not zero. */
  lemma {:induction false} UploadFinishesIff(files: map<string, seq<Byte>>, actions: seq<Action>, job: string,
        u: Shipment)
    requires job !in Execute(files, actions).uploads && Valid(u)
    ensures (exists more :: FinishesAfter(files, actions, job, u, more)) <==> Acceptable(u)
  {
    hide Execute, Acceptable;
    if Acceptable(u) {
      var n := LastRound(u, 0);
      ScriptRuns(files, actions, job, u, n);
      var more := ScriptTail(job, u, n);
      assert actions + Script(job, u, n) == actions + [Begins(job, u)] + more;
      assert FinishesAfter(files, actions, job, u, more);
    }
    forall more | FinishesAfter(files, actions, job, u, more)
      ensures Acceptable(u)
    {
      FinishedUploadWasStored(files, actions + [Begins(job, u)] + more, job);
    }
  }

  lemma {:induction false} ScriptTail(job: string, u: Shipment, k: nat) returns (more: seq<Action>)
    requires k > 0 ==> (k - 1) * u.chunk <= |u.data|
    ensures Script(job, u, k) == [Begins(job, u)] + more
  {
    if k == 0 {
      more := Script(job, u, 0)[1..];
    } else {
      ScriptBound(u, k - 1);
      more := ScriptTail(job, u, k - 1);
      more := more + [Delivers(ChunkPacket(job, u, k - 1), true), SeesOk(job, Ack(job, (k - 1) % MODULUS, "ok", ""))];
    }
  }

  /** Some files cannot be uploaded at all: every file can be extended by four bytes to one
      whose checksum is zero, which the device takes for a missing checksum. */
  lemma {:induction false} ZeroChecksumIsRefused(path: string, chunk: nat, prefix: seq<Byte>)
    ensures exists tail: seq<Byte> ::
      |tail| == 4 && Crc32.Crc(prefix + tail) == 0 && !Acceptable(Shipment(path, prefix + tail, chunk))
  {
    hide Crc32.Update, StoredPath, Paths.Allowed;
    Crc32.EveryChecksumIsReached(0, prefix, 0);
    var tail: seq<Byte> :| |tail| == 4 && Crc32.Update(0, prefix + tail) == 0;
    assert !Acceptable(Shipment(path, prefix + tail, chunk));
  }

  // ---------------------------------------------------------------------------------
  // Damaged data
  // ---------------------------------------------------------------------------------

  /** What the open file would hold after this chunk. */
  function Content(d: Device, encoded: string): seq<Byte> {
    (if d.path in d.files then d.files[d.path] else [])
    + (match Hex.Decode(encoded, CHUNK_BYTES) case None => [] case Some(chunk) => chunk)
  }

  lemma {:induction false} FinishDamaged(d: Device)
    requires d.active && !Completes(d, true)
    ensures var e := Finish(d, true, "");
      !e.active && d.path !in e.files && forall i :: |d.sent| <= i < |e.sent| ==> !e.sent[i].PutDone?
  {}

  /** Had the file become a version of the announced data damaged by a burst of up to 32
      bits, anywhere in it, the device would remove it and report failure. */
  lemma {:induction false} DamageIsRemoved(d: Device, data: seq<Byte>, jobId: string, encoded: string, writes: bool,
        k: nat)
    requires Inv(d) && d.active && d.expectedSize == |data| && d.expectedCrc == Crc32.Crc(data) && jobId == d.jobId
    requires Crc32.BurstAt(data, Content(d, encoded), k)
    ensures var e := Data(d, jobId, d.nextSeq, encoded, writes);
      && !e.active && d.path !in e.files
      && d.sent <= e.sent && forall i :: |d.sent| <= i < |e.sent| ==> !e.sent[i].PutDone?
  {
    hide Crc32.BurstAt, Crc32.Update, Hex.Decode, Finish, Reject, Append, Paths.Allowed, Concat, OpenAfter;
    assert |Content(d, encoded)| == |data| by {
      SameLength(data, Content(d, encoded), k);
    }
    match Hex.Decode(encoded, CHUNK_BYTES) {
      case None => RejectRemoves(d, jobId, d.nextSeq, "rejected", "decode_failed");
      case Some(chunk) =>
        if chunk == [] || d.receivedSize + |chunk| > d.expectedSize {
          RejectRemoves(d, jobId, d.nextSeq, "rejected", "size_overflow");
        } else if !writes {
          RejectRemoves(d, jobId, d.nextSeq, "failed", "write_failed");
        } else {
          AppendExtends(d, chunk);
          AppendRest(d, chunk);
          AppendActive(d, chunk);
          Crc32.BurstDetected(0, data, Content(d, encoded), k);
          FinishDamaged(Append(d, chunk).Publish(Ack(d.jobId, d.nextSeq, "ok", "")));
          FinishGrows(Append(d, chunk).Publish(Ack(d.jobId, d.nextSeq, "ok", "")));
        }
    }
  }

  lemma {:induction false} SameLength(a: seq<Byte>, b: seq<Byte>, k: nat)
    requires Crc32.BurstAt(a, b, k)
    ensures |a| == |b|
  {}

  lemma {:induction false} FinishGrows(d: Device)
    ensures d.sent <= Finish(d, true, "").sent
  {}

  lemma {:induction false} RejectRemoves(d: Device, jobId: string, seqNo: Word, status: string, detail: string)
    requires d.active
    ensures var e := Reject(d, jobId, seqNo, status, detail);
      && !e.active && d.path !in e.files && d.sent <= e.sent
      && forall i :: |d.sent| <= i < |e.sent| ==> !e.sent[i].PutDone?
  {}
}
