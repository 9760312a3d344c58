/** Uploads over an unreliable network: any number of concurrent uploaders, one device, and
    messages that may be lost, delayed, reordered or delivered again. */
module UploadProtocol {
  import opened Bytes
  import opened Chunks
  import Crc32
  import opened FileReceiver
  import Hex
  import Paths
  import opened Words

  // ---------------------------------------------------------------------------------
  // The controller
  // ---------------------------------------------------------------------------------

  /** What a call is waiting for: the "ready", the "ok" of a chunk, or nothing more. */
  datatype Phase = AwaitReady | AwaitOk(k: nat) | Done

  /** What the controller publishes on `fs/jobs` and `fs/data`. */
  datatype Packet =
    | Job(job: string, path: string, size: nat, crc: string)
    | Chunk(job: string, k: nat, data: string)

  function RequestedPath(path: string): string {
    if path != "" && path[0] == '/' then path else "/" + path
  }

  /** The path asked for begins with a slash, which is put there only if it is missing. */
  lemma {:induction false} RequestedPathIsRooted(path: string)
    ensures var p := RequestedPath(path);
      && p != "" && p[0] == '/' && RequestedPath(p) == p
      && (p == path || (p[1..] == path && (path == "" || path[0] != '/')))
  {}

  function StoredPath(u: Shipment): string {
    Paths.Normalize(RequestedPath(u.path))
  }

  function JobPacket(job: string, u: Shipment): Packet {
    Job(job, RequestedPath(u.path), |u.data|, Hex.Checksum(Crc32.Crc(u.data)))
  }

  function ChunkPacket(job: string, u: Shipment, k: nat): Packet
    requires k * u.chunk <= |u.data|
  {
    Chunk(job, k, Hex.Encode(Slice(u, k)))
  }

  // ---------------------------------------------------------------------------------
  // The whole system
  // ---------------------------------------------------------------------------------

  /** `network` holds everything the controller ever published; `device.sent` everything the
      device did. */
  datatype System = System(device: Device, uploads: map<string, Shipment>, phases: map<string, Phase>,
        network: set<Packet>)

  function Init(files: map<string, seq<Byte>>): System {
    System(Start(files), map[], map[], {})
  }

  datatype Action =
    | Begins(job: string, upload: Shipment)
    | SeesReady(job: string, ready: Message)
    | SeesOk(job: string, ok: Message)
    | Delivers(packet: Packet, storage: bool)
    | Deletes(job: string, path: string, removes: bool)

  /** The device's reading of a packet; `storage` says whether its file system obeys. */
  function Received(p: Packet, storage: bool): Event {
    match p
    case Job(job, path, size, crc) => PutJob(job, path, size, Hex.Parse(crc), storage)
    case Chunk(job, k, data) => PutData(job, k % MODULUS, data, storage)
  }

  /** When an action can happen. Job identifiers are fresh; an acknowledgement must have been
      published; deletions spare the file being received. */
  predicate Enabled(s: System, a: Action) {
    match a
    case Begins(job, upload) => job !in s.uploads && Valid(upload)
    case SeesReady(job, ready) =>
      job in s.phases && job in s.uploads && s.phases[job] == AwaitReady && ready in s.device.sent
      && ready.Ack? && ready.job == job && ready.seqNo == 0 && ready.status == "ready"
    case SeesOk(job, ok) =>
      job in s.phases && job in s.uploads && s.phases[job].AwaitOk? && ok in s.device.sent
      && ok.Ack? && ok.job == job && ok.seqNo == s.phases[job].k && ok.status == "ok"
    case Delivers(packet, storage) => packet in s.network
    case Deletes(job, path, removes) => Harmless(s.device, DeleteJob(job, path, removes))
  }

  /** The uploader moves on to chunk `k`, if there is one. */
  function Advance(s: System, job: string, k: nat): System
    requires job in s.uploads
  {
    var u := s.uploads[job];
    if k * u.chunk < |u.data| then
      s.(phases := s.phases[job := AwaitOk(k)], network := s.network + {ChunkPacket(job, u, k)})
    else s.(phases := s.phases[job := Done])
  }

  /** One step; an action that cannot happen changes nothing. */
  function Next(s: System, a: Action): System {
    if !Enabled(s, a) then s
    else Perform(s, a)
  }

  function Perform(s: System, a: Action): System
    requires Enabled(s, a)
  {
    match a
    case Begins(job, upload) =>
      s.(uploads := s.uploads[job := upload], phases := s.phases[job := AwaitReady],
         network := s.network + {JobPacket(job, upload)})
    case SeesReady(job, ready) => Advance(s, job, 0)
    case SeesOk(job, ok) => Advance(s, job, s.phases[job].k + 1)
    case Delivers(packet, storage) => s.(device := Step(s.device, Received(packet, storage)))
    case Deletes(job, path, removes) => s.(device := Step(s.device, DeleteJob(job, path, removes)))
  }

  // ---------------------------------------------------------------------------------
  // The invariant
  // ---------------------------------------------------------------------------------

  ghost predicate Genuine(uploads: map<string, Shipment>, p: Packet) {
    && p.job in uploads
    && var u := uploads[p.job];
      if p.Job? then p == JobPacket(p.job, u)
      else p.k * u.chunk < |u.data| && p == ChunkPacket(p.job, u, p.k)
  }

  predicate ChunksFit(u: Shipment) {
    u.chunk <= CHUNK_BYTES || |u.data| <= CHUNK_BYTES
  }

  /** What the device is able to take. */
  predicate Acceptable(u: Shipment) {
    Paths.Allowed(StoredPath(u)) && |u.data| <= MAX_BYTES && Crc32.Crc(u.data) != 0 && ChunksFit(u)
  }

  /** The open file is a whole number of chunks of the right upload. */
  ghost predicate Receiving(d: Device, u: Shipment) {
    && d.path == StoredPath(u) && d.expectedSize == |u.data| && d.expectedCrc == Crc32.Crc(u.data)
    && (d.nextSeq > 0 ==> ChunksFit(u))
    && d.path in d.files && d.files[d.path] == Prefix(u, d.nextSeq)
  }

  ghost predicate DeviceInv(d: Device, uploads: map<string, Shipment>) {
    && Inv(d)
    && (d.active ==> d.jobId in uploads && Receiving(d, uploads[d.jobId]))
  }

  ghost predicate PhaseInv(sent: seq<Message>, job: string, u: Shipment, phase: Phase) {
    match phase
    case AwaitReady => true
    case AwaitOk(k) => k * u.chunk < |u.data| && (k > 0 ==> Confirmed(sent, job, k - 1))
    case Done => exists k: nat :: |u.data| <= (k + 1) * u.chunk && Confirmed(sent, job, k)
  }

  predicate Confirmed(sent: seq<Message>, job: string, k: nat) {
    exists i :: 0 <= i < |sent| && ConfirmsChunk(sent[i], job, k)
  }

  predicate ConfirmsChunk(m: Message, job: string, k: nat) {
    m.Ack? && m.job == job && m.seqNo == k && m.status == "ok"
  }

  ghost predicate SystemInv(s: System) {
    && s.phases.Keys == s.uploads.Keys
    && (forall job :: job in s.uploads ==> Valid(s.uploads[job]))
    && (forall p :: p in s.network ==> Genuine(s.uploads, p))
    && DeviceInv(s.device, s.uploads)
    && (forall job :: job in s.phases ==> PhaseInv(s.device.sent, job, s.uploads[job], s.phases[job]))
  }

  // ---------------------------------------------------------------------------------
  // What the device says, step by step
  // ---------------------------------------------------------------------------------

  /** The messages by which the device vouches for stored bytes. */
  predicate Vouches(m: Message) {
    (m.Ack? && m.status == "ok") || m.PutDone?
  }

  /** The device published something, but vouched for nothing. */
  predicate Silent(d: Device, e: Device) {
    d.sent <= e.sent && forall i :: |d.sent| <= i < |e.sent| ==> !Vouches(e.sent[i])
  }

  lemma {:induction false} FinishSilent(d: Device, detail: string)
    ensures Silent(d, Finish(d, false, detail)) && !Finish(d, false, detail).active
    ensures Finish(d, false, detail).files == d.files || Finish(d, false, detail).files == d.files - {d.path}
  {}

  lemma {:induction false} StatusIsNotOk()
    ensures "ready" != "ok" && "rejected" != "ok" && "failed" != "ok"
  {
    assert "ready"[0] != "ok"[0] && "rejected"[0] != "ok"[0] && "failed"[0] != "ok"[0];
  }

  lemma {:induction false} RejectSilent(d: Device, jobId: string, seqNo: Word, status: string, detail: string)
    requires status != "ok"
    ensures Silent(d, Reject(d, jobId, seqNo, status, detail)) && !Reject(d, jobId, seqNo, status, detail).active
  {
    hide Finish;
    FinishSilent(d, detail);
  }

  lemma {:induction false} BeginSilent(d: Device, jobId: string, path: string, size: nat, crc: Word, opens: bool)
    ensures Silent(d, Begin(d, jobId, path, size, crc, opens))
  {
    hide Finish, Paths.Normalize, Paths.Allowed;
    FinishSilent(d, "superseded");
    StatusIsNotOk();
  }

  lemma {:induction false} DeleteSilent(d: Device, jobId: string, path: string, removes: bool)
    ensures Silent(d, Delete(d, jobId, path, removes))
  {
    hide Paths.Normalize, Paths.Allowed;
  }

  /** A begun transfer is one of the uploads, with nothing stored yet. */
  lemma {:induction false} BeginKeeps(d: Device, uploads: map<string, Shipment>, job: string, opens: bool)
    requires DeviceInv(d, uploads) && job in uploads
    ensures var p := JobPacket(job, uploads[job]);
      DeviceInv(Begin(d, job, p.path, p.size, Hex.Parse(p.crc), opens), uploads)
  {
    hide Finish, Inv, Paths.Normalize, Paths.Allowed, Hex.Parse, Hex.Checksum, Crc32.Crc, RequestedPath;
    var u := uploads[job];
    FinishSilent(d, "superseded");
    Hex.ParseOfChecksum(Crc32.Crc(u.data));
    BeginKeepsInv(d, job, RequestedPath(u.path), |u.data|, Crc32.Crc(u.data), opens);
    assert Prefix(u, 0) == [];
  }

  lemma {:induction false} DeleteKeeps(d: Device, uploads: map<string, Shipment>, job: string, path: string,
        removes: bool)
    requires DeviceInv(d, uploads) && Harmless(d, DeleteJob(job, path, removes))
    ensures DeviceInv(Delete(d, job, path, removes), uploads)
  {
    hide Inv, Paths.Normalize, Paths.Allowed, StoredPath, Crc32.Crc;
    DeleteKeepsInv(d, job, path, removes);
  }

  /** The file holds exactly the first `k` chunks of the upload. */
  predicate Holds(d: Device, u: Shipment, k: nat) {
    StoredPath(u) in d.files && d.files[StoredPath(u)] == Prefix(u, k)
  }

  /** The device vouched only for what its file holds: it acknowledged chunk `k` and, if that
      was the last, reported the upload complete. */
  predicate VouchesRightly(d: Device, e: Device, job: string, u: Shipment, k: nat) {
    && Acceptable(u) && Holds(e, u, k + 1)
    && d.sent <= e.sent && k < MODULUS
    && (forall i :: |d.sent| <= i < |e.sent| && Vouches(e.sent[i]) ==>
          e.sent[i] == Ack(job, k, "ok", "")
          || (e.sent[i] == PutDone(job, StoredPath(u), |u.data|, Crc32.Crc(u.data)) && |u.data| <= (k + 1) * u.chunk))
    && (|u.data| <= (k + 1) * u.chunk ==> PutDone(job, StoredPath(u), |u.data|, Crc32.Crc(u.data)) in e.sent)
  }

  /** Chunk numbers are small enough to survive the 32-bit cast. */
  lemma {:induction false} SmallChunkNumber(u: Shipment, k: nat)
    requires Valid(u) && k * u.chunk < |u.data| <= MAX_BYTES
    ensures k % MODULUS == k
  {
    CountAtMostProduct(k, u.chunk);
  }

  /** The next chunk, stored: the file grows by it, and with the last one the size and the
      CRC are the announced ones. */
  lemma {:induction false} ChunkStored(d: Device, uploads: map<string, Shipment>, k: nat)
    requires DeviceInv(d, uploads) && d.active
    requires var u := uploads[d.jobId];
      Valid(u) && k * u.chunk < |u.data| && k == d.nextSeq && |Slice(u, k)| <= CHUNK_BYTES
    ensures var u, e := uploads[d.jobId], Append(d, Slice(uploads[d.jobId], k)).Publish(Ack(d.jobId, k, "ok", ""));
      && Receiving(e, u) && Acceptable(u) && e.jobId == d.jobId
      && e.nextSeq == k + 1 && e.receivedSize == Reach(u, k + 1)
      && (|u.data| <= (k + 1) * u.chunk ==> Completes(e, true) && e.crc == Crc32.Crc(u.data))
  {
    hide Paths.Normalize, Paths.Allowed, Crc32.Crc, Concat, OpenAfter, StoredPath;
    var u := uploads[d.jobId];
    PrefixNext(u, k);
    SmallChunkNumber(u, k);
    NextChunkNumber(u, k);
    AppendExtends(d, Slice(u, k));
    if k == 0 {
      FirstChunkFits(u, k);
    }
    if |u.data| <= (k + 1) * u.chunk {
      assert Prefix(u, k + 1) == u.data;
    }
  }

  lemma {:induction false} FirstChunkFits(u: Shipment, k: nat)
    requires k == 0 && |Slice(u, k)| <= CHUNK_BYTES
    ensures ChunksFit(u)
  {
    assert Slice(u, 0) == u.data[..Reach(u, 1)];
  }

  lemma {:induction false} NextChunkNumber(u: Shipment, k: nat)
    requires Valid(u) && k * u.chunk < |u.data| <= MAX_BYTES
    ensures (k + 1) % MODULUS == k + 1
    ensures Reach(u, k) + |Slice(u, k)| == Reach(u, k + 1)
  {
    hide Reach;
    CountAtMostProduct(k, u.chunk);
    SliceBounds(u, k);
  }

  lemma {:induction false} FinishCompleted(d: Device)
    requires d.active && Completes(d, true)
    ensures var e := Finish(d, true, "");
      && !e.active && e.files == d.files
      && e.sent == d.sent + [PutDone(d.jobId, d.path, d.receivedSize, d.crc), FileState]
  {}

  /** A genuine chunk, whenever and however often it arrives: either the device vouches for
      nothing, or it stored exactly this chunk in its place. */
  lemma {:induction false} ChunkKeeps(d: Device, uploads: map<string, Shipment>, job: string, k: nat, writes: bool)
    requires DeviceInv(d, uploads) && job in uploads && Valid(uploads[job])
        && k * uploads[job].chunk < |uploads[job].data|
    ensures var u, p := uploads[job], ChunkPacket(job, uploads[job], k);
      var e := Data(d, job, k % MODULUS, p.data, writes);
      DeviceInv(e, uploads) && (Silent(d, e) || VouchesRightly(d, e, job, u, k))
  {
    hide Inv, Receiving, Finish, Reject, Append, Hex.Decode, Hex.Encode, Silent, VouchesRightly;
    var u := uploads[job];
    var chunk := Slice(u, k);
    var e := Data(d, job, k % MODULUS, Hex.Encode(chunk), writes);
    DataKeepsInv(d, job, k % MODULUS, Hex.Encode(chunk), writes);
    StatusIsNotOk();
    if !d.active || job != d.jobId {
      SilentPublish(d, Ack(job, k % MODULUS, "rejected", "no_active_transfer"));
      ReceivingPublish(d, Ack(job, k % MODULUS, "rejected", "no_active_transfer"), uploads);
    } else if k % MODULUS != d.nextSeq {
      RejectSilent(d, job, k % MODULUS, "rejected", "unexpected_sequence");
    } else {
      Hex.DecodeOfEncode(chunk, CHUNK_BYTES);
      if |chunk| > CHUNK_BYTES {
        RejectSilent(d, job, k % MODULUS, "rejected", "decode_failed");
      } else if chunk == [] || d.receivedSize + |chunk| > d.expectedSize {
        RejectSilent(d, job, k % MODULUS, "rejected", "size_overflow");
      } else if !writes {
        RejectSilent(d, job, k % MODULUS, "failed", "write_failed");
      } else {
        ActiveIsSmall(d, uploads);
        SmallChunkNumber(u, k);
        ChunkAccepted(d, uploads, k);
      }
    }
  }

  lemma {:induction false} SilentPublish(d: Device, m: Message)
    requires !Vouches(m)
    ensures Silent(d, d.Publish(m))
  {}

  lemma {:induction false} ReceivingPublish(d: Device, m: Message, uploads: map<string, Shipment>)
    requires d.active ==> d.jobId in uploads && Receiving(d, uploads[d.jobId])
    ensures d.Publish(m).active ==> d.jobId in uploads && Receiving(d.Publish(m), uploads[d.jobId])
  {
    hide StoredPath, Crc32.Crc;
  }

  lemma {:induction false} ActiveIsSmall(d: Device, uploads: map<string, Shipment>)
    requires DeviceInv(d, uploads) && d.active
    ensures |uploads[d.jobId].data| <= MAX_BYTES
  {
    hide Paths.Allowed, Crc32.Crc, StoredPath, Concat, OpenAfter;
  }

  lemma {:induction false} ChunkAccepted(d: Device, uploads: map<string, Shipment>, k: nat)
    requires DeviceInv(d, uploads) && d.active
    requires var u := uploads[d.jobId];
      Valid(u) && k * u.chunk < |u.data| && k == d.nextSeq && |Slice(u, k)| <= CHUNK_BYTES
    ensures var u := uploads[d.jobId];
      var stored := Append(d, Slice(u, k)).Publish(Ack(d.jobId, k, "ok", ""));
      var e := if stored.receivedSize >= stored.expectedSize then Finish(stored, true, "") else stored;
      && VouchesRightly(d, e, d.jobId, u, k)
      && (e.active ==> e.jobId == d.jobId && Receiving(e, u))
  {
    hide Inv, Finish, Append, Crc32.Crc, StoredPath, Slice, Prefix;
    var u := uploads[d.jobId];
    var ack := Ack(d.jobId, k, "ok", "");
    var stored := Append(d, Slice(u, k)).Publish(ack);
    ActiveIsSmall(d, uploads);
    SmallChunkNumber(u, k);
    AppendActive(d, Slice(u, k));
    ChunkStored(d, uploads, k);
    if stored.receivedSize >= stored.expectedSize {
      FinishCompleted(stored);
      var e := Finish(stored, true, "");
      assert e.sent == d.sent + [ack, PutDone(d.jobId, stored.path, stored.receivedSize, stored.crc), FileState];
      assert e.sent[|d.sent| + 1] == PutDone(d.jobId, StoredPath(u), |u.data|, Crc32.Crc(u.data));
    } else {
      assert stored.sent == d.sent + [ack];
    }
  }

  lemma {:induction false} AppendActive(d: Device, chunk: seq<Byte>)
    ensures var e := Append(d, chunk);
      e.active == d.active && e.jobId == d.jobId && e.path == d.path && e.sent == d.sent
  {}

  // ---------------------------------------------------------------------------------
  // Every step of the system
  // ---------------------------------------------------------------------------------

  /** Only a chunk makes the device vouch for anything. */
  predicate SpeaksTruly(d: Device, e: Device, uploads: map<string, Shipment>, p: Packet) {
    Silent(d, e)
    || (p.Chunk? && p.job in uploads && p.k * uploads[p.job].chunk < |uploads[p.job].data|
        && VouchesRightly(d, e, p.job, uploads[p.job], p.k))
  }

  lemma {:induction false} DeliveryKeeps(d: Device, uploads: map<string, Shipment>, p: Packet, storage: bool)
    requires DeviceInv(d, uploads) && Genuine(uploads, p) && Valid(uploads[p.job])
    ensures var e := Step(d, Received(p, storage));
      DeviceInv(e, uploads) && SpeaksTruly(d, e, uploads, p)
  {
    hide DeviceInv, Begin, Data, Silent, VouchesRightly, Hex.Parse, Hex.Checksum, Slice, RequestedPath, Crc32.Crc;
    var u := uploads[p.job];
    match p {
      case Job(job, path, size, crc) =>
        BeginKeeps(d, uploads, job, storage);
        BeginSilent(d, job, path, size, Hex.Parse(crc), storage);
      case Chunk(job, k, data) =>
        ChunkKeeps(d, uploads, job, k, storage);
    }
  }

  lemma {:induction false} TalkGrows(d: Device, e: Device, uploads: map<string, Shipment>, p: Packet)
    requires SpeaksTruly(d, e, uploads, p)
    ensures d.sent <= e.sent
  {}

  /** Phases stay justified while the device publishes more and other uploads begin. */
  lemma {:induction false} PhaseStays(sent: seq<Message>, more: seq<Message>, job: string, u: Shipment, phase: Phase)
    requires PhaseInv(sent, job, u, phase) && sent <= more
    ensures PhaseInv(more, job, u, phase)
  {
    hide ConfirmsChunk;
    assert forall k :: Confirmed(sent, job, k) ==> Confirmed(more, job, k) by {
      forall k | Confirmed(sent, job, k)
        ensures Confirmed(more, job, k)
      {
        var i :| 0 <= i < |sent| && ConfirmsChunk(sent[i], job, k);
        assert more[i] == sent[i];
      }
    }
  }

  /** The device as before, one more upload. */
  lemma {:induction false} BeginsKeeps(s: System, job: string, u: Shipment)
    requires SystemInv(s) && job !in s.uploads && Valid(u)
    ensures SystemInv(Perform(s, Begins(job, u)))
  {
    hide Inv, Receiving, JobPacket, ChunkPacket, Valid;
    var t := Perform(s, Begins(job, u));
    forall p | p in t.network
      ensures Genuine(t.uploads, p)
    {
      if p in s.network {
        assert Genuine(s.uploads, p);
      } else {
        assert p == JobPacket(job, u);
        JobPacketIsJob(job, u);
      }
    }
    forall j | j in t.phases
      ensures PhaseInv(t.device.sent, j, t.uploads[j], t.phases[j])
    {
      if j != job {
        assert PhaseInv(s.device.sent, j, s.uploads[j], s.phases[j]);
      }
    }
  }

  lemma {:induction false} JobPacketIsJob(job: string, u: Shipment)
    ensures JobPacket(job, u).Job? && JobPacket(job, u).job == job
  {}

  lemma {:induction false} AdvanceKeeps(s: System, job: string, k: nat)
    requires SystemInv(s) && job in s.uploads && (k > 0 ==> Confirmed(s.device.sent, job, k - 1))
    ensures SystemInv(Advance(s, job, k))
  {
    hide Inv, DeviceInv, JobPacket, Confirmed, Slice;
    var t := Advance(s, job, k);
    var u := s.uploads[job];
    forall p | p in t.network
      ensures Genuine(t.uploads, p)
    {
      if p in s.network {
        assert Genuine(s.uploads, p);
      }
    }
    if |u.data| <= k * u.chunk {
      assert k > 0;
      assert |u.data| <= ((k - 1) + 1) * u.chunk && Confirmed(s.device.sent, job, k - 1);
    }
    forall j | j in t.phases
      ensures PhaseInv(t.device.sent, j, t.uploads[j], t.phases[j])
    {
      if j != job {
        assert PhaseInv(s.device.sent, j, s.uploads[j], s.phases[j]);
      }
    }
  }

  /** The device does something, the controller nothing. */
  lemma {:induction false} DeviceMoves(s: System, e: Device)
    requires SystemInv(s) && DeviceInv(e, s.uploads) && s.device.sent <= e.sent
    ensures SystemInv(s.(device := e))
  {
    hide Inv, DeviceInv, Genuine, PhaseInv, Valid;
    forall j | j in s.phases
      ensures PhaseInv(e.sent, j, s.uploads[j], s.phases[j])
    {
      PhaseStays(s.device.sent, e.sent, j, s.uploads[j], s.phases[j]);
    }
  }

  /** Whatever happens next, the invariant stays and the device vouches only for what its
      file holds. */
  lemma {:induction false} NextKeeps(s: System, a: Action)
    requires SystemInv(s)
    ensures SystemInv(Next(s, a))
    ensures Silent(s.device, Next(s, a).device)
      || (a.Delivers? && SpeaksTruly(s.device, Next(s, a).device, s.uploads, a.packet))
  {
    hide DeviceInv, Step, Genuine, PhaseInv, Advance, VouchesRightly, Valid, Confirmed, Harmless;
    if Enabled(s, a) {
      match a {
        case Begins(job, upload) => BeginsKeeps(s, job, upload);
        case SeesReady(job, ready) =>
          AdvanceKeeps(s, job, 0);
          AdvanceLeaves(s, job, 0);
        case SeesOk(job, ok) =>
          OkConfirms(s, job, ok);
          AdvanceKeeps(s, job, s.phases[job].k + 1);
          AdvanceLeaves(s, job, s.phases[job].k + 1);
        case Delivers(packet, storage) =>
          GenuineJob(s, packet);
          DeliveryKeeps(s.device, s.uploads, packet, storage);
          TalkGrows(s.device, Step(s.device, Received(packet, storage)), s.uploads, packet);
          DeviceMoves(s, Step(s.device, Received(packet, storage)));
        case Deletes(job, path, removes) =>
          DeleteKeeps(s.device, s.uploads, job, path, removes);
          DeleteSilent(s.device, job, path, removes);
          StepDeletes(s.device, job, path, removes);
          DeviceMoves(s, Step(s.device, DeleteJob(job, path, removes)));
      }
    }
  }

  lemma {:induction false} StepDeletes(d: Device, job: string, path: string, removes: bool)
    ensures Step(d, DeleteJob(job, path, removes)) == Delete(d, job, path, removes)
  {
    hide Delete;
  }

  lemma {:induction false} GenuineJob(s: System, p: Packet)
    requires SystemInv(s) && p in s.network
    ensures Genuine(s.uploads, p) && p.job in s.uploads && Valid(s.uploads[p.job])
  {
    hide DeviceInv, PhaseInv, Valid;
  }

  lemma {:induction false} AdvanceLeaves(s: System, job: string, k: nat)
    requires job in s.uploads
    ensures Advance(s, job, k).device == s.device && Advance(s, job, k).uploads == s.uploads
  {
    hide ChunkPacket;
  }

  lemma {:induction false} OkConfirms(s: System, job: string, ok: Message)
    requires Enabled(s, SeesOk(job, ok))
    ensures Confirmed(s.device.sent, job, s.phases[job].k)
  {
    var i :| 0 <= i < |s.device.sent| && s.device.sent[i] == ok;
    assert ConfirmsChunk(s.device.sent[i], job, s.phases[job].k);
  }

  // ---------------------------------------------------------------------------------
  // Whole runs
  // ---------------------------------------------------------------------------------

  function Execute(files: map<string, seq<Byte>>, actions: seq<Action>): System {
    if actions == [] then Init(files)
    else Next(Execute(files, actions[..|actions| - 1]), actions[|actions| - 1])
  }

  lemma {:induction false} EveryRunKeepsInv(files: map<string, seq<Byte>>, actions: seq<Action>)
    ensures SystemInv(Execute(files, actions))
  {
    hide Next, SystemInv;
    if actions == [] {
      InitInv(files);
    } else {
      EveryRunKeepsInv(files, actions[..|actions| - 1]);
      NextKeeps(Execute(files, actions[..|actions| - 1]), actions[|actions| - 1]);
    }
  }

  lemma {:induction false} InitInv(files: map<string, seq<Byte>>)
    ensures SystemInv(Init(files))
  {
    hide Inv;
    StartInv(files);
  }

  lemma {:induction false} ExecuteStep(files: map<string, seq<Byte>>, actions: seq<Action>, n: nat)
    requires n < |actions|
    ensures Execute(files, actions[..n + 1]) == Next(Execute(files, actions[..n]), actions[n])
  {
    hide Next;
    assert actions[..n + 1][..n] == actions[..n] && actions[..n + 1][n] == actions[n];
  }

  /** An upload, once begun, is never replaced. */
  lemma {:induction false} NextKeepsUploads(s: System, a: Action, job: string)
    requires job in s.uploads
    ensures job in Next(s, a).uploads && Next(s, a).uploads[job] == s.uploads[job]
  {
    hide Step, Advance;
    if Enabled(s, a) {
      match a {
        case Begins(_, _) =>
        case SeesReady(j, _) => AdvanceLeaves(s, j, 0);
        case SeesOk(j, _) => AdvanceLeaves(s, j, s.phases[j].k + 1);
        case Delivers(_, _) =>
        case Deletes(_, _, _) =>
      }
    }
  }

  /** What a message claims is true of the files. */
  predicate Grounded(m: Message, d: Device, uploads: map<string, Shipment>)
    requires Vouches(m)
  {
    && m.job in uploads
    && var u := uploads[m.job];
      Acceptable(u) &&
      if m.Ack? then m.seqNo * u.chunk < |u.data| && Holds(d, u, m.seqNo + 1)
      else m == PutDone(m.job, StoredPath(u), |u.data|, Crc32.Crc(u.data)) && Stored(d, u)
  }

  predicate Stored(d: Device, u: Shipment) {
    StoredPath(u) in d.files && d.files[StoredPath(u)] == u.data
  }

  /** Message `i` was published by action `n`. */
  predicate PublishedBy(files: map<string, seq<Byte>>, actions: seq<Action>, i: nat, n: nat) {
    n < |actions|
    && |Execute(files, actions[..n]).device.sent| <= i < |Execute(files, actions[..n + 1]).device.sent|
  }

  lemma {:induction false} NewMessageGrounded(d: Device, e: Device, uploads: map<string, Shipment>, p: Packet, i: nat)
    requires SpeaksTruly(d, e, uploads, p) && |d.sent| <= i < |e.sent| && Vouches(e.sent[i])
    ensures Grounded(e.sent[i], e, uploads) && p.job == e.sent[i].job && p.job in uploads
    ensures e.sent[i].Ack? && |uploads[p.job].data| <= (e.sent[i].seqNo + 1) * uploads[p.job].chunk ==>
      Complete(e, p.job, uploads[p.job])
  {
    hide StoredPath, Crc32.Crc;
  }

  lemma {:induction false} RunGrows(files: map<string, seq<Byte>>, actions: seq<Action>, n: nat)
    requires n <= |actions|
    ensures Execute(files, actions[..n]).device.sent <= Execute(files, actions).device.sent
    ensures forall job :: job in Execute(files, actions[..n]).uploads ==>
      job in Execute(files, actions).uploads
      && Execute(files, actions).uploads[job] == Execute(files, actions[..n]).uploads[job]
    decreases |actions| - n
  {
    hide Next, SystemInv, SpeaksTruly;
    if n == |actions| {
      assert actions[..n] == actions;
    } else {
      var s := Execute(files, actions[..n]);
      ExecuteStep(files, actions, n);
      EveryRunKeepsInv(files, actions[..n]);
      NextKeeps(s, actions[n]);
      if actions[n].Delivers? && SpeaksTruly(s.device, Next(s, actions[n]).device, s.uploads, actions[n].packet) {
        TalkGrows(s.device, Next(s, actions[n]).device, s.uploads, actions[n].packet);
      }
      forall job | job in s.uploads
        ensures job in Next(s, actions[n]).uploads && Next(s, actions[n]).uploads[job] == s.uploads[job]
      {
        NextKeepsUploads(s, actions[n], job);
      }
      RunGrows(files, actions, n + 1);
    }
  }

  /** Action `n` published message `i`, and left the files as the message claims; if the
      message acknowledges a last chunk, the whole upload was stored and reported. */
  predicate GroundedAt(files: map<string, seq<Byte>>, actions: seq<Action>, i: nat, n: nat) {
    var uploads := Execute(files, actions).uploads;
    && PublishedBy(files, actions, i, n) && i < |Execute(files, actions).device.sent|
    && var m, d := Execute(files, actions).device.sent[i], Execute(files, actions[..n + 1]).device;
    && Vouches(m) && Grounded(m, d, uploads)
    && (m.Ack? && |uploads[m.job].data| <= (m.seqNo + 1) * uploads[m.job].chunk ==> Complete(d, m.job, uploads[m.job]))
  }

  /** In every run, with any losses, delays, reorderings, duplicates, storage faults and
      competing uploads: whenever the device acknowledged a chunk, the action that made it do
      so left the file holding exactly the upload's bytes up to that chunk; and whenever it
      reported an upload complete, the file held exactly the upload. */
  lemma {:induction false} EveryVouchIsGrounded(files: map<string, seq<Byte>>, actions: seq<Action>, i: nat)
    requires i < |Execute(files, actions).device.sent| && Vouches(Execute(files, actions).device.sent[i])
    ensures exists n: nat :: GroundedAt(files, actions, i, n)
  {
    hide Next, SystemInv, SpeaksTruly, Grounded, Stored, Vouches, Complete;
    var n := Emission(files, actions, i);
    var s, t := Execute(files, actions[..n]), Execute(files, actions[..n + 1]);
    ExecuteStep(files, actions, n);
    EveryRunKeepsInv(files, actions[..n]);
    NextKeeps(s, actions[n]);
    RunGrows(files, actions, n);
    RunGrows(files, actions, n + 1);
    assert t.device.sent[i] == Execute(files, actions).device.sent[i];
    NotSilent(s.device, t.device, i);
    NewMessageGrounded(s.device, t.device, s.uploads, actions[n].packet, i);
    GroundedLater(t.device.sent[i], t.device, s.uploads, Execute(files, actions).uploads);
    assert GroundedAt(files, actions, i, n);
  }

  /** The file is the upload, and the device said so. */
  predicate Complete(d: Device, job: string, u: Shipment) {
    Stored(d, u) && PutDone(job, StoredPath(u), |u.data|, Crc32.Crc(u.data)) in d.sent
  }

  lemma {:induction false} NotSilent(d: Device, e: Device, i: nat)
    requires |d.sent| <= i < |e.sent| && Vouches(e.sent[i])
    ensures !Silent(d, e)
  {
    hide Vouches;
  }

  lemma {:induction false} GroundedLater(m: Message, d: Device, uploads: map<string, Shipment>,
        later: map<string, Shipment>)
    requires Vouches(m) && Grounded(m, d, uploads) && m.job in later && later[m.job] == uploads[m.job]
    ensures Grounded(m, d, later)
  {
    hide Holds, Stored, StoredPath, Crc32.Crc;
  }

  /** Every message was published by one of the actions. */
  lemma {:induction false} Emission(files: map<string, seq<Byte>>, actions: seq<Action>, i: nat) returns (n: nat)
    requires i < |Execute(files, actions).device.sent|
    ensures PublishedBy(files, actions, i, n)
  {
    hide Next;
    n := |actions| - 1;
    assert actions[..n + 1] == actions;
    if i < |Execute(files, actions[..n]).device.sent| {
      var front := actions[..n];
      n := Emission(files, front, i);
      assert front[..n] == actions[..n] && front[..n + 1] == actions[..n + 1];
    }
  }

  predicate CompleteAfter(files: map<string, seq<Byte>>, actions: seq<Action>, job: string, n: nat) {
    n <= |actions| && job in Execute(files, actions).uploads
    && Acceptable(Execute(files, actions).uploads[job])
    && Complete(Execute(files, actions[..n]).device, job, Execute(files, actions).uploads[job])
  }

  /** When `publish_file_upload` returns, there was a moment at which the device's file was
      exactly the data, and the device had reported so. */
  lemma {:induction false} FinishedUploadWasStored(files: map<string, seq<Byte>>, actions: seq<Action>, job: string)
    requires job in Execute(files, actions).phases && Execute(files, actions).phases[job] == Done
    ensures exists n: nat :: CompleteAfter(files, actions, job, n)
  {
    hide Next, Execute, SystemInv, Complete, Acceptable;
    var s := Execute(files, actions);
    EveryRunKeepsInv(files, actions);
    var i := LastConfirmation(s, job);
    EveryVouchIsGrounded(files, actions, i);
    var n: nat :| GroundedAt(files, actions, i, n);
    assert CompleteAfter(files, actions, job, n + 1);
  }

  lemma {:induction false} LastConfirmation(s: System, job: string) returns (i: nat)
    requires SystemInv(s) && job in s.phases && s.phases[job] == Done
    ensures job in s.uploads && i < |s.device.sent|
    ensures var m := s.device.sent[i];
      m.Ack? && m.status == "ok" && m.job == job && |s.uploads[job].data| <= (m.seqNo + 1) * s.uploads[job].chunk
  {
    hide DeviceInv, Genuine;
    assert PhaseInv(s.device.sent, job, s.uploads[job], s.phases[job]);
    var k: nat :| |s.uploads[job].data| <= (k + 1) * s.uploads[job].chunk && Confirmed(s.device.sent, job, k);
    i :| 0 <= i < |s.device.sent| && ConfirmsChunk(s.device.sent[i], job, k);
  }

  // ---------------------------------------------------------------------------------
  // The device's part of a run
  // ---------------------------------------------------------------------------------

  /** What reaches the device in one action: a packet that was sent, or a deletion. */
  function Reaching(s: System, a: Action): seq<Event> {
    match a
    case Delivers(packet, storage) => if packet in s.network then [Received(packet, storage)] else []
    case Deletes(job, path, removes) =>
      if Harmless(s.device, DeleteJob(job, path, removes)) then [DeleteJob(job, path, removes)] else []
    case _ => []
  }

  function ReachingAll(files: map<string, seq<Byte>>, actions: seq<Action>): seq<Event> {
    if actions == [] then []
    else
      var front := actions[..|actions| - 1];
      ReachingAll(files, front) + Reaching(Execute(files, front), actions[|actions| - 1])
  }

  lemma {:induction false} NextReaches(s: System, a: Action)
    ensures var reaching := Reaching(s, a);
      |reaching| <= 1 && Next(s, a).device == if reaching == [] then s.device else Step(s.device, reaching[0])
  {
    hide Step, Received, Harmless, Advance;
    match a {
      case SeesReady(job, _) => AdvanceSparesDevice(s, job, 0);
      case SeesOk(job, _) =>
        if Enabled(s, a) {
          AdvanceSparesDevice(s, job, s.phases[job].k + 1);
        }
      case _ =>
    }
  }

  lemma {:induction false} AdvanceSparesDevice(s: System, job: string, k: nat)
    ensures job in s.uploads ==> Advance(s, job, k).device == s.device
  {}

  lemma {:induction false} RunOneMore(d: Device, events: seq<Event>, e: Event)
    ensures Run(d, events + [e]) == Step(Run(d, events), e)
  {
    hide Step;
    assert (events + [e])[..|events|] == events;
  }

  /** In every run of the whole system the device is the receiver, run on what reached it: all that
      is proved of the receiver's runs holds of the system's. */
  lemma {:induction false} DeviceIsReceiver(files: map<string, seq<Byte>>, actions: seq<Action>)
    ensures Execute(files, actions).device == Run(Start(files), ReachingAll(files, actions))
  {
    hide Step, Run, Next, Reaching;
    if actions == [] {
      RunNothing(Start(files));
    } else {
      var n := |actions| - 1;
      var front, a := actions[..n], actions[n];
      DeviceIsReceiver(files, front);
      NextReaches(Execute(files, front), a);
      var before, reaching := ReachingAll(files, front), Reaching(Execute(files, front), a);
      if reaching == [] {
        assert before + reaching == before;
      } else {
        assert reaching == [reaching[0]];
        RunOneMore(Start(files), before, reaching[0]);
      }
    }
  }

  lemma {:induction false} RunNothing(d: Device)
    ensures Run(d, []) == d
  {}
}
