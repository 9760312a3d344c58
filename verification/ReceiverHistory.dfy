/** What the device's results say about its files, over every run of the receiver. */
module ReceiverHistory {
  import opened Bytes
  import Crc32
  import opened FileReceiver
  import Hex
  import Paths
  import opened Words

  // ---------------------------------------------------------------------------------
  // One event
  // ---------------------------------------------------------------------------------

  /** A later put took over the same path, and has just emptied it. */
  predicate TakenOver(d: Device, e: Event, after: Device) {
    && e.PutJob? && Paths.Normalize(e.path) == d.path
    && after.active && after.jobId == e.job && after.path == d.path
    && d.path in after.files && after.files[d.path] == []
  }

  /** The result `m`, published by event `e`, settles the transfer active in `d`: a failed put
      leaves its path absent, or emptied by the put that superseded it; a completed one leaves
      the file it reports. */
  predicate Settles(d: Device, e: Event, after: Device, m: Message)
    requires Finishes(m)
  {
    && d.active && m.job == d.jobId
    && if m.Result? then d.path !in after.files || TakenOver(d, e, after)
       else
         && m.path == d.path && m.path in after.files
         && m.size == |after.files[m.path]| && m.crc == Crc32.Crc(after.files[m.path])
  }

  predicate Publishes(d: Device, after: Device, i: nat) {
    |d.sent| <= i < |after.sent|
  }

  lemma {:induction false} FinishPublishes(d: Device, ok: bool, detail: string)
    requires d.active
    ensures var after := Finish(d, ok, detail);
      after.sent == d.sent + [
        if Completes(d, ok) then PutDone(d.jobId, d.path, d.receivedSize, d.crc)
        else Result(d.jobId, "put_mqtt", "failed", if detail == "" then "crc_or_size_mismatch" else detail),
        FileState]
    ensures var after := Finish(d, ok, detail);
      !after.active && after.files == if Completes(d, ok) then d.files else d.files - {d.path}
  {}

  lemma {:induction false} OrdinaryWords()
    ensures "rejected" != "failed" && "delete" != "put_mqtt"
  {
    assert "rejected"[0] != "failed"[0] && "delete"[0] != "put_mqtt"[0];
  }

  lemma {:induction false} BeginSettles(d: Device, job: string, path: string, size: nat, crc: Word, opens: bool, i: nat)
    requires Publishes(d, Begin(d, job, path, size, crc, opens), i)
    requires Finishes(Begin(d, job, path, size, crc, opens).sent[i])
    ensures var after := Begin(d, job, path, size, crc, opens);
      Settles(d, PutJob(job, path, size, crc, opens), after, after.sent[i])
  {
    hide Paths.Normalize, Paths.Allowed, Finish, Crc32.Crc;
    OrdinaryWords();
    FinishIdle(d);
    if d.active {
      FinishPublishes(d, false, "superseded");
    }
  }

  lemma {:induction false} RejectSettles(d: Device, job: string, seqNo: Word, status: string, detail: string,
        e: Event, i: nat)
    requires d.active
    requires Publishes(d, Reject(d, job, seqNo, status, detail), i)
    requires Finishes(Reject(d, job, seqNo, status, detail).sent[i])
    ensures var after := Reject(d, job, seqNo, status, detail); Settles(d, e, after, after.sent[i])
  {
    hide Finish, Crc32.Crc, TakenOver;
    FinishPublishes(d, false, detail);
  }

  lemma {:induction false} StoreSettles(d: Device, chunk: seq<Byte>, e: Event, i: nat)
    requires Inv(d) && d.active && chunk != [] && d.receivedSize + |chunk| <= d.expectedSize
    requires var stored := Append(d, chunk).Publish(Ack(d.jobId, d.nextSeq, "ok", ""));
      Publishes(d, Finish(stored, true, ""), i) && Finishes(Finish(stored, true, "").sent[i])
    ensures var after := Finish(Append(d, chunk).Publish(Ack(d.jobId, d.nextSeq, "ok", "")), true, "");
      Settles(d, e, after, after.sent[i])
  {
    hide Finish, Append, Crc32.Crc, TakenOver, Concat, OpenAfter, Paths.Allowed;
    AppendExtends(d, chunk);
    AppendRest(d, chunk);
    AppendSends(d, chunk);
    FinishPublishes(Append(d, chunk).Publish(Ack(d.jobId, d.nextSeq, "ok", "")), true, "");
  }

  lemma {:induction false} AppendSends(d: Device, chunk: seq<Byte>)
    ensures Append(d, chunk).sent == d.sent
  {}

  lemma {:induction false} DataSettles(d: Device, job: string, seqNo: Word, encoded: string, writes: bool, i: nat)
    requires Inv(d)
    requires Publishes(d, Data(d, job, seqNo, encoded, writes), i)
    requires Finishes(Data(d, job, seqNo, encoded, writes).sent[i])
    ensures var after := Data(d, job, seqNo, encoded, writes);
      Settles(d, PutData(job, seqNo, encoded, writes), after, after.sent[i])
  {
    hide Inv, Hex.Decode, Finish, Append, Reject, Settles;
    var e := PutData(job, seqNo, encoded, writes);
    if !d.active || job != d.jobId {
    } else if seqNo != d.nextSeq {
      RejectSettles(d, job, seqNo, "rejected", "unexpected_sequence", e, i);
    } else {
      match Hex.Decode(encoded, CHUNK_BYTES) {
        case None => RejectSettles(d, job, seqNo, "rejected", "decode_failed", e, i);
        case Some(chunk) =>
          if chunk == [] || d.receivedSize + |chunk| > d.expectedSize {
            RejectSettles(d, job, seqNo, "rejected", "size_overflow", e, i);
          } else if !writes {
            RejectSettles(d, job, seqNo, "failed", "write_failed", e, i);
          } else {
            AppendSends(d, chunk);
            if Append(d, chunk).receivedSize >= Append(d, chunk).expectedSize {
              StoreSettles(d, chunk, e, i);
            }
          }
      }
    }
  }

  lemma {:induction false} DeleteFinishesNothing(d: Device, job: string, path: string, removes: bool, i: nat)
    requires Publishes(d, Delete(d, job, path, removes), i)
    ensures !Finishes(Delete(d, job, path, removes).sent[i])
  {
    hide Paths.Normalize, Paths.Allowed;
    OrdinaryWords();
  }

  /** Every result an event publishes settles the transfer that was active before it. */
  lemma {:induction false} StepSettles(d: Device, e: Event, i: nat)
    requires Inv(d) && Publishes(d, Step(d, e), i) && Finishes(Step(d, e).sent[i])
    ensures Settles(d, e, Step(d, e), Step(d, e).sent[i])
  {
    hide Inv, Begin, Data, Delete, Settles;
    match e {
      case PutJob(job, path, size, crc, opens) => BeginSettles(d, job, path, size, crc, opens, i);
      case PutData(job, seqNo, data, writes) => DataSettles(d, job, seqNo, data, writes, i);
      case DeleteJob(job, path, removes) => DeleteFinishesNothing(d, job, path, removes, i);
    }
  }

  // ---------------------------------------------------------------------------------
  // Where a transfer came from
  // ---------------------------------------------------------------------------------

  /** The device took up the put that event `e` asked for. */
  predicate TakesUp(e: Event, after: Device) {
    e.PutJob? && after.active && after.jobId == e.job && after.path == Paths.Normalize(e.path) && after.accepted == []
  }

  lemma {:induction false} FinishIsIdle(d: Device, ok: bool, detail: string)
    ensures !Finish(d, ok, detail).active && d.sent <= Finish(d, ok, detail).sent
  {}

  /** An active transfer was active before the event, or the event began it. */
  lemma {:induction false} StepActive(d: Device, e: Event)
    requires Step(d, e).active
    ensures (d.active && Step(d, e).jobId == d.jobId && Step(d, e).path == d.path) || TakesUp(e, Step(d, e))
  {
    hide Finish, Paths.Normalize, Paths.Allowed, Hex.Decode, Crc32.Update;
    FinishIsIdle(d, false, "superseded");
    match e {
      case PutJob(_, _, _, _, _) =>
      case PutData(job, seqNo, data, writes) => DataActive(d, job, seqNo, data, writes);
      case DeleteJob(_, _, _) =>
    }
  }

  lemma {:induction false} DataActive(d: Device, job: string, seqNo: Word, encoded: string, writes: bool)
    requires Data(d, job, seqNo, encoded, writes).active
    ensures var after := Data(d, job, seqNo, encoded, writes);
      d.active && after.jobId == d.jobId && after.path == d.path
  {
    hide Finish, Hex.Decode, Append;
    FinishIsIdle(d, false, "unexpected_sequence");
    FinishIsIdle(d, false, "decode_failed");
    FinishIsIdle(d, false, "size_overflow");
    FinishIsIdle(d, false, "write_failed");
    if d.active && job == d.jobId && seqNo == d.nextSeq && Hex.Decode(encoded, CHUNK_BYTES).Some? {
      var chunk := Hex.Decode(encoded, CHUNK_BYTES).value;
      AppendRest(d, chunk);
      AppendKeeps(d);
      FinishIsIdle(Append(d, chunk).Publish(Ack(job, seqNo, "ok", "")), true, "");
      AppendJob(d, chunk);
    }
  }

  lemma {:induction false} AppendJob(d: Device, chunk: seq<Byte>)
    ensures Append(d, chunk).jobId == d.jobId && Append(d, chunk).path == d.path
  {}

  function DeviceAfter(files: map<string, seq<Byte>>, events: seq<Event>, n: nat): Device
    requires n <= |events|
  {
    Run(Start(files), events[..n])
  }

  lemma {:induction false} AfterNext(files: map<string, seq<Byte>>, events: seq<Event>, n: nat)
    requires n < |events|
    ensures DeviceAfter(files, events, n + 1) == Step(DeviceAfter(files, events, n), events[n])
  {
    hide Step;
    assert events[..n + 1][..n] == events[..n] && events[..n + 1][n] == events[n];
  }

  lemma {:induction false} AfterNothing(files: map<string, seq<Byte>>, events: seq<Event>)
    ensures DeviceAfter(files, events, 0) == Start(files)
  {}

  /** Event `b` asked for the put of `job` to `path`, the device took it up, and it has been
      active ever since, until event `n`. */
  ghost predicate ActiveSince(files: map<string, seq<Byte>>, events: seq<Event>, b: nat, n: nat,
        job: string, path: string)
  {
    && b < n <= |events| && TakesUp(events[b], DeviceAfter(files, events, b + 1))
    && events[b].job == job && Paths.Normalize(events[b].path) == path
    && forall m :: b < m <= n ==> ActiveOn(DeviceAfter(files, events, m), job, path)
  }

  predicate ActiveOn(d: Device, job: string, path: string) {
    d.active && d.jobId == job && d.path == path
  }

  lemma {:induction false} ActiveStill(files: map<string, seq<Byte>>, events: seq<Event>, b: nat, n: nat,
        job: string, path: string)
    requires 0 < n <= |events| && ActiveSince(files, events, b, n - 1, job, path)
    requires ActiveOn(DeviceAfter(files, events, n), job, path)
    ensures ActiveSince(files, events, b, n, job, path)
  {
    hide DeviceAfter, TakesUp, ActiveOn, Paths.Normalize;
  }

  lemma {:induction false} ActiveNow(files: map<string, seq<Byte>>, events: seq<Event>, n: nat)
    requires 0 < n <= |events| && TakesUp(events[n - 1], DeviceAfter(files, events, n))
    ensures var d := DeviceAfter(files, events, n); ActiveSince(files, events, n - 1, n, d.jobId, d.path)
  {
    hide DeviceAfter, Paths.Normalize;
    TakesUpMeans(events[n - 1], DeviceAfter(files, events, n));
  }

  lemma {:induction false} TransferHasBegun(files: map<string, seq<Byte>>, events: seq<Event>, n: nat)
    requires n <= |events| && DeviceAfter(files, events, n).active
    ensures exists b: nat ::
      ActiveSince(files, events, b, n, DeviceAfter(files, events, n).jobId, DeviceAfter(files, events, n).path)
    decreases n
  {
    hide DeviceAfter, Step, TakesUp, ActiveSince;
    AfterNothing(files, events);
    StartIsIdle(files);
    var d, before := DeviceAfter(files, events, n), DeviceAfter(files, events, n - 1);
    AfterNext(files, events, n - 1);
    StepActive(before, events[n - 1]);
    if before.active && d.jobId == before.jobId && d.path == before.path {
      TransferHasBegun(files, events, n - 1);
      var b: nat :| ActiveSince(files, events, b, n - 1, before.jobId, before.path);
      ActiveStill(files, events, b, n, d.jobId, d.path);
    } else {
      ActiveNow(files, events, n);
    }
  }

  lemma {:induction false} StartIsIdle(files: map<string, seq<Byte>>)
    ensures !Start(files).active && Start(files).sent == []
  {}

  lemma {:induction false} TakesUpMeans(e: Event, d: Device)
    requires TakesUp(e, d)
    ensures e.PutJob? && d.active && d.jobId == e.job && d.path == Paths.Normalize(e.path)
  {}

  // ---------------------------------------------------------------------------------
  // Whole runs
  // ---------------------------------------------------------------------------------

  /** Message `i` of the run was published by event `n`. */
  predicate PublishedBy(files: map<string, seq<Byte>>, events: seq<Event>, i: nat, n: nat) {
    n < |events| && Publishes(DeviceAfter(files, events, n), DeviceAfter(files, events, n + 1), i)
  }

  /** Message `i` is a result, published by event `n`, that settles the transfer which event `b`
      began. */
  ghost predicate SettledBy(files: map<string, seq<Byte>>, events: seq<Event>, i: nat, b: nat, n: nat) {
    && PublishedBy(files, events, i, n)
    && var d, after := DeviceAfter(files, events, n), DeviceAfter(files, events, n + 1);
       var m := after.sent[i];
    && i < |DeviceAfter(files, events, |events|).sent| && m == DeviceAfter(files, events, |events|).sent[i]
    && Finishes(m) && Settles(d, events[n], after, m)
    && ActiveSince(files, events, b, n, m.job, d.path)
  }

  lemma {:induction false} FinishGrows(d: Device)
    ensures forall ok, detail :: d.sent <= Finish(d, ok, detail).sent
  {}

  lemma {:induction false} BeginGrows(d: Device, job: string, path: string, size: nat, crc: Word, opens: bool)
    ensures d.sent <= Begin(d, job, path, size, crc, opens).sent
  {
    hide Finish, Paths.Normalize, Paths.Allowed;
    FinishGrows(d);
  }

  lemma {:induction false} DataGrows(d: Device, job: string, seqNo: Word, encoded: string, writes: bool)
    ensures d.sent <= Data(d, job, seqNo, encoded, writes).sent
  {
    hide Finish, Append, Hex.Decode;
    FinishGrows(d);
    match Hex.Decode(encoded, CHUNK_BYTES) {
      case None =>
      case Some(chunk) =>
        AppendSends(d, chunk);
        FinishGrows(Append(d, chunk).Publish(Ack(job, seqNo, "ok", "")));
    }
  }

  lemma {:induction false} StepGrows(d: Device, e: Event)
    ensures d.sent <= Step(d, e).sent
  {
    hide Begin, Data, Paths.Normalize, Paths.Allowed;
    match e {
      case PutJob(job, path, size, crc, opens) => BeginGrows(d, job, path, size, crc, opens);
      case PutData(job, seqNo, data, writes) => DataGrows(d, job, seqNo, data, writes);
      case DeleteJob(_, _, _) =>
    }
  }

  lemma {:induction false} SentGrows(files: map<string, seq<Byte>>, events: seq<Event>, n: nat)
    requires n <= |events|
    ensures DeviceAfter(files, events, n).sent <= DeviceAfter(files, events, |events|).sent
    decreases |events| - n
  {
    hide DeviceAfter, Step;
    if n < |events| {
      AfterNext(files, events, n);
      StepGrows(DeviceAfter(files, events, n), events[n]);
      SentGrows(files, events, n + 1);
    }
  }

  /** Every message was published by some event. */
  lemma {:induction false} Publisher(files: map<string, seq<Byte>>, events: seq<Event>, i: nat, k: nat) returns (n: nat)
    requires k <= |events| && i < |DeviceAfter(files, events, k).sent|
    ensures PublishedBy(files, events, i, n)
    decreases k
  {
    hide DeviceAfter, Step;
    AfterNothing(files, events);
    StartIsIdle(files);
    if i < |DeviceAfter(files, events, k - 1).sent| {
      n := Publisher(files, events, i, k - 1);
    } else {
      n := k - 1;
    }
  }

  lemma {:induction false} AfterKeepsInv(files: map<string, seq<Byte>>, events: seq<Event>, n: nat)
    requires HarmlessRun(Start(files), events) && n <= |events|
    ensures Inv(DeviceAfter(files, events, n))
  {
    hide Inv, Run, Harmless;
    var front := events[..n];
    assert forall i :: 0 <= i < n ==> front[..i] == events[..i] && front[i] == events[i];
    StartInv(files);
    RunKeepsInv(Start(files), front);
  }

  /** In every run, with any messages and file system faults: each result was published by an
      event that settles a transfer begun by an earlier job of the same identifier and active
      until then. If the put failed, its path is absent after that event, or else holds the
      empty file of the put to the same path that superseded it; if it completed, the path holds
      the reported size and checksum. */
  lemma {:induction false} EveryResultSettles(files: map<string, seq<Byte>>, events: seq<Event>, i: nat)
    requires HarmlessRun(Start(files), events)
    requires i < |Run(Start(files), events).sent| && Finishes(Run(Start(files), events).sent[i])
    ensures exists b: nat, n: nat :: SettledBy(files, events, i, b, n)
  {
    hide Run, Step, Inv, Settles, Finishes, ActiveSince, HarmlessRun;
    assert events[..|events|] == events;
    var n := Publisher(files, events, i, |events|);
    var d, after := DeviceAfter(files, events, n), DeviceAfter(files, events, n + 1);
    AfterNext(files, events, n);
    SentGrows(files, events, n + 1);
    assert after.sent[i] == DeviceAfter(files, events, |events|).sent[i];
    AfterKeepsInv(files, events, n);
    StepSettles(d, events[n], i);
    SettlesActive(d, events[n], after, after.sent[i]);
    TransferHasBegun(files, events, n);
    var b: nat :| ActiveSince(files, events, b, n, d.jobId, d.path);
    assert SettledBy(files, events, i, b, n);
  }

  lemma {:induction false} SettlesActive(d: Device, e: Event, after: Device, m: Message)
    requires Finishes(m) && Settles(d, e, after, m)
    ensures d.active && m.job == d.jobId
  {}
}
