/** The upload protocol's two looks at acknowledgements, against the log they are made in. */
module UploadAcks {
  import opened ControllerLog
  import Decimal
  import FileReceiver
  import UploadProtocol

  const ACK_SUFFIX := "fs/ack"

  /** The dictionary of the device's acknowledgement. Job identifiers are the controller's own
      and come back as they were sent. */
  function AckFields(device: string, m: FileReceiver.Message): Payload
    requires m.Ack?
  {
    var values := map["schema" := "rdm-1", "device_id" := device, "job_id" := m.job, "op" := "put_mqtt",
                      "seq" := Decimal.Integer(m.seqNo), "status" := m.status];
    Fields(if m.detail == "" then values else values["detail" := m.detail], map["seq" := m.seqNo],
           {"schema", "device_id", "job_id", "op", "status", "detail"})
  }

  function AckEntry(prefix: string, device: string, m: FileReceiver.Message): Entry
    requires m.Ack?
  {
    Entry(Topic(prefix, ACK_SUFFIX), AckFields(device, m), false)
  }

  lemma {:induction false} NamesDiffer()
    ensures "job_id" != "seq" && "job_id" != "status" && "job_id" != "detail" && "job_id" != "op"
    ensures "status" != "detail" && "job_id" != "schema" && "job_id" != "device_id"
    ensures "status" != "seq"
  {
    assert |"job_id"| == 6 && |"status"| == 6 && |"detail"| == 6 && |"schema"| == 6;
    assert "job_id"[0] == 'j' && "status"[0] == 's' && "detail"[0] == 'd' && "schema"[0] == 's';
    assert |"seq"| == 3 && |"op"| == 2 && |"device_id"| == 9;
  }

  /** Looking at an acknowledgement of the device, the controller accepts it if and only if the
      job, the number and the status are the ones it waits for. */
  lemma {:induction false} AckPassesIff(prefix: string, device: string, m: FileReceiver.Message, job: string,
        seqNo: int, statuses: set<string>)
    requires m.Ack?
    ensures IsAck(AckEntry(prefix, device, m), Topic(prefix, ACK_SUFFIX), job, seqNo, statuses)
       <==> m.job == job && m.seqNo == seqNo && m.status in statuses
  {
    hide Topic, Decimal.Integer;
    NamesDiffer();
    var p := AckFields(device, m);
    assert p.values["job_id"] == m.job && p.values["status"] == m.status;
  }

  /** Everything received on the topic are acknowledgements the device published. */
  ghost predicate FromDevice(all: seq<Entry>, prefix: string, device: string, sent: seq<FileReceiver.Message>) {
    forall i :: 0 <= i < |all| && all[i].topic == Topic(prefix, ACK_SUFFIX) ==>
      exists m :: m in sent && m.Ack? && all[i] == AckEntry(prefix, device, m)
  }

  /** Message `m` is among the last 200 received. */
  predicate Recent(all: seq<Entry>, prefix: string, device: string, m: FileReceiver.Message) {
    m.Ack? && exists i :: 0 <= i < |all| && |all| - 200 <= i && all[i] == AckEntry(prefix, device, m)
  }

  lemma {:induction false} LookFinds(prefix: string, events: seq<Event>, device: string,
        sent: seq<FileReceiver.Message>, job: string, seqNo: int, statuses: set<string>)
    requires FromDevice(History(events), prefix, device, sent)
    ensures var log := ControllerLog.Run(prefix, events).messages;
      NewestAck(log, Topic(prefix, ACK_SUFFIX), job, seqNo, statuses).Some? <==>
        exists m ::
          && m in sent && Recent(History(events), prefix, device, m)
          && m.job == job && m.seqNo == seqNo && m.status in statuses
  {
    hide NewestAck, ControllerLog.Run, History, Topic, AckEntry, ForJob, IsAck;
    var all, topic := History(events), Topic(prefix, ACK_SUFFIX);
    AckIsSeenIff(prefix, events, topic, job, seqNo, statuses);
    if AckAmongLast(all, topic, job, seqNo, statuses) {
      var i :| 0 <= i < |all| && |all| - 200 <= i
        && all[i].topic == topic && ForJob(all[i].payload, job, seqNo, statuses);
      var m :| m in sent && m.Ack? && all[i] == AckEntry(prefix, device, m);
      IsAckIff(all[i], topic, job, seqNo, statuses);
      AckPassesIff(prefix, device, m, job, seqNo, statuses);
      assert Recent(all, prefix, device, m);
    }
    forall m | m in sent && Recent(all, prefix, device, m)
        && m.job == job && m.seqNo == seqNo && m.status in statuses
      ensures AckAmongLast(all, topic, job, seqNo, statuses)
    {
      var i :| 0 <= i < |all| && |all| - 200 <= i && all[i] == AckEntry(prefix, device, m);
      IsAckIff(all[i], topic, job, seqNo, statuses);
      AckPassesIff(prefix, device, m, job, seqNo, statuses);
    }
  }

  /** A call that waits for the "ready" finds one if and only if the protocol's step is enabled by
      an acknowledgement that is still among the last 200 messages. */
  lemma {:induction false} ReadyIsFoundIff(prefix: string, events: seq<Event>, device: string,
        s: UploadProtocol.System, job: string)
    requires FromDevice(History(events), prefix, device, s.device.sent)
    requires job in s.uploads && job in s.phases && s.phases[job] == UploadProtocol.AwaitReady
    ensures var log := ControllerLog.Run(prefix, events).messages;
      NewestAck(log, Topic(prefix, ACK_SUFFIX), job, 0, {"ready"}).Some? <==>
        exists m ::
          && UploadProtocol.Enabled(s, UploadProtocol.SeesReady(job, m))
          && Recent(History(events), prefix, device, m)
  {
    hide NewestAck, ControllerLog.Run, History, Topic, FromDevice;
    LookFinds(prefix, events, device, s.device.sent, job, 0, {"ready"});
  }

  /** Likewise for the "ok" of the chunk it sent. */
  lemma {:induction false} OkIsFoundIff(prefix: string, events: seq<Event>, device: string,
        s: UploadProtocol.System, job: string)
    requires FromDevice(History(events), prefix, device, s.device.sent)
    requires job in s.uploads && job in s.phases && s.phases[job].AwaitOk?
    ensures var log := ControllerLog.Run(prefix, events).messages;
      NewestAck(log, Topic(prefix, ACK_SUFFIX), job, s.phases[job].k, {"ok"}).Some? <==>
        exists m ::
          && UploadProtocol.Enabled(s, UploadProtocol.SeesOk(job, m))
          && Recent(History(events), prefix, device, m)
  {
    hide NewestAck, ControllerLog.Run, History, Topic, FromDevice;
    LookFinds(prefix, events, device, s.device.sent, job, s.phases[job].k, {"ok"});
  }
}
