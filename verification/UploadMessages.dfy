/** The two messages of an upload, from the dictionary the controller signs to the values the
    device's handlers take: what the upload protocol's packets leave out. */
module UploadMessages {
  import opened Authentication
  import opened Bytes
  import opened Cbor
  import opened Chunks
  import opened CleanMessages
  import Crc32
  import Decimal
  import opened Envelope
  import FileReceiver
  import Hex
  import opened JsonLookup
  import opened SignedFields
  import opened SignedMessages
  import UploadProtocol
  import Utf8
  import Words

  // ---------------------------------------------------------------------------------
  // The controller
  // ---------------------------------------------------------------------------------

  /** The dictionary `publish_file_upload` sends for chunk `k`. */
  function ChunkFields(device: string, job: string, u: Shipment, k: nat): (entries: seq<Entry>)
    requires k * u.chunk <= |u.data|
  {
    [Entry("schema", Text("rdm-1")), Entry("device_id", Text(device)), Entry("job_id", Text(job)),
     Entry("op", Text("put_mqtt")), Entry("seq", Int(k)), Entry("offset", Int(k * u.chunk)),
     Entry("encoding", Text("hex")), Entry("data", Text(Hex.Encode(Slice(u, k))))]
  }

  /** The dictionary of the job itself, with what `publish_job` adds. */
  function JobFields(device: string, job: string, msg: string, created: string, u: Shipment): (entries: seq<Entry>) {
    [Entry("op", Text("put_mqtt")), Entry("path", Text(UploadProtocol.RequestedPath(u.path))),
     Entry("size", Int(|u.data|)), Entry("crc32", Text(Hex.Checksum(Crc32.Crc(u.data)))),
     Entry("encoding", Text("hex")), Entry("chunk_size", Int(u.chunk)),
     Entry("schema", Text("rdm-1")), Entry("device_id", Text(device)), Entry("msg_id", Text(msg)),
     Entry("job_id", Text(job)), Entry("created_at", Text(created))]
  }

  // ---------------------------------------------------------------------------------
  // The device
  // ---------------------------------------------------------------------------------

  /** The unsigned 32-bit reading of a field. */
  function NumberField(json: string, key: string): Words.Word {
    Decimal.ToInt(Lookup(json, key)) % Words.MODULUS
  }

  /** What `handleFileData` takes from a message, if it is for it. */
  function ReadChunk(json: string, storage: bool): Option<FileReceiver.Event> {
    if Lookup(json, "op") != "put_mqtt" then None
    else Some(FileReceiver.PutData(Lookup(json, "job_id"), NumberField(json, "seq"), Lookup(json, "data"), storage))
  }

  /** What `handleFileJob` takes from a "put_mqtt" job. */
  function ReadJob(json: string, storage: bool): Option<FileReceiver.Event> {
    if Lookup(json, "op") != "put_mqtt" then None
    else
      Some(FileReceiver.PutJob(Lookup(json, "job_id"), Lookup(json, "path"), NumberField(json, "size"),
                               Hex.Parse(Lookup(json, "crc32")), storage))
  }

  /** The number read of a field that holds an integer: the nearest of 32 bits, without its sign
      bit's meaning. */
  lemma {:induction false} NumberIsRead(json: string, key: string, n: int)
    requires Lookup(json, key) == Decimal.Integer(n)
    ensures NumberField(json, key) ==
      if n > 0x7FFF_FFFF then 0x7FFF_FFFF
      else if n >= 0 then n
      else if n < -0x8000_0000 then 0x8000_0000
      else 0x1_0000_0000 + n
  {
    hide Lookup, Decimal.Integer, Decimal.ToInt;
    Decimal.ToIntOfInteger(n);
  }

  /** Messages with another operation are not for these handlers. */
  lemma {:induction false} OtherOperationIsIgnored(m: seq<Entry>, format: Format, i: nat, op: string, storage: bool)
    requires Flat(m) && EncodePayload(m, format).Some? && Fits(m) && CleanEntries(m, KEYS) && i < |m|
    requires m[i] == Entry("op", Text(op)) && op != "put_mqtt"
    ensures ReadChunk(Received(m, format), storage) == None && ReadJob(Received(m, format), storage) == None
  {
    hide Flat, EncodePayload, Fits, CleanEntries, Received, Lookup, NumberField, Hex.Parse;
    assert KEYS[4] == "op";
    CleanFieldArrives(m, format, i);
  }

  /** The place a chunk names is its number times the chunk size the job announced, and its data
      are what the file holds there. */
  lemma {:induction false} ChunkNamesItsPlace(device: string, job: string, msg: string, created: string, u: Shipment,
        k: nat)
    requires k * u.chunk <= |u.data|
    ensures var chunk, m := ChunkFields(device, job, u, k), JobFields(device, job, msg, created, u);
      && chunk[5].key == "offset" && chunk[5].value.Int? && chunk[7].key == "data" && chunk[7].value.Text?
      && m[5].key == "chunk_size" && m[5].value.Int? && chunk[5].value.n == k * m[5].value.n
      && var place := chunk[5].value.n;
      && 0 <= place <= |u.data|
      && exists end :: place <= end <= |u.data| && chunk[7].value.s == Hex.Encode(u.data[place..end])
  {
    hide Hex.Encode, Hex.Checksum, Crc32.Crc, UploadProtocol.RequestedPath;
  }

  // ---------------------------------------------------------------------------------
  // The chunk message
  // ---------------------------------------------------------------------------------

  const CHUNK_NAMES: seq<string> := ["schema", "device_id", "job_id", "op", "seq", "offset", "encoding", "data", "auth"]

  lemma {:induction false} ChunkNamesDiffer()
    ensures forall i, j :: 0 <= i < j < |CHUNK_NAMES| ==> CHUNK_NAMES[i] != CHUNK_NAMES[j]
    ensures forall i :: 0 <= i < |CHUNK_NAMES| ==> Word(CHUNK_NAMES[i])
  {
    forall i, j | 0 <= i < j < |CHUNK_NAMES|
      ensures CHUNK_NAMES[i] != CHUNK_NAMES[j]
    {
      assert |CHUNK_NAMES[i]| != |CHUNK_NAMES[j]| || CHUNK_NAMES[i][0] != CHUNK_NAMES[j][0];
    }
  }

  lemma {:induction false} SignedChunk(device: string, job: string, u: Shipment, k: nat, auth: Entry)
    requires k * u.chunk <= |u.data| && auth.key == "auth" && auth.value.Text?
    ensures Flat(ChunkFields(device, job, u, k)) && Flat(ChunkFields(device, job, u, k) + [auth])
  {
    hide Hex.Encode, Slice, Word;
    var signed := ChunkFields(device, job, u, k) + [auth];
    ChunkNamesDiffer();
    forall i | 0 <= i < |signed|
      ensures signed[i].key == CHUNK_NAMES[i] && FlatValue(signed[i].value)
    {}
    FlatPrefix(ChunkFields(device, job, u, k), auth);
  }

  lemma {:induction false} ChunkIsClean(device: string, job: string, u: Shipment, k: nat, auth: Entry)
    requires k * u.chunk <= |u.data| && CleanText(device) && CleanText(job)
    requires auth.key == "auth" && auth.value.Text? && Hex.AllCanonical(auth.value.s)
    ensures CleanEntries(ChunkFields(device, job, u, k) + [auth], KEYS)
  {
    var data := Hex.Encode(Slice(u, k));
    var signed := ChunkFields(device, job, u, k) + [auth];
    Hex.EncodeIsCanonical(Slice(u, k));
    hide Hex.Encode, Slice, JsonClean, Collides, Hex.FromHex, Hex.AllCanonical;
    ConstantsAreClean();
    HexIsClean(data);
    HexIsClean(auth.value.s);
    assert "auth"[0] != "data"[0];
    forall i | 0 <= i < |signed|
      ensures CleanEntry(signed[i])
    {}
    AllEntriesClean(signed);
  }

  /** The signed dictionary of chunk `k`. */
  function ChunkMessage(device: string, job: string, u: Shipment, k: nat, secret: string,
        mac: (string, string) -> string): (entries: seq<Entry>)
    requires k * u.chunk <= |u.data|
    ensures Flat(entries)
  {
    var auth := Entry("auth", Text(""));
    SignedChunk(device, job, u, k, auth);
    var entries := ChunkFields(device, job, u, k);
    SignedChunk(device, job, u, k, Entry("auth", Text(mac(secret, Utf8.Wire(ControllerBase(entries))))));
    Sign(entries, secret, mac)
  }

  lemma {:induction false} NumberArrives(n: nat)
    requires n < 0x8000_0000
    ensures Decimal.ToInt(ValueText(Int(n))) % Words.MODULUS == n % Words.MODULUS
  {
    Decimal.ToIntOfInteger(n);
  }

  /** In every format, with any secret and MAC: the message of a chunk passes the device's
      signature check and brings its handler exactly the packet of the upload protocol. */
  lemma {:induction false} ChunkMessageArrives(device: string, job: string, u: Shipment, k: nat, secret: string,
        mac: (string, string) -> string, format: Format, storage: bool)
    requires Valid(u) && k * u.chunk < |u.data| < 0x8000_0000 && CleanText(device) && CleanText(job)
    requires IsMac(mac) && secret != ""
    requires var m := ChunkMessage(device, job, u, k, secret, mac); EncodePayload(m, format).Some? && Fits(m)
    ensures var json := Received(ChunkMessage(device, job, u, k, secret, mac), format);
      && Verify(json, secret, mac)
      && ReadChunk(json, storage) == Some(UploadProtocol.Received(UploadProtocol.ChunkPacket(job, u, k), storage))
  {
    hide Flat, EncodePayload, Fits, CleanEntries, Received, Lookup, Intact, Undisturbed, FieldsSeen, Hex.Encode, Slice,
         ControllerBase, DeviceBase, Utf8.Wire, CleanText, Decimal.Integer, Decimal.ToInt, Verify, AllWords;
    var entries := ChunkFields(device, job, u, k);
    SignedChunk(device, job, u, k, Entry("auth", Text("")));
    var auth := Entry("auth", Text(mac(secret, Utf8.Wire(ControllerBase(entries)))));
    var m := ChunkMessage(device, job, u, k, secret, mac);
    assert m == entries + [auth];
    SignedChunk(device, job, u, k, auth);
    ChunkIsClean(device, job, u, k, auth);
    OwnTagIsAccepted(entries, format, secret, mac);
    CleanFieldArrives(m, format, 2);
    CleanFieldArrives(m, format, 3);
    CleanFieldArrives(m, format, 4);
    CleanFieldArrives(m, format, 7);
    CountAtMostProduct(k, u.chunk);
    NumberArrives(k);
  }

  // ---------------------------------------------------------------------------------
  // The job message
  // ---------------------------------------------------------------------------------

  const JOB_NAMES: seq<string> :=
    ["op", "path", "size", "crc32", "encoding", "chunk_size", "schema", "device_id", "msg_id", "job_id",
      "created_at", "auth"]

  lemma {:induction false} JobNamesDiffer()
    ensures forall i, j :: 0 <= i < j < |JOB_NAMES| ==> JOB_NAMES[i] != JOB_NAMES[j]
    ensures forall i :: 0 <= i < |JOB_NAMES| ==> Word(JOB_NAMES[i])
  {
    JobNamesAreWords();
    hide Word;
    forall i, j | 0 <= i < j < |JOB_NAMES|
      ensures JOB_NAMES[i] != JOB_NAMES[j]
    {
      assert |JOB_NAMES[i]| != |JOB_NAMES[j]| || JOB_NAMES[i][1] != JOB_NAMES[j][1];
    }
  }

  lemma {:induction false} JobNamesAreWords()
    ensures forall i :: 0 <= i < |JOB_NAMES| ==> Word(JOB_NAMES[i])
  {}

  lemma {:induction false} SignedJob(device: string, job: string, msg: string, created: string, u: Shipment,
        auth: Entry)
    requires auth.key == "auth" && auth.value.Text?
    ensures var entries := JobFields(device, job, msg, created, u); Flat(entries) && Flat(entries + [auth])
  {
    hide Hex.Checksum, Crc32.Crc, UploadProtocol.RequestedPath, Word;
    var signed := JobFields(device, job, msg, created, u) + [auth];
    JobNamesDiffer();
    forall i | 0 <= i < |signed|
      ensures signed[i].key == JOB_NAMES[i] && FlatValue(signed[i].value)
    {}
    FlatPrefix(JobFields(device, job, msg, created, u), auth);
  }

  lemma {:induction false} JobIsClean(device: string, job: string, msg: string, created: string, u: Shipment,
        auth: Entry)
    requires CleanText(device) && CleanText(job) && CleanText(msg) && CleanText(created)
    requires CleanText(UploadProtocol.RequestedPath(u.path))
    requires auth.key == "auth" && auth.value.Text? && Hex.AllCanonical(auth.value.s)
    ensures CleanEntries(JobFields(device, job, msg, created, u) + [auth], KEYS)
  {
    hide Crc32.Crc, UploadProtocol.RequestedPath, JsonClean, Collides, Hex.FromHex, Hex.AllCanonical, Hex.Checksum;
    var signed := JobFields(device, job, msg, created, u) + [auth];
    ConstantsAreClean();
    HexIsClean(Hex.Checksum(Crc32.Crc(u.data)));
    HexIsClean(auth.value.s);
    JobNamesDiffer();
    assert "data"[1] == 'a' && |"data"| == 4;
    forall i | 0 <= i < |signed|
      ensures CleanEntry(signed[i])
    {
      assert signed[i].key == JOB_NAMES[i];
      assert |JOB_NAMES[i]| != 4 || JOB_NAMES[i][0] != 'd';
    }
    AllEntriesClean(signed);
  }

  function JobMessage(device: string, job: string, msg: string, created: string, u: Shipment, secret: string,
        mac: (string, string) -> string): (entries: seq<Entry>)
    ensures Flat(entries)
  {
    SignedJob(device, job, msg, created, u, Entry("auth", Text("")));
    var entries := JobFields(device, job, msg, created, u);
    SignedJob(device, job, msg, created, u, Entry("auth", Text(mac(secret, Utf8.Wire(ControllerBase(entries))))));
    Sign(entries, secret, mac)
  }

  lemma {:induction false} JobIsRead(m: seq<Entry>, format: Format, storage: bool, job: string, path: string,
        size: nat, crc: string)
    requires Flat(m) && EncodePayload(m, format).Some? && Fits(m) && CleanEntries(m, KEYS) && |m| >= 10
    requires size < 0x8000_0000
    requires m[0] == Entry("op", Text("put_mqtt")) && m[1] == Entry("path", Text(path))
    requires m[2] == Entry("size", Int(size))
    requires m[3] == Entry("crc32", Text(crc)) && m[9] == Entry("job_id", Text(job))
    ensures ReadJob(Received(m, format), storage)
         == Some(FileReceiver.PutJob(job, path, size % Words.MODULUS, Hex.Parse(crc), storage))
  {
    hide Flat, EncodePayload, Fits, CleanEntries, Received, Lookup, Decimal.Integer, Decimal.ToInt, Hex.Parse;
    CleanFieldArrives(m, format, 0);
    CleanFieldArrives(m, format, 1);
    CleanFieldArrives(m, format, 2);
    CleanFieldArrives(m, format, 3);
    CleanFieldArrives(m, format, 9);
    NumberArrives(size);
  }

  /** The job message, likewise. */
  lemma {:induction false} JobMessageArrives(device: string, job: string, msg: string, created: string, u: Shipment,
        secret: string, mac: (string, string) -> string, format: Format, storage: bool)
    requires |u.data| < 0x8000_0000 && CleanText(device) && CleanText(job) && CleanText(msg) && CleanText(created)
    requires CleanText(UploadProtocol.RequestedPath(u.path))
    requires IsMac(mac) && secret != ""
    requires var m := JobMessage(device, job, msg, created, u, secret, mac); EncodePayload(m, format).Some? && Fits(m)
    ensures var json := Received(JobMessage(device, job, msg, created, u, secret, mac), format);
      && Verify(json, secret, mac)
      && ReadJob(json, storage) == Some(UploadProtocol.Received(UploadProtocol.JobPacket(job, u), storage))
  {
    hide Flat, EncodePayload, Fits, CleanEntries, Received, ReadJob, Hex.Checksum, Crc32.Crc, ControllerBase, Utf8.Wire,
         CleanText, Verify, Hex.Parse, UploadProtocol.RequestedPath;
    var entries := JobFields(device, job, msg, created, u);
    SignedJob(device, job, msg, created, u, Entry("auth", Text("")));
    var auth := Entry("auth", Text(mac(secret, Utf8.Wire(ControllerBase(entries)))));
    var m := JobMessage(device, job, msg, created, u, secret, mac);
    assert m == entries + [auth];
    SignedJob(device, job, msg, created, u, auth);
    JobIsClean(device, job, msg, created, u, auth);
    OwnTagIsAccepted(entries, format, secret, mac);
    JobIsRead(m, format, storage, job, UploadProtocol.RequestedPath(u.path), |u.data|, Hex.Checksum(Crc32.Crc(u.data)));
  }
}
