/** The firmware updater: what reaches the flash, and when it is committed. */
module Ota {
  import opened Bytes
  import opened ChunkedBody
  import Crc32
  import opened Text
  import opened Words

  // ---------------------------------------------------------------------------------
  // Writing
  // ---------------------------------------------------------------------------------

  /** The flash partition: what was written, the CRC of what was handed over, and how many
      more bytes it will take. */
  datatype Flash = Flash(written: seq<Byte>, crc: Word, room: nat)

  /** `writeBytes` */
  function WriteBytes(f: Flash, block: seq<Byte>): (bool, Flash) {
    var n := if |block| <= f.room then |block| else f.room;
    (n == |block|, Flash(f.written + block[..n], Crc32.Update(f.crc, block), f.room - n))
  }

  /** The inner loop: a chunk of `n` bytes in blocks of at most 512. */
  function WriteChunk(rx: seq<Byte>, n: nat, f: Flash): (r: (bool, Flash, seq<Byte>))
    ensures |r.2| <= |rx|
    decreases n
  {
    if n == 0 then (true, f, rx)
    else
      var want := if n < 512 then n else 512;
      if |rx| < want then (false, f, [])
      else
        var (ok, g) := WriteBytes(f, rx[..want]);
        if ok then WriteChunk(rx[want..], n - want, g) else (false, g, rx[want..])
  }

  /** The chunked branch of `downloadFirmware`. */
  function ChunkedFirmware(rx: seq<Byte>, f: Flash): (bool, Flash)
    decreases |rx|
  {
    match ReadSize(rx)
    case None => (false, f)
    case Some((size, rest)) =>
      if size == 0 then (true, f)
      else
        var (ok, g, left) := WriteChunk(rest, Count(size), f);
        if ok then ChunkedFirmware(ReadLine(left, "").rest, g) else (false, g)
  }

  /** The other branch: at each turn up to 512 of the bytes there are at that moment. */
  function RawFirmware(rx: seq<Byte>, bursts: seq<nat>, length: int, f: Flash): (bool, Flash)
    decreases |bursts|
  {
    if bursts == [] then (true, f)
    else
      var burst := if bursts[0] < 512 then bursts[0] else 512;
      var got := if burst < |rx| then burst else |rx|;
      var (ok, g) := if got > 0 then WriteBytes(f, rx[..got]) else (true, f);
      if !ok then (false, g)
      else if length > 0 && |g.written| >= length then (true, g)
      else RawFirmware(rx[got..], bursts[1..], length, g)
  }

  /** `readChunkedString`: the body, unless it is empty, too long or cut short. */
  function ChunkedString(rx: seq<Byte>, body: seq<Byte>, maxBytes: nat): Option<seq<Byte>>
    decreases |rx|
  {
    match ReadSize(rx)
    case None => None
    case Some((size, rest)) =>
      var n := Count(size);
      if size == 0 then (if body == [] then None else Some(body))
      else if n > 0 && (|rest| < n || |body| + n > maxBytes) then None
      else ChunkedString(ReadLine(rest[n..], "").rest, body + rest[..n], maxBytes)
  }

  /** When the new image is committed. */
  predicate Commits(ok: bool, f: Flash, length: int, expected: Word, ends: bool) {
    ok && (length > 0 ==> |f.written| == length) && f.crc == expected && ends
  }

  class Updater {
    var rx: seq<Byte>
    var written: seq<Byte>
    var crc: Word
    var room: nat
    var committed: bool

    constructor (arriving: seq<Byte>, room: nat)
      ensures rx == arriving && FlashNow() == Flash([], 0, room) && !committed
    {
      rx, written, crc, this.room, committed := arriving, [], 0, room, false;
    }

    ghost function FlashNow(): Flash
      reads this
    {
      Flash(written, crc, room)
    }

    method NextLine() returns (ok: bool, line: string)
      modifies this`rx
      ensures Line(ok, line, rx) == ReadLine(old(rx), "")
    {
      hide Trim;
      line := "";
      while |rx| > 0
        invariant ReadLine(rx, line) == ReadLine(old(rx), "")
        decreases |rx|
      {
        var c := rx[0];
        rx := rx[1..];
        if c == 10 {
          line := Trim(line);
          return true, line;
        }
        line := line + [c as char];
        if |line| > 300 {
          return false, line;
        }
      }
      ok := false;
    }

    method NextSize() returns (size: Option<int>)
      modifies this`rx
      ensures var r := ReadSize(old(rx));
        if r.None? then size == None else size == Some(r.value.0) && rx == r.value.1
    {
      hide ReadLine, Trim, Strtol16;
      var ok, line := NextLine();
      if !ok {
        return None;
      }
      var semi := IndexOf(line, ";");
      if semi >= 0 {
        line := line[..semi];
      }
      line := Trim(line);
      size := Some(Strtol16(line));
    }

    method WriteBlock(data: array<Byte>, len: nat) returns (ok: bool)
      requires len <= data.Length
      modifies this`written, this`crc, this`room
      ensures (ok, FlashNow()) == WriteBytes(old(FlashNow()), data[..len])
    {
      hide Crc32.Update;
      crc := Crc32.Crc32Update(crc, data, len);
      var n := if len <= room then len else room;
      assert data[..len][..n] == data[..n];
      written, room := written + data[..n], room - n;
      ok := n == len;
    }

    /** Up to `want` bytes into the buffer. */
    method Fill(buffer: array<Byte>, want: nat) returns (got: nat)
      requires want <= buffer.Length
      modifies this`rx, buffer
      ensures got == if want <= |old(rx)| then want else |old(rx)|
      ensures buffer[..got] == old(rx)[..got] && rx == old(rx)[got..]
    {
      got := 0;
      while got < want && |rx| > 0
        invariant got <= want && got <= |old(rx)|
        invariant buffer[..got] == old(rx)[..got] && rx == old(rx)[got..]
      {
        buffer[got] := rx[0];
        rx := rx[1..];
        got := got + 1;
        assert buffer[..got] == buffer[..got - 1] + [old(rx)[got - 1]];
        assert old(rx)[..got] == old(rx)[..got - 1] + [old(rx)[got - 1]];
      }
    }

    method StoreChunk(buffer: array<Byte>, size: int) returns (ok: bool)
      requires buffer.Length == 512
      modifies this`rx, this`written, this`crc, this`room, buffer
      ensures (ok, FlashNow(), rx) == WriteChunk(old(rx), Count(size), old(FlashNow()))
    {
      hide WriteBytes;
      var remaining := size;
      ok := true;
      while remaining > 0 && ok
        decreases ok, remaining
        invariant ok ==>
          WriteChunk(rx, Count(remaining), FlashNow()) == WriteChunk(old(rx), Count(size), old(FlashNow()))
        invariant !ok ==> (false, FlashNow(), rx) == WriteChunk(old(rx), Count(size), old(FlashNow()))
      {
        ghost var before := rx;
        var want := if remaining < 512 then remaining else 512;
        var got := Fill(buffer, want);
        ok := got == want;
        if ok {
          ok := WriteBlock(buffer, got);
        } else {
          assert before[got..] == [];
        }
        remaining := remaining - got;
      }
    }

    method DownloadChunked() returns (ok: bool)
      modifies this`rx, this`written, this`crc, this`room
      ensures (ok, FlashNow()) == ChunkedFirmware(old(rx), old(FlashNow()))
    {
      hide ReadSize, ReadLine, WriteChunk;
      var buffer := new Byte[512];
      ok := true;
      while ok
        invariant ok ==> ChunkedFirmware(rx, FlashNow()) == ChunkedFirmware(old(rx), old(FlashNow()))
        invariant !ok ==> (false, FlashNow()) == ChunkedFirmware(old(rx), old(FlashNow()))
        decreases ok, |rx|
      {
        var size := NextSize();
        if size == None {
          ok := false;
          break;
        }
        if size.value == 0 {
          var _, _ := NextLine();
          break;
        }
        ok := StoreChunk(buffer, size.value);
        var _, _ := NextLine();
      }
    }

    method DownloadRaw(bursts: seq<nat>, length: int) returns (ok: bool)
      modifies this`rx, this`written, this`crc, this`room
      ensures (ok, FlashNow()) == RawFirmware(old(rx), bursts, length, old(FlashNow()))
    {
      hide WriteBytes;
      var buffer := new Byte[512];
      ok := true;
      for i := 0 to |bursts|
        invariant RawFirmware(rx, bursts[i..], length, FlashNow())
            == RawFirmware(old(rx), bursts, length, old(FlashNow()))
      {
        assert bursts[i..][0] == bursts[i] && bursts[i..][1..] == bursts[i + 1..];
        ghost var before := rx;
        var got := Fill(buffer, if bursts[i] < 512 then bursts[i] else 512);
        if got > 0 {
          ok := WriteBlock(buffer, got);
          if !ok {
            return;
          }
        }
        if length > 0 && |written| >= length {
          return;
        }
      }
    }

    /** `downloadFirmware` once the headers are read; `ends` says whether `Update.end`
        succeeds. */
    method DownloadFirmware(chunked: bool, bursts: seq<nat>, length: int, expected: Word, ends: bool) returns (ok: bool)
      modifies this
      ensures var (received, f) := if chunked then ChunkedFirmware(old(rx), old(FlashNow()))
                                   else RawFirmware(old(rx), bursts, length, old(FlashNow()));
        FlashNow() == f && ok == Commits(received, f, length, expected, ends)
      ensures committed == (old(committed) || ok)
    {
      hide ChunkedFirmware, RawFirmware;
      if chunked {
        ok := DownloadChunked();
      } else {
        ok := DownloadRaw(bursts, length);
      }
      if !ok || (length > 0 && |written| != length) {
        return false;
      }
      if crc != expected {
        return false;
      }
      if !ends {
        return false;
      }
      committed := true;
      ok := true;
    }

    method ReadChunkedString(maxBytes: nat) returns (ok: bool, body: seq<Byte>)
      modifies this`rx
      ensures match ChunkedString(old(rx), [], maxBytes)
        case None => !ok
        case Some(all) => ok && body == all
    {
      hide ReadSize, ReadLine;
      body := [];
      while true
        invariant ChunkedString(rx, body, maxBytes) == ChunkedString(old(rx), [], maxBytes)
        decreases |rx|
      {
        var size := NextSize();
        if size == None {
          return false, body;
        }
        if size.value == 0 {
          var _, _ := NextLine();
          return body != [], body;
        }
        ghost var rest, start := rx, body;
        for i := 0 to Count(size.value)
          invariant |rest| >= i && rx == rest[i..] && body == start + rest[..i]
          invariant i > 0 ==> |body| <= maxBytes
        {
          if |rx| == 0 || |body| >= maxBytes {
            return false, body;
          }
          assert rest[..i + 1] == rest[..i] + [rest[i]];
          body := body + [rx[0]];
          rx := rx[1..];
        }
        var _, _ := NextLine();
      }
    }
  }

  // ---------------------------------------------------------------------------------
  // What a download writes, whatever arrives
  // ---------------------------------------------------------------------------------

  /** `g` is `f` after exactly `data` was handed over and stored. */
  predicate Stored(f: Flash, data: seq<Byte>, g: Flash) {
    g.written == f.written + data && g.crc == Crc32.Update(f.crc, data) && |data| <= f.room && g.room == f.room - |data|
  }

  lemma {:induction false} StoredNothing(f: Flash)
    ensures Stored(f, [], f)
  {
    hide Crc32.Update;
    Crc32.UpdateNothing(f.crc);
    assert f.written + [] == f.written;
  }

  lemma {:induction false} StoredTwice(f: Flash, a: seq<Byte>, g: Flash, b: seq<Byte>, h: Flash)
    requires Stored(f, a, g) && Stored(g, b, h)
    ensures Stored(f, a + b, h)
  {
    hide Crc32.Update;
    Crc32.UpdateComposes(f.crc, a, b);
    assert f.written + a + b == f.written + (a + b);
  }

  lemma {:induction false} BlockStored(f: Flash, block: seq<Byte>)
    ensures var (ok, g) := WriteBytes(f, block);
      ok == (|block| <= f.room) && (ok ==> Stored(f, block, g))
  {
    hide Crc32.Update;
    assert |block| <= f.room ==> block[..|block|] == block;
  }

  /** A chunk is stored whole, whatever blocks it is cut into, if it arrives and fits. */
  lemma {:induction false} ChunkStored(rx: seq<Byte>, n: nat, f: Flash)
    ensures var (ok, g, rest) := WriteChunk(rx, n, f);
      && ok == (n <= |rx| && n <= f.room)
      && (ok ==> rest == rx[n..] && Stored(f, rx[..n], g))
    decreases n
  {
    hide WriteBytes, Stored;
    if n == 0 {
      StoredNothing(f);
    } else {
      var want := if n < 512 then n else 512;
      if want <= |rx| {
        BlockStored(f, rx[..want]);
        BlockRoom(f, rx[..want]);
        var (ok, g) := WriteBytes(f, rx[..want]);
        if ok {
          ChunkStored(rx[want..], n - want, g);
          if n <= |rx| && n <= f.room {
            assert rx[want..][n - want..] == rx[n..];
            assert rx[..want] + rx[want..][..n - want] == rx[..n];
            var (_, h, _) := WriteChunk(rx[want..], n - want, g);
            StoredTwice(f, rx[..want], g, rx[want..][..n - want], h);
          }
        }
      }
    }
  }

  lemma {:induction false} BlockRoom(f: Flash, block: seq<Byte>)
    ensures var (ok, g) := WriteBytes(f, block); ok ==> g.room == f.room - |block|
  {
    hide Crc32.Update;
  }

  /** What the chunks of a stream carry, if it ends properly. */
  function Payload(rx: seq<Byte>): Option<seq<Byte>>
    decreases |rx|
  {
    match ReadSize(rx)
    case None => None
    case Some((size, rest)) =>
      if size == 0 then Some([])
      else if |rest| < Count(size) then None
      else
        match Payload(ReadLine(rest[Count(size)..], "").rest)
        case None => None
        case Some(more) => Some(rest[..Count(size)] + more)
  }

  /** On every byte stream, well-formed or not: the chunked branch succeeds if and only if
      the stream has a payload that fits, and then the flash has received exactly that. */
  lemma {:induction false} FirmwareIsPayload(rx: seq<Byte>, f: Flash)
    ensures var (ok, g) := ChunkedFirmware(rx, f);
      && ok == (Payload(rx).Some? && |Payload(rx).value| <= f.room)
      && (ok ==> Stored(f, Payload(rx).value, g))
    decreases |rx|
  {
    hide ReadSize, ReadLine, WriteChunk, Stored;
    match ReadSize(rx) {
      case None =>
      case Some((size, rest)) =>
        if size == 0 {
          StoredNothing(f);
        } else {
          var n := Count(size);
          ChunkStored(rest, n, f);
          StoredRoom(f, rest, n);
          var (ok, g, left) := WriteChunk(rest, n, f);
          if ok {
            var next := ReadLine(left, "").rest;
            FirmwareIsPayload(next, g);
            var (done, h) := ChunkedFirmware(next, g);
            if done {
              StoredTwice(f, rest[..n], g, Payload(next).value, h);
            }
          }
        }
    }
  }

  lemma {:induction false} StoredRoom(f: Flash, rest: seq<Byte>, n: nat)
    ensures var (ok, g, _) := WriteChunk(rest, n, f); ok ==> n <= |rest| && g.room == f.room - n
  {
    hide WriteChunk;
    ChunkStored(rest, n, f);
  }

  /** A chunk of negative size carries nothing, and the stream goes on after the next line. */
  lemma {:induction false} NegativeSizeIsSkipped(rx: seq<Byte>, f: Flash)
    requires ReadSize(rx).Some? && ReadSize(rx).value.0 < 0
    ensures var rest := ReadLine(ReadSize(rx).value.1, "").rest;
      ChunkedFirmware(rx, f) == ChunkedFirmware(rest, f) && Payload(rx) == Payload(rest)
  {
    hide ReadSize, ReadLine;
    var rest := ReadSize(rx).value.1;
    assert rest[0..] == rest;
    match Payload(ReadLine(rest, "").rest) {
      case None =>
      case Some(more) => assert rest[..0] + more == more;
    }
  }

  /** The two chunked readers agree on every stream: as text the same payload, unless it is
      empty or longer than allowed. */
  lemma {:induction false} ReadersAgree(rx: seq<Byte>, body: seq<Byte>, maxBytes: nat)
    requires |body| <= maxBytes
    ensures ChunkedString(rx, body, maxBytes) ==
      match Payload(rx)
      case None => None
      case Some(more) => if body + more == [] || |body + more| > maxBytes then None else Some(body + more)
    decreases |rx|
  {
    hide ReadSize, ReadLine;
    match ReadSize(rx) {
      case None =>
      case Some((size, rest)) =>
        if size == 0 {
          assert body + [] == body;
        } else {
          var n := Count(size);
          if n <= |rest| {
            var next := ReadLine(rest[n..], "").rest;
            if |body| + n <= maxBytes {
              ReadersAgree(next, body + rest[..n], maxBytes);
              if Payload(next).Some? {
                assert body + rest[..n] + Payload(next).value == body + (rest[..n] + Payload(next).value);
              }
            }
          }
        }
    }
  }

  // ---------------------------------------------------------------------------------
  // How much of a plain body is taken
  // ---------------------------------------------------------------------------------

  /** The most that turns with these bursts can read, 512 bytes each. */
  function Capacity(bursts: seq<nat>): nat {
    if bursts == [] then 0 else (if bursts[0] < 512 then bursts[0] else 512) + Capacity(bursts[1..])
  }

  /** What the first `k` turns have read of an answer of `total` bytes. */
  function Arrived(total: nat, bursts: seq<nat>, k: nat): nat
    requires k <= |bursts|
  {
    var most := Capacity(bursts[..k]);
    if most < total then most else total
  }

  /** After `k` turns the announced length is reached, with `have` bytes from before. */
  predicate Enough(have: nat, total: nat, bursts: seq<nat>, length: int, k: nat)
    requires k <= |bursts|
  {
    length > 0 && have + Arrived(total, bursts, k) >= length
  }

  /** The download ends with turn `k`: no earlier turn reached the announced length, and this
      one did or is the last. */
  ghost predicate EndsWith(have: nat, total: nat, bursts: seq<nat>, length: int, k: nat) {
    && k <= |bursts|
    && (k == |bursts| || (k > 0 && Enough(have, total, bursts, length, k)))
    && forall j :: 0 < j < k ==> !Enough(have, total, bursts, length, j)
  }

  /** There is such a turn. */
  lemma {:induction false} DownloadEnds(have: nat, total: nat, bursts: seq<nat>, length: int, from: nat)
    returns (k: nat)
    requires from <= |bursts| && forall j :: 0 < j < from ==> !Enough(have, total, bursts, length, j)
    ensures EndsWith(have, total, bursts, length, k)
    decreases |bursts| - from
  {
    hide Enough;
    if from == |bursts| || (from > 0 && Enough(have, total, bursts, length, from)) {
      k := from;
    } else {
      k := DownloadEnds(have, total, bursts, length, from + 1);
    }
  }

  lemma {:induction false} ArrivedNext(total: nat, bursts: seq<nat>, k: nat)
    requires 0 < k <= |bursts|
    ensures var burst := if bursts[0] < 512 then bursts[0] else 512;
      var got := if burst < total then burst else total;
      Arrived(total, bursts, k) == got + Arrived(total - got, bursts[1..], k - 1)
  {
    assert bursts[..k][1..] == bursts[1..][..k - 1];
  }

  lemma {:induction false} NothingArrives(total: nat)
    ensures Arrived(total, [], 0) == 0
  {}

  lemma {:induction false} FirstArrived(total: nat, bursts: seq<nat>)
    requires bursts != []
    ensures var burst := if bursts[0] < 512 then bursts[0] else 512;
      Arrived(total, bursts, 1) == if burst < total then burst else total
  {
    ArrivedNext(total, bursts, 1);
    assert Capacity(bursts[1..][..0]) == 0;
  }

  /** The turns after the first one end likewise. */
  lemma {:induction false} EndsAfterFirst(have: nat, total: nat, bursts: seq<nat>, length: int, k: nat)
    requires EndsWith(have, total, bursts, length, k) && bursts != []
    ensures Enough(have, total, bursts, length, 1) ==> k == 1
    ensures var got := Arrived(total, bursts, 1);
      !Enough(have, total, bursts, length, 1) ==>
        && k > 0 && EndsWith(have + got, total - got, bursts[1..], length, k - 1)
        && Arrived(total, bursts, k) == got + Arrived(total - got, bursts[1..], k - 1)
  {
    hide Capacity;
    FirstArrived(total, bursts);
    var got, rest := Arrived(total, bursts, 1), bursts[1..];
    forall j | 0 < j <= |bursts|
      ensures Arrived(total, bursts, j) == got + Arrived(total - got, rest, j - 1)
      ensures Enough(have, total, bursts, length, j) == Enough(have + got, total - got, rest, length, j - 1)
    {
      ArrivedNext(total, bursts, j);
    }
    assert k > 0;
    if !Enough(have, total, bursts, length, 1) {
      forall j {:trigger Enough(have + got, total - got, rest, length, j)} | 0 < j < k - 1
        ensures !Enough(have + got, total - got, rest, length, j)
      {
        assert !Enough(have, total, bursts, length, j + 1);
      }
    }
  }

  lemma {:induction false} BlockOverflows(f: Flash, block: seq<Byte>)
    requires |block| > f.room
    ensures var (ok, g) := WriteBytes(f, block);
      !ok && g.written == f.written + block[..f.room] && g.room == 0 && g.crc == Crc32.Update(f.crc, block)
  {
    hide Crc32.Update;
  }

  lemma {:induction false} StoredBefore(f: Flash, rx: seq<Byte>, got: nat, g: Flash, more: nat, h: Flash)
    requires got <= |rx| && Stored(f, rx[..got], g) && more <= |rx| - got
    ensures Stored(g, rx[got..][..more], h) ==> Stored(f, rx[..got + more], h)
    ensures g.room <= |rx| - got && h.written == g.written + rx[got..][..g.room]
       ==> h.written == f.written + rx[..f.room]
  {
    hide Crc32.Update;
    assert rx[..got] + rx[got..][..more] == rx[..got + more];
    if Stored(g, rx[got..][..more], h) {
      StoredTwice(f, rx[..got], g, rx[got..][..more], h);
    }
    assert g.room == f.room - got;
    if g.room <= |rx| - got {
      assert rx[..got] + rx[got..][..g.room] == rx[..f.room];
      assert f.written + rx[..got] + rx[got..][..g.room] == f.written + (rx[..got] + rx[got..][..g.room]);
    }
  }

  /** Whatever arrives, in whatever bursts: exactly the bytes of the turns up to the one that
      ends the download are handed over. All of them are stored if and only if they fit; else
      the flash is filled with the first of them. */
  lemma {:induction false} RawTakes(rx: seq<Byte>, bursts: seq<nat>, length: int, f: Flash, k: nat)
    requires EndsWith(|f.written|, |rx|, bursts, length, k)
    ensures var n := Arrived(|rx|, bursts, k);
      var (ok, g) := RawFirmware(rx, bursts, length, f);
      && n <= |rx| && ok == (n <= f.room)
      && (ok ==> Stored(f, rx[..n], g))
      && (!ok ==> g.written == f.written + rx[..f.room])
    decreases |bursts|
  {
    hide WriteBytes, Crc32.Update, Capacity;
    StoredNothing(f);
    if bursts != [] {
      FirstArrived(|rx|, bursts);
      EndsAfterFirst(|f.written|, |rx|, bursts, length, k);
      var got := Arrived(|rx|, bursts, 1);
      BlockStored(f, rx[..got]);
      assert got == 0 ==> rx[..got] == [];
      if got > f.room {
        BlockOverflows(f, rx[..got]);
        assert rx[..got][..f.room] == rx[..f.room];
      } else {
        var (_, g) := if got > 0 then WriteBytes(f, rx[..got]) else (true, f);
        if !Enough(|f.written|, |rx|, bursts, length, 1) {
          RawTakes(rx[got..], bursts[1..], length, g, k - 1);
          var (_, h) := RawFirmware(rx[got..], bursts[1..], length, g);
          StoredBefore(f, rx, got, g, Arrived(|rx| - got, bursts[1..], k - 1), h);
        }
      }
    } else {
      NothingArrives(|rx|);
    }
  }

  // ---------------------------------------------------------------------------------
  // The commit guard
  // ---------------------------------------------------------------------------------

  function Received(rx: seq<Byte>, chunked: bool, bursts: seq<nat>, length: int, room: nat): (bool, Flash) {
    if chunked then ChunkedFirmware(rx, Flash([], 0, room)) else RawFirmware(rx, bursts, length, Flash([], 0, room))
  }

  lemma {:induction false} FromEmpty(room: nat, data: seq<Byte>, g: Flash)
    requires Stored(Flash([], 0, room), data, g)
    ensures g.written == data && g.crc == Crc32.Crc(data)
  {
    hide Crc32.Update;
    assert [] + data == data;
  }

  /** Whatever arrives, however the server frames it and the flash behaves: a committed image
      has the expected checksum and any announced length; it is the payload of the chunks, or
      the first bytes of a plain body. */
  lemma {:induction false} CommittedImageIsSound(rx: seq<Byte>, chunked: bool, bursts: seq<nat>, length: int,
        room: nat, expected: Word, ends: bool)
    requires var (ok, f) := Received(rx, chunked, bursts, length, room); Commits(ok, f, length, expected, ends)
    ensures var image := Received(rx, chunked, bursts, length, room).1.written;
      && Crc32.Crc(image) == expected && (length > 0 ==> |image| == length)
      && (if chunked then Payload(rx) == Some(image) else image <= rx)
  {
    hide Crc32.Update, Payload, ChunkedFirmware, RawFirmware, Stored;
    var f := Flash([], 0, room);
    if chunked {
      FirmwareIsPayload(rx, f);
      FromEmpty(room, Payload(rx).value, ChunkedFirmware(rx, f).1);
    } else {
      var k := DownloadEnds(0, |rx|, bursts, length, 0);
      RawTakes(rx, bursts, length, f, k);
      FromEmpty(room, rx[..Arrived(|rx|, bursts, k)], RawFirmware(rx, bursts, length, f).1);
    }
  }

  /** In particular no image that differs from the released one by a burst of up to 32 bits is
      committed. */
  lemma {:induction false} DamagedImageIsNotCommitted(rx: seq<Byte>, chunked: bool, bursts: seq<nat>, length: int,
        room: nat, release: seq<Byte>, ends: bool, k: nat)
    requires Crc32.BurstAt(release, Received(rx, chunked, bursts, length, room).1.written, k)
    ensures var (ok, f) := Received(rx, chunked, bursts, length, room);
      !Commits(ok, f, length, Crc32.Crc(release), ends)
  {
    hide Crc32.Update, Crc32.BurstAt, Payload, Received;
    var (ok, f) := Received(rx, chunked, bursts, length, room);
    if Commits(ok, f, length, Crc32.Crc(release), ends) {
      CommittedImageIsSound(rx, chunked, bursts, length, room, Crc32.Crc(release), ends);
    }
    Crc32.BurstDetected(0, release, f.written, k);
  }

  // ---------------------------------------------------------------------------------
  // Streams as servers send them
  // ---------------------------------------------------------------------------------

  /** A chunk with its size line, which may carry extensions. */
  datatype Chunk = Chunk(line: seq<Byte>, data: seq<Byte>)

  predicate SizeLine(line: seq<Byte>, n: nat) {
    10 !in line && |line| < 300 && SizeOf(Trim(Latin1(line + [13]))) == n
  }

  predicate AllProper(chunks: seq<Chunk>) {
    forall i :: 0 <= i < |chunks| ==> chunks[i].data != [] && SizeLine(chunks[i].line, |chunks[i].data|)
  }

  lemma {:induction false} Latin1End(line: seq<Byte>, b: Byte)
    ensures Latin1(line + [b]) == Latin1(line) + [b as char]
  {
    Latin1Append(line, [b]);
    assert [b][1..] == [] && Latin1([b]) == [b as char];
  }

  /** Hexadecimal sizes below 2^31, with or without extensions, are size lines. */
  lemma {:induction false} WrittenSizeLine(line: seq<Byte>, n: nat, extensions: string)
    requires Latin1(line) == HexText(n) + extensions && 10 !in line && |line| < 300
    requires n < 0x8000_0000 && (extensions == "" || extensions[0] == ';')
    ensures SizeLine(line, n)
  {
    hide Latin1, HexText, Trim, SizeOf;
    Latin1End(line, 13);
    SizeLineReads(n, extensions);
  }

  function Stream(chunks: seq<Chunk>, last: seq<Byte>): seq<Byte> {
    if chunks == [] then last + CRLF
    else chunks[0].line + CRLF + (chunks[0].data + CRLF + Stream(chunks[1..], last))
  }

  function Body(chunks: seq<Chunk>): seq<Byte> {
    if chunks == [] then [] else chunks[0].data + Body(chunks[1..])
  }

  lemma {:induction false} SizeLineIsRead(line: seq<Byte>, n: nat, rest: seq<Byte>)
    requires SizeLine(line, n)
    ensures ReadSize(line + CRLF + rest) == Some((n as int, rest))
  {
    hide ReadLine, SizeOf, Trim, Latin1;
    LineReads(line + [13], rest, "");
    assert line + CRLF + rest == line + [13] + [10] + rest;
    assert "" + Latin1(line + [13]) == Latin1(line + [13]);
  }

  /** Every split of a body into chunks carries that body. */
  lemma {:induction false} PayloadOfStream(chunks: seq<Chunk>, last: seq<Byte>, trailer: seq<Byte>)
    requires AllProper(chunks) && SizeLine(last, 0)
    ensures Payload(Stream(chunks, last) + trailer) == Some(Body(chunks))
    decreases |chunks|
  {
    hide ReadSize, ReadLine, SizeLine;
    if chunks == [] {
      SizeLineIsRead(last, 0, trailer);
    } else {
      var c, more := chunks[0], Stream(chunks[1..], last) + trailer;
      var rest := c.data + CRLF + more;
      assert Stream(chunks, last) + trailer == c.line + CRLF + rest;
      SizeLineIsRead(c.line, |c.data|, rest);
      assert rest[..|c.data|] == c.data && rest[|c.data|..] == CRLF + more;
      CrlfReads(more);
      PayloadOfStream(chunks[1..], last, trailer);
    }
  }

  /** A body sent in chunks of any sizes is committed, as it is, if and only if it has the
      expected checksum, any announced length, and fits, and the update ends well. */
  lemma {:induction false} ChunkedDownloadCommitsIff(chunks: seq<Chunk>, last: seq<Byte>, trailer: seq<Byte>,
        length: int, room: nat, expected: Word, ends: bool)
    requires AllProper(chunks) && SizeLine(last, 0)
    ensures var (ok, f) := Received(Stream(chunks, last) + trailer, true, [], length, room);
      && (Commits(ok, f, length, expected, ends) <==>
            && |Body(chunks)| <= room && (length > 0 ==> |Body(chunks)| == length)
            && Crc32.Crc(Body(chunks)) == expected && ends)
      && ok == (|Body(chunks)| <= room) && (ok ==> f.written == Body(chunks))
  {
    hide Crc32.Update, Payload, ChunkedFirmware, Stream, Body, SizeLine, Stored;
    var rx := Stream(chunks, last) + trailer;
    PayloadOfStream(chunks, last, trailer);
    FirmwareIsPayload(rx, Flash([], 0, room));
    var (ok, f) := ChunkedFirmware(rx, Flash([], 0, room));
    if ok {
      FromEmpty(room, Body(chunks), f);
    }
  }

  // ---------------------------------------------------------------------------------
  // Plain bodies
  // ---------------------------------------------------------------------------------

  /** A plain body, whatever its bursts, announced length and room: what the turns take of it is
      committed if and only if it fits, is as long as announced and has the expected checksum,
      and the update ends well. */
  lemma {:induction false} PlainDownloadCommitsIff(rx: seq<Byte>, bursts: seq<nat>, length: int, room: nat,
        expected: Word, ends: bool, k: nat)
    requires EndsWith(0, |rx|, bursts, length, k)
    ensures var n := Arrived(|rx|, bursts, k);
      var (ok, f) := Received(rx, false, bursts, length, room);
      && n <= |rx|
      && (Commits(ok, f, length, expected, ends) <==>
            n <= room && (length > 0 ==> n == length) && Crc32.Crc(rx[..n]) == expected && ends)
      && ok == (n <= room) && f.written == rx[..if ok then n else room]
  {
    hide Crc32.Update, RawFirmware, Stored, Enough, Arrived;
    RawTakes(rx, bursts, length, Flash([], 0, room), k);
    var n := Arrived(|rx|, bursts, k);
    var (ok, f) := RawFirmware(rx, bursts, length, Flash([], 0, room));
    if ok {
      FromEmpty(room, rx[..n], f);
    }
  }

  /** A turn that ends a download whose bursts cover an answer of the announced length, or of
      one that is not announced, has read all of it. */
  lemma {:induction false} AllArrives(total: nat, bursts: seq<nat>, length: int, k: nat)
    requires EndsWith(0, total, bursts, length, k) && total <= Capacity(bursts)
    requires length <= 0 || length == total
    ensures Arrived(total, bursts, k) == total
  {
    hide Capacity;
    assert bursts[..|bursts|] == bursts;
  }

  /** When the bursts cover an answer that fits and has the announced length, if any, the flash
      holds exactly the answer, and it is committed if and only if it has the expected checksum
      and the update ends well. */
  lemma {:induction false} WholeDownloadCommitsIff(rx: seq<Byte>, bursts: seq<nat>, length: int, room: nat,
        expected: Word, ends: bool)
    requires |rx| <= Capacity(bursts) && |rx| <= room && (length <= 0 || length == |rx|)
    ensures var (ok, f) := Received(rx, false, bursts, length, room);
      && ok && f.written == rx
      && (Commits(ok, f, length, expected, ends) <==> Crc32.Crc(rx) == expected && ends)
  {
    hide Crc32.Update, Received, EndsWith, Arrived, Capacity, Crc32.Crc;
    var k := DownloadEnds(0, |rx|, bursts, length, 0);
    AllArrives(|rx|, bursts, length, k);
    PlainDownloadCommitsIff(rx, bursts, length, room, expected, ends, k);
    assert rx[..|rx|] == rx;
  }
}
