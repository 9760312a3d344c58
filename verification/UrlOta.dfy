/** The other updater: an image fetched from a URL the controller names, checked against a
    CRC-32 and a SHA-256. */
module UrlOta {
  import opened Bytes
  import Crc32
  import opened Ota
  import opened Words

  // ---------------------------------------------------------------------------------
  // Comparing digests
  // ---------------------------------------------------------------------------------

  /** A difference once seen stays in the accumulator. */
  lemma {:induction false} DifferenceStays(diff: bv8, a: bv8, b: bv8)
    ensures diff | (a ^ b) == 0 <==> diff == 0 && a == b
  {
    assert a ^ b == 0 <==> a == b;
  }

  /** Every byte is looked at, and the answer is equality. */
  method ConstantTimeEquals(left: seq<bv8>, right: seq<bv8>) returns (equal: bool)
    ensures equal <==> left == right
  {
    if |left| != |right| {
      return false;
    }
    var diff: bv8 := 0;
    for i := 0 to |left|
      invariant diff == 0 <==> left[..i] == right[..i]
    {
      DifferenceStays(diff, left[i], right[i]);
      assert left[..i + 1] == left[..i] + [left[i]] && right[..i + 1] == right[..i] + [right[i]];
      diff := diff | (left[i] ^ right[i]);
    }
    assert left[..|left|] == left && right[..|right|] == right;
    equal := diff == 0;
  }

  // ---------------------------------------------------------------------------------
  // The download
  // ---------------------------------------------------------------------------------

  /** When the image is committed; `sha` gives the SHA-256 of bytes in hexadecimal. */
  predicate UrlCommits(ok: bool, f: Flash, length: int, expected: Word, digest: seq<bv8>, sha: seq<Byte> -> seq<bv8>,
        ends: bool)
  {
    expected != 0 && |digest| == 64 && Commits(ok, f, length, expected, ends) && sha(f.written) == digest
  }

  /** `httpDownloadToOta` once the server has answered; a request without checksums is refused
      before anything is written. */
  method HttpDownloadToOta(u: Updater, bursts: seq<nat>, length: int, expected: Word, digest: seq<bv8>,
        sha: seq<Byte> -> seq<bv8>, ends: bool) returns (ok: bool)
    requires u.written == []
    modifies u
    ensures var (received, f) := RawFirmware(old(u.rx), bursts, length, old(u.FlashNow()));
      && ok == UrlCommits(received, f, length, expected, digest, sha, ends)
      && u.FlashNow() == (if expected == 0 || |digest| != 64 then old(u.FlashNow()) else f)
    ensures u.committed == (old(u.committed) || ok)
  {
    hide RawFirmware;
    if expected == 0 || |digest| != 64 {
      return false;
    }
    ok := u.DownloadRaw(bursts, length);
    if !ok {
      return;
    }
    var matches := ConstantTimeEquals(sha(u.written), digest);
    if (length > 0 && |u.written| != length) || u.crc != expected || !matches {
      return false;
    }
    if ends {
      u.committed := true;
    }
    ok := ends;
  }

  /** Whatever arrives: a committed image is the first bytes of the answer, all of it if the
      length was announced, and has both checksums. */
  lemma {:induction false} UrlImageIsSound(rx: seq<Byte>, bursts: seq<nat>, length: int, room: nat, expected: Word,
        digest: seq<bv8>, sha: seq<Byte> -> seq<bv8>, ends: bool)
    requires var (ok, f) := Received(rx, false, bursts, length, room);
      UrlCommits(ok, f, length, expected, digest, sha, ends)
    ensures var image := Received(rx, false, bursts, length, room).1.written;
      && image <= rx && (length > 0 ==> |image| == length)
      && Crc32.Crc(image) == expected != 0 && sha(image) == digest
  {
    hide Received, Crc32.Crc;
    CommittedImageIsSound(rx, false, bursts, length, room, expected, ends);
  }

  /** And exactly when: what the turns take of the answer must fit, be as long as announced and
      have both checksums, which must have been named, and the update must end well. */
  lemma {:induction false} UrlDownloadCommitsIff(rx: seq<Byte>, bursts: seq<nat>, length: int, room: nat,
        expected: Word, digest: seq<bv8>, sha: seq<Byte> -> seq<bv8>, ends: bool, k: nat)
    requires EndsWith(0, |rx|, bursts, length, k)
    ensures var n := Arrived(|rx|, bursts, k);
      var (ok, f) := Received(rx, false, bursts, length, room);
      && n <= |rx|
      && (UrlCommits(ok, f, length, expected, digest, sha, ends) <==>
            && expected != 0 && |digest| == 64 && n <= room && (length > 0 ==> n == length)
            && Crc32.Crc(rx[..n]) == expected && sha(rx[..n]) == digest && ends)
  {
    hide Received, Crc32.Crc, EndsWith, Arrived;
    PlainDownloadCommitsIff(rx, bursts, length, room, expected, ends, k);
  }

  /** An answer that arrives whole and fits is committed if and only if it has both checksums. */
  lemma {:induction false} WholeUrlDownloadCommitsIff(rx: seq<Byte>, bursts: seq<nat>, length: int, room: nat,
        expected: Word, digest: seq<bv8>, sha: seq<Byte> -> seq<bv8>, ends: bool)
    requires |rx| <= Capacity(bursts) && |rx| <= room && (length <= 0 || length == |rx|)
    ensures var (ok, f) := Received(rx, false, bursts, length, room);
      && ok && f.written == rx
      && (UrlCommits(ok, f, length, expected, digest, sha, ends) <==>
            expected != 0 && |digest| == 64 && Crc32.Crc(rx) == expected && sha(rx) == digest && ends)
  {
    hide Received, Crc32.Crc, Capacity;
    WholeDownloadCommitsIff(rx, bursts, length, room, expected, ends);
  }
}
