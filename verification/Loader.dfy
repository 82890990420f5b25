/** The EXWPAY1 payload format: the packer of pack_payload.py and the validating loader of
    loader/src/main.c. */
module Loader {
  import opened Bytes
  import opened Wrappers
  import Crc

  const MAGIC: seq<Byte> := [0x45, 0x58, 0x57, 0x50, 0x41, 0x59, 0x31, 0]
  const HEADER_SIZE: nat := 32
  const P2_START: nat := 0xac80_0000
  const P2_END: nat := 0xad00_0000
  const WINDOW: nat := 0x80_0000
  const FLAG_EXECUTABLE: nat := 1
  const FLAG_RETURNS: nat := 2
  const MAX_READ: nat := 65536
  const WORD: nat := 0x1_0000_0000

  datatype Header = Header(magic: seq<Byte>, headerSize: nat, loadAddress: nat, entryAddress: nat,
                           payloadSize: nat, payloadCrc: nat, flags: nat)

  /** The header structure as the big-endian loader sees the first bytes of a file. */
  function ParseHeader(bs: seq<Byte>): Header
    requires |bs| == HEADER_SIZE
  {
    Header(bs[..8], Decode(bs[8..12]), Decode(bs[12..16]), Decode(bs[16..20]),
           Decode(bs[20..24]), Decode(bs[24..28]), Decode(bs[28..32]))
  }

  // ----- the packer

  datatype Arguments = Arguments(mayReturn: bool, blob: Option<seq<Byte>>, offset: Option<int>, capacity: Option<int>)

  datatype PackResult = Packed(file: seq<Byte>) | UsageError | TooLarge

  /** The payload with the optional blob placed at its offset behind zero padding. */
  function Padded(payload: seq<Byte>, a: Arguments): Option<seq<Byte>> {
    if a.blob.None? && a.offset.None? && a.capacity.None? then Some(payload)
    else if a.blob.None? || a.offset.None? || a.capacity.None? then None
    else if |payload| > a.offset.value || |a.blob.value| > a.capacity.value then None
    else Some(payload + seq(a.offset.value - |payload|, _ => 0) + a.blob.value)
  }

  function PackHeader(payload: seq<Byte>, mayReturn: bool): (bs: seq<Byte>)
    ensures |bs| == HEADER_SIZE
  {
    MAGIC + Encode32(HEADER_SIZE) + Encode32(P2_START) + Encode32(P2_START) + Encode32(|payload|)
    + Encode32(Crc.Checksum(payload)) + Encode32(FLAG_EXECUTABLE + if mayReturn then FLAG_RETURNS else 0)
  }

  function Pack(input: seq<Byte>, a: Arguments): PackResult {
    match Padded(input, a)
    case None => UsageError
    case Some(payload) =>
      if |payload| >= WORD then TooLarge else Packed(PackHeader(payload, a.mayReturn) + payload)
  }

  // ----- the loader

  datatype Status = Ok | NotFound | BadHeader | BadRange | BadSize | ReadError | BadCrc

  /** How many bytes each call of sys_read delivers at most; zero or less is an error or the end. */
  type Schedule = nat -> int

  /** The count one sys_read returns for a request with that much of the file left. */
  function Count(offered: int, request: nat, remaining: nat): int {
    if offered <= 0 then offered else Min(offered, Min(request, remaining))
  }

  /** Do the reads from the k-th on deliver the rest of the payload? */
  predicate Delivers(schedule: Schedule, k: nat, done: nat, size: nat)
    requires done <= size
    decreases size - done
  {
    || done == size
    || (schedule(k) > 0 && Delivers(schedule, k + 1, done + Min(schedule(k), Min(MAX_READ, size - done)), size))
  }

  predicate GoodHeader(h: Header) {
    h.magic == MAGIC && h.headerSize == HEADER_SIZE && h.flags % 2 == FLAG_EXECUTABLE
  }

  predicate GoodRange(h: Header) {
    && P2_START <= h.loadAddress < P2_END
    && 0 < h.payloadSize <= P2_END - h.loadAddress
    && h.loadAddress <= h.entryAddress < h.loadAddress + h.payloadSize
  }

  /** What load_payload answers for a file and a schedule of short reads. */
  function Verdict(file: Option<seq<Byte>>, schedule: Schedule): Status {
    if file.None? then NotFound
    else if Count(schedule(0), HEADER_SIZE, |file.value|) != HEADER_SIZE then BadHeader
    else Judge(ParseHeader(file.value[..HEADER_SIZE]), file.value[HEADER_SIZE..], schedule)
  }

  /** The same once the header has been read. */
  function Judge(h: Header, rest: seq<Byte>, schedule: Schedule): Status {
    if !GoodHeader(h) then BadHeader
    else if !GoodRange(h) then BadRange
    else if |rest| != h.payloadSize then BadSize
    else if !Delivers(schedule, 1, 0, h.payloadSize) then ReadError
    else if Crc.Checksum(rest) != h.payloadCrc then BadCrc
    else Ok
  }

  class Machine {
    var header: Header
    var measuredCrc: nat
    const window: array<Byte>

    ghost predicate Valid()
      reads this
    {
      window.Length == WINDOW
    }

    /** The payload's place in the P2 window. */
    ghost function Place(): (int, int)
      reads this
    {
      (header.loadAddress - P2_START, header.loadAddress - P2_START + header.payloadSize)
    }

    constructor ()
      ensures Valid() && fresh(window)
    {
      window := new Byte[WINDOW](_ => 0);
      header := Header([], 0, 0, 0, 0, 0, 0);
      measuredCrc := 0;
    }

    /** load_payload. */
    method Load(file: Option<seq<Byte>>, schedule: Schedule) returns (status: Status)
      requires Valid()
      modifies this, window
      ensures Valid() && status == Verdict(file, schedule)
      ensures status.Ok? || status.BadCrc? || status.ReadError? ==> file.Some? && |file.value| >= HEADER_SIZE
      ensures status.Ok? || status.BadCrc? || status.ReadError? ==>
                && header == ParseHeader(file.value[..HEADER_SIZE]) && GoodRange(header)
                && forall i :: 0 <= i < WINDOW && !(Place().0 <= i < Place().1) ==> window[i] == old(window[i])
      ensures status.Ok? || status.BadCrc? ==> window[Place().0..Place().1] == file.value[HEADER_SIZE..]
      ensures status.Ok? ==> measuredCrc == header.payloadCrc
      ensures status.NotFound? || status.BadHeader? || status.BadRange? || status.BadSize? ==>
                window[..] == old(window[..])
    {
      hide Crc.Update, Crc.Finish, ParseHeader, Delivers;
      if file.None? {
        return NotFound;
      }
      var bytes := file.value;
      var count := Count(schedule(0), HEADER_SIZE, |bytes|);
      if count != HEADER_SIZE {
        return BadHeader;
      }
      header := ParseHeader(bytes[..HEADER_SIZE]);
      if header.magic != MAGIC || header.headerSize != HEADER_SIZE || header.flags % 2 != FLAG_EXECUTABLE {
        return BadHeader;
      }
      if header.loadAddress < P2_START || header.loadAddress >= P2_END || header.payloadSize == 0
         || header.payloadSize > P2_END - header.loadAddress
         || header.entryAddress < header.loadAddress || header.entryAddress >= header.loadAddress + header.payloadSize {
        return BadRange;
      }
      if |bytes| != HEADER_SIZE + header.payloadSize {
        return BadSize;
      }
      var delivered, crc := ReadPayload(bytes, schedule, header.loadAddress - P2_START, header.payloadSize);
      if !delivered {
        return ReadError;
      }
      measuredCrc := Crc.Finish(crc);
      if measuredCrc != header.payloadCrc {
        return BadCrc;
      }
      return Ok;
    }

    /** The read loop of load_payload, which starts with the second call of sys_read. */
    method ReadPayload(bytes: seq<Byte>, schedule: Schedule, base: nat, size: nat) returns (delivered: bool, crc: bv32)
      requires base + size <= window.Length && |bytes| == HEADER_SIZE + size
      modifies window
      ensures delivered <==> Delivers(schedule, 1, 0, size)
      ensures forall i :: 0 <= i < window.Length && !(base <= i < base + size) ==> window[i] == old(window[i])
      ensures delivered ==>
                window[base..base + size] == bytes[HEADER_SIZE..] && crc == Crc.Update(Crc.START, bytes[HEADER_SIZE..])
    {
      hide Crc.Update;
      var done, k := 0, 1;
      crc := Crc.START;
      assert bytes[HEADER_SIZE..HEADER_SIZE + 0] == [];
      Crc.UpdateEmpty(crc);
      while done < size
        invariant 0 <= done <= size && k >= 1
        invariant Delivers(schedule, 1, 0, size) == Delivers(schedule, k, done, size)
        invariant window[base..base + done] == bytes[HEADER_SIZE..HEADER_SIZE + done]
        invariant forall i :: 0 <= i < window.Length && !(base <= i < base + size) ==> window[i] == old(window[i])
        invariant crc == Crc.Update(Crc.START, bytes[HEADER_SIZE..HEADER_SIZE + done])
      {
        var remaining := size - done;
        var request := if remaining > MAX_READ then MAX_READ else remaining;
        var count := Count(schedule(k), request, |bytes| - HEADER_SIZE - done);
        if count <= 0 {
          return false, crc;
        }
        crc := ReadChunk(bytes, crc, base, done, count);
        done := done + count;
        k := k + 1;
      }
      assert bytes[HEADER_SIZE..HEADER_SIZE + size] == bytes[HEADER_SIZE..];
      delivered := true;
    }

    /** One sys_read of `count` bytes into the window, and the checksum of what arrived. */
    method ReadChunk(bytes: seq<Byte>, crc: bv32, base: nat, done: nat, count: nat) returns (r: bv32)
      requires base + done + count <= window.Length && HEADER_SIZE + done + count <= |bytes|
      requires window[base..base + done] == bytes[HEADER_SIZE..HEADER_SIZE + done]
      requires crc == Crc.Update(Crc.START, bytes[HEADER_SIZE..HEADER_SIZE + done])
      modifies window
      ensures window[base..base + done + count] == bytes[HEADER_SIZE..HEADER_SIZE + done + count]
      ensures forall i :: 0 <= i < window.Length && !(base + done <= i < base + done + count) ==>
                window[i] == old(window[i])
      ensures r == Crc.Update(Crc.START, bytes[HEADER_SIZE..HEADER_SIZE + done + count])
    {
      hide Crc.Update;
      var at, from := base + done, HEADER_SIZE + done;
      forall i | 0 <= i < count {
        window[at + i] := bytes[from + i];
      }
      assert window[base..at] == bytes[HEADER_SIZE..from];
      assert window[at..at + count] == bytes[from..from + count];
      assert window[base..at + count] == window[base..at] + window[at..at + count];
      assert bytes[HEADER_SIZE..from + count] == bytes[HEADER_SIZE..from] + bytes[from..from + count];
      r := Crc.Feed(crc, window, at, count);
      Crc.UpdateAppend(Crc.START, bytes[HEADER_SIZE..from], bytes[from..from + count]);
    }
  }

  // ----- packing and loading

  lemma {:induction false} PositiveDelivers(schedule: Schedule, k: nat, done: nat, size: nat)
    requires done <= size && forall j :: j >= k ==> schedule(j) > 0
    ensures Delivers(schedule, k, done, size)
    decreases size - done
  {
    if done < size {
      PositiveDelivers(schedule, k + 1, done + Min(schedule(k), Min(MAX_READ, size - done)), size);
    }
  }

  /** Reads that offer 64 KiB or more, and then none: they deliver exactly what so many full chunks hold. */
  lemma {:induction false} FullReads(schedule: Schedule, k: nat, n: nat, done: nat, size: nat)
    requires done <= size && (forall j :: k <= j < k + n ==> schedule(j) >= 0x1_0000) && schedule(k + n) <= 0
    ensures Delivers(schedule, k, done, size) <==> size - done <= 0x1_0000 * n
    decreases n
  {
    if done < size && n > 0 {
      FullReads(schedule, k + 1, n - 1, done + Min(schedule(k), Min(MAX_READ, size - done)), size);
    }
  }

  /** The loader reads back the header the packer wrote. */
  lemma HeaderRoundTrip(payload: seq<Byte>, mayReturn: bool)
    requires |payload| < WORD
    ensures ParseHeader(PackHeader(payload, mayReturn))
            == Header(MAGIC, HEADER_SIZE, P2_START, P2_START, |payload|, Crc.Checksum(payload),
                      FLAG_EXECUTABLE + if mayReturn then FLAG_RETURNS else 0)
  {
    hide Crc.Checksum, Encode32, Decode;
    var flags := FLAG_EXECUTABLE + if mayReturn then FLAG_RETURNS else 0;
    Crc.ChecksumBound(payload);
    Encode32RoundTrip(HEADER_SIZE);
    Encode32RoundTrip(P2_START);
    Encode32RoundTrip(|payload|);
    Encode32RoundTrip(Crc.Checksum(payload));
    Encode32RoundTrip(flags);
    SevenFields(MAGIC, Encode32(HEADER_SIZE), Encode32(P2_START), Encode32(P2_START), Encode32(|payload|),
                Encode32(Crc.Checksum(payload)), Encode32(flags));
  }

  /** The fields of a header stand where they were written. */
  lemma SevenFields(m: seq<Byte>, a: seq<Byte>, b: seq<Byte>, c: seq<Byte>, d: seq<Byte>, e: seq<Byte>, f: seq<Byte>)
    requires |m| == 8 && |a| == |b| == |c| == |d| == |e| == |f| == 4
    ensures var bs := m + a + b + c + d + e + f;
            && |bs| == HEADER_SIZE && bs[..8] == m && bs[8..12] == a && bs[12..16] == b && bs[16..20] == c
            && bs[20..24] == d && bs[24..28] == e && bs[28..32] == f
  {
  }

  /** A file is judged by its header and the rest, once the header arrives in one read. */
  lemma VerdictSplits(h: seq<Byte>, rest: seq<Byte>, schedule: Schedule)
    requires |h| == HEADER_SIZE
    ensures Verdict(Some(h + rest), schedule)
            == if schedule(0) >= HEADER_SIZE then Judge(ParseHeader(h), rest, schedule) else BadHeader
  {
    hide ParseHeader, Judge;
    assert (h + rest)[..HEADER_SIZE] == h && (h + rest)[HEADER_SIZE..] == rest;
  }

  lemma JudgePacked(h: Header, payload: seq<Byte>, rest: seq<Byte>, mayReturn: bool, schedule: Schedule)
    requires h == Header(MAGIC, HEADER_SIZE, P2_START, P2_START, |payload|, Crc.Checksum(payload),
                         FLAG_EXECUTABLE + if mayReturn then FLAG_RETURNS else 0)
    requires |rest| == |payload|
    ensures Judge(h, rest, schedule) == Ok
            <==> 1 <= |payload| <= WINDOW && Delivers(schedule, 1, 0, |payload|)
                 && Crc.Checksum(rest) == Crc.Checksum(payload)
  {
    hide Crc.Checksum, Delivers;
  }

  /** A packed file loads exactly when its payload has between 1 byte and the size of the window,
      its header arrives in one read, and no later read fails. */
  lemma PackedLoadsIff(payload: seq<Byte>, mayReturn: bool, schedule: Schedule)
    requires |payload| < WORD
    ensures Verdict(Some(PackHeader(payload, mayReturn) + payload), schedule) == Ok
            <==> 1 <= |payload| <= WINDOW && schedule(0) >= HEADER_SIZE && Delivers(schedule, 1, 0, |payload|)
  {
    hide Crc.Checksum, PackHeader, ParseHeader, Delivers, Judge, Verdict;
    VerdictSplits(PackHeader(payload, mayReturn), payload, schedule);
    HeaderRoundTrip(payload, mayReturn);
    JudgePacked(ParseHeader(PackHeader(payload, mayReturn)), payload, payload, mayReturn, schedule);
  }

  /** The packer refuses exactly: options given in part, an input that reaches into the blob, a blob
      beyond its capacity; and what would not fit the 32-bit size field. */
  lemma PackRefusesIff(input: seq<Byte>, a: Arguments)
    ensures Pack(input, a).UsageError? <==>
            || ((a.blob.Some? || a.offset.Some? || a.capacity.Some?)
                && (a.blob.None? || a.offset.None? || a.capacity.None?))
            || (a.offset.Some? && a.blob.Some? && a.capacity.Some?
                && (|input| > a.offset.value || |a.blob.value| > a.capacity.value))
    ensures Pack(input, a).TooLarge? <==>
            && !Pack(input, a).UsageError?
            && (if a.blob.Some? && a.offset.Some? then a.offset.value + |a.blob.value| else |input|) >= 0x1_0000_0000
  {
    hide PackHeader;
  }

  /** Where things are in a packed file: 32 bytes of header, the input, zeros up to the offset of the
      blob, and the blob; and what the header says, byte by byte. */
  lemma PackedFile(input: seq<Byte>, a: Arguments)
    requires Pack(input, a).Packed?
    ensures var file := Pack(input, a).file;
            && |file| >= 32
            && file[..20] == [69, 88, 87, 80, 65, 89, 49, 0] + [0, 0, 0, 32] + [0xac, 0x80, 0, 0] + [0xac, 0x80, 0, 0]
            && Decode(file[20..24]) == |file| - 32 && Decode(file[24..28]) == Crc.Checksum(file[32..])
            && file[28..32] == [0, 0, 0, if a.mayReturn then 3 else 1]
    ensures a.blob.None? ==> Pack(input, a).file[32..] == input
    ensures a.blob.Some? ==>
              var p, at := Pack(input, a).file[32..], a.offset.value;
              && |input| <= at && |p| == at + |a.blob.value|
              && p[..|input|] == input && p[at..] == a.blob.value
              && forall i :: |input| <= i < at ==> p[i] == 0
  {
    hide Crc.Checksum, PackHeader, Decode, Encode32;
    var payload := Padded(input, a).value;
    var file := Pack(input, a).file;
    HeaderBytes(payload, a.mayReturn);
    assert file[..32] == PackHeader(payload, a.mayReturn) && file[32..] == payload;
    assert file[..20] == file[..32][..20] && file[20..24] == file[..32][20..24];
    assert file[24..28] == file[..32][24..28] && file[28..32] == file[..32][28..32];
  }

  lemma HeaderBytes(payload: seq<Byte>, mayReturn: bool)
    requires |payload| < WORD
    ensures var h := PackHeader(payload, mayReturn);
            && h[..20] == [69, 88, 87, 80, 65, 89, 49, 0] + [0, 0, 0, 32] + [0xac, 0x80, 0, 0] + [0xac, 0x80, 0, 0]
            && Decode(h[20..24]) == |payload| && Decode(h[24..28]) == Crc.Checksum(payload)
            && h[28..32] == [0, 0, 0, if mayReturn then 3 else 1]
  {
    hide Crc.Checksum, Decode;
    Crc.ChecksumBound(payload);
    Encode32RoundTrip(|payload|);
    Encode32RoundTrip(Crc.Checksum(payload));
    assert Encode32(32) == [0, 0, 0, 32] && Encode32(P2_START) == [0xac, 0x80, 0, 0];
    assert Encode32(3) == [0, 0, 0, 3] && Encode32(1) == [0, 0, 0, 1];
    hide Encode32;
    SevenFields(MAGIC, Encode32(HEADER_SIZE), Encode32(P2_START), Encode32(P2_START), Encode32(|payload|),
                Encode32(Crc.Checksum(payload)), Encode32(FLAG_EXECUTABLE + if mayReturn then FLAG_RETURNS else 0));
  }

  /** The header of a file, byte by byte. */
  lemma FileHeader(file: seq<Byte>)
    requires |file| >= 32
    ensures var h := ParseHeader(file[..32]);
            && (GoodHeader(h) <==> GoodStart(file))
            && h.loadAddress == Decode(file[12..16]) && h.entryAddress == Decode(file[16..20])
            && h.payloadSize == Decode(file[20..24]) && h.payloadCrc == Decode(file[24..28])
  {
    hide Decode;
    var h := file[..32];
    assert h[..8] == file[..8] && h[8..12] == file[8..12] && h[12..16] == file[12..16] && h[16..20] == file[16..20];
    assert h[20..24] == file[20..24] && h[24..28] == file[24..28] && h[28..32] == file[28..32];
    assert file[..12] == file[..8] + file[8..12];
    SizeField(file[8..12]);
    FlagsOdd(file[28..32]);
  }

  /** The file begins with its magic, "EXWPAY1", a size of 32, and its flags are odd. */
  predicate GoodStart(file: seq<Byte>)
    requires |file| >= 32
  {
    file[..12] == [69, 88, 87, 80, 65, 89, 49, 0, 0, 0, 0, 32] && file[31] as int % 2 == 1
  }

  /** What a file must be like to be loaded. */
  lemma LoadsIff(file: seq<Byte>, schedule: Schedule)
    ensures Verdict(Some(file), schedule) == Ok <==>
            && |file| > 32 && schedule(0) >= 32 && Delivers(schedule, 1, 0, |file| - 32) && GoodStart(file)
            && GoodPlace(file) && Decode(file[20..24]) == |file| - 32
            && Decode(file[24..28]) == Crc.Checksum(file[32..])
  {
    hide Crc.Checksum, Delivers, Decode, ParseHeader, GoodHeader, GoodStart;
    if |file| >= 32 {
      FileHeader(file);
    }
  }

  lemma SizeField(bs: seq<Byte>)
    requires |bs| == 4
    ensures Decode(bs) == 32 <==> bs == [0, 0, 0, 32]
  {
    hide Decode;
    Decode4(bs);
  }

  lemma FlagsOdd(bs: seq<Byte>)
    requires |bs| == 4
    ensures Decode(bs) % 2 == 1 <==> bs[3] as int % 2 == 1
  {
    hide Decode;
    Decode4(bs);
  }

  /** The place that the header names lies in the eight megabytes from 0xac80_0000 on, and the entry
      in the place. */
  predicate GoodPlace(file: seq<Byte>)
    requires |file| >= 32
  {
    var load, entry, size := Decode(file[12..16]), Decode(file[16..20]), Decode(file[20..24]);
    0xac80_0000 <= load < load + size <= 0xad00_0000 && load <= entry < load + size
  }

  /** Why a file is not loaded: the first that applies of no file, header, range, size, a failed
      read, and checksum. */
  lemma RefusedFor(file: seq<Byte>, schedule: Schedule)
    ensures Verdict(None, schedule) == NotFound && Verdict(Some(file), schedule) != NotFound
    ensures var good := |file| >= 32 && schedule(0) >= 32 && GoodStart(file);
            && (Verdict(Some(file), schedule) == BadHeader <==> !good)
            && (Verdict(Some(file), schedule) == BadRange <==> good && !GoodPlace(file))
            && (Verdict(Some(file), schedule) == BadSize <==>
                  good && GoodPlace(file) && |file| != 32 + Decode(file[20..24]))
            && (Verdict(Some(file), schedule) == ReadError <==>
                  && good && GoodPlace(file) && |file| == 32 + Decode(file[20..24])
                  && !Delivers(schedule, 1, 0, |file| - 32))
            && (Verdict(Some(file), schedule) == BadCrc <==>
                  && good && GoodPlace(file) && |file| == 32 + Decode(file[20..24])
                  && Delivers(schedule, 1, 0, |file| - 32) && Decode(file[24..28]) != Crc.Checksum(file[32..]))
  {
    hide Crc.Checksum, Delivers, Decode, ParseHeader, GoodHeader, GoodStart;
    if |file| >= 32 {
      FileHeader(file);
    }
  }

  /** Whatever the packer accepts within the window loads under every schedule of positive reads
      whose first one covers the header. */
  lemma PackThenLoad(input: seq<Byte>, a: Arguments, schedule: Schedule)
    requires Padded(input, a).Some? && 1 <= |Padded(input, a).value| <= WINDOW
    requires schedule(0) >= HEADER_SIZE && forall k :: k >= 1 ==> schedule(k) > 0
    ensures Pack(input, a).Packed? && Verdict(Some(Pack(input, a).file), schedule) == Ok
    ensures Pack(input, a).file[HEADER_SIZE..] == Padded(input, a).value
    ensures input <= Padded(input, a).value
  {
    hide Crc.Checksum, PackHeader, Verdict;
    var payload := Padded(input, a).value;
    PositiveDelivers(schedule, 1, 0, |payload|);
    PackedLoadsIff(payload, a.mayReturn, schedule);
  }

  /** A packed file damaged only inside one window of up to four payload bytes is never accepted. */
  lemma DamageIsRejected(
    prefix: seq<Byte>, original: seq<Byte>, damaged: seq<Byte>, suffix: seq<Byte>, mayReturn: bool, schedule: Schedule)
    requires |original| == |damaged| <= 4 && original != damaged
    requires |prefix + original + suffix| < WORD
    ensures var file := PackHeader(prefix + original + suffix, mayReturn) + (prefix + damaged + suffix);
            Verdict(Some(file), schedule) != Ok
  {
    hide Crc.Checksum, PackHeader, ParseHeader, Judge, Verdict;
    var payload := prefix + original + suffix;
    VerdictSplits(PackHeader(payload, mayReturn), prefix + damaged + suffix, schedule);
    HeaderRoundTrip(payload, mayReturn);
    Crc.BurstIsDetected(prefix, original, damaged, suffix);
    JudgePacked(ParseHeader(PackHeader(payload, mayReturn)), payload, prefix + damaged + suffix, mayReturn, schedule);
  }
}
