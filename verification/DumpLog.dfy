/** st_create_log_dump: header, optional state and the newest log lines, as bytes or as base64
    text produced in a stream that carries up to two bytes from one call to the next. */
module DumpLog {
  import opened Bytes
  import opened Base64
  import opened Base64Codec
  import opened Ring
  import opened FlashLayout
  import opened LogFile
  import Arithmetic

  const LINE_LENGTH: int := 16
  const BUFFER_SIZE: int := 48
  const HEADER_LENGTH: int := 16
  const MAGIC_NUMBER: int := 0x57D1C109

  datatype Result = Ok | BadRequest | EncodeFailed

  /** GET_LARGEST_MULTIPLE. */
  function LargestMultiple(x: nat, n: nat): (m: nat)
    requires n > 0
    ensures m <= x < m + n && m % n == 0
  {
    Arithmetic.ExactMultiple(x / n, n);
    x / n * n
  }

  /** The bytes of all up to the last whole group of three, and the rest. */
  function Whole(all: seq<byte>): (w: seq<byte>)
    ensures |w| % 3 == 0 && |w| + |all| % 3 == |all|
  {
    all[..|all| - |all| % 3]
  }

  function Carry(all: seq<byte>): (c: seq<byte>)
    ensures |c| == |all| % 3
  {
    all[|all| - |all| % 3..]
  }

  /** Groups carried over and groups read are the groups of the whole. */
  lemma StreamedGroups(c: seq<byte>, more: seq<byte>)
    ensures var all := Carry(c) + more;
            && Encode(Whole(c + more)) == Encode(Whole(c)) + Encode(Whole(all))
            && Carry(c + more) == Carry(all)
            && |c + more| / 3 == |c| / 3 + |all| / 3
            && |all| % 3 == |c + more| % 3
  {
    hide Encode;
    var all := Carry(c) + more;
    assert c == Whole(c) + Carry(c);
    assert c + more == Whole(c) + all;
    assert |Whole(c)| == |c| / 3 * 3;
    assert |c + more| == |c| / 3 * 3 + |all|;
    assert Whole(c + more) == Whole(c) + Whole(all);
    EncodeSplits(Whole(c), Whole(all));
  }

  lemma WholeText(all: seq<byte>)
    ensures |Encode(Whole(all))| == |all| / 3 * 4
    ensures |all| < 3 ==> Whole(all) == []
  {
    EncodeLength(Whole(all));
  }

  /** _iot_dump_copy_memory into dest[at..at + destSize], carrying remain bytes in buf. A source
      longer than the destination is cut. Overlapping copies take the source as it was before. */
  method CopyMemory(dest: array<byte>, at: nat, destSize: int, source: seq<byte>, buf: array<byte>,
                    remain: nat, needBase64: bool)
    returns (err: Result, written: nat, remain': nat)
    requires dest != buf && buf.Length == BUFFER_SIZE && remain < 3
    requires destSize > 0 ==> at + destSize <= dest.Length && destSize <= SIZE_T_MAX
    requires needBase64 && remain > 0 ==> Min(|source|, destSize) >= 3 - remain
    modifies dest, buf
    ensures err == BadRequest <==> destSize <= 0 || |source| == 0
    ensures !needBase64 && err != BadRequest ==>
              && err == Ok && written == Min(|source|, destSize) && remain' == remain
              && dest[..] == Patch(old(dest[..]), at, source[..written]) && buf[..] == old(buf[..])
    ensures needBase64 && err != BadRequest ==>
              var all := old(buf[..remain]) + source[..Min(|source|, destSize)];
              && (err == Ok <==> |all| < 3 || |all| / 3 * 4 + 1 <= destSize)
              && (err == Ok ==>
                    && written == |Encode(Whole(all))| == |all| / 3 * 4 && remain' == |all| % 3
                    && buf[..remain'] == Carry(all)
                    && dest[..] == if |all| < 3 then old(dest[..])
                                   else Patch(old(dest[..]), at, Encode(Whole(all)) + [0]))
  {
    hide Encode, Patch, Carry, Whole;
    written, remain' := 0, remain;
    if destSize <= 0 || |source| == 0 {
      return BadRequest, written, remain';
    }
    var src := if |source| > destSize then source[..destSize] else source;
    assert src == source[..Min(|source|, destSize)];
    if !needBase64 {
      forall i | 0 <= i < |src| {
        dest[at + i] := src[i];
      }
      PatchForall(old(dest[..]), at, src, dest[..]);
      return Ok, |src|, remain;
    }
    err, written, remain' := CopyBase64(dest, at, destSize, src, buf, remain);
  }

  lemma PatchForall(f: seq<byte>, at: nat, data: seq<byte>, r: seq<byte>)
    requires at + |data| <= |f| == |r|
    requires forall i :: 0 <= i < |f| ==> r[i] == if at <= i < at + |data| then data[i - at] else f[i]
    ensures r == Patch(f, at, data)
  {
  }

  /** The carried bytes are completed to a group and encoded. */
  method CompleteGroup(dest: array<byte>, at: nat, destSize: nat, src: seq<byte>, buf: array<byte>, remain: nat)
    returns (ok: bool)
    requires dest != buf && buf.Length == BUFFER_SIZE && 0 < remain < 3 && 3 - remain <= |src|
    requires at + destSize <= dest.Length && destSize <= SIZE_T_MAX
    modifies dest, buf
    ensures var group := old(buf[..remain]) + src[..3 - remain];
            && |Encode(group)| == 4
            && (ok <==> 5 <= destSize)
            && (ok ==> dest[..] == Patch(old(dest[..]), at, Encode(group) + [0]))
  {
    hide Encode, Patch;
    ghost var group := buf[..remain] + src[..3 - remain];
    EncodeLength(group);
    forall i | 0 <= i < 3 - remain {
      buf[remain + i] := src[i];
    }
    assert buf[..3] == group;
    var e, n := SecurityEncode(buf[..3], dest, at, destSize);
    if e != NoError {
      return false;
    }
    forall i | 0 <= i < 3 {
      buf[i] := 0;
    }
    ok := true;
  }

  /** The base64 branch: first the carried bytes completed to a group, then whole groups, then
      the new carry. */
  method CopyBase64(dest: array<byte>, at: nat, destSize: nat, src: seq<byte>, buf: array<byte>, remain: nat)
    returns (err: Result, written: nat, remain': nat)
    requires dest != buf && buf.Length == BUFFER_SIZE && remain < 3 && |src| <= destSize <= SIZE_T_MAX
    requires at + destSize <= dest.Length
    requires remain > 0 ==> |src| >= 3 - remain
    modifies dest, buf
    ensures err != BadRequest
    ensures var all := old(buf[..remain]) + src;
            && (err == Ok <==> |all| < 3 || |all| / 3 * 4 + 1 <= destSize)
            && (err == Ok ==>
                  && written == |Encode(Whole(all))| == |all| / 3 * 4 && remain' == |all| % 3
                  && buf[..remain'] == Carry(all)
                  && dest[..] == if |all| < 3 then old(dest[..])
                                 else Patch(old(dest[..]), at, Encode(Whole(all)) + [0]))
  {
    hide Encode, Patch, Carry, Whole;
    ghost var f, all := dest[..], buf[..remain] + src;
    WholeText(all);
    var preOut, preCopy: nat := 0, 0;
    written, remain' := 0, remain;
    if remain > 0 {
      preCopy := 3 - remain;
      assert all[..3] == buf[..remain] + src[..3 - remain];
      var ok := CompleteGroup(dest, at, destSize, src, buf, remain);
      if !ok {
        return EncodeFailed, written, remain';
      }
      preOut, written := 4, 4;
    }
    remain' := (|src| - preCopy) % 3;
    var mainCopy := LargestMultiple(|src| - preCopy, 3);
    assert all[remain..] == src;
    SplitGroups(all, remain, preCopy, mainCopy, src);
    if mainCopy > 0 {
      var e, mainOut := SecurityEncode(src[preCopy..preCopy + mainCopy], dest, at + preOut, destSize - preOut);
      if e != NoError {
        return EncodeFailed, written, remain';
      }
      if remain > 0 {
        PatchExtends(f, at, Encode(all[..3]), Encode(src[preCopy..preCopy + mainCopy]));
      }
      written := preOut + mainOut;
    } else {
      written := preOut;
    }
    assert |all| >= 3 ==> dest[..] == Patch(f, at, Encode(Whole(all)) + [0]);
    KeepCarry(buf, src, preCopy + mainCopy, remain');
    err := Ok;
  }

  /** The unconverted bytes go to the front of the carry buffer. */
  method KeepCarry(buf: array<byte>, src: seq<byte>, from: nat, remain: nat)
    requires from + remain == |src| && remain < 3 <= buf.Length
    modifies buf
    ensures buf[..remain] == src[from..]
  {
    forall i | 0 <= i < remain {
      buf[i] := src[from + i];
    }
  }

  /** A second text written over the first one's terminating zero. */
  lemma PatchExtends(f: seq<byte>, at: nat, s: seq<byte>, t: seq<byte>)
    requires at + |s| + |t| < |f|
    ensures Patch(Patch(f, at, s + [0]), at + |s|, t + [0]) == Patch(f, at, s + t + [0])
  {
  }

  lemma SplitGroups(all: seq<byte>, remain: nat, preCopy: nat, mainCopy: nat, src: seq<byte>)
    requires remain < 3 && |all| == remain + |src| && all[remain..] == src
    requires preCopy == (if remain > 0 then 3 - remain else 0) <= |src|
    requires mainCopy <= |src| - preCopy < mainCopy + 3 && mainCopy % 3 == 0
    ensures var main := src[preCopy..preCopy + mainCopy];
            && |all| % 3 == (|src| - preCopy) % 3
            && |all| / 3 * 4 == (if remain > 0 then 4 else 0) + EncodedLen(mainCopy)
            && Whole(all) == (if remain > 0 then all[..3] else []) + main
            && Encode(Whole(all)) == (if remain > 0 then Encode(all[..3]) + Encode(main) else Encode(main))
            && (remain > 0 ==> |Encode(all[..3])| == 4)
            && (mainCopy == 0 ==> Encode(main) == [] && main == [])
            && Carry(all) == src[preCopy + mainCopy..]
  {
    hide Encode, EncodedLen;
    var main := src[preCopy..preCopy + mainCopy];
    EmptyEncodes();
    SplitLengths(remain, |src|, preCopy, mainCopy);
    assert all[..|all| - |all| % 3] == (if remain > 0 then all[..3] else []) + main;
    if remain > 0 {
      EncodeSplits(all[..3], main);
      EncodeLength(all[..3]);
    } else {
      assert Whole(all) == main;
    }
  }

  lemma SplitLengths(remain: nat, n: nat, preCopy: nat, mainCopy: nat)
    requires remain < 3 && preCopy == (if remain > 0 then 3 - remain else 0) <= n
    requires mainCopy <= n - preCopy < mainCopy + 3 && mainCopy % 3 == 0
    ensures (remain + n) % 3 == (n - preCopy) % 3
    ensures remain + n - (remain + n) % 3 == remain + preCopy + mainCopy
    ensures (remain + n) / 3 * 4 == (if remain > 0 then 4 else 0) + EncodedLen(mainCopy)
    ensures EncodedLen(3) == 4
  {
  }

  lemma EmptyEncodes()
    ensures Encode([]) == []
  {
  }

  // ----- the dump being built -----

  function Zeros(n: nat): (z: seq<byte>)
    ensures |z| == n
  {
    seq(n, i => 0)
  }

  /** out holds what is due for the bytes c so far, up to index curr. */
  ghost predicate Dumping(need64: bool, out: seq<byte>, c: seq<byte>, curr: nat) {
    if need64 then
      && curr == |Encode(Whole(c))| == |c| / 3 * 4 < |out|
      && out == Patch(Zeros(|out|), 0, Encode(Whole(c)) + [0])
    else
      && curr == |c| <= |out|
      && out == Patch(Zeros(|out|), 0, c)
  }

  lemma DumpStarts(need64: bool, out: seq<byte>)
    requires out == Zeros(|out|) && |out| > 0
    ensures Dumping(need64, out, [], 0)
  {
    EmptyEncodes();
    assert Whole([]) == [] && [] + [0] == [0];
  }

  /** Bytes added by one call, whether the carry was in buf or in front of the source. */
  lemma DumpGoesOn64(before: seq<byte>, after: seq<byte>, c: seq<byte>, curr: nat, more: seq<byte>)
    requires Dumping(true, before, c, curr) && |before| == |after|
    requires var all := Carry(c) + more;
             && |Encode(Whole(all))| == |all| / 3 * 4
             && (|all| >= 3 ==> curr + |all| / 3 * 4 + 1 <= |before|)
             && after == if |all| < 3 then before else Patch(before, curr, Encode(Whole(all)) + [0])
    ensures var all := Carry(c) + more;
            && Dumping(true, after, c + more, curr + |all| / 3 * 4)
            && Carry(all) == Carry(c + more)
  {
    hide Encode, Carry, Whole, Patch;
    var all := Carry(c) + more;
    StreamedGroups(c, more);
    if |all| >= 3 {
      PatchExtends(Zeros(|before|), 0, Encode(Whole(c)), Encode(Whole(all)));
    } else {
      WholeText(all);
      EmptyEncodes();
      assert Encode(Whole(c)) + [] == Encode(Whole(c));
    }
  }

  lemma DumpGoesOnRaw(before: seq<byte>, after: seq<byte>, c: seq<byte>, more: seq<byte>)
    requires Dumping(false, before, c, |c|) && |c| + |more| <= |before|
    requires after == Patch(before, |c|, more)
    ensures Dumping(false, after, c + more, |c| + |more|)
  {
    PatchTwice(Zeros(|before|), 0, c, more);
  }

  /** One call of _iot_dump_copy_memory in the course of a dump. */
  method Feed(out: array<byte>, curr: nat, source: seq<byte>, buf: array<byte>, remain: nat, need64: bool,
              ghost c: seq<byte>, ghost more: seq<byte>)
    returns (err: Result, curr': nat, remain': nat)
    requires out != buf && buf.Length == BUFFER_SIZE && remain < 3 && out.Length <= SIZE_T_MAX
    requires Dumping(need64, out[..], c, curr) && source != [] && |source| <= out.Length - curr
    requires need64 ==>
               && buf[..remain] + source == Carry(c) + more
               && |c + more| / 3 * 4 + 1 <= out.Length && (remain > 0 ==> |source| >= 3 - remain)
    requires !need64 ==> remain == 0 && source == more
    modifies out, buf
    ensures err == Ok && Dumping(need64, out[..], c + more, curr')
    ensures need64 ==> remain' == |c + more| % 3 && buf[..remain'] == Carry(c + more)
    ensures !need64 ==> remain' == 0
  {
    hide Encode, Carry, Whole, Patch, Dumping;
    ghost var before := out[..];
    DumpingFacts(need64, before, c, curr);
    StreamedGroups(c, more);
    assert source[..|source|] == source;
    var written;
    err, written, remain' := CopyMemory(out, curr, out.Length - curr, source, buf, remain, need64);
    curr' := curr + written;
    if need64 {
      DumpGoesOn64(before, out[..], c, curr, more);
    } else {
      DumpGoesOnRaw(before, out[..], c, more);
    }
  }

  lemma DumpingFacts(need64: bool, out: seq<byte>, c: seq<byte>, curr: nat)
    requires Dumping(need64, out, c, curr)
    ensures curr == (if need64 then |c| / 3 * 4 else |c|) <= |out|
  {
  }

  // ----- the log lines -----

  /** The reader at offset pos delivers what follows the first done bytes read from offset off. */
  ghost predicate GoneOn(file: seq<byte>, pos: nat, off: nat, done: nat)
    requires |file| > 0 && off <= |file| && pos <= |file|
  {
    forall k: nat :: Stream(file, pos, k) == Stream(file, After(file, off, done), k)
  }

  lemma GoesOn(file: seq<byte>, pos: nat, off: nat, done: nat, n: nat)
    requires |file| > 0 && off <= |file| && pos <= |file| && GoneOn(file, pos, off, done)
    ensures var d := Delivered(file, n);
            && DeliveredData(file, pos, n) == Stream(file, After(file, off, done), d)
            && Stream(file, off, done + d) == Stream(file, off, done) + DeliveredData(file, pos, n)
            && GoneOn(file, NextOffset(file, pos, n), off, done + d)
  {
    hide Stream, After;
    var d, o := Delivered(file, n), After(file, off, done);
    StreamSplits(file, off, done, d);
    forall k: nat
      ensures Stream(file, NextOffset(file, pos, n), k) == Stream(file, After(file, off, done + d), k)
    {
      ReaderGoesOn(file, pos, n, k);
      StreamSplits(file, pos, d, k);
      StreamSplits(file, o, d, k);
      assert Stream(file, pos, d + k) == Stream(file, o, d + k);
      assert Stream(file, pos, d + k)[d..] == Stream(file, o, d + k)[d..];
    }
  }

  /** The handle stands where done bytes have been read of file from offset off. */
  ghost predicate Position(log: Log, h: Handle, file: seq<byte>, off: nat, done: nat)
    reads log, log.buf, log.flash, h
  {
    && log.Reading(h) && log.View() == file && |file| > 0 && off <= |file|
    && h.startAddr <= h.curAddr <= h.startAddr + |file|
    && h.startAddr + |file| + BUFFER_SIZE < TWO_TO_THE_32
    && GoneOn(file, h.curAddr - h.startAddr, off, done)
  }

  /** The next n bytes go behind the carry in temp_buf. */
  method ReadChunk(log: Log, h: Handle, buf: array<byte>, remain: nat, n: nat,
                   ghost file: seq<byte>, ghost off: nat, ghost done: nat)
    returns (readSize: nat, ghost data: seq<byte>)
    requires Position(log, h, file, off, done) && n <= |file|
    requires buf.Length == BUFFER_SIZE && remain + n <= BUFFER_SIZE && buf !in {log.buf, log.flash}
    modifies buf, h`curAddr
    ensures readSize == n == |data| && Position(log, h, file, off, done + n)
    ensures buf[..remain + n] == old(buf[..remain]) + data
    ensures Stream(file, off, done + n) == Stream(file, off, done) + data
  {
    hide Stream, After, GoneOn, DeliveredData, Delivered, NextOffset, Patch;
    ghost var b, pos := buf[..], h.curAddr - h.startAddr;
    DeliveredAll(file, n);
    GoesOn(file, pos, off, done, n);
    data := DeliveredData(file, pos, n);
    readSize := log.Read(h, buf, remain, n);
    ChunkInBuffer(b, remain, data, buf[..]);
  }

  /** The bytes c are dumped, and temp_buf carries what they leave. */
  ghost predicate Carried(need64: bool, out: seq<byte>, buf: seq<byte>, remain: nat, c: seq<byte>, curr: nat) {
    && Dumping(need64, out, c, curr) && remain < 3 <= |buf|
    && if need64 then remain == |c| % 3 && buf[..remain] == Carry(c) else remain == 0
  }

  /** Room for a payload of n bytes. */
  predicate Fits(need64: bool, n: nat, size: nat) {
    if need64 then EncodedLen(n) + 1 <= size else n <= size
  }

  /** One turn of the read loop. */
  method DumpChunk(log: Log, h: Handle, out: array<byte>, curr: nat, buf: array<byte>, remain: nat, need64: bool,
                   left: nat, ghost file: seq<byte>, ghost off: nat, ghost done: nat, ghost c: seq<byte>)
    returns (curr': nat, remain': nat, n: nat)
    requires |file| > 0 && off <= |file| && Position(log, h, file, off, done) && 0 < left <= |file|
    requires out != buf && buf.Length == BUFFER_SIZE && out.Length <= SIZE_T_MAX
    requires {log.buf, log.flash} !! {out, buf}
    requires Carried(need64, out[..], buf[..], remain, c + Stream(file, off, done), curr)
    requires Fits(need64, |c| + done + left, out.Length)
    modifies out, buf, h`curAddr
    ensures 0 < n <= left && Position(log, h, file, off, done + n)
    ensures Carried(need64, out[..], buf[..], remain', c + Stream(file, off, done + n), curr')
  {
    hide Dumping, Carry, Encode, Stream, Position, Fits;
    ghost var now := c + Stream(file, off, done);
    var msgSize := BUFFER_SIZE - remain;
    if msgSize > left {
      msgSize := left;
    }
    ghost var data;
    n, data := ReadChunk(log, h, buf, remain, msgSize, file, off, done);
    assert c + Stream(file, off, done + n) == now + data;
    assert need64 || buf[..n] == [] + data;
    curr', remain' := FeedChunk(out, curr, buf, remain + n, need64, now, data, |c| + done + left);
  }

  /** Dump the carry and what was read behind it. */
  method FeedChunk(out: array<byte>, curr: nat, buf: array<byte>, len: nat, need64: bool,
                   ghost now: seq<byte>, ghost data: seq<byte>, ghost total: nat)
    returns (curr': nat, remain': nat)
    requires out != buf && buf.Length == BUFFER_SIZE && out.Length <= SIZE_T_MAX && 0 < len <= BUFFER_SIZE
    requires Dumping(need64, out[..], now, curr) && buf[..len] == (if need64 then Carry(now) else []) + data
    requires Fits(need64, total, out.Length) && |now| + |data| <= total
    modifies out, buf
    ensures Carried(need64, out[..], buf[..], remain', now + data, curr')
  {
    hide Dumping, Carry, Encode;
    DumpingFacts(need64, out[..], now, curr);
    if need64 {
      assert [] + buf[..len] == Carry(now) + data;
      RoomForGroups(total, |now|, |data|, out.Length);
    } else {
      assert buf[..0] + data == data;
    }
    var err;
    err, curr', remain' := Feed(out, curr, buf[..len], buf, 0, need64, now, data);
  }

  /** The read loop: m bytes from where the handle stands, in chunks that share temp_buf with
      the carry. */
  method DumpLines(log: Log, h: Handle, out: array<byte>, curr0: nat, buf: array<byte>, remain0: nat, need64: bool,
                   m: nat, ghost file: seq<byte>, ghost off: nat, ghost c: seq<byte>)
    returns (curr: nat, remain: nat)
    requires |file| > 0 && off <= |file| && Position(log, h, file, off, 0) && m <= |file|
    requires out != buf && buf.Length == BUFFER_SIZE && out.Length <= SIZE_T_MAX
    requires {log.buf, log.flash} !! {out, buf}
    requires Carried(need64, out[..], buf[..], remain0, c, curr0) && Fits(need64, |c| + m, out.Length)
    modifies out, buf, h`curAddr
    ensures Position(log, h, file, off, m)
    ensures Carried(need64, out[..], buf[..], remain, c + Stream(file, off, m), curr)
  {
    hide Carried, Stream, Position;
    var left: nat := m;
    curr, remain := curr0, remain0;
    assert c + Stream(file, off, 0) == c by {
      NothingRead(file, off);
    }
    while left > 0
      invariant left <= m && Position(log, h, file, off, m - left)
      invariant Carried(need64, out[..], buf[..], remain, c + Stream(file, off, m - left), curr)
    {
      var n;
      curr, remain, n := DumpChunk(log, h, out, curr, buf, remain, need64, left, file, off, m - left, c);
      left := left - n;
    }
  }

  lemma NothingRead(file: seq<byte>, off: nat)
    requires |file| > 0 && off <= |file|
    ensures GoneOn(file, off, off, 0) && Stream(file, off, 0) == []
  {
  }

  lemma DeliveredAll(file: seq<byte>, n: nat)
    requires n <= |file|
    ensures Delivered(file, n) == n
  {
  }

  lemma ChunkInBuffer(b: seq<byte>, remain: nat, data: seq<byte>, after: seq<byte>)
    requires remain + |data| <= |b| && after == Patch(b, remain, data)
    ensures after[..remain + |data|] == b[..remain] + data
  {
  }

  lemma RoomForGroups(total: nat, now: nat, n: nat, size: nat)
    requires now + n <= total && EncodedLen(total) + 1 <= size
    ensures (now + n) / 3 * 4 + 1 <= size && now % 3 + n <= size - now / 3 * 4
  {
    assert (now + n) / 3 <= (total + 2) / 3;
  }

  // ----- st_create_log_dump -----

  /** struct iot_dump_header: magic number, version 0, size of the state record, padding. */
  function DumpHeader(stateSize: uint32): (s: seq<byte>)
    ensures |s| == HEADER_LENGTH
  {
    Le32(MAGIC_NUMBER) + Le32(0) + Le32(stateSize) + Le32(0)
  }

  /** The header and, if asked for, the state record. */
  function Head(state: seq<byte>, needState: bool): (s: seq<byte>)
    requires |state| < TWO_TO_THE_32
  {
    if needState then DumpHeader(|state|) + state else DumpHeader(0)
  }

  /** What the output of n payload bytes occupies. */
  function OutputSize(need64: bool, n: nat): nat {
    if need64 then EncodedLen(n) + 1 else n
  }

  /** How many bytes of whole log lines go into a dump. */
  function MessageSize(need64: bool, max: nat, head: nat, stored: nat): (m: nat)
    requires OutputSize(need64, head) <= max
    ensures m <= stored && m % LINE_LENGTH == 0
  {
    var room := if need64 then (max - 1) / 4 * 3 - head else max - head;
    LargestMultiple(Min(room, stored), LINE_LENGTH)
  }

  /** The output never exceeds the caller's limit, and one more line would not fit or not exist. */
  lemma MessageFits(need64: bool, max: nat, head: nat, stored: nat)
    requires OutputSize(need64, head) <= max
    ensures var m := MessageSize(need64, max, head, stored);
            && OutputSize(need64, head + m) <= max
            && (m + LINE_LENGTH > stored || OutputSize(need64, head + m + LINE_LENGTH) > max)
  {
    var m := MessageSize(need64, max, head, stored);
    if need64 {
      assert (head + m + 2) / 3 <= (max - 1) / 4;
      assert m + LINE_LENGTH <= stored ==> (head + m + LINE_LENGTH + 2) / 3 > (max - 1) / 4;
    }
  }

  /** The log bytes a dump reads: m bytes from the seek target on. */
  ghost function DumpedLines(file: seq<byte>, tail: int, m: nat): (s: seq<byte>)
    requires m <= |file|
    ensures |s| == m
  {
    if m == 0 then [] else Stream(file, SeekOffset(tail, -(m as int), |file|), m)
  }

  /** The final bytes of a payload that leaves remain bytes over: padding to a group follows. */
  ghost predicate DumpText(need64: bool, out: seq<byte>, payload: seq<byte>) {
    if need64 then
      exists pad: seq<byte> :: |pad| == (3 - |payload| % 3) % 3 && out == Encode(payload + pad) + [0]
    else out == payload
  }

  /** The text of a base64 dump decodes to the payload and at most two bytes more. */
  lemma DumpDecodes(out: seq<byte>, payload: seq<byte>)
    requires DumpText(true, out, payload)
    ensures |out| == EncodedLen(|payload|) + 1 && out[|out| - 1] == 0
    ensures var d := Decode(out[..|out| - 1]);
            d.Some? && payload <= d.value && |d.value| <= |payload| + 2
  {
    hide Encode, Decode, Symbols, DecodedLen;
    var pad: seq<byte> :| |pad| == (3 - |payload| % 3) % 3 && out == Encode(payload + pad) + [0];
    var all := payload + pad;
    assert out[..|out| - 1] == Encode(all);
    PaddedLength(payload, pad);
    RoundTrip(all);
  }

  lemma PaddedLength(payload: seq<byte>, pad: seq<byte>)
    requires |pad| == (3 - |payload| % 3) % 3
    ensures |Encode(payload + pad)| == EncodedLen(|payload|)
  {
    hide Encode;
    EncodeLength(payload + pad);
    PaddedGroups(|payload|, |pad|);
  }

  lemma PaddedGroups(n: nat, p: nat)
    requires p == (3 - n % 3) % 3
    ensures EncodedLen(n + p) == EncodedLen(n)
  {
    assert n == n / 3 * 3 + n % 3;
  }

  /** A finished dump of the given head and log file, within the caller's limit. */
  ghost predicate Finished(need64: bool, out: seq<byte>, max: nat, head: seq<byte>, file: seq<byte>, tail: int)
    requires OutputSize(need64, |head|) <= max
  {
    var m := MessageSize(need64, max, |head|, |file|);
    && |out| == OutputSize(need64, |head| + m) <= max
    && DumpText(need64, out, head + DumpedLines(file, tail, m))
  }

  /** A dump's bytes one by one: magic number, version, size of the state record, padding, then the
      record if it was asked for, and the log lines. */
  ghost predicate Laid(p: seq<byte>, state: seq<byte>, needState: bool, lines: seq<byte>) {
    var size := if needState then |state| else 0;
    && |p| == 16 + size + |lines|
    && p[0] == 0x09 && p[1] == 0xC1 && p[2] == 0xD1 && p[3] == 0x57
    && p[4] == p[5] == p[6] == p[7] == 0
    && p[8] as int + 256 * p[9] as int + 65536 * p[10] as int + 16777216 * p[11] as int == size
    && p[12] == p[13] == p[14] == p[15] == 0
    && p[16..16 + size] == state[..size]
    && p[16 + size..] == lines
  }

  /** A whole dump: its bytes, or a text that decodes to them and at most two bytes more, before a NUL.
      The lines are whole, within the limit, and one more would not fit or not exist. */
  ghost predicate DumpOf(need64: bool, out: seq<byte>, max: nat, state: seq<byte>, needState: bool,
                          file: seq<byte>, lines: seq<byte>) {
    var n := 16 + (if needState then |state| else 0) + |lines|;
    && |lines| % 16 == 0
    && |out| == (if need64 then (n + 2) / 3 * 4 + 1 else n) <= max
    && (|lines| + 16 > |file| || (if need64 then (n + 18) / 3 * 4 + 1 else n + 16) > max)
    && if need64 then
         && out[|out| - 1] == 0
         && Decode(out[..|out| - 1]).Some?
         && var d := Decode(out[..|out| - 1]).value;
            n <= |d| <= n + 2 && Laid(d[..n], state, needState, lines)
       else Laid(out, state, needState, lines)
  }

  lemma HeaderBytes(size: uint32)
    ensures var h := DumpHeader(size);
            && h[..4] == [0x09, 0xC1, 0xD1, 0x57]
            && h[4..8] == [0, 0, 0, 0] && h[8..12] == Le32(size) && h[12..] == [0, 0, 0, 0]
  {
    assert Le32(MAGIC_NUMBER) == [0x09, 0xC1, 0xD1, 0x57] && Le32(0) == [0, 0, 0, 0];
  }

  lemma HeaderLaid(size: uint32)
    ensures var h := DumpHeader(size);
            && h[0] == 0x09 && h[1] == 0xC1 && h[2] == 0xD1 && h[3] == 0x57
            && h[4] == h[5] == h[6] == h[7] == 0
            && h[8] as int + 256 * h[9] as int + 65536 * h[10] as int + 16777216 * h[11] as int == size
            && h[12] == h[13] == h[14] == h[15] == 0
  {
    hide Le32, DumpHeader;
    var h := DumpHeader(size);
    HeaderBytes(size);
    Le32RoundTrip(size);
    assert h[0] == h[..4][0] && h[1] == h[..4][1] && h[2] == h[..4][2] && h[3] == h[..4][3];
    assert h[4] == h[4..8][0] && h[5] == h[4..8][1] && h[6] == h[4..8][2] && h[7] == h[4..8][3];
    assert h[8] == h[8..12][0] && h[9] == h[8..12][1] && h[10] == h[8..12][2] && h[11] == h[8..12][3];
    assert h[12] == h[12..][0] && h[13] == h[12..][1] && h[14] == h[12..][2] && h[15] == h[12..][3];
  }

  lemma HeadSize(need64: bool, state: seq<byte>, needState: bool)
    requires |state| < TWO_TO_THE_32
    ensures var n := 16 + (if needState then |state| else 0);
            && |Head(state, needState)| == n
            && OutputSize(need64, n) == if need64 then (n + 2) / 3 * 4 + 1 else n
  {
  }

  /** The payload is laid out as its specification says. */
  lemma PayloadLaid(state: seq<byte>, needState: bool, lines: seq<byte>)
    requires |state| < TWO_TO_THE_32
    ensures Laid(Head(state, needState) + lines, state, needState, lines)
  {
    hide DumpHeader;
    var size := if needState then |state| else 0;
    var head, p := Head(state, needState), Head(state, needState) + lines;
    HeaderLaid(size);
    assert forall i :: 0 <= i < 16 ==> p[i] == DumpHeader(size)[i];
    assert p[16..16 + size] == head[16..] == state[..size];
  }

  lemma FinishedIsWhole(need64: bool, out: seq<byte>, max: nat, state: seq<byte>, needState: bool,
                        file: seq<byte>, tail: int)
    requires |state| < TWO_TO_THE_32 && OutputSize(need64, |Head(state, needState)|) <= max
    requires Finished(need64, out, max, Head(state, needState), file, tail)
    ensures var m := MessageSize(need64, max, |Head(state, needState)|, |file|);
            DumpOf(need64, out, max, state, needState, file, DumpedLines(file, tail, m))
  {
    hide Laid, DumpedLines, MessageSize, Decode, Encode, DumpHeader;
    var head := Head(state, needState);
    var m := MessageSize(need64, max, |head|, |file|);
    var payload := head + DumpedLines(file, tail, m);
    MessageFits(need64, max, |head|, |file|);
    PayloadLaid(state, needState, DumpedLines(file, tail, m));
    if need64 {
      DumpDecodes(out, payload);
      assert Decode(out[..|out| - 1]).value[..|payload|] == payload;
    }
  }

  /** memset and the last call: the carry is completed from what temp_buf holds. */
  method PadOut(out: array<byte>, curr0: nat, buf: array<byte>, remain: nat, need64: bool, ghost payload: seq<byte>)
    requires out != buf && buf.Length == BUFFER_SIZE && out.Length <= SIZE_T_MAX
    requires Carried(need64, out[..], buf[..], remain, payload, curr0)
    requires out.Length == OutputSize(need64, |payload|)
    modifies out, buf
    ensures DumpText(need64, out[..], payload)
  {
    hide Dumping, DumpText;
    if remain > 0 {
      PadCarry(out, curr0, buf, remain, payload);
    } else {
      NothingToPad(need64, out[..], buf[..], payload, curr0);
    }
  }

  /** The carry is completed to a group with what temp_buf holds. */
  method PadCarry(out: array<byte>, curr0: nat, buf: array<byte>, remain: nat, ghost payload: seq<byte>)
    requires out != buf && buf.Length == BUFFER_SIZE && out.Length <= SIZE_T_MAX && remain > 0
    requires Carried(true, out[..], buf[..], remain, payload, curr0)
    requires out.Length == OutputSize(true, |payload|)
    modifies out, buf
    ensures DumpText(true, out[..], payload)
  {
    hide Encode, Dumping, Carry;
    ghost var o, carry := out[..], buf[..remain];
    forall i | remain <= i < 3 {
      buf[i] := 0;
    }
    assert out[..] == o && buf[..remain] == carry;
    ghost var pad := buf[..3 - remain];
    assert buf[..remain] + buf[..3 - remain] == Carry(payload) + pad;
    DumpingFacts(true, out[..], payload, curr0);
    PadFits(|payload|, remain);
    var err, curr, r := Feed(out, curr0, buf[..3 - remain], buf, remain, true, payload, pad);
    Completed(out[..], payload + pad, curr);
  }

  lemma PadFits(n: nat, remain: nat)
    requires 0 < remain == n % 3
    ensures (n + (3 - remain)) % 3 == 0 && EncodedLen(n + (3 - remain)) == EncodedLen(n)
    ensures (n + (3 - remain)) / 3 * 4 + 1 <= EncodedLen(n) + 1 && 3 - remain <= EncodedLen(n) + 1 - n / 3 * 4
  {
    assert n == n / 3 * 3 + remain;
  }

  lemma NothingToPad(need64: bool, out: seq<byte>, buf: seq<byte>, payload: seq<byte>, curr: nat)
    requires Carried(need64, out, buf, 0, payload, curr) && |out| == OutputSize(need64, |payload|)
    ensures DumpText(need64, out, payload)
  {
    hide Encode;
    if need64 {
      assert payload + [] == payload;
      Completed(out, payload, curr);
    } else {
      assert out == payload;
    }
  }

  lemma Completed(out: seq<byte>, all: seq<byte>, curr: nat)
    requires Dumping(true, out, all, curr) && |all| % 3 == 0 && |out| == EncodedLen(|all|) + 1
    ensures out == Encode(all) + [0]
  {
    assert Whole(all) == all;
    EncodeLength(all);
    var t := Encode(all) + [0];
    assert |t| == |out|;
  }

  /** The dumped lines are the newest ones when the seek is circular: always while the tail lies m
      bytes or more into the file, and otherwise when the file size divides 2^32. */
  lemma NewestLines(cells: seq<byte>, tail: nat, history: seq<byte>, m: nat)
    requires Holds(cells, tail, history) && m <= |File(cells, history)| <= 0x8000_0000
    requires m == 0 || tail >= m || TWO_TO_THE_32 % |File(cells, history)| == 0
    ensures DumpedLines(File(cells, history), tail, m) == LastN(history, m)
  {
    if m > 0 {
      var file := File(cells, history);
      NewestFromTail(cells, tail, history, m);
      SeekIsCircular(tail, -(m as int), |file|);
      var x := tail - m;
      if x < 0 {
        Arithmetic.UniqueDivision(x, |file|, -1, x + |file|);
      } else {
        Arithmetic.UniqueDivision(x, |file|, 0, x);
      }
    }
  }

  /** The header and the state record go out first. */
  method DumpHead(out: array<byte>, buf: array<byte>, state: seq<byte>, needState: bool, need64: bool)
    returns (curr: nat, remain: nat)
    requires out != buf && buf.Length == BUFFER_SIZE && out.Length <= SIZE_T_MAX
    requires 2 <= |state| < 0x1000 && out[..] == Zeros(out.Length)
    requires OutputSize(need64, |Head(state, needState)|) <= out.Length
    modifies out, buf
    ensures Carried(need64, out[..], buf[..], remain, Head(state, needState), curr)
  {
    hide Dumping, Carry, Zeros;
    DumpStarts(need64, out[..]);
    NoCarry(buf[..]);
    var err;
    var header := DumpHeader(if needState then |state| else 0);
    assert [] + header == header;
    err, curr, remain := Feed(out, 0, header, buf, 0, need64, [], header);
    if needState {
      DumpingFacts(need64, out[..], header, curr);
      err, curr, remain := Feed(out, curr, state, buf, remain, need64, header, state);
    }
  }

  lemma NoCarry(b: seq<byte>)
    ensures Carry([]) == [] == b[..0]
  {
  }

  /** Seek m bytes back from the tail and dump them. */
  method DumpBody(log: Log, h: Handle, out: array<byte>, curr0: nat, buf: array<byte>, remain0: nat, need64: bool,
                  m: nat, ghost head: seq<byte>)
    returns (curr: nat, remain: nat)
    requires log.Shape() && log.Reading(h) && h.logSize == |log.View()| && m <= |log.View()|
    requires out != buf && buf.Length == BUFFER_SIZE && out.Length <= SIZE_T_MAX
    requires {log.buf, log.flash} !! {out, buf}
    requires Carried(need64, out[..], buf[..], remain0, head, curr0)
    requires out.Length == OutputSize(need64, |head| + m)
    modifies out, buf, h`curAddr
    ensures log.Reading(h) && log.View() == old(log.View()) && log.Tail() == old(log.Tail())
    ensures Carried(need64, out[..], buf[..], remain, head + DumpedLines(log.View(), log.Tail(), m), curr)
  {
    hide Carried, OutputSize, Stream, SeekOffset;
    hide Log.View, Log.Tail, Log.Reading, Log.Area, Log.Stored, Log.Shape;
    ViewBounds(log, h);
    ghost var tail := log.Tail();
    var seekFailed := log.Seek(h, -(m as int), h.tailAddr);
    if m > 0 {
      curr, remain := DumpFrom(log, h, out, curr0, buf, remain0, need64, m, tail, head);
    } else {
      curr, remain := curr0, remain0;
      assert head + DumpedLines(log.View(), tail, 0) == head;
    }
  }

  /** Dump m bytes from the seek target on. */
  method DumpFrom(log: Log, h: Handle, out: array<byte>, curr0: nat, buf: array<byte>, remain0: nat, need64: bool,
                  m: nat, ghost tail: int, ghost head: seq<byte>)
    returns (curr: nat, remain: nat)
    requires log.Shape() && log.Reading(h) && 0 < m <= |log.View()|
    requires h.curAddr == h.startAddr + SeekOffset(tail, -(m as int), |log.View()|)
    requires out != buf && buf.Length == BUFFER_SIZE && out.Length <= SIZE_T_MAX
    requires {log.buf, log.flash} !! {out, buf}
    requires Carried(need64, out[..], buf[..], remain0, head, curr0)
    requires out.Length == OutputSize(need64, |head| + m)
    modifies out, buf, h`curAddr
    ensures log.Reading(h) && m <= |log.View()| && log.View() == old(log.View())
    ensures Carried(need64, out[..], buf[..], remain, head + DumpedLines(log.View(), tail, m), curr)
  {
    hide Carried, OutputSize, Stream, Position, SeekOffset, Log.View, Log.Reading, Log.Shape, Log.Tail;
    ghost var file, off := log.View(), h.curAddr - h.startAddr;
    LinesToRead(log, h, file, off, need64, |head| + m, out.Length);
    curr, remain := DumpLines(log, h, out, curr0, buf, remain0, need64, m, file, off, head);
    StillReading(log, h, file, off, m);
  }

  /** The zeroed output, with the head dumped. */
  method StartDump(state: seq<byte>, needState: bool, need64: bool, size: nat)
    returns (out: array<byte>, buf: array<byte>, curr: nat, remain: nat)
    requires 2 <= |state| < 0x1000 && OutputSize(need64, |Head(state, needState)|) <= size <= SIZE_T_MAX
    ensures fresh(out) && fresh(buf) && out != buf && buf.Length == BUFFER_SIZE && out.Length == size
    ensures Carried(need64, out[..], buf[..], remain, Head(state, needState), curr)
  {
    hide Carried, Head;
    out := new byte[size](i => 0);
    buf := new byte[BUFFER_SIZE](i => 0);
    assert out[..] == Zeros(out.Length);
    curr, remain := DumpHead(out, buf, state, needState, need64);
  }

  /** From the opened log to the finished dump. */
  method DumpFile(log: Log, h: Handle, state: seq<byte>, needState: bool, max: nat, need64: bool)
    returns (out: array<byte>)
    requires log.Shape() && log.Reading(h) && h.logSize == |log.View()|
    requires max <= SIZE_T_MAX && 2 <= |state| < 0x1000
    requires OutputSize(need64, |Head(state, needState)|) <= max
    modifies h`curAddr
    ensures log.Reading(h) && log.View() == old(log.View()) && log.Tail() == old(log.Tail())
    ensures fresh(out) && Finished(need64, out[..], max, Head(state, needState), log.View(), log.Tail())
  {
    hide DumpText, Head, MessageSize, Carried, DumpedLines, OutputSize;
    hide Log.View, Log.Tail, Log.Reading, Log.Area, Log.Stored, Log.Shape;
    ghost var file, tail := log.View(), log.Tail();
    var n := |Head(state, needState)|;
    MessageFits(need64, max, n, h.logSize);
    var m := MessageSize(need64, max, n, h.logSize);
    OutputSizes(need64, n, m, max);
    var buf, curr, remain;
    out, buf, curr, remain := StartDump(state, needState, need64, OutputSize(need64, n + m));
    curr, remain := DumpBody(log, h, out, curr, buf, remain, need64, m, Head(state, needState));
    PadOut(out, curr, buf, remain, need64, Head(state, needState) + DumpedLines(file, tail, m));
  }

  lemma OutputSizes(need64: bool, n: nat, m: nat, max: nat)
    requires OutputSize(need64, n + m) <= max
    ensures n <= OutputSize(need64, n) <= OutputSize(need64, n + m)
  {
  }

  lemma LinesToRead(log: Log, h: Handle, file: seq<byte>, off: nat, need64: bool, n: nat, size: nat)
    requires log.Reading(h) && log.View() == file && |file| > 0 && off <= |file|
    requires h.curAddr == h.startAddr + off && size == OutputSize(need64, n)
    ensures Position(log, h, file, off, 0) && Fits(need64, n, size)
  {
    ViewBounds(log, h);
    NothingRead(file, off);
  }

  lemma StillReading(log: Log, h: Handle, file: seq<byte>, off: nat, m: nat)
    requires Position(log, h, file, off, m)
    ensures log.Reading(h)
  {
  }

  lemma ViewBounds(log: Log, h: Handle)
    requires log.Reading(h)
    ensures |log.View()| < 0x8000_0000 && h.startAddr + |log.View()| + BUFFER_SIZE < TWO_TO_THE_32
    ensures |log.View()| <= |log.Stored()| && |log.View()| == h.logSize
    ensures h.startAddr <= h.tailAddr && h.tailAddr - h.startAddr == log.Tail()
  {
  }

  lemma Pow29()
    ensures Arithmetic.Pow2(29) == 0x2000_0000
  {
    assert Arithmetic.Pow2(2) == 4;
    assert Arithmetic.Pow2(4) == 16;
    Arithmetic.Pow2Sum(4, 3);
    assert Arithmetic.Pow2(7) == 128;
    Arithmetic.Pow2Sum(7, 7);
    Arithmetic.Pow2Sum(14, 14);
  }

  /** Eight times an odd number greater than one does not divide 2^32. */
  lemma NotCircular(size: nat)
    requires size % 16 == 8 && size > 8
    ensures TWO_TO_THE_32 % size != 0
  {
    hide Arithmetic.Pow2;
    if TWO_TO_THE_32 % size == 0 {
      var q, c := TWO_TO_THE_32 / size, size / 8;
      Arithmetic.ExactQuotient(TWO_TO_THE_32, size);
      Arithmetic.EightTimes(c, q, size);
      Pow29();
      Arithmetic.OddDivisor(c, q, 29);
    }
  }

  /** A history of this length leads to this tail: each byte moves the tail one cell on. */
  predicate LeadsTo(size: nat, length: nat, tail: nat)
    requires size > 0
  {
    length % size == tail % size
  }

  /** Whatever a ring of this size with this tail holds, the lines dumped from it are the newest. */
  ghost predicate AlwaysNewest(size: nat, tail: nat, m: nat)
    requires size > 0
  {
    forall cells: seq<byte>, history: seq<byte> ::
      && |cells| == size && Holds(cells, tail, history) && LeadsTo(size, |history|, tail)
      && m <= |File(cells, history)| ==>
        DumpedLines(File(cells, history), tail, m) == LastN(history, m)
  }

  /** The bytes 0 with a 1 at index i. */
  function Mark(size: nat, i: nat): (s: seq<byte>)
    ensures |s| == size && forall j :: 0 <= j < size ==> s[j] == if j == i then 1 else 0
  {
    seq(size, j => if j == i then 1 else 0)
  }

  /** The bytes that bring a ring once round and on to its tail, the m-th newest of them marked. */
  function MarkedHistory(size: nat, tail: nat, m: nat): (h: seq<byte>)
    requires m <= size
    ensures |h| == tail + size
  {
    seq(tail, i => 0) + Mark(size, size - m)
  }

  lemma MarkedRing(size: nat, tail: nat, m: nat)
    requires tail < m <= size
    ensures Holds(Mark(size, tail - m + size), tail, MarkedHistory(size, tail, m))
  {
    var cells, history := Mark(size, tail - m + size), MarkedHistory(size, tail, m);
    forall j | 0 <= j < size ensures HoldsAt(cells, tail, history, j) {
      MarkedCell(size, tail, m, j);
    }
  }

  lemma MarkedCell(size: nat, tail: nat, m: nat, j: nat)
    requires tail < m <= size && j < size
    ensures HoldsAt(Mark(size, tail - m + size), tail, MarkedHistory(size, tail, m), j)
  {
    var history := MarkedHistory(size, tail, m);
    assert history[|history| - 1 - j] == Mark(size, size - m)[size - 1 - j];
  }

  lemma OnceRound(size: nat, tail: nat, m: nat)
    requires tail < m <= size
    ensures LeadsTo(size, |MarkedHistory(size, tail, m)|, tail)
  {
    Arithmetic.UniqueRemainder(size, 1, tail);
  }

  /** The lines dumped are the newest ones, whatever the log holds, if and only if the seek back from the
      tail is circular. */
  lemma NewestIffCircular(size: nat, tail: nat, m: nat)
    requires 0 < size <= 0x8000_0000 && tail <= size && m <= size
    ensures AlwaysNewest(size, tail, m) <==> m == 0 || tail >= m || TWO_TO_THE_32 % size == 0
  {
    hide Holds, DumpedLines, LastN;
    if m == 0 || tail >= m || TWO_TO_THE_32 % size == 0 {
      forall cells: seq<byte>, history: seq<byte>
        | |cells| == size && Holds(cells, tail, history) && LeadsTo(size, |history|, tail)
          && m <= |File(cells, history)|
        ensures DumpedLines(File(cells, history), tail, m) == LastN(history, m)
      {
        ShortIsStraight(cells, tail, history);
        NewestLines(cells, tail, history, m);
      }
    } else {
      SeekMisses(size, tail, m);
    }
  }

  lemma ShortIsStraight(cells: seq<byte>, tail: nat, history: seq<byte>)
    requires Holds(cells, tail, history)
    ensures |File(cells, history)| < |cells| ==> |File(cells, history)| == tail
  {
  }

  lemma SeekMisses(size: nat, tail: nat, m: nat)
    requires tail < m <= size <= 0x8000_0000 && TWO_TO_THE_32 % size != 0
    ensures !AlwaysNewest(size, tail, m)
  {
    hide Holds, SeekOffset, Stream;
    var cells, history := Mark(size, tail - m + size), MarkedHistory(size, tail, m);
    MarkedRing(size, tail, m);
    OnceRound(size, tail, m);
    SeekIsCircular(tail, -(m as int), size);
    Arithmetic.UniqueDivision(tail - m, size, -1, tail - m + size);
    assert File(cells, history) == cells;
    var o := SeekOffset(tail, -(m as int), size);
    FirstOfStream(cells, o, m);
    assert DumpedLines(cells, tail, m)[0] == 0 && LastN(history, m)[0] == 1;
  }

  lemma FirstOfStream(file: seq<byte>, off: nat, n: nat)
    requires off < |file| && 0 < n
    ensures Stream(file, off, n)[0] == file[off]
  {
  }

  /** With sectors of a multiple of 16 bytes the capacity never divides 2^32: a full flash log is dumped from
      its newest lines, whatever it holds, if and only if its tail is not short of the dumped size. */
  lemma FlashDumpGoesWrong(g: Geometry, tail: nat, m: nat)
    requires g.Valid() && g.sector % 16 == 0 && tail <= g.Capacity() && m <= g.Capacity()
    ensures AlwaysNewest(g.Capacity(), tail, m) <==> tail >= m
  {
    hide AlwaysNewest;
    FlashNotCircular(g);
    NewestIffCircular(g.Capacity(), tail, m);
  }

  lemma FlashNotCircular(g: Geometry)
    requires g.Valid() && g.sector % 16 == 0
    ensures 0 < g.Capacity() <= 0x8000_0000 && TWO_TO_THE_32 % g.Capacity() != 0
  {
    g.Sizes();
    MultipleOf16(g.size, g.sector);
    NotCircular(g.Capacity());
  }

  lemma MultipleOf16(size: nat, sector: nat)
    requires sector > 0 && size % sector == 0 && sector % 16 == 0
    ensures size % 16 == 0
  {
    var q, r := size / sector, sector / 16;
    Arithmetic.ExactQuotient(size, sector);
    assert q * (r * 16) == (q * r) * 16;
    Arithmetic.ExactMultiple(q * r, 16);
  }

  function Counting(from: nat, to: nat): (s: seq<byte>)
    requires from <= to <= 256
    ensures |s| == to - from
  {
    seq(to - from, i requires 0 <= i < to - from => from + i)
  }

  const RING_OF_24: seq<byte> := Counting(24, 32) + Counting(8, 24)

  lemma RingHolds()
    ensures Holds(RING_OF_24, 8, Counting(0, 32)) && File(RING_OF_24, Counting(0, 32)) == RING_OF_24
  {
    forall j | 0 <= j < 32 && j < 24 ensures HoldsAt(RING_OF_24, 8, Counting(0, 32), j) {
    }
  }

  /** A log of 24 bytes after 32 were stored: the newest line is not what is dumped. */
  lemma WrongLineDumped()
    ensures Holds(RING_OF_24, 8, Counting(0, 32))
    ensures DumpedLines(File(RING_OF_24, Counting(0, 32)), 8, 16) != LastN(Counting(0, 32), 16)
  {
    hide Holds, Stream;
    RingHolds();
    StreamStraight(RING_OF_24, 8, 16);
    assert SeekOffset(8, -16, 24) == 8;
    assert DumpedLines(RING_OF_24, 8, 16)[0] == 8 && LastN(Counting(0, 32), 16)[0] == 16;
  }

  /** st_create_log_dump with iot_dump_create_dump_state's record given as bytes. The log is left
      as it was found, and accepting again. */
  method CreateLogDump(log: Log, state: seq<byte>, max: nat, need64: bool, needState: bool)
    returns (err: Result, dump: array?<byte>, allocatedSize: nat)
    requires log.Valid() && max <= SIZE_T_MAX && 2 <= |state| < 0x1000
    modifies log`enable, log`fileOpened
    ensures log.Valid()
    ensures var n := 16 + (if needState then |state| else 0);
            err == if (if need64 then (n + 2) / 3 * 4 + 1 else n) > max then BadRequest
                   else if log.kind.FlashWithRam? && !HasMagic(log.flash[..]) then BadRequest
                   else Ok
    ensures err != Ok ==> dump == null && allocatedSize == 0
    ensures err == Ok ==>
              && dump != null && fresh(dump) && allocatedSize == dump.Length <= max
              && NewestDump(need64, dump[..], max, state, needState, old(log.View()), old(log.Tail()),
                            old(log.Stored()))
    ensures err == Ok ==> (log.kind.RamOnly? ==> log.enable) && (log.kind.FlashWithRam? ==> !log.fileOpened)
  {
    hide DumpText, Head, MessageSize, LastN, DumpedLines, OutputSize,
         Newest, Finished, DumpOf, NewestDump, Log.View, Log.Tail, Log.Stored, Log.Area;
    err, dump, allocatedSize := BadRequest, null, 0;
    HeadSize(need64, state, needState);
    if OutputSize(need64, |Head(state, needState)|) > max {
      return;
    }
    var h := log.Open(log.kind);
    if h == null {
      return;
    }
    ViewBounds(log, h);
    LinesAreNewest(log, h, MessageSize(need64, max, |Head(state, needState)|, |log.View()|));
    hide Log.Reading, Log.Valid;
    dump := DumpFile(log, h, state, needState, max, need64);
    assert log.Valid() && h.fileType == log.kind;
    allocatedSize := dump.Length;
    DumpComplete(need64, dump[..], max, state, needState, log.View(), log.Tail(), log.Stored());
    log.Close(h);
    err := Ok;
  }

  /** The dumped lines are the newest, provided the seek back from the tail is circular. */
  ghost predicate Newest(file: seq<byte>, tail: int, stored: seq<byte>, m: nat)
    requires m <= |file|
  {
    && m <= |stored|
    && (m == 0 || tail >= m || TWO_TO_THE_32 % |file| == 0 ==> DumpedLines(file, tail, m) == LastN(stored, m))
  }

  /** What a successful call returns: a finished dump, laid out as specified, of the newest lines. */
  ghost predicate NewestDump(need64: bool, out: seq<byte>, max: nat, state: seq<byte>, needState: bool,
                             file: seq<byte>, tail: int, stored: seq<byte>)
    requires |state| < TWO_TO_THE_32
  {
    var head := Head(state, needState);
    && OutputSize(need64, |head|) <= max
    && var m := MessageSize(need64, max, |head|, |file|);
       && Finished(need64, out, max, head, file, tail)
       && DumpOf(need64, out, max, state, needState, file, DumpedLines(file, tail, m))
       && Newest(file, tail, stored, m)
  }

  lemma DumpComplete(need64: bool, out: seq<byte>, max: nat, state: seq<byte>, needState: bool,
                     file: seq<byte>, tail: int, stored: seq<byte>)
    requires |state| < TWO_TO_THE_32 && OutputSize(need64, |Head(state, needState)|) <= max
    requires Finished(need64, out, max, Head(state, needState), file, tail)
    requires Newest(file, tail, stored, MessageSize(need64, max, |Head(state, needState)|, |file|))
    ensures NewestDump(need64, out, max, state, needState, file, tail, stored)
    ensures |out| <= max
  {
    hide Newest, DumpOf, Head, MessageSize, DumpedLines, DumpText, OutputSize;
    FinishedIsWhole(need64, out, max, state, needState, file, tail);
  }

  lemma LinesAreNewest(log: Log, h: Handle, m: nat)
    requires log.Reading(h) && m <= |log.View()|
    ensures Newest(log.View(), log.Tail(), log.Stored(), m)
  {
    hide DumpedLines, LastN, Holds;
    ViewBounds(log, h);
    if m == 0 || log.Tail() >= m || TWO_TO_THE_32 % |log.View()| == 0 {
      NewestLines(log.Area(), log.Tail(), log.Stored(), m);
    }
  }
}
