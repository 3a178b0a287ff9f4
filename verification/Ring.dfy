/** Circular storage: what it means for a block of cells to hold the newest bytes of a history,
    and what reading round a file gives. Both the RAM buffer and the flash log are such blocks. */
module Ring {
  import opened Bytes
  import Arithmetic

  /** The cell of the j-th newest byte (j = 0 for the newest) when the next byte goes to cell pos. */
  function Cell(size: nat, pos: nat, j: nat): (i: int)
    requires pos <= size && j < size
    ensures 0 <= i < size
  {
    if j < pos then pos - 1 - j else pos - 1 - j + size
  }

  /** The cells hold the newest |cells| bytes of the history, or all of it from cell 0 on. */
  ghost predicate Holds(cells: seq<byte>, pos: nat, history: seq<byte>) {
    && pos <= |cells|
    && (|history| < |cells| ==> pos == |history|)
    && forall j :: 0 <= j < |history| && j < |cells| ==> HoldsAt(cells, pos, history, j)
  }

  /** The j-th newest byte is in its cell. */
  ghost predicate HoldsAt(cells: seq<byte>, pos: nat, history: seq<byte>, j: nat)
    requires pos <= |cells| && j < |history| && j < |cells|
  {
    cells[Cell(|cells|, pos, j)] == history[|history| - 1 - j]
  }

  /** data stored from cell pos on, wrapping to cell 0. */
  function Overlay(cells: seq<byte>, pos: nat, data: seq<byte>): (r: seq<byte>)
    requires pos <= |cells| && |data| <= |cells|
    ensures |r| == |cells|
  {
    seq(|cells|, i requires 0 <= i < |cells| =>
      if pos <= i < pos + |data| then data[i - pos]
      else if i + |cells| < pos + |data| then data[i + |cells| - pos]
      else cells[i])
  }

  /** Where the next byte goes. The flash log wraps as soon as the last cell is written. */
  function Advance(size: nat, pos: nat, n: nat): int {
    if pos + n >= size then pos + n - size else pos + n
  }

  /** Appending to the history is one circular store. */
  lemma HoldsAppend(cells: seq<byte>, pos: nat, history: seq<byte>, data: seq<byte>)
    requires Holds(cells, pos, history) && pos < |cells| && |data| <= |cells|
    ensures Holds(Overlay(cells, pos, data), Advance(|cells|, pos, |data|), history + data)
  {
    var size, after, all := |cells|, Overlay(cells, pos, data), history + data;
    var pos' := Advance(size, pos, |data|);
    forall j | 0 <= j < |all| && j < size
      ensures HoldsAt(after, pos', all, j)
    {
      if j >= |data| {
        var k := j - |data|;
        assert Cell(size, pos', j) == Cell(size, pos, k);
        assert HoldsAt(cells, pos, history, k);
      }
    }
  }

  /** One byte, in the RAM buffer, which wraps only when the next byte arrives. */
  lemma HoldsStoreChar(cells: seq<byte>, cnt: nat, history: seq<byte>, c: byte)
    requires Holds(cells, cnt, history) && |cells| > 0
    ensures var i := if cnt >= |cells| then 0 else cnt;
            Holds(cells[i := c], i + 1, history + [c])
  {
    var i := if cnt >= |cells| then 0 else cnt;
    var size, next, after, all := |cells|, i + 1, cells[i := c], history + [c];
    forall j | 0 <= j < |all| && j < size
      ensures HoldsAt(after, next, all, j)
    {
      if j > 0 {
        assert Cell(size, next, j) == Cell(size, cnt, j - 1);
        assert HoldsAt(cells, cnt, history, j - 1);
      }
    }
  }

  function LastN(s: seq<byte>, n: nat): (r: seq<byte>)
    requires n <= |s|
    ensures |r| == n
  {
    s[|s| - n..]
  }

  // ----- reading round a file -----

  /** n bytes read round and round a file from offset off. */
  function Stream(file: seq<byte>, off: nat, n: nat): (r: seq<byte>)
    requires |file| > 0 && off <= |file|
    ensures |r| == n
    decreases n
  {
    if n == 0 then []
    else
      var o := if off == |file| then 0 else off;
      [file[o]] + Stream(file, o + 1, n - 1)
  }

  /** The offset after reading n bytes. */
  function After(file: seq<byte>, off: nat, n: nat): (o: nat)
    requires |file| > 0 && off <= |file|
    ensures o <= |file|
    decreases n
  {
    if n == 0 then off else After(file, (if off == |file| then 0 else off) + 1, n - 1)
  }

  lemma {:induction false} StreamSplits(file: seq<byte>, off: nat, m: nat, n: nat)
    requires |file| > 0 && off <= |file|
    ensures Stream(file, off, m + n) == Stream(file, off, m) + Stream(file, After(file, off, m), n)
    ensures After(file, off, m + n) == After(file, After(file, off, m), n)
    decreases m
  {
    if m > 0 {
      StreamSplits(file, (if off == |file| then 0 else off) + 1, m - 1, n);
    }
  }

  lemma {:induction false} StreamStraight(file: seq<byte>, off: nat, n: nat)
    requires |file| > 0 && off + n <= |file|
    ensures Stream(file, off, n) == file[off..off + n]
    ensures After(file, off, n) == off + n
    decreases n
  {
    if n > 0 {
      StreamStraight(file, off + 1, n - 1);
      var s := file[off..off + n];
      assert s == [s[0]] + s[1..] && s[1..] == file[off + 1..off + n];
    }
  }

  /** Offset |file| and offset 0 are the same place. */
  lemma StreamWrap(file: seq<byte>, n: nat)
    requires |file| > 0
    ensures Stream(file, |file|, n) == Stream(file, 0, n)
    ensures n > 0 ==> After(file, |file|, n) == After(file, 0, n)
  {
  }

  /** A read that runs past the end goes on at the beginning, for at most one round. */
  lemma StreamAround(file: seq<byte>, off: nat, n: nat)
    requires |file| > 0 && off <= |file| && n <= off
    ensures Stream(file, off, |file| - off + n) == file[off..] + file[..n]
    ensures n > 0 ==> After(file, off, |file| - off + n) == n
  {
    StreamSplits(file, off, |file| - off, n);
    StreamStraight(file, off, |file| - off);
    StreamWrap(file, n);
    StreamStraight(file, 0, n);
  }

  // ----- chunks -----

  /** What one call of iot_log_file_read delivers when n bytes are asked for. */
  function Delivered(file: seq<byte>, n: nat): nat {
    Min(n, |file|)
  }

  function DeliveredData(file: seq<byte>, off: nat, n: nat): (r: seq<byte>)
    requires off <= |file|
    ensures |r| == Delivered(file, n)
  {
    if |file| == 0 then [] else Stream(file, off, Delivered(file, n))
  }

  /** Where that call leaves the reader. */
  function NextOffset(file: seq<byte>, off: nat, n: nat): (o: nat)
    requires off <= |file|
    ensures o <= |file|
  {
    if off + n <= |file| then off + n else Min(n - (|file| - off), off)
  }

  /** Successive reads with the given buffer sizes. */
  function ReadAll(file: seq<byte>, off: nat, sizes: seq<nat>): (r: seq<byte>)
    requires |file| > 0 && off <= |file|
    decreases |sizes|
  {
    if |sizes| == 0 then []
    else Stream(file, off, Delivered(file, sizes[0])) + ReadAll(file, NextOffset(file, off, sizes[0]), sizes[1..])
  }

  function Total(file: seq<byte>, sizes: seq<nat>): nat {
    if |sizes| == 0 then 0 else Delivered(file, sizes[0]) + Total(file, sizes[1..])
  }

  /** A reader goes on where the delivered bytes ended. */
  lemma ReaderGoesOn(file: seq<byte>, off: nat, n: nat, k: nat)
    requires |file| > 0 && off <= |file|
    ensures Stream(file, NextOffset(file, off, n), k) == Stream(file, After(file, off, Delivered(file, n)), k)
  {
    if off + n <= |file| {
      StreamStraight(file, off, n);
    } else {
      var m := Min(n - (|file| - off), off);
      StreamAround(file, off, m);
      assert Delivered(file, n) == |file| - off + m;
      if m == 0 {
        StreamStraight(file, off, |file| - off);
        StreamWrap(file, k);
      }
    }
  }

  /** However a read is cut into chunks, the bytes are those of one circular read. */
  lemma {:induction false} ChunksAreOneRead(file: seq<byte>, off: nat, sizes: seq<nat>)
    requires |file| > 0 && off <= |file|
    ensures ReadAll(file, off, sizes) == Stream(file, off, Total(file, sizes))
    decreases |sizes|
  {
    if |sizes| > 0 {
      var n, rest := Delivered(file, sizes[0]), Total(file, sizes[1..]);
      ChunksAreOneRead(file, NextOffset(file, off, sizes[0]), sizes[1..]);
      ReaderGoesOn(file, off, sizes[0], rest);
      StreamSplits(file, off, n, rest);
    }
  }

  // ----- seeking -----

  /** iot_log_file_seek: offsets are added in 32-bit unsigned arithmetic. */
  function SeekOffset(origin: int, delta: int, size: nat): (o: nat)
    requires size > 0
    ensures o < size
  {
    (origin + delta) % TWO_TO_THE_32 % size
  }

  lemma SumRemainder(a: int, b: int, k: int)
    requires k > 0
    ensures (a + b) % k == a % k <==> b % k == 0
  {
    var qa, qb := a / k, b / k;
    var sum := a % k + b % k;
    if sum < k {
      Arithmetic.UniqueRemainder(k, qa + qb, sum);
      assert a + b == k * (qa + qb) + sum;
    } else {
      Arithmetic.UniqueRemainder(k, qa + qb + 1, sum - k);
      assert a + b == k * (qa + qb + 1) + (sum - k);
    }
  }

  /** A seek is circular exactly when the target does not lie below the origin of the file, or
      the file size divides 2^32. */
  lemma SeekIsCircular(origin: int, delta: int, size: nat)
    requires size > 0 && -TWO_TO_THE_32 <= origin + delta < TWO_TO_THE_32
    ensures (SeekOffset(origin, delta, size) == (origin + delta) % size) <==>
              (origin + delta >= 0 || TWO_TO_THE_32 % size == 0)
  {
    var x := origin + delta;
    if x < 0 {
      assert x % TWO_TO_THE_32 == x + TWO_TO_THE_32;
      SumRemainder(x, TWO_TO_THE_32, size);
    }
  }

  // ----- the file a ring presents -----

  /** The part of the cells a reader sees. */
  function File(cells: seq<byte>, history: seq<byte>): seq<byte> {
    cells[..Min(|history|, |cells|)]
  }

  /** Reading the newest m bytes: start m cells before the tail, going round. */
  lemma NewestFromTail(cells: seq<byte>, pos: nat, history: seq<byte>, m: nat)
    requires Holds(cells, pos, history) && 0 < m <= |history| && m <= |cells|
    ensures var file := File(cells, history);
            var off := if m <= pos then pos - m else pos - m + |file|;
            && pos <= |file| && off <= |file|
            && Stream(file, off, m) == LastN(history, m)
  {
    var file := File(cells, history);
    var size := |file|;
    var off := if m <= pos then pos - m else pos - m + size;
    forall k | 0 <= k < m ensures LastN(history, m)[k] == cells[Cell(|cells|, pos, m - 1 - k)] {
      assert HoldsAt(cells, pos, history, m - 1 - k);
    }
    if m <= pos {
      StreamStraight(file, off, m);
      assert file[off..off + m] == LastN(history, m);
    } else {
      assert size == |cells|;
      StreamAround(file, off, pos);
      assert file[off..] + file[..pos] == LastN(history, m);
    }
  }

  /** Reading everything from where a reader is opened. */
  lemma OpenedAtOldest(cells: seq<byte>, pos: nat, history: seq<byte>, off: nat)
    requires Holds(cells, pos, history) && |history| > 0 && |cells| > 0
    requires (off == pos && |history| >= |cells|) || (off == 0 && |history| < |cells|)
          || (off == 0 && pos == |cells|)
    ensures var file := File(cells, history);
            Stream(file, off, |file|) == LastN(history, |file|)
  {
    var file := File(cells, history);
    NewestFromTail(cells, pos, history, |file|);
    if off == pos == |file| {
      StreamWrap(file, |file|);
    } else if pos == 0 {
      StreamWrap(file, |file|);
    }
  }

  /** An opened file read to its length, in whatever chunks, is the newest bytes in order. */
  lemma ReadEverything(cells: seq<byte>, pos: nat, history: seq<byte>, off: nat, sizes: seq<nat>)
    requires Holds(cells, pos, history) && |history| > 0 && |cells| > 0
    requires (off == pos && |history| >= |cells|) || (off == 0 && |history| < |cells|)
          || (off == 0 && pos == |cells|)
    requires Total(File(cells, history), sizes) == |File(cells, history)|
    ensures off <= |File(cells, history)|
    ensures ReadAll(File(cells, history), off, sizes) == LastN(history, Min(|history|, |cells|))
  {
    OpenedAtOldest(cells, pos, history, off);
    ChunksAreOneRead(File(cells, history), off, sizes);
  }
}
