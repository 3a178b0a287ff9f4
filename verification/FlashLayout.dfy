/** How the flash log is laid out: sectors, the header at the start of the first sector, and
    what sector-wise writes do to the log area behind it (iot_log_file.h, iot_log_file.c). */
module FlashLayout {
  import opened Bytes
  import opened Ring
  import opened Arithmetic

  const HEADER_SIZE: int := 24
  const MAX_STRING_SIZE: int := 128

  /** The configured addresses and sizes; iot_log_file.h takes them from the build configuration. */
  datatype Geometry = Geometry(addr: nat, size: nat, sector: nat, ram: nat) {

    /** Base and size are whole sectors, and a header and a full RAM buffer fit in one sector. */
    predicate Valid() {
      && sector > 0 && size > 0 && addr % sector == 0 && size % sector == 0
      && MAX_STRING_SIZE <= ram && HEADER_SIZE + ram <= sector
      && size < 0x8000_0000 && addr + size + sector <= TWO_TO_THE_32
    }

    function MaxAddr(): nat {
      addr + size
    }

    /** The bytes available to the log. */
    function Capacity(): int {
      size - HEADER_SIZE
    }

    function FirstSector(): int
      requires sector > 0
    {
      addr / sector
    }

    /** _iot_log_file_sector_to_addr. */
    function SectorToAddr(num: int, offset: int): int {
      num * sector + offset
    }

    /** _iot_log_file_get_next_sector. */
    function NextSector(num: int): int
      requires sector > 0
    {
      if num + 1 >= (addr + size) / sector then addr / sector else num + 1
    }

    /** Sector num is one of the log's. */
    predicate InRange(num: int) {
      addr <= num * sector && num * sector + sector <= addr + size
    }

    lemma Sizes()
      requires Valid()
      ensures size >= sector && (addr + size) % sector == 0
      ensures FirstSector() * sector == addr && InRange(FirstSector())
      ensures (addr + size) / sector * sector == addr + size
    {
      ExactQuotient(addr, sector);
      ExactQuotient(size, sector);
      ExactSum(addr, size, sector);
      ExactQuotient(addr + size, sector);
      Product(0, size / sector, sector);
    }

    lemma Next(num: int)
      requires Valid() && InRange(num)
      ensures InRange(NextSector(num))
      ensures NextSector(num) * sector ==
                if num * sector + sector == addr + size then addr else num * sector + sector
    {
      Sizes();
      var last := (addr + size) / sector;
      Product(num, num, sector);
      Product(num + 1, last, sector);
      Product(last, num + 1, sector);
    }

    /** _iot_log_file_addr_to_sector inside the log. */
    lemma AddrToSector(a: nat)
      requires Valid() && addr <= a < addr + size
      ensures InRange(a / sector) && 0 <= a % sector < sector && SectorToAddr(a / sector, a % sector) == a
    {
      Sizes();
      SectorOf(a, addr, addr + size, sector);
    }

    /** ... and past its end. */
    lemma AddrPastEnd(a: nat)
      requires Valid() && addr + size <= a < addr + size + sector
      ensures a % sector == a - addr - size
    {
      Sizes();
      UniqueDivision(a, sector, (addr + size) / sector, a - addr - size);
    }
  }

  // ----- the header -----

  /** struct iot_log_file_header_tag. */
  datatype Header = Header(magic: seq<byte>, fileSize: uint32, writtenSize: uint32,
                           num: uint32, offset: uint32, checksum: uint32)

  function EncodeHeader(h: Header): (s: seq<byte>)
    requires |h.magic| == 4
    ensures |s| == HEADER_SIZE
  {
    h.magic + Le32(h.fileSize) + Le32(h.writtenSize) + Le32(h.num) + Le32(h.offset) + Le32(h.checksum)
  }

  function DecodeHeader(s: seq<byte>): (h: Header)
    requires |s| >= HEADER_SIZE
    ensures |h.magic| == 4
  {
    Header(s[..4], FromLe32(s[4..8]), FromLe32(s[8..12]), FromLe32(s[12..16]), FromLe32(s[16..20]), FromLe32(s[20..24]))
  }

  lemma HeaderRoundTrip(h: Header)
    requires |h.magic| == 4
    ensures DecodeHeader(EncodeHeader(h)) == h
  {
    hide Le32, FromLe32;
    Le32RoundTrip(h.fileSize);
    Le32RoundTrip(h.writtenSize);
    Le32RoundTrip(h.num);
    Le32RoundTrip(h.offset);
    Le32RoundTrip(h.checksum);
    var s := EncodeHeader(h);
    assert s[4..8] == Le32(h.fileSize) && s[8..12] == Le32(h.writtenSize) && s[12..16] == Le32(h.num);
    assert s[16..20] == Le32(h.offset) && s[20..24] == Le32(h.checksum);
  }

  /** Only the header's own bytes matter. */
  lemma DecodePrefix(s: seq<byte>)
    requires |s| >= HEADER_SIZE
    ensures DecodeHeader(s[..HEADER_SIZE]) == DecodeHeader(s)
  {
    var t := s[..HEADER_SIZE];
    assert t[..4] == s[..4] && t[4..8] == s[4..8] && t[8..12] == s[8..12] && t[12..16] == s[12..16];
    assert t[16..20] == s[16..20] && t[20..24] == s[20..24];
  }

  predicate HasMagic(magic: seq<byte>)
    requires |magic| >= 3
  {
    magic[0] == 76 && magic[1] == 79 && magic[2] == 71
  }

  /** Where in the log area the next byte goes. */
  function TailPos(g: Geometry, h: Header): int {
    g.SectorToAddr(h.num, h.offset) - g.addr - HEADER_SIZE
  }

  /** The stored header describes a log area that holds the newest bytes flushed. */
  ghost predicate Describes(g: Geometry, h: Header, area: seq<byte>, flushed: seq<byte>) {
    && g.InRange(h.num) && h.offset < g.sector
    && 0 <= TailPos(g, h) < |area|
    && h.writtenSize == Min(|flushed|, |area|)
    && Holds(area, TailPos(g, h), flushed)
  }

  ghost predicate Consistent(g: Geometry, flash: seq<byte>, flushed: seq<byte>) {
    && |flash| == g.size >= HEADER_SIZE
    && if HasMagic(flash) then Describes(g, DecodeHeader(flash), flash[HEADER_SIZE..], flushed) else flushed == []
  }

  /** The little-endian number in the four bytes from index at on. */
  function Number(s: seq<byte>, at: nat): (n: nat)
    requires at + 4 <= |s|
  {
    s[at] as int + 256 * s[at + 1] as int + 65536 * s[at + 2] as int + 16777216 * s[at + 3] as int
  }

  lemma NumberIs(s: seq<byte>, at: nat)
    requires at + 4 <= |s|
    ensures FromLe32(s[at..at + 4]) == Number(s, at)
  {
  }

  /** Where the fields of a stored header are. */
  lemma HeaderFields(s: seq<byte>)
    requires |s| >= HEADER_SIZE
    ensures var h := DecodeHeader(s);
            && h.magic == s[..4] && h.fileSize == Number(s, 4) && h.writtenSize == Number(s, 8)
            && h.num == Number(s, 12) && h.offset == Number(s, 16) && h.checksum == Number(s, 20)
  {
    hide Number, FromLe32;
    NumberIs(s, 4);
    NumberIs(s, 8);
    NumberIs(s, 12);
    NumberIs(s, 16);
    NumberIs(s, 20);
  }

  /** What flash says of its log: how much of it there is, and the sector and offset where it ends. */
  lemma StoredHeader(g: Geometry, flash: seq<byte>, flushed: seq<byte>)
    requires Consistent(g, flash, flushed) && HasMagic(flash)
    ensures |flash| == g.size >= 24 && flash[0] == 76 && flash[1] == 79 && flash[2] == 71
    ensures Number(flash, 8) == Min(|flushed|, g.size - 24)
    ensures var tail := Number(flash, 12) * g.sector + Number(flash, 16) - g.addr - 24;
            0 <= tail < g.size - 24 && Holds(flash[24..], tail, flushed)
  {
    hide Number, DecodeHeader, Holds;
    HeaderFields(flash);
  }

  // ----- sector writes -----

  function Erased(n: nat): (s: seq<byte>)
    ensures |s| == n
  {
    seq(n, i => 255)
  }

  lemma PatchedSlice(f: seq<byte>, at: nat, data: seq<byte>)
    requires at + |data| <= |f|
    ensures Patch(f, at, data)[at..at + |data|] == data
  {
  }

  lemma PatchedPrefix(f: seq<byte>, at: nat, data: seq<byte>)
    requires at + |data| <= |f|
    ensures Patch(f, at, data)[..at] == f[..at]
  {
  }

  /** Read-modify-write of a sector changes only the bytes modified. */
  lemma RewriteSector(f: seq<byte>, base: nat, sector: nat, offset: nat, data: seq<byte>)
    requires base + sector <= |f| && offset + |data| <= sector
    ensures Patch(Patch(f, base, Erased(sector)), base, Patch(f[base..base + sector], offset, data))
         == Patch(f, base + offset, data)
  {
  }

  /** The two-sector buffer after the old sector was loaded and data copied behind it. */
  ghost predicate Prepared(f: seq<byte>, base: nat, sector: nat, offset: nat, data: seq<byte>, buf: seq<byte>)
    requires base + sector <= |f|
  {
    && |buf| == 2 * sector && offset < sector && offset + |data| <= 2 * sector
    && buf[..offset] == f[base..base + offset]
    && buf[offset..offset + |data|] == data
    && (offset + |data| <= sector ==> buf[offset + |data|..sector] == f[base + offset + |data|..base + sector])
  }

  lemma PreparedByCopy(f: seq<byte>, base: nat, sector: nat, offset: nat, data: seq<byte>, buf: seq<byte>)
    requires base + sector <= |f| && |buf| == 2 * sector
    requires offset < sector && offset + |data| <= 2 * sector
    requires buf[..sector] == f[base..base + sector]
    ensures Prepared(f, base, sector, offset, data, Patch(buf, offset, data))
  {
    forall k | 0 <= k < sector ensures buf[k] == f[base + k] {
      assert buf[..sector][k] == f[base..base + sector][k];
    }
  }

  /** Flash after _iot_log_file_write_data, by index relative to the start of flash. */
  function DataWritten(f: seq<byte>, base: nat, sector: nat, buf: seq<byte>, writeSize: nat): (r: seq<byte>)
    requires base + sector <= |f| && |buf| == 2 * sector && writeSize <= 2 * sector
    requires HEADER_SIZE + (writeSize - sector) <= sector && sector <= |f|
    requires base + sector < |f| ==> base + 2 * sector <= |f|
    ensures |r| == |f|
  {
    var f1 := Patch(f, base, buf[..sector]);
    if writeSize <= sector then f1
    else if base + sector == |f| then Patch(f1, HEADER_SIZE, buf[sector..writeSize])
    else Patch(f1, base + sector, buf[sector..writeSize])
  }

  /** Byte i of flash after storing data circularly from index p on. */
  function StoredByte(f: seq<byte>, p: nat, data: seq<byte>, i: nat): byte
    requires i < |f| && HEADER_SIZE <= p <= |f| && |data| + HEADER_SIZE <= |f|
  {
    if p <= i < p + |data| then data[i - p]
    else if HEADER_SIZE <= i && i + |f| < p + |data| + HEADER_SIZE then data[i + |f| - HEADER_SIZE - p]
    else f[i]
  }

  /** The buffer byte by byte. */
  lemma PreparedAt(f: seq<byte>, base: nat, sector: nat, offset: nat, data: seq<byte>, buf: seq<byte>, k: nat)
    requires base + sector <= |f| && Prepared(f, base, sector, offset, data, buf)
    requires k < sector || k < offset + |data|
    ensures buf[k] == if offset <= k < offset + |data| then data[k - offset] else f[base + k]
  {
    var n := |data|;
    if k < offset {
      assert buf[..offset][k] == f[base..base + offset][k];
    } else if k < offset + n {
      assert buf[offset..offset + n][k - offset] == data[k - offset];
    } else {
      assert buf[offset + n..sector][k - offset - n] == f[base + offset + n..base + sector][k - offset - n];
    }
  }

  lemma WrittenByte(f: seq<byte>, base: nat, sector: nat, offset: nat, data: seq<byte>, buf: seq<byte>, i: nat)
    requires base + sector <= |f| && HEADER_SIZE <= sector && (base == 0 || base >= sector) && i < |f|
    requires base + sector < |f| ==> base + 2 * sector <= |f|
    requires Prepared(f, base, sector, offset, data, buf)
    requires HEADER_SIZE + |data| <= sector && HEADER_SIZE <= base + offset
    ensures DataWritten(f, base, sector, buf, offset + |data|)[i] == StoredByte(f, base + offset, data, i)
  {
    hide Patch;
    var n, f1 := offset + |data|, Patch(f, base, buf[..sector]);
    var next := if base + sector == |f| then HEADER_SIZE as int else base + sector;
    if n > sector {
      assert DataWritten(f, base, sector, buf, n) == Patch(f1, next, buf[sector..n]);
      if next <= i < next + n - sector {
        PreparedAt(f, base, sector, offset, data, buf, i - next + sector);
        return;
      }
    }
    if base <= i < base + sector {
      PreparedAt(f, base, sector, offset, data, buf, i - base);
    }
  }

  /** Writing one or two sectors stores data circularly in the log area and leaves the header alone. */
  lemma WritesAreOverlay(f: seq<byte>, base: nat, sector: nat, offset: nat, data: seq<byte>, buf: seq<byte>)
    requires base + sector <= |f| && HEADER_SIZE <= sector && (base == 0 || base >= sector)
    requires base + sector < |f| ==> base + 2 * sector <= |f|
    requires Prepared(f, base, sector, offset, data, buf)
    requires HEADER_SIZE + |data| <= sector && HEADER_SIZE <= base + offset
    ensures var r := DataWritten(f, base, sector, buf, offset + |data|);
            && r[..HEADER_SIZE] == f[..HEADER_SIZE]
            && r[HEADER_SIZE..] == Overlay(f[HEADER_SIZE..], base + offset - HEADER_SIZE, data)
  {
    hide DataWritten;
    var r := DataWritten(f, base, sector, buf, offset + |data|);
    forall i | 0 <= i < |f| ensures r[i] == StoredByte(f, base + offset, data, i) {
      WrittenByte(f, base, sector, offset, data, buf, i);
    }
  }

  /** _iot_log_file_update_header's new tail for n more bytes. */
  function NewTail(g: Geometry, h: Header, n: nat): (t: (int, int))
    requires g.sector > 0
  {
    var a := g.SectorToAddr(h.num, h.offset) + n;
    if a >= g.MaxAddr() then (g.FirstSector(), (a + HEADER_SIZE) % g.sector)
    else (a / g.sector, a % g.sector)
  }

  /** The new tail lies in the log area, one circular advance on. */
  lemma TailAdvances(g: Geometry, h: Header, n: nat)
    requires g.Valid() && g.InRange(h.num) && h.offset < g.sector && n <= g.ram
    requires 0 <= TailPos(g, h) < g.Capacity()
    ensures var (num, offset) := NewTail(g, h, n);
            && g.InRange(num) && 0 <= offset < g.sector && 0 <= num < TWO_TO_THE_32
            && g.SectorToAddr(num, offset) - g.addr - HEADER_SIZE == Advance(g.Capacity(), TailPos(g, h), n)
            && Advance(g.Capacity(), TailPos(g, h), n) < g.Capacity()
  {
    g.Sizes();
    var a := g.SectorToAddr(h.num, h.offset) + n;
    if a >= g.MaxAddr() {
      g.AddrPastEnd(a + HEADER_SIZE);
      SectorNumberFits(g, g.FirstSector());
    } else {
      g.AddrToSector(a);
      SectorNumberFits(g, a / g.sector);
    }
  }

  lemma SectorNumberFits(g: Geometry, num: int)
    requires g.Valid() && g.InRange(num)
    ensures 0 <= num <= num * g.sector < TWO_TO_THE_32
  {
    Product(num, 0, g.sector);
    AtLeast(num, g.sector);
  }

  /** Appending to an existing log: one circular store behind its tail. */
  lemma AppendFlushed(g: Geometry, h: Header, f: seq<byte>, flushed: seq<byte>, data: seq<byte>, buf: seq<byte>)
    requires g.Valid() && |f| == g.size >= g.sector && |data| <= g.ram
    requires g.InRange(h.num) && h.offset < g.sector && 0 <= TailPos(g, h) < g.Capacity()
    requires Holds(f[HEADER_SIZE..], TailPos(g, h), flushed)
    requires Prepared(f, h.num * g.sector - g.addr, g.sector, h.offset, data, buf)
    requires var base := h.num * g.sector - g.addr;
             base + g.sector < g.size ==> base + 2 * g.sector <= g.size
    ensures var r := DataWritten(f, h.num * g.sector - g.addr, g.sector, buf, h.offset + |data|);
            Holds(r[HEADER_SIZE..], Advance(g.Capacity(), TailPos(g, h), |data|), flushed + data)
  {
    hide Holds, Prepared, Overlay, DataWritten;
    var base := h.num * g.sector - g.addr;
    assert base == 0 || base >= g.sector by {
      g.Sizes();
      Arithmetic.Product(g.FirstSector(), h.num, g.sector);
      Arithmetic.Product(h.num, g.FirstSector(), g.sector);
    }
    WritesAreOverlay(f, base, g.sector, h.offset, data, buf);
    HoldsAppend(f[HEADER_SIZE..], TailPos(g, h), flushed, data);
  }

  /** Starting a log: whatever flash held before does not matter. */
  lemma FirstFlushed(g: Geometry, f: seq<byte>, data: seq<byte>, buf: seq<byte>)
    requires g.Valid() && |f| == g.size >= g.sector && |data| <= g.ram && |buf| == 2 * g.sector
    requires buf[HEADER_SIZE..HEADER_SIZE + |data|] == data
    requires g.sector < g.size ==> 2 * g.sector <= g.size
    ensures var r := DataWritten(f, 0, g.sector, buf, HEADER_SIZE + |data|);
            Holds(r[HEADER_SIZE..], Advance(g.Capacity(), 0, |data|), data)
  {
    var area := DataWritten(f, 0, g.sector, buf, HEADER_SIZE + |data|)[HEADER_SIZE..];
    assert area[..|data|] == data by {
      assert area[..|data|] == buf[HEADER_SIZE..HEADER_SIZE + |data|];
    }
    assert Overlay(area, 0, data) == area;
    HoldsAppend(area, 0, [], data);
    assert [] + data == data;
  }

  /** _iot_log_file_update_header. */
  function UpdatedHeader(g: Geometry, h: Header, n: nat): (r: Header)
    requires g.Valid() && g.InRange(h.num) && h.offset < g.sector && n <= g.ram
    requires 0 <= TailPos(g, h) < g.Capacity()
    ensures r.magic == h.magic
  {
    TailAdvances(g, h, n);
    var (num, offset) := NewTail(g, h, n);
    h.(num := num, offset := offset,
       writtenSize := if h.writtenSize + n <= g.Capacity() then h.writtenSize + n else g.Capacity())
  }

  /** The header written after the data describes the data. */
  lemma HeaderDescribes(g: Geometry, h: Header, n: nat, f: seq<byte>, flushed: seq<byte>)
    requires g.Valid() && g.InRange(h.num) && h.offset < g.sector && n <= g.ram
    requires 0 <= TailPos(g, h) < g.Capacity() && |h.magic| == 4 && HasMagic(h.magic)
    requires |f| == g.size >= g.sector && n <= |flushed|
    requires h.writtenSize == Min(|flushed| - n, g.Capacity())
    requires Holds(f[HEADER_SIZE..], Advance(g.Capacity(), TailPos(g, h), n), flushed)
    ensures Consistent(g, Patch(f, 0, EncodeHeader(UpdatedHeader(g, h, n))), flushed)
    ensures HasMagic(Patch(f, 0, EncodeHeader(UpdatedHeader(g, h, n))))
  {
    hide Holds, Patch, EncodeHeader, DecodeHeader;
    TailAdvances(g, h, n);
    var r := UpdatedHeader(g, h, n);
    PatchedHeader(f, EncodeHeader(r));
    HeaderRoundTrip(r);
    DecodePrefix(Patch(f, 0, EncodeHeader(r)));
    MagicFirst(r, Patch(f, 0, EncodeHeader(r)));
  }

  lemma PatchedHeader(f: seq<byte>, e: seq<byte>)
    requires |e| == HEADER_SIZE <= |f|
    ensures Patch(f, 0, e)[..HEADER_SIZE] == e && Patch(f, 0, e)[HEADER_SIZE..] == f[HEADER_SIZE..]
  {
  }

  /** The header begins with its magic. */
  lemma MagicFirst(h: Header, p: seq<byte>)
    requires |h.magic| == 4 && |p| >= HEADER_SIZE && p[..HEADER_SIZE] == EncodeHeader(h)
    ensures HasMagic(p) <==> HasMagic(h.magic)
  {
    assert p[..4] == p[..HEADER_SIZE][..4] == h.magic;
  }
}
