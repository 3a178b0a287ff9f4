/** The circular log of iot_log_file.c: a RAM buffer, the sector-based flash ring behind it, and
    the reader both are opened with. A log is configured either RAM_ONLY or FLASH_WITH_RAM. */
module LogFile {
  import opened Bytes
  import opened Ring
  import opened FlashLayout
  import Arithmetic

  datatype FileType = RamOnly | FlashWithRam

  datatype HeaderState = Normal | NoMagic

  /** iot_log_file_handle_t. */
  class Handle {
    var startAddr: nat
    var tailAddr: nat
    var curAddr: nat
    var logSize: nat
    var maxLogSize: nat
    var fileType: FileType

    constructor (fileType: FileType)
      ensures this.fileType == fileType
      ensures startAddr == tailAddr == curAddr == logSize == maxLogSize == 0
    {
      this.fileType := fileType;
      startAddr, tailAddr, curAddr, logSize, maxLogSize := 0, 0, 0, 0, 0;
    }
  }

  class Log {
    const kind: FileType
    const g: Geometry
    const buf: array<byte>      // log_buf.buf
    const flash: array<byte>    // the flash region from g.addr on
    const fileBuf: array<byte>  // two sectors of scratch
    var cnt: nat
    var overridden: bool
    var enable: bool
    var syncRequested: bool     // IOT_LOG_FILE_EVENT_SYNC_REQ_BIT
    var fileOpened: bool
    var header: Header
    ghost var history: seq<byte>  // every byte accepted since the log was last emptied
    ghost var flushed: seq<byte>  // those of them that have reached flash

    ghost predicate Shape()
      reads this
    {
      && buf != flash && buf != fileBuf && flash != fileBuf
      && buf.Length == g.ram && 0 < g.ram < 0x8000_0000
      && |header.magic| == 4
      && (kind.FlashWithRam? ==> g.Valid() && g.sector <= g.size == flash.Length && fileBuf.Length == 2 * g.sector)
    }

    ghost predicate Valid()
      reads this, buf, flash
    {
      && Shape()
      && match kind
         case RamOnly =>
           && Holds(buf[..], cnt, history)
           && (overridden <==> |history| > g.ram) && (!overridden ==> cnt == |history|)
         case FlashWithRam =>
           && cnt <= g.ram && !overridden
           && history == flushed + buf[..cnt]
           && (enable ==> g.ram - cnt >= MAX_STRING_SIZE)
           && Consistent(g, flash[..], flushed)
    }

    /** iot_log_file_init over whatever the flash holds. */
    constructor (kind: FileType, g: Geometry, flash: array<byte>, ghost flushed: seq<byte>)
      requires 0 < g.ram < 0x8000_0000
      requires kind.FlashWithRam? ==> g.Valid() && flash.Length == g.size && Consistent(g, flash[..], flushed)
      ensures Valid() && this.kind == kind && this.g == g && this.flash == flash
      ensures fresh(buf) && fresh(fileBuf) && enable && !fileOpened && !syncRequested
      ensures this.flushed == history == if kind.RamOnly? then [] else flushed
    {
      if kind.FlashWithRam? {
        g.Sizes();
      }
      this.kind, this.g, this.flash := kind, g, flash;
      buf := new byte[g.ram](i => 0);
      fileBuf := new byte[2 * g.sector](i => 0);
      cnt, overridden, enable, syncRequested, fileOpened := 0, false, true, false, false;
      header := Header([0, 0, 0, 0], 0, 0, 0, 0, 0);
      history := if kind.RamOnly? then [] else flushed;
      this.flushed := if kind.RamOnly? then [] else flushed;
      new;
      assert kind.FlashWithRam? ==> history == this.flushed + buf[..cnt];
    }

    // ----- storing -----

    /** _iot_log_file_store_char. */
    method StoreChar(c: byte)
      requires Shape()
      modifies `cnt, `overridden, buf
      ensures var i := if old(cnt) >= g.ram then 0 else old(cnt);
              && cnt == i + 1 && overridden == (old(overridden) || old(cnt) >= g.ram)
              && buf[..] == old(buf[..])[i := c]
    {
      var i := cnt;
      if i >= g.ram {
        cnt, overridden, i := 0, true, 0;
      }
      buf[i] := c;
      cnt := cnt + 1;
    }

    method StoreRam(data: seq<byte>)
      requires Valid() && kind.RamOnly?
      modifies `cnt, `overridden, `history, buf
      ensures Valid() && history == old(history) + data
    {
      var i := 0;
      while i < |data|
        invariant 0 <= i <= |data| && Valid() && history == old(history) + data[..i]
      {
        HoldsStoreChar(buf[..], cnt, history, data[i]);
        StoreChar(data[i]);
        history := history + [data[i]];
        i := i + 1;
      }
      assert data[..i] == data;
    }

    method StorePending(data: seq<byte>)
      requires Shape() && cnt + |data| <= g.ram
      modifies `cnt, `overridden, buf
      ensures cnt == old(cnt) + |data| && overridden == old(overridden)
      ensures buf[..cnt] == old(buf[..cnt]) + data
    {
      var i := 0;
      while i < |data|
        invariant 0 <= i <= |data| && cnt == old(cnt) + i && overridden == old(overridden)
        invariant buf[..cnt] == old(buf[..cnt]) + data[..i]
      {
        StoreChar(data[i]);
        assert buf[..cnt] == buf[..cnt - 1] + [data[i]];
        i := i + 1;
      }
      assert data[..i] == data;
    }

    /** iot_log_file_store: an accepted string joins the history; in flash mode a nearly full
        buffer is closed to further strings until it has been flushed. */
    method Store(data: seq<byte>) returns (ret: int)
      requires Valid()
      modifies `cnt, `overridden, `history, `enable, `syncRequested, buf
      ensures Valid()
      ensures ret == if old(enable) && |data| < 128 then |data| else -1
      ensures history == old(history) + (if ret >= 0 then data else [])
      ensures ret < 0 ==> cnt == old(cnt) && enable == old(enable) && syncRequested == old(syncRequested)
      ensures ret >= 0 && kind.FlashWithRam? ==>
                if g.ram - cnt < 128 then !enable && syncRequested
                else enable && syncRequested == old(syncRequested)
      ensures kind.RamOnly? ==> enable == old(enable) && syncRequested == old(syncRequested)
    {
      if !enable || |data| >= MAX_STRING_SIZE {
        assert history == history + [];
        return -1;
      }
      if kind.RamOnly? {
        StoreRam(data);
      } else {
        ghost var pending := buf[..cnt];
        StorePending(data);
        assert flushed + (pending + data) == flushed + pending + data;
        history := history + data;
        if g.ram - cnt < MAX_STRING_SIZE {
          enable, syncRequested := false, true;
        }
      }
      ret := |data|;
    }

    /** iot_log_file_sync: without an event group (RAM_ONLY) it does nothing. */
    method SyncRequest()
      requires Valid()
      modifies `enable, `syncRequested
      ensures Valid()
      ensures kind.FlashWithRam? ==> !enable && syncRequested
      ensures kind.RamOnly? ==> enable == old(enable) && syncRequested == old(syncRequested)
    {
      if kind.FlashWithRam? {
        enable, syncRequested := false, true;
      }
    }

    // ----- flushing to flash -----

    /** iot_log_read_flash. */
    function FlashBytes(addr: nat, n: nat): (s: seq<byte>)
      requires g.addr <= addr && addr + n <= g.addr + flash.Length
      reads flash
    {
      flash[addr - g.addr..addr - g.addr + n]
    }

    /** iot_log_erase_sector. */
    method EraseSector(num: int)
      requires Shape() && kind.FlashWithRam? && g.InRange(num)
      modifies flash
      ensures flash[..] == Patch(old(flash[..]), num * g.sector - g.addr, Erased(g.sector))
    {
      var base := num * g.sector - g.addr;
      forall i | base <= i < base + g.sector {
        flash[i] := 255;
      }
    }

    /** iot_log_write_flash: only an erased region may be written. */
    method WriteFlash(addr: nat, data: seq<byte>)
      requires Shape() && g.addr <= addr && addr + |data| <= g.addr + flash.Length
      requires FlashBytes(addr, |data|) == Erased(|data|)
      modifies flash
      ensures flash[..] == Patch(old(flash[..]), addr - g.addr, data)
    {
      var base := addr - g.addr;
      forall i | base <= i < base + |data| {
        flash[i] := data[i - base];
      }
    }

    /** Erase a sector, then write it whole. */
    method ReplaceSector(num: int, data: seq<byte>)
      requires Shape() && kind.FlashWithRam? && g.InRange(num) && |data| == g.sector
      modifies flash
      ensures flash[..] == Patch(Patch(old(flash[..]), num * g.sector - g.addr, Erased(g.sector)),
                                 num * g.sector - g.addr, data)
    {
      hide Patch, Erased;
      var sectorAddr := g.SectorToAddr(num, 0);
      ghost var f := flash[..];
      EraseSector(num);
      PatchedSlice(f, sectorAddr - g.addr, Erased(g.sector));
      WriteFlash(sectorAddr, data);
    }

    /** _iot_log_file_write_sector. */
    method WriteSector(num: int, offset: nat, data: seq<byte>)
      requires Shape() && kind.FlashWithRam? && g.InRange(num) && offset + |data| <= g.sector
      modifies flash
      ensures flash[..] == Patch(old(flash[..]), num * g.sector - g.addr + offset, data)
    {
      hide Patch, Erased;
      var sectorAddr := g.SectorToAddr(num, 0);
      var sectorBuf := FlashBytes(sectorAddr, g.sector);
      RewriteSector(flash[..], sectorAddr - g.addr, g.sector, offset, data);
      assert FlashBytes(sectorAddr, g.sector) == flash[..][sectorAddr - g.addr..sectorAddr - g.addr + g.sector];
      sectorBuf := Patch(sectorBuf, offset, data);
      ReplaceSector(num, sectorBuf);
    }

    /** The first sector with the current header in front, read into the scratch buffer. */
    method LoadFirstSector()
      requires Shape() && kind.FlashWithRam? && g.size >= g.sector
      modifies fileBuf
      ensures fileBuf[..g.sector] == Patch(flash[..g.sector], 0, EncodeHeader(header))
    {
      hide EncodeHeader;
      var s := FlashBytes(g.addr, g.sector);
      forall i | 0 <= i < g.sector {
        fileBuf[i] := s[i];
      }
      var h := EncodeHeader(header);
      forall i | 0 <= i < HEADER_SIZE {
        fileBuf[i] := h[i];
      }
    }

    /** _iot_log_file_write_header. */
    method WriteHeader()
      requires Shape() && kind.FlashWithRam?
      modifies flash, fileBuf
      ensures flash[..] == Patch(old(flash[..]), 0, EncodeHeader(header))
    {
      hide Patch, Erased, EncodeHeader;
      g.Sizes();
      ghost var f := flash[..];
      LoadFirstSector();
      assert f[0..0 + g.sector] == flash[..g.sector];
      RewriteSector(f, 0, g.sector, 0, EncodeHeader(header));
      ReplaceSector(g.FirstSector(), fileBuf[..g.sector]);
    }

    /** _iot_log_file_init_header; the checksum field is never set. */
    method InitHeader(checksum: uint32) returns (h: Header)
      requires Shape() && kind.FlashWithRam?
      ensures |h.magic| == 4 && HasMagic(h.magic)
      ensures h.writtenSize == 0 && h.num == g.FirstSector() && h.offset == HEADER_SIZE
    {
      FirstHeaderSector();
      SectorNumberFits(g, g.FirstSector());
      h := Header([76, 79, 71, 0], g.size, 0, (g.addr + HEADER_SIZE) / g.sector, HEADER_SIZE, checksum);
    }

    lemma FirstHeaderSector()
      requires g.Valid()
      ensures (g.addr + HEADER_SIZE) / g.sector == g.FirstSector() && g.InRange(g.FirstSector())
      ensures g.FirstSector() * g.sector == g.addr
    {
      g.Sizes();
      g.AddrToSector(g.addr + HEADER_SIZE);
      var q := (g.addr + HEADER_SIZE) / g.sector;
      Arithmetic.Product(q, g.FirstSector(), g.sector);
      Arithmetic.Product(g.FirstSector(), q, g.sector);
    }

    /** _iot_log_file_load_header: the stored header, or a fresh one when there is no magic. */
    method LoadHeader() returns (h: Header, state: HeaderState)
      requires Shape() && kind.FlashWithRam?
      ensures |h.magic| == 4 && HasMagic(h.magic)
      ensures state == if HasMagic(flash[..]) then Normal else NoMagic
      ensures state.Normal? ==> h == DecodeHeader(flash[..]).(fileSize := g.size)
      ensures state.NoMagic? ==> h.writtenSize == 0 && h.num == g.FirstSector() && h.offset == HEADER_SIZE
    {
      var s := FlashBytes(g.addr, HEADER_SIZE);
      h := DecodeHeader(s);
      DecodePrefix(flash[..]);
      assert s == flash[..][..HEADER_SIZE] && h.magic == flash[..][..4];
      if HasMagic(h.magic) {
        state := Normal;
        if h.fileSize != g.size {
          h := h.(fileSize := g.size);
        }
      } else {
        h := InitHeader(h.checksum);
        state := NoMagic;
      }
    }

    /** _iot_log_file_load_old_data. */
    method LoadOldData(state: HeaderState) returns (writeSize: nat)
      requires Shape() && kind.FlashWithRam? && g.InRange(header.num)
      requires state.NoMagic? ==> header.offset == HEADER_SIZE
      modifies fileBuf
      ensures writeSize == header.offset
      ensures state.Normal? ==> fileBuf[..g.sector] == FlashBytes(header.num * g.sector, g.sector)
      ensures state.NoMagic? ==> fileBuf[..HEADER_SIZE] == EncodeHeader(header)
    {
      hide EncodeHeader;
      var s := if state.Normal? then FlashBytes(header.num * g.sector, g.sector) else EncodeHeader(header);
      writeSize := if state.Normal? then header.offset else HEADER_SIZE;
      forall i | 0 <= i < |s| {
        fileBuf[i] := s[i];
      }
    }

    /** _iot_log_file_copy_buf. */
    method CopyBuf(offset: nat, n: nat)
      requires Shape() && kind.FlashWithRam? && n <= g.ram && offset < g.sector
      modifies fileBuf
      ensures fileBuf[..] == Patch(old(fileBuf[..]), offset, buf[..n])
    {
      forall i | 0 <= i < n {
        fileBuf[offset + i] := buf[i];
      }
    }

    /** The tail sector with the RAM buffer's n bytes behind it. What lies behind a fresh header
        is left over from before. */
    method PrepareFileBuf(state: HeaderState, n: nat) returns (writeSize: nat)
      requires Shape() && kind.FlashWithRam? && n <= g.ram
      requires g.InRange(header.num) && header.offset < g.sector
      requires state.NoMagic? ==> header.offset == HEADER_SIZE
      modifies fileBuf
      ensures writeSize == header.offset + n <= 2 * g.sector
      ensures fileBuf[header.offset..writeSize] == buf[..n]
      ensures state.Normal? ==>
                Prepared(flash[..], header.num * g.sector - g.addr, g.sector, header.offset, buf[..n], fileBuf[..])
      ensures state.NoMagic? ==> fileBuf[..HEADER_SIZE] == EncodeHeader(header)
    {
      hide EncodeHeader, Prepared, Patch;
      writeSize := LoadOldData(state);
      ghost var b, base := fileBuf[..], header.num * g.sector - g.addr;
      CopyBuf(header.offset, n);
      PatchedSlice(b, header.offset, buf[..n]);
      PatchedPrefix(b, header.offset, buf[..n]);
      if state.Normal? {
        PreparedByCopy(flash[..], base, g.sector, header.offset, buf[..n], b);
      }
      writeSize := writeSize + n;
    }

    /** _iot_log_file_write_data: one sector, or two when the data straddles a boundary. */
    method WriteData(num: int, writeSize: nat)
      requires Shape() && kind.FlashWithRam? && g.InRange(num) && writeSize < g.sector + g.ram
      modifies flash
      ensures var base := num * g.sector - g.addr;
              && (base + g.sector < g.size ==> base + 2 * g.sector <= g.size)
              && flash[..] == DataWritten(old(flash[..]), base, g.sector, fileBuf[..], writeSize)
    {
      hide Patch;
      g.Next(num);
      if writeSize <= g.sector {
        WriteSector(num, 0, fileBuf[..g.sector]);
      } else {
        WriteSector(num, 0, fileBuf[..g.sector]);
        var next := g.NextSector(num);
        if g.SectorToAddr(next, 0) != g.addr {
          WriteSector(next, 0, fileBuf[g.sector..writeSize]);
        } else {
          WriteSector(next, HEADER_SIZE, fileBuf[g.sector..writeSize]);
        }
      }
    }

    /** Steps 1 to 4 of _iot_log_file_manager: the pending bytes are in the log area, the stored
        header still describes the log without them. */
    method FlushPending()
      requires Valid() && kind.FlashWithRam?
      modifies flash, fileBuf, `header
      ensures Shape() && HasMagic(header.magic)
      ensures g.InRange(header.num) && header.offset < g.sector && 0 <= TailPos(g, header) < g.Capacity()
      ensures header.writtenSize == Min(|flushed|, g.Capacity())
      ensures Holds(flash[HEADER_SIZE..], Advance(g.Capacity(), TailPos(g, header), cnt), history)
    {
      hide Holds, Prepared, DataWritten, EncodeHeader, DecodeHeader;
      var state;
      header, state := LoadHeader();
      FirstHeaderSector();
      ghost var f := flash[..];
      assert f[HEADER_SIZE..] == flash[HEADER_SIZE..];
      var writeSize := PrepareFileBuf(state, cnt);
      WriteData(header.num, writeSize);
      if state.Normal? {
        AppendFlushed(g, header, f, flushed, buf[..cnt], fileBuf[..]);
      } else {
        FirstFlushed(g, f, buf[..cnt], fileBuf[..]);
        assert history == buf[..cnt];
      }
      assert flash[..][HEADER_SIZE..] == flash[HEADER_SIZE..];
    }

    /** _iot_log_file_manager, one pass: afterwards everything accepted is in flash and the buffer
        is empty. */
    method Manager()
      requires Valid() && kind.FlashWithRam?
      modifies flash, fileBuf, `header, `cnt, `overridden, `enable, `flushed
      ensures Valid() && flushed == history && cnt == 0 && HasMagic(flash[..])
      ensures enable == (old(enable) || !fileOpened)
      ensures flash[0] == 76 && flash[1] == 79 && flash[2] == 71
      ensures Number(flash[..], 8) == Min(|history|, g.size - 24)
      ensures var tail := Number(flash[..], 12) * g.sector + Number(flash[..], 16) - g.addr - 24;
              0 <= tail < g.size - 24 && Holds(flash[24..], tail, history)
    {
      hide Holds, EncodeHeader, Number, Consistent, Describes;
      FlushPending();
      assert flash[..][HEADER_SIZE..] == flash[HEADER_SIZE..];
      HeaderDescribes(g, header, cnt, flash[..], history);
      header := UpdatedHeader(g, header, cnt);
      WriteHeader();
      ClearBuf();
      flushed := history;
      assert flushed + buf[..0] == flushed;
      StoredHeader(g, flash[..], flushed);
      assert flash[..][24..] == flash[24..];
    }

    /** _iot_log_file_clear_buf. */
    method ClearBuf()
      modifies `cnt, `overridden, `enable
      ensures cnt == 0 && !overridden && enable == (old(enable) || !fileOpened)
    {
      cnt, overridden := 0, false;
      if !fileOpened {
        enable := true;
      }
    }

    /** One turn of _iot_log_file_task: a request is consumed, and acted on unless a reader is open. */
    method TaskTurn()
      requires Valid() && kind.FlashWithRam?
      modifies flash, fileBuf, `header, `cnt, `overridden, `enable, `flushed, `syncRequested
      ensures Valid() && !syncRequested
      ensures old(syncRequested) && !fileOpened ==> flushed == history && cnt == 0 && enable
      ensures !(old(syncRequested) && !fileOpened) ==>
                flushed == old(flushed) && cnt == old(cnt) && enable == old(enable) && flash[..] == old(flash[..])
    {
      if syncRequested {
        syncRequested := false;
        if !fileOpened {
          Manager();
        }
      }
    }

    // ----- reading -----

    /** The cells a reader goes round. */
    ghost function Area(): seq<byte>
      requires Shape()
      reads this, buf, flash
    {
      if kind.RamOnly? then buf[..] else flash[HEADER_SIZE..]
    }

    /** The bytes a reader is to find there, oldest first. */
    ghost function Stored(): seq<byte>
      reads this
    {
      if kind.RamOnly? then history else flushed
    }

    /** The cell the next byte goes to. */
    ghost function Tail(): int
      requires Shape()
      reads this, flash
    {
      if kind.RamOnly? then cnt else TailPos(g, DecodeHeader(flash[..]))
    }

    function AreaStart(): nat {
      if kind.RamOnly? then 0 else g.addr + HEADER_SIZE
    }

    /** The handle belongs to the log as it is now. */
    ghost predicate Reading(h: Handle)
      reads this, buf, flash, h
    {
      Attached(h) && h.startAddr <= h.curAddr <= h.startAddr + h.logSize
    }

    ghost predicate Attached(h: Handle)
      reads this, buf, flash, h`fileType, h`startAddr, h`tailAddr, h`logSize
    {
      && Shape() && h.fileType == kind && h.startAddr == AreaStart()
      && h.tailAddr == AreaStart() + Tail() && 0 <= Tail() && Holds(Area(), Tail(), Stored())
      && h.logSize == Min(|Stored()|, |Area()|)
    }

    /** What a reader sees, and where in it the handle stands. */
    ghost function View(): seq<byte>
      requires Shape()
      reads this, buf, flash
    {
      File(Area(), Stored())
    }

    method OpenRam() returns (h: Handle)
      requires Valid() && kind.RamOnly?
      modifies `enable
      ensures Valid() && !enable
      ensures View() == old(View()) && Tail() == old(Tail()) && Stored() == old(Stored())
      ensures fresh(h) && Reading(h) && OpenedAt(h)
    {
      hide Holds, Stream;
      HoldsBounds(buf[..], cnt, history);
      enable := false;
      h := new Handle(RamOnly);
      h.startAddr, h.maxLogSize, h.tailAddr := 0, g.ram, cnt;
      if overridden {
        h.logSize, h.curAddr := g.ram, h.tailAddr;
      } else {
        h.logSize, h.curAddr := cnt, h.startAddr;
      }
    }

    method OpenFlash() returns (h: Handle?)
      requires Valid() && kind.FlashWithRam?
      modifies `fileOpened
      ensures Valid() && fileOpened == (h != null)
      ensures View() == old(View()) && Tail() == old(Tail()) && Stored() == old(Stored())
      ensures h == null <==> !HasMagic(flash[..])
      ensures h != null ==> fresh(h) && Reading(h) && OpenedAt(h)
    {
      hide Holds, Stream, DecodeHeader;
      assert flash[..][HEADER_SIZE..] == flash[HEADER_SIZE..];
      fileOpened := true;
      var header, state := LoadHeader();
      if !state.Normal? {
        fileOpened := false;
        return null;
      }
      HoldsBounds(flash[HEADER_SIZE..], TailPos(g, header), flushed);
      var hd := new Handle(FlashWithRam);
      hd.startAddr, hd.maxLogSize := g.addr + HEADER_SIZE, g.size - HEADER_SIZE;
      hd.tailAddr := g.SectorToAddr(header.num, header.offset);
      if header.writtenSize < hd.maxLogSize {
        hd.curAddr := hd.startAddr;
      } else {
        hd.curAddr := hd.tailAddr;
      }
      hd.logSize := header.writtenSize;
      h := hd;
    }

    /** The reader stands at the oldest byte still held. */
    ghost predicate OpenedAt(h: Handle)
      requires Shape()
      reads this, buf, flash, h
    {
      && h.startAddr <= h.curAddr
      && var off, pos := h.curAddr - h.startAddr, h.tailAddr - h.startAddr;
      || (off == pos && |Stored()| >= |Area()|)
      || (off == 0 && (|Stored()| < |Area()| || pos == |Area()|))
    }

    /** iot_log_file_open. A flash log without a header cannot be opened. While a RAM log is open
        nothing more is stored; while a flash log is open nothing more is flushed. */
    method Open(fileType: FileType) returns (h: Handle?)
      requires Valid()
      modifies `enable, `fileOpened
      ensures Valid()
      ensures View() == old(View()) && Tail() == old(Tail()) && Stored() == old(Stored())
      ensures h == null <==> fileType != kind || (kind.FlashWithRam? && !HasMagic(flash[..]))
      ensures h != null ==> fresh(h) && Reading(h) && OpenedAt(h) && h.logSize == |View()|
      ensures h != null ==> h.startAddr <= h.curAddr <= h.startAddr + |View()|
      ensures h != null && |View()| > 0 ==>
                Stream(View(), h.curAddr - h.startAddr, |View()|) == LastN(Stored(), |View()|)
      ensures h != null && kind.RamOnly? ==> !enable
      ensures h != null && kind.FlashWithRam? ==> fileOpened && enable == old(enable)
    {
      hide Holds, Stream, Consistent, Reading, OpenedAt, Area, Stored, View, LastN;
      if fileType != kind {
        return null;
      }
      if kind.RamOnly? {
        h := OpenRam();
      } else {
        h := OpenFlash();
      }
      if h != null {
        OpenedReads(h);
      }
    }

    lemma OpenedReads(h: Handle)
      requires Reading(h) && OpenedAt(h)
      ensures |View()| == h.logSize && h.startAddr <= h.curAddr <= h.startAddr + |View()|
      ensures |View()| > 0 ==>
                Stream(View(), h.curAddr - h.startAddr, |View()|) == LastN(Stored(), |View()|)
    {
      hide Holds, Stream;
      if |View()| > 0 {
        OpenedAtOldest(Area(), h.tailAddr - h.startAddr, Stored(), h.curAddr - h.startAddr);
      }
    }

    /** Reads of any sizes that add up to the file deliver, in order, the last bytes logged that the
        ring can hold: of the whole history in RAM mode, of what was flushed in flash mode. */
    lemma ReadsNewest(h: Handle, sizes: seq<nat>)
      requires Valid() && Reading(h) && OpenedAt(h) && |View()| > 0 && Total(View(), sizes) == |View()|
      ensures h.curAddr - h.startAddr <= |View()|
      ensures ReadAll(View(), h.curAddr - h.startAddr, sizes) ==
              if kind.RamOnly? then LastN(history, Min(|history|, g.ram))
              else LastN(flushed, Min(|flushed|, g.Capacity()))
    {
      hide Holds, Stream, ReadAll, Total, LastN, Consistent;
      if kind.FlashWithRam? {
        g.Sizes();
      }
      ReadEverything(Area(), h.tailAddr - h.startAddr, Stored(), h.curAddr - h.startAddr, sizes);
    }

    lemma HoldsBounds(cells: seq<byte>, pos: nat, history: seq<byte>)
      requires Holds(cells, pos, history)
      ensures pos <= |cells| && (|history| < |cells| ==> pos == |history|)
    {
    }

    /** _iot_log_read_bytes, into the caller's buffer. */
    method ReadBytes(addr: nat, n: nat, buffer: array<byte>, at: nat)
      requires Shape() && AreaStart() <= addr && addr - AreaStart() + n <= |Area()|
      requires at + n <= buffer.Length && buffer != buf && buffer != flash
      modifies buffer
      ensures Area() == old(Area())
      ensures buffer[..] == Patch(old(buffer[..]), at, Area()[addr - AreaStart()..addr - AreaStart() + n])
    {
      var s := if kind.RamOnly? then buf[addr..addr + n] else FlashBytes(addr, n);
      assert s == Area()[addr - AreaStart()..addr - AreaStart() + n];
      forall i | 0 <= i < n {
        buffer[at + i] := s[i];
      }
    }

    /** The read that reaches the end of the file and goes on at its start, for one round at most. */
    method ReadRound(start: nat, logSize: nat, offsetSize: nat, buffer: array<byte>, at: nat, n: nat)
      returns (curAddr: nat, readSize: nat)
      requires Shape() && start == AreaStart() && offsetSize <= logSize <= |Area()| && logSize < offsetSize + n
      requires at + n <= buffer.Length && buffer != buf && buffer != flash
      modifies buffer
      ensures Area() == old(Area())
      ensures curAddr - start == Min(n - (logSize - offsetSize), offsetSize) <= logSize
      ensures readSize == logSize - offsetSize + (curAddr - start) <= n
      ensures buffer[..] == Patch(old(buffer[..]), at, Area()[offsetSize..logSize] + Area()[..curAddr - start])
    {
      hide Patch, Area;
      ghost var b := buffer[..];
      var sizeToRead := logSize - offsetSize;
      ReadBytes(start + offsetSize, sizeToRead, buffer, at);
      var remain := n - sizeToRead;
      if remain > offsetSize {
        remain := offsetSize;
      }
      ReadBytes(start, remain, buffer, at + sizeToRead);
      assert Area()[0..remain] == Area()[..remain];
      PatchTwice(b, at, Area()[offsetSize..logSize], Area()[..remain]);
      curAddr, readSize := start + remain, sizeToRead + remain;
    }

    /** What the two branches of a read deliver. */
    lemma DeliveredBytes(area: seq<byte>, file: seq<byte>, off: nat, n: nat)
      requires file <= area && off <= |file|
      ensures off + n <= |file| ==>
                area[off..off + n] == DeliveredData(file, off, n) && n == Delivered(file, n)
      ensures off + n > |file| ==>
                var m := NextOffset(file, off, n);
                && area[off..|file|] + area[..m] == DeliveredData(file, off, n)
                && |file| - off + m == Delivered(file, n)
    {
      if |file| > 0 {
        if off + n <= |file| {
          StreamStraight(file, off, n);
          assert area[off..off + n] == file[off..off + n];
        } else {
          var m := NextOffset(file, off, n);
          StreamAround(file, off, m);
          assert area[off..|file|] == file[off..] && area[..m] == file[..m];
        }
      }
    }

    /** The two branches of a read, over the first logSize cells. */
    method ReadFile(curAddr: nat, logSize: nat, buffer: array<byte>, at: nat, n: nat) returns (cur: nat, readSize: nat)
      requires Shape() && logSize <= |Area()| && AreaStart() <= curAddr <= AreaStart() + logSize
      requires at + n <= buffer.Length && buffer != buf && buffer != flash
      modifies buffer
      ensures Area() == old(Area())
      ensures var file, off := Area()[..logSize], curAddr - AreaStart();
              && readSize == Delivered(file, n)
              && cur == AreaStart() + NextOffset(file, off, n)
              && buffer[..] == Patch(old(buffer[..]), at, DeliveredData(file, off, n))
    {
      hide DeliveredData, Delivered, Patch, Log.Area, Log.AreaStart;
      var start := AreaStart();
      ghost var area := Area();
      DeliveredBytes(area, area[..logSize], curAddr - start, n);
      if curAddr + n <= start + logSize {
        ReadBytes(curAddr, n, buffer, at);
        cur, readSize := curAddr + n, n;
      } else {
        cur, readSize := ReadRound(start, logSize, curAddr - start, buffer, at, n);
      }
    }

    lemma ReadingFacts(h: Handle)
      requires Reading(h)
      ensures Shape() && h.startAddr == AreaStart()
      ensures View() == Area()[..h.logSize] && h.logSize <= |Area()|
    {
    }

    lemma DeliveredWithin(file: seq<byte>, off: nat, n: nat)
      requires off <= |file|
      ensures NextOffset(file, off, n) <= |file|
    {
    }

    /** iot_log_file_read: min(n, file size) bytes round the file. */
    method Read(h: Handle, buffer: array<byte>, at: nat, n: nat) returns (readSize: nat)
      requires Reading(h) && at + n <= buffer.Length && h.curAddr + n < TWO_TO_THE_32
      requires buffer != buf && buffer != flash
      modifies buffer, h`curAddr
      ensures Reading(h) && View() == old(View())
      ensures readSize == Delivered(View(), n)
      ensures h.curAddr - h.startAddr == NextOffset(View(), old(h.curAddr) - h.startAddr, n)
      ensures buffer[..] == Patch(old(buffer[..]), at, DeliveredData(View(), old(h.curAddr) - h.startAddr, n))
    {
      hide Delivered, DeliveredData, NextOffset, Patch, File, Log.Area, Log.AreaStart,
           Log.Attached, Log.View, Log.Shape;
      ReadingFacts(h);
      DeliveredWithin(View(), h.curAddr - h.startAddr, n);
      var cur;
      cur, readSize := ReadFile(h.curAddr, h.logSize, buffer, at, n);
      h.curAddr := cur;
    }

    /** iot_log_file_seek. */
    method Seek(h: Handle, seekOffset: int, origin: nat) returns (err: bool)
      requires Reading(h)
      modifies h`curAddr
      ensures Reading(h) && View() == old(View())
      ensures err == (h.logSize == 0)
      ensures !err ==> h.curAddr - h.startAddr == SeekOffset(origin - h.startAddr, seekOffset, h.logSize)
      ensures err ==> h.curAddr == old(h.curAddr)
    {
      if h.logSize == 0 {
        return true;
      }
      h.curAddr := h.startAddr + SeekOffset(origin - h.startAddr, seekOffset, h.logSize);
      err := false;
    }

    /** iot_log_file_close. */
    method Close(h: Handle)
      requires Valid() && h.fileType == kind
      modifies `enable, `fileOpened
      ensures Valid()
      ensures kind.RamOnly? ==> enable && fileOpened == old(fileOpened)
      ensures kind.FlashWithRam? ==> !fileOpened && enable == old(enable)
    {
      if h.fileType == FlashWithRam {
        fileOpened := false;
      } else {
        enable := true;
      }
    }

    /** Every sector of the region is erased. */
    method EraseAll()
      requires Shape() && kind.FlashWithRam?
      modifies flash
      ensures !HasMagic(flash[..])
      ensures forall k :: 0 <= k < flash.Length ==> flash[k] == 255
    {
      var eraseAddr, i := g.addr, 0;
      g.Sizes();
      var sectors := g.size / g.sector;
      Arithmetic.ExactQuotient(g.size, g.sector);
      while i < sectors
        invariant 0 <= i <= sectors && eraseAddr == g.addr + i * g.sector
        invariant forall k :: 0 <= k < flash.Length && k < i * g.sector ==> flash[k] == 255
      {
        hide HasMagic;
        SectorStart(eraseAddr, i, sectors);
        EraseNumber(eraseAddr / g.sector);
        Arithmetic.Product(i, i, g.sector);
        eraseAddr, i := eraseAddr + g.sector, i + 1;
      }
    }

    /** Erasing a sector extends the erased part before it. */
    method EraseNumber(num: int)
      requires Shape() && kind.FlashWithRam? && g.InRange(num) && flash.Length > 0
      requires forall k :: 0 <= k < num * g.sector - g.addr ==> flash[k] == 255
      modifies flash
      ensures forall k :: 0 <= k < flash.Length && k < num * g.sector - g.addr + g.sector ==> flash[k] == 255
    {
      EraseSector(num);
      forall k | 0 <= k < flash.Length && k < num * g.sector - g.addr + g.sector ensures flash[k] == 255 {
        assert flash[..][k] == flash[k];
      }
    }

    lemma SectorStart(a: nat, i: nat, sectors: nat)
      requires g.Valid() && a == g.addr + i * g.sector && i < sectors && sectors * g.sector == g.size
      ensures a / g.sector * g.sector == a && g.InRange(a / g.sector)
    {
      g.Sizes();
      SectorIndex(a, g.addr, g.FirstSector(), i, g.sector);
      Arithmetic.Product(i, sectors, g.sector);
    }

    static lemma SectorIndex(a: nat, addr: nat, first: int, i: nat, sector: nat)
      requires sector > 0 && first * sector == addr && a == addr + i * sector
      ensures a / sector == first + i && a / sector * sector == a
    {
      assert (first + i) * sector == first * sector + i * sector;
      Arithmetic.UniqueDivision(a, sector, first + i, 0);
    }

    /** iot_log_file_remove: a new log begins, with the bytes still in RAM in flash mode. */
    method Remove() returns (ok: bool)
      requires Valid()
      modifies flash, `cnt, `overridden, `enable, `history, `flushed
      ensures Valid()
      ensures ok <==> kind.RamOnly? || !fileOpened
      ensures !ok ==> history == old(history) && flushed == old(flushed) && flash[..] == old(flash[..])
      ensures ok ==> flushed == [] && history == if kind.RamOnly? then [] else old(buf[..cnt])
      ensures kind.RamOnly? ==> cnt == 0 && enable == (old(enable) || !fileOpened)
      ensures kind.FlashWithRam? ==> cnt == old(cnt) && enable == old(enable)
      ensures kind.FlashWithRam? && ok ==> forall k :: 0 <= k < flash.Length ==> flash[k] == 255
    {
      if kind.RamOnly? {
        ClearBuf();
        history, flushed := [], [];
        return true;
      }
      if fileOpened {
        return false;
      }
      EraseAll();
      flushed, history := [], buf[..cnt];
      assert flushed + buf[..cnt] == buf[..cnt];
      ok := true;
    }
  }
}
