/**
 * The SPI flash driver (src/drivers/spiflash.c): writes split at page ends, and erases that skip clean
 * sectors, against a chip whose page program wraps around inside a page.
 */
module SpiFlash {
  import opened ErrorDef
  import opened Flash
  import opened Layout

  const PAGE: nat := 0x100
  const SECTOR_4K: nat := 0x1000
  const BUFFER_SIZE: nat := 0x400
  const READ_BUFFER_SIZE: nat := BUFFER_SIZE - 4

  // ---------------------------------------------------------------- the chip

  /** Where byte i of a page program that starts at addr goes: it never leaves the page. */
  function Target(addr: nat, i: nat): (t: nat)
    ensures addr - addr % PAGE <= t < addr - addr % PAGE + PAGE
  {
    addr - addr % PAGE + (addr % PAGE + i) % PAGE
  }

  function AndAt(s: seq<byte>, i: nat, b: byte): (r: seq<byte>)
    ensures |r| == |s|
  {
    if i < |s| then s[i := s[i] & b] else s
  }

  /** The memory after a page program command. */
  function PageProgrammed(s: seq<byte>, addr: nat, data: seq<byte>): (r: seq<byte>)
    ensures |r| == |s|
  {
    if data == [] then s
    else
      var n := |data| - 1;
      AndAt(PageProgrammed(s, addr, data[..n]), Target(addr, n), data[n])
  }

  /** The memory after an erase of the sector that addr lies in. */
  function SectorErased(s: seq<byte>, addr: nat): (r: seq<byte>)
    ensures |r| == |s|
    ensures forall i :: 0 <= i < |s| ==> r[i] == if i / SECTOR_4K == addr / SECTOR_4K then 0xFF else s[i]
  {
    seq(|s|, i requires 0 <= i < |s| => if i / SECTOR_4K == addr / SECTOR_4K then 0xFF else s[i])
  }

  class Chip {
    const mem: array<byte>

    constructor (m: array<byte>)
      ensures mem == m
    {
      mem := m;
    }

    method PageProgram(addr: nat, data: seq<byte>)
      requires addr < mem.Length && mem.Length % PAGE == 0 && |data| <= PAGE
      modifies mem
      ensures mem[..] == PageProgrammed(old(mem[..]), addr, data)
    {
      ghost var was := mem[..];
      var i := 0;
      while i < |data|
        invariant i <= |data| && mem[..] == PageProgrammed(was, addr, data[..i])
      {
        TargetInside(addr, i, mem.Length);
        NextInPage(was, addr, data, i);
        ghost var before := mem[..];
        mem[Target(addr, i)] := mem[Target(addr, i)] & data[i];
        assert mem[..] == AndAt(before, Target(addr, i), data[i]);
        i := i + 1;
      }
      assert data[..i] == data;
    }

    static lemma TargetInside(addr: nat, i: nat, size: nat)
      requires addr < size && size % PAGE == 0
      ensures Target(addr, i) < size
    {
      assert size - size % PAGE == size;
      assert addr / PAGE < size / PAGE;
    }

    method EraseSector(addr: nat)
      modifies mem
      ensures mem[..] == SectorErased(old(mem[..]), addr)
    {
      forall i | 0 <= i < mem.Length && i / SECTOR_4K == addr / SECTOR_4K {
        mem[i] := 0xFF;
      }
    }

    method Read(addr: nat, len: nat, data: array<byte>, at: nat)
      requires addr + len <= mem.Length && at + len <= data.Length && data != mem
      modifies data
      ensures data[..at] == old(data[..at]) && data[at..at + len] == mem[addr..addr + len]
              && data[at + len..] == old(data[at + len..])
    {
      forall i | 0 <= i < len {
        data[at + i] := mem[addr + i];
      }
    }
  }

  lemma NextInPage(s: seq<byte>, addr: nat, data: seq<byte>, i: nat)
    requires i < |data|
    ensures PageProgrammed(s, addr, data[..i + 1])
            == AndAt(PageProgrammed(s, addr, data[..i]), Target(addr, i), data[i])
  {
    assert data[..i + 1][..i] == data[..i];
  }

  // ---------------------------------------------------------------- writing

  lemma TargetStays(addr: nat, i: nat)
    requires addr % PAGE + i < PAGE
    ensures Target(addr, i) == addr + i
  {
  }

  lemma OneMore(s: seq<byte>, addr: nat, data: seq<byte>)
    requires data != [] && addr + |data| <= |s|
    ensures Programmed(s, addr, data)
            == AndAt(Programmed(s, addr, data[..|data| - 1]), addr + |data| - 1, data[|data| - 1])
  {
  }

  /** A page program that ends in its page is a plain AND write; */
  lemma {:induction false} ProgramInPage(s: seq<byte>, addr: nat, data: seq<byte>)
    requires addr % 0x100 + |data| <= 0x100 && addr + |data| <= |s|
    ensures PageProgrammed(s, addr, data) == Programmed(s, addr, data)
  {
    hide Target, AndAt, Programmed;
    if data == [] {
      ProgrammedNothing(s, addr);
    } else {
      var n := |data| - 1;
      ProgramInPage(s, addr, data[..n]);
      TargetStays(addr, n);
      OneMore(s, addr, data);
    }
  }

  /** one that leaves its page by a byte would lose that byte, and damage the first one of the page instead. */
  lemma ProgramPastPage(s: seq<byte>, addr: nat, data: seq<byte>)
    requires 0 < addr % 0x100 && addr % 0x100 + |data| == 0x101 && addr + |data| <= |s|
    ensures var start, last := addr - addr % 0x100, addr + |data| - 1;
            && PageProgrammed(s, addr, data)[last] == s[last]
            && PageProgrammed(s, addr, data)[start] == s[start] & data[|data| - 1]
  {
    var n := |data| - 1;
    ProgramInPage(s, addr, data[..n]);
    assert Target(addr, n) == addr - addr % PAGE;
  }

  lemma ProgramOn(s: seq<byte>, addr: nat, a: seq<byte>, b: seq<byte>)
    ensures Programmed(Programmed(s, addr, a), addr + |a|, b) == Programmed(s, addr, a + b)
  {
  }

  predicate InOnePage(at: nat, bytes: nat) { at % PAGE + bytes <= PAGE }

  /** The bytes up to the end of the page. */
  predicate ToPageEnd(at: nat, bytes: nat) { at % PAGE + bytes == PAGE }

  lemma FewerInPage(at: nat, bytes: nat, fewer: nat)
    requires ToPageEnd(at, bytes) && fewer <= bytes
    ensures InOnePage(at, fewer)
  {
  }

  /** A write that has reached the end of a page goes on at the start of the next one. */
  lemma NextPage(at: nat, bytes: nat)
    requires ToPageEnd(at, bytes)
    ensures ToPageEnd(at + bytes, PAGE)
  {
    assert at + bytes == PAGE * (at / PAGE + 1);
  }

  lemma SectorsOfPages(size: nat)
    requires size % SECTOR_4K == 0
    ensures size % PAGE == 0
  {
  }

  lemma WriteStep(s: seq<byte>, addr: nat, data: seq<byte>, done: nat, bytes: nat)
    requires done + bytes <= |data| && addr + |data| <= |s| && InOnePage(addr + done, bytes)
    ensures PageProgrammed(Programmed(s, addr, data[..done]), addr + done, data[done..done + bytes])
            == Programmed(s, addr, data[..done + bytes])
  {
    hide Programmed, PageProgrammed;
    ProgramInPage(Programmed(s, addr, data[..done]), addr + done, data[done..done + bytes]);
    ProgramOn(s, addr, data[..done], data[done..done + bytes]);
    assert data[..done] + data[done..done + bytes] == data[..done + bytes];
  }

  // ---------------------------------------------------------------- erasing

  /** The memory after every sector that begins in [from, end) has been erased. */
  function EraseEach(s: seq<byte>, from: nat, end: nat): (r: seq<byte>)
    ensures |r| == |s|
    decreases end - from
  {
    if from < end then EraseEach(SectorErased(s, from), from + SECTOR_4K, end) else s
  }

  predicate CleanRange(s: seq<byte>, a: nat, b: nat) {
    forall i :: a <= i < b && i < |s| ==> s[i] == 0xFF
  }

  /** A clean sector need not be erased. */
  lemma SkipClean(s: seq<byte>, at: nat)
    requires at % SECTOR_4K == 0 && CleanRange(s, at, at + SECTOR_4K)
    ensures SectorErased(s, at) == s
  {
    forall i | 0 <= i < |s| && i / SECTOR_4K == at / SECTOR_4K
      ensures s[i] == 0xFF
    {
      SectorOf(i, at);
    }
  }

  lemma SectorOf(i: nat, at: nat)
    requires at % SECTOR_4K == 0
    ensures i / SECTOR_4K == at / SECTOR_4K <==> at <= i < at + SECTOR_4K
  {
  }

  lemma EraseAgain(s: seq<byte>, at: nat)
    ensures SectorErased(SectorErased(s, at), at) == SectorErased(s, at)
  {
  }

  lemma NextSector(at: nat, end: nat)
    requires at % SECTOR_4K == 0 && end % SECTOR_4K == 0 && at < end
    ensures at + SECTOR_4K <= end && (at + SECTOR_4K) % SECTOR_4K == 0
  {
  }

  /** The memory after the driver's erase, which looks at 4K from each address and erases the sector it is in. */
  function DriverErased(s: seq<byte>, at: nat, end: nat): (r: seq<byte>)
    ensures |r| == |s|
    decreases end - at
  {
    if at < end then
      DriverErased(if CleanRange(s, at, at + SECTOR_4K) then s else SectorErased(s, at), at + SECTOR_4K, end)
    else s
  }

  lemma {:induction false} AlignedErases(s: seq<byte>, at: nat, end: nat)
    requires at % SECTOR_4K == 0
    ensures DriverErased(s, at, end) == EraseEach(s, at, end)
    decreases end - at
  {
    hide SectorErased, CleanRange;
    if at < end {
      if CleanRange(s, at, at + SECTOR_4K) { SkipClean(s, at); }
      AlignedErases(SectorErased(s, at), at + SECTOR_4K, end);
    }
  }

  lemma {:induction false} CleanStays(s: seq<byte>, at: nat, end: nat)
    requires forall i :: at <= i < |s| ==> s[i] == 0xFF
    ensures DriverErased(s, at, end) == s
    decreases end - at
  {
    if at < end {
      CleanStays(s, at + SECTOR_4K, end);
    }
  }

  lemma {:induction false} ErasedStays(s: seq<byte>, at: nat, end: nat, i: nat)
    requires i < |s| && s[i] == 0xFF
    ensures EraseEach(s, at, end)[i] == 0xFF
    decreases end - at
  {
    if at < end {
      ErasedStays(SectorErased(s, at), at + SECTOR_4K, end, i);
    }
  }

  /** An erase that starts inside a sector can leave a dirty byte in front of its start. */
  lemma UnalignedMisses(size: nat, start: nat, end: nat)
    requires start % SECTOR_4K != 0 && start < end && start < size
    ensures exists s: seq<byte> :: |s| == size && DriverErased(s, start, end) != EraseEach(s, start, end)
  {
    var base := start - start % SECTOR_4K;
    var s: seq<byte> := seq(size, i => if i == base then 0x00 else 0xFF);
    CleanStays(s, start, end);
    assert base / SECTOR_4K == start / SECTOR_4K;
    assert SectorErased(s, start)[base] == 0xFF;
    ErasedStays(SectorErased(s, start), start + SECTOR_4K, end, base);
    assert EraseEach(s, start, end)[base] == 0xFF;
  }

  /** Skipping clean sectors is sound, for every content of the chip, exactly when the erase starts at a sector. */
  lemma SkippingIsSound(size: nat, start: nat, end: nat)
    requires start < end && start < size
    ensures (forall s: seq<byte> :: |s| == size ==> DriverErased(s, start, end) == EraseEach(s, start, end))
            <==> start % 0x1000 == 0
  {
    hide DriverErased, EraseEach;
    if start % SECTOR_4K == 0 {
      forall s: seq<byte> | |s| == size
        ensures DriverErased(s, start, end) == EraseEach(s, start, end)
      {
        AlignedErases(s, start, end);
      }
    } else {
      UnalignedMisses(size, start, end);
    }
  }

  /** The end of the last 4K that an erase looks at. */
  function LastWindow(start: nat, end: nat): nat
    requires start <= end
  {
    start + (end - start + SECTOR_4K - 1) / SECTOR_4K * SECTOR_4K
  }

  lemma WindowInside(start: nat, at: nat, end: nat)
    requires start <= at < end && (at - start) % SECTOR_4K == 0
    ensures at + SECTOR_4K <= LastWindow(start, end) && (at + SECTOR_4K - start) % SECTOR_4K == 0
  {
  }

  /** Erasing every sector of an aligned range sets exactly the bytes of the range. */
  lemma {:induction false} EraseEachIs(s: seq<byte>, from: nat, end: nat)
    requires from % 0x1000 == 0 && end % 0x1000 == 0
    ensures forall i :: 0 <= i < |s| ==> EraseEach(s, from, end)[i] == if from <= i < end then 0xFF else s[i]
    decreases end - from
  {
    if from < end {
      NextSector(from, end);
      EraseEachIs(SectorErased(s, from), from + SECTOR_4K, end);
      forall i | 0 <= i < |s|
        ensures SectorErased(s, from)[i] == if from <= i < from + SECTOR_4K then 0xFF else s[i]
      {
        SectorOf(i, from);
      }
    }
  }

  /** An aligned erase below the last byte of the memory leaves what the RAM emulation of the chip leaves. */
  lemma ErasesLikeRam(s: seq<byte>, from: nat, end: nat)
    requires from % 0x1000 == 0 && end % 0x1000 == 0 && end < |s|
    ensures ErasedRange(s, EraseEach(s, from, end), from, end)
  {
    hide EraseEach;
    EraseEachIs(s, from, end);
  }

  class SpiDrv {
    const chip: Chip
    const buffer: array<byte>

    ghost predicate Valid()
      reads {}
    {
      buffer.Length == BUFFER_SIZE && buffer != chip.mem && chip.mem.Length % SECTOR_4K == 0
    }

    constructor (c: Chip)
      requires c.mem.Length % SECTOR_4K == 0
      ensures Valid() && chip == c
    {
      chip := c;
      buffer := new byte[BUFFER_SIZE];
    }

    /** spiflash_write: for every address and length a plain AND write of the whole range. */
    method Write(address: nat, data: seq<byte>) returns (res: Status)
      requires Valid() && address + |data| <= chip.mem.Length
      modifies chip.mem
      ensures res == EOK && chip.mem[..] == Programmed(old(chip.mem[..]), address, data)
    {
      hide Programmed, PageProgrammed;
      ghost var was := chip.mem[..];
      var bytes: nat := PAGE - address % PAGE;
      var done := 0;
      ProgrammedNothing(was, address);
      while done < |data|
        invariant done <= |data| && (done < |data| ==> 0 < bytes <= PAGE && ToPageEnd(address + done, bytes))
        invariant chip.mem[..] == Programmed(was, address, data[..done])
      {
        var len := |data| - done;
        var at := address + done;
        NextPage(at, bytes);
        FewerInPage(at, bytes, if len < bytes then len else bytes);
        if len < bytes { bytes := len; }
        WriteStep(was, address, data, done, bytes);
        SectorsOfPages(chip.mem.Length);
        chip.PageProgram(at, data[done..done + bytes]);
        done := done + bytes;
        bytes := PAGE;
      }
      assert data[..done] == data;
      return EOK;
    }

    /** The words that the buffer holds after a read of n bytes. */
    method HasDirtyWord(n: nat) returns (dirty: bool)
      requires Valid() && n <= READ_BUFFER_SIZE
      ensures dirty <==> exists i :: 4 <= i < 4 + (n - n % 4) && buffer[i] != 0xFF
    {
      var i := 0;
      while i < n / 4
        invariant i <= n / 4
        invariant forall j :: 4 <= j < 4 + 4 * i ==> buffer[j] == 0xFF
      {
        var at := 4 + 4 * i;
        assert at + 4 <= 4 + (n - n % 4);
        if buffer[at] != 0xFF || buffer[at + 1] != 0xFF || buffer[at + 2] != 0xFF || buffer[at + 3] != 0xFF {
          return true;
        }
        i := i + 1;
      }
      assert 4 * (n / 4) == n - n % 4;
      return false;
    }

    /** spiflash_is_dirty: it compares whole words, so up to three bytes at the end of an odd range go unseen. */
    method IsDirty(start: nat, end: nat) returns (dirty: bool)
      requires Valid() && start <= end <= chip.mem.Length
      modifies buffer
      ensures dirty <==> exists i :: start <= i < end - (end - start) % 4 && chip.mem[i] != 0xFF
    {
      var at := start;
      while at < end
        invariant start <= at <= end
        invariant (end - at) % 4 == (end - start) % 4 || at == end
        invariant forall i :: start <= i < at && i < end - (end - start) % 4 ==> chip.mem[i] == 0xFF
      {
        var len := end - at;
        if len >= READ_BUFFER_SIZE {
          len := READ_BUFFER_SIZE;
        } else {
          forall i | 4 <= i < BUFFER_SIZE {
            buffer[i] := 0xFF;
          }
        }
        chip.Read(at, len, buffer, 4);
        BufferIs(at, len);
        dirty := HasDirtyWord(len);
        Chunk(end - at, len);
        assert len - len % 4 == if len == READ_BUFFER_SIZE then len else len - (end - start) % 4;
        if dirty {
          ghost var i :| 4 <= i < 4 + (len - len % 4) && buffer[i] != 0xFF;
          assert chip.mem[at + i - 4] != 0xFF;
          return;
        }
        forall i | at <= i < at + len && i < end - (end - start) % 4
          ensures chip.mem[i] == 0xFF
        {
          assert buffer[i - at + 4] == chip.mem[i];
        }
        at := at + len;
      }
      return false;
    }

    lemma BufferIs(at: nat, len: nat)
      requires Valid() && at + len <= chip.mem.Length && len <= READ_BUFFER_SIZE
               && buffer[4..4 + len] == chip.mem[at..at + len]
      ensures forall i :: 4 <= i < 4 + len ==> buffer[i] == chip.mem[at + i - 4]
    {
      forall i | 4 <= i < 4 + len
        ensures buffer[i] == chip.mem[at + i - 4]
      {
        assert buffer[i] == buffer[4..4 + len][i - 4];
      }
    }

    static lemma Chunk(n: nat, len: nat)
      requires len <= n && (len == READ_BUFFER_SIZE || len == n)
      ensures len == READ_BUFFER_SIZE ==> (n - len) % 4 == n % 4 && len % 4 == 0
    {
    }

    /** spiflash_sector_erase_start: the erase command is sent twice. */
    method SectorEraseStart(address: nat) returns (status: Status)
      requires Valid()
      modifies chip.mem
      ensures status == EOK && chip.mem[..] == SectorErased(old(chip.mem[..]), address)
    {
      EraseAgain(chip.mem[..], address);
      chip.EraseSector(address);
      chip.EraseSector(address);
      return EOK;
    }

    /** spiflash_sector_erase */
    method SectorErase(start: nat, end: nat) returns (status: Status)
      requires Valid() && start <= end && LastWindow(start, end) <= chip.mem.Length
      modifies chip.mem, buffer
      ensures status == EOK && chip.mem[..] == DriverErased(old(chip.mem[..]), start, end)
      ensures start % 0x1000 == 0 ==> chip.mem[..] == EraseEach(old(chip.mem[..]), start, end)
    {
      hide SectorErased, CleanRange, LastWindow, EraseEach;
      ghost var was := chip.mem[..];
      if start % SECTOR_4K == 0 { AlignedErases(was, start, end); }
      var at := start;
      while at < end
        invariant start <= at && (at - start) % SECTOR_4K == 0
        invariant DriverErased(chip.mem[..], at, end) == DriverErased(was, start, end)
        decreases end - at
      {
        WindowInside(start, at, end);
        var dirty := IsDirty(at, at + SECTOR_4K);
        DirtyMeans(at, dirty);
        if dirty {
          status := SectorEraseStart(at);
        }
        at := at + SECTOR_4K;
      }
      return EOK;
    }

    lemma DirtyMeans(at: nat, dirty: bool)
      requires at + SECTOR_4K <= chip.mem.Length
      requires dirty <==> exists i :: at <= i < at + SECTOR_4K && chip.mem[i] != 0xFF
      ensures dirty <==> !CleanRange(chip.mem[..], at, at + SECTOR_4K)
    {
      if !dirty {
        forall i | at <= i < at + SECTOR_4K
          ensures chip.mem[..][i] == 0xFF
        {
          assert chip.mem[i] == 0xFF;
        }
      } else {
        var i :| at <= i < at + SECTOR_4K && chip.mem[i] != 0xFF;
        assert chip.mem[..][i] != 0xFF;
      }
    }
  }
}
