/** Where the sectors and slots of a volume lie in the memory of the driver. */
module Layout {
  import opened Flash
  import opened Volumes
  import opened Protocol

  function SectorAddr(c: Config, w: Which): nat { if w.One? then c.sector1 else c.sector2 }

  function SlotAddr(c: Config, w: Which, i: nat): nat { SectorAddr(c, w) + PAGE_SIZE + c.recordSize * i }

  /** Disjoint sectors that stay clear of the last byte of the memory, which the driver never touches. */
  predicate Fits(c: Config, size: nat) {
    && (c.sector1 + c.sectorSize <= c.sector2 || c.sector2 + c.sectorSize <= c.sector1)
    && (forall w: Which :: SectorAddr(c, w) + c.sectorSize <= size)
    && (forall w: Which :: SlotAddr(c, w, c.MaxRecords()) < size)
  }

  function Slice(mem: seq<byte>, a: nat, len: nat): seq<byte> {
    if a + len <= |mem| then mem[a..a + len] else []
  }

  function SlotIn(c: Config, mem: seq<byte>, w: Which, i: nat): seq<byte> {
    Slice(mem, SlotAddr(c, w, i), c.recordSize)
  }

  function SectorIn(c: Config, mem: seq<byte>, w: Which): Sector {
    Sector(Slice(mem, SectorAddr(c, w), SECTOR_HEAD),
           seq(c.MaxRecords(), i requires 0 <= i < c.MaxRecords() => SlotIn(c, mem, w, i)))
  }

  /** The volume that the bytes of the memory hold. */
  function Decode(c: Config, mem: seq<byte>): Vol { Vol(SectorIn(c, mem, One), SectorIn(c, mem, Two)) }

  function DecodeAll(c: Config, history: seq<seq<byte>>): (s: seq<Vol>)
    ensures |s| == |history|
  {
    seq(|history|, i requires 0 <= i < |history| => Decode(c, history[i]))
  }

  // ---------------------------------------------------------------- addresses

  /** The first page of a sector is left to its header. */
  lemma Addresses(c: Config, w: Which, i: nat)
    ensures SectorAddr(c, w) == if w.One? then c.sector1 else c.sector2
    ensures SlotAddr(c, w, i) == (if w.One? then c.sector1 else c.sector2) + 32 + c.recordSize * i
  {
  }

  lemma SlotsApart(c: Config, w: Which, i: nat, j: nat)
    requires i < j
    ensures SlotAddr(c, w, i) + c.recordSize <= SlotAddr(c, w, j)
  {
    MulGap(c.recordSize, i, j);
  }

  lemma {:induction false} MulGap(n: nat, i: nat, j: nat)
    requires i < j
    ensures n * i + n <= n * j
  {
    assert n * j == n * (j - 1) + n;
    if i < j - 1 { MulGap(n, i, j - 1); }
  }

  /** Slot i lies behind the header and inside its sector. */
  lemma SlotInside(c: Config, w: Which, i: nat)
    requires c.Ok() && i < c.MaxRecords()
    ensures SectorAddr(c, w) + SECTOR_HEAD <= SlotAddr(c, w, i)
    ensures SlotAddr(c, w, i) + c.recordSize <= SlotAddr(c, w, c.MaxRecords()) <= SectorAddr(c, w) + c.sectorSize
  {
    SlotsApart(c, w, i, c.MaxRecords());
    MaxRecordsFit(c);
  }

  lemma SlotFits(c: Config, size: nat, w: Which, i: nat)
    requires c.Ok() && Fits(c, size) && i < c.MaxRecords()
    ensures SectorAddr(c, w) + SECTOR_HEAD <= SlotAddr(c, w, i)
    ensures SlotAddr(c, w, i) + c.recordSize < size
    ensures SlotAddr(c, w, i) + c.recordSize <= SectorAddr(c, w) + c.sectorSize
    ensures SectorAddr(c, w) + SECTOR_HEAD < size
  {
    hide Config.Ok, Config.MaxRecords, SlotAddr;
    SlotInside(c, w, i);
  }

  lemma HeadFits(c: Config, size: nat, w: Which)
    requires c.Ok() && Fits(c, size)
    ensures SectorAddr(c, w) + SECTOR_HEAD < size && SectorAddr(c, w) + SECTOR_HEAD <= SectorAddr(c, w) + c.sectorSize
  {
    SlotInside(c, w, 0);
    assert SlotAddr(c, w, c.MaxRecords()) < size;
  }

  lemma SubSlice(mem: seq<byte>, off: nat, n: nat, at: nat, k: nat)
    requires off + n <= |mem| && at + k <= n
    ensures mem[off..off + n][at..at + k] == mem[off + at..off + at + k]
  {
    var a, b := mem[off..off + n][at..at + k], mem[off + at..off + at + k];
    assert |a| == |b|;
    forall i | 0 <= i < k
      ensures a[i] == b[i]
    {
      assert a[i] == mem[off..off + n][at + i];
    }
  }

  // ---------------------------------------------------------------- programming

  lemma SliceElsewhere(mem: seq<byte>, a: nat, len: nat, off: nat, data: seq<byte>)
    requires off + |data| <= a || a + len <= off
    ensures Slice(Programmed(mem, off, data), a, len) == Slice(mem, a, len)
  {
  }

  lemma SliceHere(mem: seq<byte>, a: nat, len: nat, data: seq<byte>)
    requires a + len <= |mem| && |data| <= len
    ensures Slice(Programmed(mem, a, data), a, len) == Programmed(Slice(mem, a, len), 0, data)
  {
  }

  /** Bytes outside a sector do not matter to it. */
  lemma SectorElsewhere(c: Config, mem: seq<byte>, w: Which, off: nat, data: seq<byte>)
    requires c.Ok() && Fits(c, |mem|)
    requires off + |data| <= SectorAddr(c, w) || SectorAddr(c, w) + c.sectorSize <= off
    ensures SectorIn(c, Programmed(mem, off, data), w) == SectorIn(c, mem, w)
  {
    hide Config.Ok, Config.MaxRecords, SlotAddr, Programmed, Slice, Fits;
    HeadFits(c, |mem|, w);
    SliceElsewhere(mem, SectorAddr(c, w), SECTOR_HEAD, off, data);
    forall i: nat | i < c.MaxRecords()
      ensures SlotIn(c, Programmed(mem, off, data), w, i) == SlotIn(c, mem, w, i)
    {
      SlotFits(c, |mem|, w, i);
      SliceElsewhere(mem, SlotAddr(c, w, i), c.recordSize, off, data);
    }
  }

  lemma OtherSector(c: Config, size: nat, w: Which, a: nat, len: nat)
    requires Fits(c, size) && SectorAddr(c, w) <= a && a + len <= SectorAddr(c, w) + c.sectorSize
    ensures a + len <= SectorAddr(c, w.Other()) || SectorAddr(c, w.Other()) + c.sectorSize <= a
  {
  }

  /** Programming a slot, or the first bytes of it, on the bytes and on the volume. */
  lemma SlotWrite(c: Config, mem: seq<byte>, w: Which, i: nat, data: seq<byte>)
    requires c.Ok() && Fits(c, |mem|) && i < c.MaxRecords() && |data| <= c.recordSize
    ensures Decode(c, Programmed(mem, SlotAddr(c, w, i), data))
            == Decode(c, mem).With(w, SlotProgrammed(Decode(c, mem).At(w), i, data))
  {
    hide Config.Ok, Config.MaxRecords, SlotAddr, Programmed, Slice, Fits;
    var off := SlotAddr(c, w, i);
    var mem' := Programmed(mem, off, data);
    SlotFits(c, |mem|, w, i);
    OtherSector(c, |mem|, w, off, |data|);
    SectorElsewhere(c, mem, w.Other(), off, data);
    SliceElsewhere(mem, SectorAddr(c, w), SECTOR_HEAD, off, data);
    forall j: nat | j < c.MaxRecords()
      ensures SlotIn(c, mem', w, j) == if j == i then Programmed(SlotIn(c, mem, w, i), 0, data)
                                       else SlotIn(c, mem, w, j)
    {
      if j == i {
        SliceHere(mem, off, c.recordSize, data);
      } else {
        if i < j { SlotsApart(c, w, i, j); } else { SlotsApart(c, w, j, i); }
        SliceElsewhere(mem, SlotAddr(c, w, j), c.recordSize, off, data);
      }
    }
    assert SectorIn(c, mem', w) == SlotProgrammed(SectorIn(c, mem, w), i, data);
  }

  lemma HeadWrite(c: Config, mem: seq<byte>, w: Which, data: seq<byte>)
    requires c.Ok() && Fits(c, |mem|) && |data| <= SECTOR_HEAD
    ensures Decode(c, Programmed(mem, SectorAddr(c, w), data))
            == Decode(c, mem).With(w, Decode(c, mem).At(w).(head := Programmed(Decode(c, mem).At(w).head, 0, data)))
  {
    hide Config.Ok, Config.MaxRecords, SlotAddr, Programmed, Slice, Fits;
    var off := SectorAddr(c, w);
    var mem' := Programmed(mem, off, data);
    HeadFits(c, |mem|, w);
    OtherSector(c, |mem|, w, off, |data|);
    SectorElsewhere(c, mem, w.Other(), off, data);
    SliceHere(mem, off, SECTOR_HEAD, data);
    forall j: nat | j < c.MaxRecords()
      ensures SlotIn(c, mem', w, j) == SlotIn(c, mem, w, j)
    {
      SlotFits(c, |mem|, w, j);
      SliceElsewhere(mem, SlotAddr(c, w, j), c.recordSize, off, data);
    }
    assert SectorIn(c, mem', w).slots == SectorIn(c, mem, w).slots;
  }

  lemma SlotWriteImages(c: Config, mem: seq<byte>, w: Which, i: nat, data: seq<byte>)
    requires c.Ok() && Fits(c, |mem|) && i < c.MaxRecords() && |data| <= c.recordSize
    ensures Decode(c, Programmed(mem, SlotAddr(c, w, i), data)) == Apply(Decode(c, mem), ProgramSlot(w, i, data))
    ensures DecodeAll(c, WriteHistory(mem, SlotAddr(c, w, i), data))
            == CmdImages(Decode(c, mem), ProgramSlot(w, i, data))
  {
    hide Config.Ok, Config.MaxRecords, SlotAddr, Programmed, Decode, Fits, SlotProgrammed;
    SlotWrite(c, mem, w, i, data);
    assert data[..|data|] == data;
    forall k | 0 <= k < |data|
      ensures Decode(c, WriteHistory(mem, SlotAddr(c, w, i), data)[k])
              == Partial(Decode(c, mem), ProgramSlot(w, i, data), k + 1)
    {
      SlotWrite(c, mem, w, i, data[..k + 1]);
    }
  }

  lemma HeadWriteImages(c: Config, mem: seq<byte>, w: Which, data: seq<byte>)
    requires c.Ok() && Fits(c, |mem|) && |data| <= SECTOR_HEAD
    ensures Decode(c, Programmed(mem, SectorAddr(c, w), data)) == Apply(Decode(c, mem), ProgramHead(w, data))
    ensures DecodeAll(c, WriteHistory(mem, SectorAddr(c, w), data)) == CmdImages(Decode(c, mem), ProgramHead(w, data))
  {
    hide Config.Ok, Config.MaxRecords, SlotAddr, Programmed, Decode, Fits;
    HeadWrite(c, mem, w, data);
    assert data[..|data|] == data;
    forall k | 0 <= k < |data|
      ensures Decode(c, WriteHistory(mem, SectorAddr(c, w), data)[k])
              == Partial(Decode(c, mem), ProgramHead(w, data), k + 1)
    {
      HeadWrite(c, mem, w, data[..k + 1]);
    }
  }

  // ---------------------------------------------------------------- erasing

  /** What the driver's erase of a sector leaves. */
  predicate ErasedRange(mem: seq<byte>, mem': seq<byte>, a: nat, b: nat) {
    && |mem'| == |mem|
    && forall i :: 0 <= i < |mem| ==> mem'[i] == if a <= i < b && i < |mem| - 1 then 0xFF else mem[i]
  }

  lemma SliceErased(mem: seq<byte>, mem': seq<byte>, a: nat, b: nat, off: nat, len: nat)
    requires ErasedRange(mem, mem', a, b) && off + len < |mem|
    ensures a <= off && off + len <= b ==> Slice(mem', off, len) == Erased(len)
    ensures off + len <= a || b <= off ==> Slice(mem', off, len) == Slice(mem, off, len)
  {
  }

  lemma SectorErase(c: Config, mem: seq<byte>, mem': seq<byte>, w: Which)
    requires c.Ok() && Fits(c, |mem|)
    requires ErasedRange(mem, mem', SectorAddr(c, w), SectorAddr(c, w) + c.sectorSize)
    ensures Decode(c, mem') == Apply(Decode(c, mem), EraseSector(w))
    ensures [Decode(c, mem')] == CmdImages(Decode(c, mem), EraseSector(w))
  {
    hide Config.Ok, Config.MaxRecords, SlotAddr, Slice, Fits, ErasedRange;
    var a, b := SectorAddr(c, w), SectorAddr(c, w) + c.sectorSize;
    HeadFits(c, |mem|, w);
    HeadFits(c, |mem|, w.Other());
    OtherSector(c, |mem|, w, a, c.sectorSize);
    SliceErased(mem, mem', a, b, a, SECTOR_HEAD);
    SliceErased(mem, mem', a, b, SectorAddr(c, w.Other()), SECTOR_HEAD);
    SliceLength(mem, a, SECTOR_HEAD);
    forall j: nat | j < c.MaxRecords()
      ensures SlotIn(c, mem', w, j) == Erased(c.recordSize) && |SlotIn(c, mem, w, j)| == c.recordSize
      ensures SlotIn(c, mem', w.Other(), j) == SlotIn(c, mem, w.Other(), j)
    {
      SlotFits(c, |mem|, w, j);
      SlotFits(c, |mem|, w.Other(), j);
      SliceErased(mem, mem', a, b, SlotAddr(c, w, j), c.recordSize);
      SliceErased(mem, mem', a, b, SlotAddr(c, w.Other(), j), c.recordSize);
      SliceLength(mem, SlotAddr(c, w, j), c.recordSize);
    }
    assert SectorIn(c, mem', w) == ErasedLike(SectorIn(c, mem, w));
    assert SectorIn(c, mem', w.Other()) == SectorIn(c, mem, w.Other());
  }

  lemma SliceLength(mem: seq<byte>, a: nat, len: nat)
    requires a + len <= |mem|
    ensures |Slice(mem, a, len)| == len
  {
  }

  /** Whatever the bytes are, they decode to a volume of the right shape. */
  lemma DecodeShaped(c: Config, mem: seq<byte>)
    requires c.Ok() && Fits(c, |mem|)
    ensures Shaped(c, Decode(c, mem))
  {
    hide Config.Ok, Config.MaxRecords, SlotAddr, Slice, Fits;
    forall w: Which
      ensures Shape(c, SectorIn(c, mem, w))
    {
      HeadFits(c, |mem|, w);
      SliceLength(mem, SectorAddr(c, w), SECTOR_HEAD);
      forall j: nat | j < c.MaxRecords()
        ensures |SlotIn(c, mem, w, j)| == c.recordSize
      {
        SlotFits(c, |mem|, w, j);
        SliceLength(mem, SlotAddr(c, w, j), c.recordSize);
      }
    }
  }

  lemma HistoryAppend(c: Config, a: seq<seq<byte>>, b: seq<seq<byte>>)
    ensures DecodeAll(c, a + b) == DecodeAll(c, a) + DecodeAll(c, b)
  {
    hide Decode;
  }
}
