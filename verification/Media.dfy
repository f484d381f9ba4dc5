/** The sector and record accesses of src/nvram/nvol3.c: they are the only ones that reach the flash driver. */
module Media {
  import opened ErrorDef
  import opened Flash
  import opened Records
  import opened Volumes
  import opened Protocol
  import opened Layout

  /** v and t are the volume and the history of images after the commands, from v0 and t0. */
  ghost predicate Ran(v0: Vol, t0: seq<Vol>, cmds: seq<Cmd>, v: Vol, t: seq<Vol>) {
    v == Exec(v0, cmds) && t == t0 + Images(v0, cmds)
  }

  lemma RanNothing(v: Vol, t: seq<Vol>)
    ensures Ran(v, t, [], v, t)
  {
  }

  lemma RanThen(v0: Vol, t0: seq<Vol>, a: seq<Cmd>, v1: Vol, t1: seq<Vol>, b: seq<Cmd>, v2: Vol, t2: seq<Vol>)
    requires Ran(v0, t0, a, v1, t1) && Ran(v1, t1, b, v2, t2)
    ensures Ran(v0, t0, a + b, v2, t2)
  {
    hide Exec, Images;
    ExecAppend(v0, a, b);
  }

  lemma RanOne(v: Vol, t: seq<Vol>, c: Cmd)
    ensures Ran(v, t, [c], Apply(v, c), t + CmdImages(v, c))
  {
    ExecOne(v, c);
  }

  /** What read_variable_record makes of a slot. */
  function ReadStatus(raw: seq<byte>): Status
    requires HEAD_SIZE <= |raw|
  {
    if raw[..2] == FLAGS_EMPTY then E_EMPTY
    else if raw[..2] != FLAGS_VALID then (if raw[..2] == FLAGS_INVALID then E_INVALID else E_UNKNOWN)
    else if LengthField(raw) > |raw| - HEAD_SIZE then E_UNKNOWN
    else EOK
  }

  /** Reading and then checking a record is parsing it. */
  lemma ReadIsParse(raw: seq<byte>)
    requires HEAD_SIZE <= |raw|
    ensures ReadStatus(raw) == EOK <==> Readable(raw)
    ensures ReadStatus(raw) == E_EMPTY <==> Parse(raw) == Empty
    ensures ReadStatus(raw) == E_INVALID <==> Parse(raw) == Invalid
    ensures ReadStatus(raw) == E_UNKNOWN <==> Parse(raw) == Unreadable
    ensures ReadStatus(raw) == EOK ==>
              Parse(raw) == if ChecksumField(raw) == Checksum(BodyOf(raw)) then Live(BodyOf(raw)) else Corrupt
  {
  }

  class Media {
    const config: Config
    const flash: RamDrv
    ghost var vol: Vol
    ghost var trace: seq<Vol>

    ghost predicate Valid()
      reads this, flash, flash.mem
    {
      && config.Ok() && Fits(config, flash.mem.Length)
      && vol == Decode(config, flash.mem[..])
      && trace == DecodeAll(config, flash.history)
    }

    constructor (c: Config, f: RamDrv)
      requires c.Ok() && Fits(c, f.mem.Length)
      ensures Valid() && config == c && flash == f && vol == Decode(c, f.mem[..]) && trace == DecodeAll(c, f.history)
    {
      config, flash := c, f;
      vol := Decode(c, f.mem[..]);
      trace := DecodeAll(c, f.history);
    }

    lemma IsOk()
      requires Valid()
      ensures config.Ok()
    {
    }

    lemma ShapedVolume()
      requires Valid()
      ensures Shaped(config, vol)
    {
      DecodeShaped(config, flash.mem[..]);
    }

    lemma LogLength(w: Which)
      requires Valid()
      ensures |LogOf(vol.At(w))| == |vol.At(w).slots| == config.MaxRecords()
    {
      hide Config.MaxRecords, Decode;
      ShapedVolume();
    }

    lemma SlotSize(w: Which, i: nat)
      requires Valid() && i < |vol.At(w).slots|
      ensures |vol.At(w).slots[i]| == config.recordSize
    {
      hide Config.MaxRecords, Decode;
      ShapedVolume();
    }

    /** erase_sector */
    method EraseSector(w: Which) returns (status: Status)
      requires Valid()
      modifies this, flash, flash.mem
      ensures Valid() && status == EOK
      ensures Ran(old(vol), old(trace), [Cmd.EraseSector(w)], vol, trace)
      ensures var a := if w.One? then config.sector1 else config.sector2;
              forall i :: 0 <= i < flash.mem.Length ==>
                flash.mem[i] == if a <= i < a + config.sectorSize && i < flash.mem.Length - 1 then 0xFF
                                else old(flash.mem[i])
    {
      hide Config.Ok, Config.MaxRecords, SlotAddr, Decode, Fits, Exec, Images, Apply, CmdImages;
      ghost var was, images := flash.mem[..], flash.history;
      HeadFits(config, |was|, w);
      status := flash.Erase(SectorAddr(config, w), SectorAddr(config, w) + config.sectorSize);
      SectorErase(config, was, flash.mem[..], w);
      RanOne(vol, trace, Cmd.EraseSector(w));
      HistoryAppend(config, images, [flash.mem[..]]);
      assert DecodeAll(config, [flash.mem[..]]) == [Decode(config, flash.mem[..])];
      vol := Decode(config, flash.mem[..]);
      trace := DecodeAll(config, flash.history);
    }

    /** The write of data at the header of a sector. */
    method WriteHead(w: Which, data: seq<byte>) returns (status: Status)
      requires Valid() && |data| <= SECTOR_HEAD
      modifies this, flash, flash.mem
      ensures Valid() && status == EOK
      ensures Ran(old(vol), old(trace), [ProgramHead(w, data)], vol, trace)
      ensures flash.mem[..] == Programmed(old(flash.mem[..]), if w.One? then config.sector1 else config.sector2, data)
    {
      hide Config.Ok, Config.MaxRecords, SlotAddr, Decode, DecodeAll, Programmed, WriteHistory, Fits, Exec, Images,
           Apply, CmdImages;
      ghost var was, images := flash.mem[..], flash.history;
      HeadFits(config, |was|, w);
      status := flash.Write(SectorAddr(config, w), data);
      HeadWriteImages(config, was, w, data);
      RanOne(vol, trace, ProgramHead(w, data));
      HistoryAppend(config, images, WriteHistory(was, SectorAddr(config, w), data));
      vol := Decode(config, flash.mem[..]);
      trace := DecodeAll(config, flash.history);
    }

    /** Nothing but data has been programmed, in front of which lie the 32 bytes of the first page and idx slots. */
    ghost predicate WroteAt(was: seq<byte>, w: Which, idx: nat, data: seq<byte>)
      reads flash, flash.mem
    {
      var a := if w.One? then config.sector1 else config.sector2;
      flash.mem[..] == Programmed(was, a + 32 + config.recordSize * idx, data)
    }

    /** The write of data at the start of a slot. */
    method WriteSlot(w: Which, idx: nat, data: seq<byte>) returns (status: Status)
      requires Valid() && idx < config.MaxRecords() && |data| <= config.recordSize
      modifies this, flash, flash.mem
      ensures Valid() && status == EOK
      ensures Ran(old(vol), old(trace), [ProgramSlot(w, idx, data)], vol, trace)
      ensures WroteAt(old(flash.mem[..]), w, idx, data)
    {
      hide Config.Ok, Config.MaxRecords, SlotAddr, Decode, DecodeAll, Programmed, WriteHistory, Fits, Exec, Images,
           Apply, CmdImages;
      ghost var was, images := flash.mem[..], flash.history;
      SlotFits(config, |was|, w, idx);
      Addresses(config, w, idx);
      status := flash.Write(SlotAddr(config, w, idx), data);
      SlotWriteImages(config, was, w, idx, data);
      RanOne(vol, trace, ProgramSlot(w, idx, data));
      HistoryAppend(config, images, WriteHistory(was, SlotAddr(config, w, idx), data));
      vol := Decode(config, flash.mem[..]);
      trace := DecodeAll(config, flash.history);
    }

    /** get_sector_version: the version and the flag bytes of a header. */
    method GetSectorVersion(w: Which) returns (version: nat, flags: seq<byte>)
      requires Valid()
      ensures |vol.At(w).head| == SECTOR_HEAD && version == VersionOf(vol.At(w)) && flags == vol.At(w).head[..4]
    {
      hide Config.Ok, Config.MaxRecords, SlotAddr, SectorAddr, Fits, DecodeAll, Decode, Word;
      HeadFits(config, flash.mem.Length, w);
      HeadOf(w);
      var sector := new byte[SECTOR_HEAD];
      var status := flash.Read(SectorAddr(config, w), SECTOR_HEAD, sector, 0);
      ghost var head := vol.At(w).head;
      assert sector[0..SECTOR_HEAD] == head;
      assert sector[12] == head[12] && sector[13] == head[13] && sector[..4] == head[..4];
      version := Word(!sector[12], !sector[13]);
      flags := sector[..4];
    }

    lemma HeadOf(w: Which)
      requires Valid() && SectorAddr(config, w) + SECTOR_HEAD <= flash.mem.Length
      ensures vol.At(w).head == flash.mem[SectorAddr(config, w)..SectorAddr(config, w) + SECTOR_HEAD]
    {
      hide Config.Ok, Config.MaxRecords, SlotAddr, Fits, DecodeAll;
    }

    /** set_sector_flags */
    method SetSectorFlags(w: Which, flags: seq<byte>) returns (status: Status)
      requires Valid() && |flags| == 4
      modifies this, flash, flash.mem
      ensures Valid() && status == EOK
      ensures Ran(old(vol), old(trace), [ProgramHead(w, HeadBytes(config, flags))], vol, trace)
      ensures flash.mem[..] == Programmed(old(flash.mem[..]), if w.One? then config.sector1 else config.sector2,
                                          flags + [0x55, 0x55, 0x55, 0x55, 0x55, 0x55, 0x55, 0x55]
                                          + [!LowByte(config.version), !HighByte(config.version), 0xFF, 0xFF])
    {
      hide Ran, Programmed, LowByte, HighByte, HeadBytes;
      HeaderIs(config, flags);
      var sector := flags + [0x55, 0x55, 0x55, 0x55, 0x55, 0x55, 0x55, 0x55]
                    + [!LowByte(config.version), !HighByte(config.version), 0xFF, 0xFF];
      status := WriteHead(w, sector);
    }

    static lemma HeaderIs(c: Config, flags: seq<byte>)
      requires |flags| == 4
      ensures HeadBytes(c, flags) == flags + [0x55, 0x55, 0x55, 0x55, 0x55, 0x55, 0x55, 0x55]
                                     + [!LowByte(c.version), !HighByte(c.version), 0xFF, 0xFF]
    {
      hide LowByte, HighByte;
      assert seq(8, _ => 0x55) == [0x55, 0x55, 0x55, 0x55, 0x55, 0x55, 0x55, 0x55];
    }

    /** read_variable_record: the header, and the body if the header is that of a VALID record. */
    method ReadRecord(w: Which, rec: array<byte>, idx: nat) returns (status: Status)
      requires Valid() && config.recordSize <= rec.Length && rec != flash.mem
      modifies rec
      ensures idx >= config.MaxRecords() ==> status == EFAIL
      ensures idx < config.MaxRecords() ==>
                && idx < |vol.At(w).slots| && |vol.At(w).slots[idx]| == config.recordSize
                && status == ReadStatus(vol.At(w).slots[idx])
      ensures status == EOK ==>
                && Readable(vol.At(w).slots[idx]) && LengthField(rec[..]) == LengthField(vol.At(w).slots[idx])
                && rec[..HEAD_SIZE + LengthField(rec[..])] == CopyOf(vol.At(w).slots[idx])
    {
      hide Config.MaxRecords, SlotAddr, Fits, DecodeAll, Decode, Word, ChecksumField;
      if idx >= config.MaxRecords() { return EFAIL; }
      SlotFits(config, flash.mem.Length, w, idx);
      RawBytes(w, idx);
      ghost var raw, mem := vol.At(w).slots[idx], flash.mem[..];
      var offset := SlotAddr(config, w, idx);
      status := flash.Read(offset, HEAD_SIZE, rec, 0);
      SubSlice(mem, offset, config.recordSize, 0, HEAD_SIZE);
      assert rec[0..HEAD_SIZE] == raw[0..HEAD_SIZE];
      SameHead(rec[..], raw);
      if rec[..2] == FLAGS_EMPTY { return E_EMPTY; }
      if rec[..2] != FLAGS_VALID { return if rec[..2] == FLAGS_INVALID then E_INVALID else E_UNKNOWN; }
      var length := Word(rec[2], rec[3]);
      if length > config.recordSize - HEAD_SIZE { return E_UNKNOWN; }
      if length > 0 {
        status := ReadBody(w, rec, idx, length);
      }
    }

    /** The second read of read_variable_record. */
    method ReadBody(w: Which, rec: array<byte>, idx: nat, length: nat) returns (status: Status)
      requires Valid() && config.recordSize <= rec.Length && rec != flash.mem
      requires idx < config.MaxRecords() && idx < |vol.At(w).slots| && |vol.At(w).slots[idx]| == config.recordSize
      requires HEAD_SIZE + length <= config.recordSize && rec[..HEAD_SIZE] == vol.At(w).slots[idx][..HEAD_SIZE]
      modifies rec
      ensures status == EOK && LengthField(rec[..]) == LengthField(vol.At(w).slots[idx])
      ensures rec[..HEAD_SIZE + length] == vol.At(w).slots[idx][..HEAD_SIZE + length]
    {
      hide Config.Ok, Config.MaxRecords, SlotAddr, Fits, DecodeAll, Decode, Word;
      SlotFits(config, flash.mem.Length, w, idx);
      RawBytes(w, idx);
      ghost var raw, mem := vol.At(w).slots[idx], flash.mem[..];
      var offset := SlotAddr(config, w, idx) + HEAD_SIZE;
      status := flash.Read(offset, length, rec, HEAD_SIZE);
      SubSlice(mem, SlotAddr(config, w, idx), config.recordSize, HEAD_SIZE, length);
      assert rec[HEAD_SIZE..HEAD_SIZE + length] == raw[HEAD_SIZE..HEAD_SIZE + length];
      SameRecord(rec[..], raw, length);
    }

    lemma RawBytes(w: Which, idx: nat)
      requires Valid() && idx < config.MaxRecords()
      requires SlotAddr(config, w, idx) + config.recordSize < flash.mem.Length
      ensures idx < |vol.At(w).slots| && |vol.At(w).slots[idx]| == config.recordSize
      ensures vol.At(w).slots[idx] == flash.mem[SlotAddr(config, w, idx)..SlotAddr(config, w, idx) + config.recordSize]
    {
      hide Config.Ok, Config.MaxRecords, SlotAddr, Fits, DecodeAll;
    }

    static lemma SameHead(a: seq<byte>, b: seq<byte>)
      requires HEAD_SIZE <= |a| && HEAD_SIZE <= |b| && a[0..HEAD_SIZE] == b[0..HEAD_SIZE]
      ensures a[..2] == b[..2] && a[..HEAD_SIZE] == b[..HEAD_SIZE]
      ensures LengthField(a) == LengthField(b) && ChecksumField(a) == ChecksumField(b)
    {
      assert forall i :: 0 <= i < HEAD_SIZE ==> a[i] == a[0..HEAD_SIZE][i] == b[0..HEAD_SIZE][i] == b[i];
    }

    static lemma SameRecord(a: seq<byte>, b: seq<byte>, n: nat)
      requires HEAD_SIZE + n <= |a| && HEAD_SIZE + n <= |b|
      requires a[..HEAD_SIZE] == b[..HEAD_SIZE] && a[HEAD_SIZE..HEAD_SIZE + n] == b[HEAD_SIZE..HEAD_SIZE + n]
      ensures a[..HEAD_SIZE + n] == b[..HEAD_SIZE + n] && LengthField(a) == LengthField(b)
    {
      assert a[..HEAD_SIZE + n] == a[..HEAD_SIZE] + a[HEAD_SIZE..HEAD_SIZE + n];
      assert b[..HEAD_SIZE + n] == b[..HEAD_SIZE] + b[HEAD_SIZE..HEAD_SIZE + n];
      assert a[0..HEAD_SIZE] == b[0..HEAD_SIZE];
      SameHead(a, b);
    }

    /** write_variable_record */
    method WriteRecord(w: Which, rec: array<byte>, idx: nat) returns (status: Status)
      requires Valid() && HEAD_SIZE <= rec.Length && HEAD_SIZE + LengthField(rec[..]) <= rec.Length
      requires HEAD_SIZE + LengthField(rec[..]) <= config.recordSize && rec != flash.mem
      modifies this, flash, flash.mem
      ensures Valid()
      ensures status == if idx >= config.MaxRecords() || rec[..2] == FLAGS_INVALID then EFAIL else EOK
      ensures Ran(old(vol), old(trace),
                  if status == EOK then [ProgramSlot(w, idx, rec[..HEAD_SIZE + LengthField(rec[..])])] else [],
                  vol, trace)
      ensures if status == EOK then WroteAt(old(flash.mem[..]), w, idx, rec[..HEAD_SIZE + LengthField(rec[..])])
              else flash.mem[..] == old(flash.mem[..])
    {
      hide Ran, Config.Ok, Config.MaxRecords, WroteAt;
      RanNothing(vol, trace);
      if idx >= config.MaxRecords() { return EFAIL; }
      if rec[..2] == FLAGS_INVALID { return EFAIL; }
      status := WriteSlot(w, idx, rec[..HEAD_SIZE + Word(rec[2], rec[3])]);
    }

    /** set_variable_record_flags */
    method SetRecordFlags(w: Which, flags: seq<byte>, idx: nat) returns (status: Status)
      requires Valid() && |flags| == 2
      modifies this, flash, flash.mem
      ensures Valid() && status == if idx >= config.MaxRecords() then EFAIL else EOK
      ensures Ran(old(vol), old(trace), if status == EOK then [ProgramSlot(w, idx, flags)] else [], vol, trace)
      ensures if status == EOK then WroteAt(old(flash.mem[..]), w, idx, flags)
              else flash.mem[..] == old(flash.mem[..])
    {
      hide Ran, Config.MaxRecords, WroteAt;
      RanNothing(vol, trace);
      if idx >= config.MaxRecords() { return EFAIL; }
      status := WriteSlot(w, idx, flags);
    }
  }

  /** variable_record_valid: does the checksum of the record fit its body? */
  method RecordValid(rec: array<byte>) returns (status: Status)
    requires HEAD_SIZE <= rec.Length && HEAD_SIZE + LengthField(rec[..]) <= rec.Length
    ensures status == if ChecksumField(rec[..]) == Checksum(rec[HEAD_SIZE..HEAD_SIZE + LengthField(rec[..])]) then EOK
                      else E_INVALID
  {
    hide Word, Checksum, Sum;
    var length := Word(rec[2], rec[3]);
    var checksum := ByteSum(rec, length);
    ChecksumIs(rec[HEAD_SIZE..HEAD_SIZE + length], checksum);
    checksum := (0x1_0000 - checksum) % 0x1_0000;
    if Word(rec[4], rec[5]) != checksum { return E_INVALID; }
    return EOK;
  }

  lemma ChecksumIs(body: seq<byte>, sum: nat)
    requires sum == Sum(body) % 0x1_0000
    ensures Checksum(body) == (0x1_0000 - sum) % 0x1_0000
  {
  }

  /** The 16-bit byte sum of the first length bytes of a body. */
  method ByteSum(rec: array<byte>, length: nat) returns (sum: nat)
    requires HEAD_SIZE + length <= rec.Length
    ensures sum == Sum(rec[HEAD_SIZE..HEAD_SIZE + length]) % 0x1_0000
  {
    hide Sum;
    SumNothing();
    assert rec[HEAD_SIZE..HEAD_SIZE + 0] == [];
    sum := 0;
    var i := 0;
    while i < length
      invariant 0 <= i <= length
      invariant sum == Sum(rec[HEAD_SIZE..HEAD_SIZE + i]) % 0x1_0000
    {
      SumNext(rec[HEAD_SIZE..HEAD_SIZE + i], rec[HEAD_SIZE + i], sum);
      assert rec[HEAD_SIZE..HEAD_SIZE + i] + [rec[HEAD_SIZE + i]] == rec[HEAD_SIZE..HEAD_SIZE + (i + 1)];
      sum := (sum + rec[HEAD_SIZE + i] as nat) % 0x1_0000;
      i := i + 1;
    }
  }

  lemma SumNothing()
    ensures Sum([]) == 0
  {
  }

  lemma SumNext(body: seq<byte>, b: byte, sum: nat)
    requires sum == Sum(body) % 0x1_0000
    ensures Sum(body + [b]) % 0x1_0000 == (sum + b as nat) % 0x1_0000
  {
    assert (body + [b])[..|body|] == body;
    assert Sum(body + [b]) == Sum(body) + b as nat;
    hide Sum;
    ModAdd(Sum(body), b as nat);
  }

  lemma ModAdd(s: nat, b: nat)
    ensures (s + b) % 0x1_0000 == (s % 0x1_0000 + b) % 0x1_0000
  {
  }
}
