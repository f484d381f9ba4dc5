/** The store of src/nvram/nvol3.c as an object: each method is proved against what Protocol says it does. */
module Nvol3 {
  import opened ErrorDef
  import opened Flash
  import opened Records
  import opened Volumes
  import opened Logs
  import opened Protocol
  import opened Recovery
  import opened Atomicity
  import opened Durability
  import opened Compaction
  import opened CrashSafety
  import opened Bookkeeping
  import opened Runs
  import opened Resets
  import opened Starts
  import opened Media
  import opened Bytes
  import opened Steps
  import Layout
  import D = Dictionaries

  class Nvol3 {
    const config: Config
    const media: Media
    var version: nat
    var next: nat
    var active: Which
    var dict: D.Dictionary?
    var inuse: nat
    var invalid: nat
    var error: nat

    /** The dictionary exists and fits the configuration. */
    ghost predicate HasDict()
      reads this, dict, if dict == null then {} else {dict.hashtab}
    {
      && dict != null && dict.Valid() && dict.keyWords == config.keyWords && dict.hashSize == config.hashSize
      && dict.hashtab as object != media.flash.mem as object
    }

    /** A buffer of the caller: neither the flash memory nor the hash table. */
    ghost predicate Free(buf: array<byte>)
      reads `dict
    {
      buf != media.flash.mem && dict != null && buf as object != dict.hashtab as object
    }

    ghost predicate Bound()
      reads this, media, media.flash, media.flash.mem
    {
      media.Valid() && media.config == config
    }

    /** The state a load may start from: with a dictionary or without one. */
    ghost predicate Closed()
      reads this, media, media.flash, media.flash.mem, dict, if dict == null then {} else {dict.hashtab}
    {
      Bound() && (dict != null ==> dict.Valid() && dict.hashtab as object != media.flash.mem as object)
    }

    ghost function RamState(): Ram
      requires dict != null
      reads this, dict
    {
      Ram(active, next, inuse, invalid, error, dict.Contents())
    }

    /** A loaded volume: the RAM state fits what is on flash. */
    ghost predicate Valid()
      reads this, media, media.flash, media.flash.mem, dict, if dict == null then {} else {dict.hashtab}
    {
      HasDict() && Bound() && Powered(config, media.vol, RamState())
    }

    /** A declared volume that has not been loaded. */
    constructor (m: Media)
      requires m.Valid()
      ensures Bound() && media == m && dict == null
    {
      config, media := m.config, m;
      version, next, active, dict, inuse, invalid, error := 0, 0, One, null, 0, 0, 0;
    }

    /** insert_lookup_table: the index leads to the record in slot idx. */
    method InsertLookupTable(rec: array<byte>, idx: nat, ghost body: seq<byte>)
      requires HasDict() && config.Ok() && Holds(config, rec[..], body)
      requires config.recordSize <= rec.Length || config.KeySize() <= |body|
      modifies dict, dict.hashtab
      ensures HasDict()
      ensures config.KeySize() <= |body| ==> dict.Contents() == Inserted(config, old(dict.Contents()), idx, body)
    {
      hide D.Dictionary.Valid, D.Dictionary.Contents, Config.Ok, MakeEntry, Inserted, Holds, Minus32, Minus16, KeyOf,
           Word;
      HasBounds(config);
      EntryBytes(config, rec[..], body, idx);
      ghost var m0 := dict.Contents();
      var keySize, length := config.KeySize(), Word(rec[2], rec[3]);
      var localSize := Minus32(length, keySize);
      if localSize > config.localSize { localSize := 0; }
      var key := rec[HEAD_SIZE..HEAD_SIZE + keySize];
      var local := if localSize > 0 then rec[HEAD_SIZE + keySize..HEAD_SIZE + keySize + localSize] else [];
      var e := Entry(idx, Minus16(length, keySize), local);
      var found := dict.Remove(key);
      var m := dict.InstallSize(key);
      ghost var x := dict.heap[m].value;
      dict.SetValue(m, e);
      if keySize <= length { InsertedIs(config, m0, x, idx, body, key, e); }
    }

    /** The scan of a record whose header is good: it enters the index, or is marked if its checksum is wrong. */
    method ScanRecord(rec: array<byte>, idx: nat, ghost raw: seq<byte>)
      requires HasDict() && Bound() && config.recordSize <= rec.Length && Free(rec)
      requires idx < config.MaxRecords() && Readable(raw) && |raw| == config.recordSize
      requires LengthField(rec[..]) == LengthField(raw) && rec[..HEAD_SIZE + LengthField(rec[..])] == CopyOf(raw)
      modifies `inuse, `invalid, `error, media, media.flash, media.flash.mem, dict, dict.hashtab
      ensures HasDict() && Bound()
      ensures Parse(raw).Live? || Parse(raw) == Corrupt
      ensures Ran(old(media.vol), old(media.trace),
                  if Parse(raw) == Corrupt then [ProgramSlot(active, idx, FLAGS_INVALID)] else [],
                  media.vol, media.trace)
      ensures Parse(raw) == Corrupt ==>
                inuse == old(inuse) && invalid == old(invalid) + 1 && error == old(error) + 1
                  && dict.Contents() == old(dict.Contents())
      ensures Parse(raw).Live? ==> inuse == old(inuse) + 1 && invalid == old(invalid) && error == old(error)
      ensures Parse(raw).Live? && config.KeySize() <= |Parse(raw).body| ==>
                dict.Contents() == Inserted(config, old(dict.Contents()), idx, Parse(raw).body)
    {
      hide D.Dictionary.Valid, D.Dictionary.Contents, Media.Valid, Ran, Inserted, Parse, Config.MaxRecords, Word,
           Checksum, Config.Ok;
      media.IsOk();
      ReadIsParse(raw);
      CopiedBytes(rec[..], raw);
      RanNothing(media.vol, media.trace);
      var valid := RecordValid(rec);
      if valid == EOK {
        InsertLookupTable(rec, idx, BodyOf(raw));
        inuse := inuse + 1;
      } else {
        var status := media.SetRecordFlags(active, FLAGS_INVALID, idx);
        error := error + 1;
        invalid := invalid + 1;
      }
    }

    /** What the counters and the index are after n slots of a log have been scanned. */
    ghost predicate ScannedUpTo(log: Log, n: nat)
      requires n <= |log|
      reads `inuse, `invalid, `error, `dict, dict
    {
      && dict != null
      && inuse == CountLive(log, n)
      && invalid == CountOf(Invalid, log, n) + CountOf(Corrupt, log, n)
      && error == CountOf(Unreadable, log, n) + CountOf(Corrupt, log, n)
      && (Sized(config, log) ==> dict.Contents() == Index(config, Newest(config.KeySize(), log, n)))
    }

    /** The RAM state is that of a completed scan; the index is exact if every record holds a key. */
    ghost predicate ScannedAll(log: Log)
      reads this, dict
    {
      next == NextIdx(log) && ScannedUpTo(log, next)
    }

    /** The version in the header of the active sector. */
    ghost predicate HeadVersion(n: nat)
      reads `active, media
    {
      var s := media.vol.At(active);
      |s.head| == SECTOR_HEAD && n == VersionOf(s)
    }

    /** construct_lookup_table */
    method ConstructLookupTable(scratch: array<byte>) returns (status: Status)
      requires HasDict() && Bound() && scratch.Length == config.recordSize && Free(scratch)
      modifies `version, `next, `inuse, `invalid, `error, media, media.flash, media.flash.mem, dict, dict.hashtab,
               scratch
      ensures HasDict() && Bound() && ScannedAll(LogOf(old(media.vol).At(active)))
      ensures Ran(old(media.vol), old(media.trace), ScanCmds(old(media.vol), active), media.vol, media.trace)
      ensures HeadVersion(version)
      ensures status == if version == config.version then EOK else E_VERSION
    {
      hide D.Dictionary.Valid, D.Dictionary.Contents, Media.Valid, Ran, Config.MaxRecords, Config.Ok, Parse,
           ScannedUpTo, LogOf, ScanCmds, NextIdx;
      ghost var v0, t0 := media.vol, media.trace;
      ghost var log := LogOf(v0.At(active));
      dict.RemoveAll();
      inuse := 0;
      invalid := 0;
      error := 0;
      BeginScan(log);
      next := ScanSlots(scratch);
      var flags;
      version, flags := media.GetSectorVersion(active);
      status := if version == config.version then EOK else E_VERSION;
    }

    /** The scan's loop: up to the first empty slot. */
    method ScanSlots(scratch: array<byte>) returns (idx: nat)
      requires HasDict() && Bound() && scratch.Length == config.recordSize && Free(scratch)
      requires ScannedUpTo(LogOf(media.vol.At(active)), 0)
      modifies `inuse, `invalid, `error, media, media.flash, media.flash.mem, dict, dict.hashtab, scratch
      ensures HasDict() && Bound() && idx == NextIdx(LogOf(old(media.vol).At(active)))
      ensures ScannedUpTo(LogOf(old(media.vol).At(active)), idx)
      ensures Ran(old(media.vol), old(media.trace), ScanCmds(old(media.vol), active), media.vol, media.trace)
    {
      hide D.Dictionary.Valid, D.Dictionary.Contents, Media.Valid, Ran, Config.MaxRecords, Config.Ok, Parse,
           ScannedUpTo, LogOf, ConstructCmds;
      ghost var v0, t0 := media.vol, media.trace;
      ghost var log := LogOf(v0.At(active));
      RanNothing(v0, t0);
      ScanNothing(config, active, log);
      media.LogLength(active);
      idx := 0;
      while idx < config.MaxRecords()
        invariant idx <= |log| == config.MaxRecords() && forall j :: 0 <= j < idx ==> log[j] != Empty
        invariant HasDict() && Bound() && ScannedUpTo(log, idx)
        invariant Ran(v0, t0, ConstructCmds(active, log, idx), media.vol, media.trace)
      {
        NotYetMarked(v0, media.vol, t0, media.trace, active, idx);
        var done := ScanSlot(scratch, idx, log, v0, t0);
        if done { break; }
        idx := idx + 1;
      }
      NextIdxIs(log, idx);
    }

    lemma BeginScan(log: Log)
      requires dict != null && dict.Contents() == map[] && inuse == 0 && invalid == 0 && error == 0
      ensures ScannedUpTo(log, 0)
    {
      ScanNothing(config, active, log);
    }

    /** One round of the scan's loop. */
    method ScanSlot(scratch: array<byte>, idx: nat, ghost log: Log, ghost v0: Vol, ghost t0: seq<Vol>)
      returns (done: bool)
      requires HasDict() && Bound() && scratch.Length == config.recordSize && Free(scratch)
      requires idx < config.MaxRecords() == |log| && ScannedUpTo(log, idx)
      requires Ran(v0, t0, ConstructCmds(active, log, idx), media.vol, media.trace)
      requires idx < |media.vol.At(active).slots| && log[idx] == Parse(media.vol.At(active).slots[idx])
      modifies `inuse, `invalid, `error, media, media.flash, media.flash.mem, dict, dict.hashtab, scratch
      ensures HasDict() && Bound() && done == (log[idx] == Empty)
      ensures done ==> ScannedUpTo(log, idx) && Ran(v0, t0, ConstructCmds(active, log, idx), media.vol, media.trace)
      ensures !done ==>
                ScannedUpTo(log, idx + 1) && Ran(v0, t0, ConstructCmds(active, log, idx + 1), media.vol, media.trace)
    {
      hide D.Dictionary.Valid, D.Dictionary.Contents, Media.Valid, Ran, Config.MaxRecords, Config.Ok, Parse, LogOf,
           ConstructCmds, CountLive, CountOf, Newest, Index, Inserted;
      ghost var raw := media.vol.At(active).slots[idx];
      ghost var v1, t1 := media.vol, media.trace;
      media.IsOk();
      var status := media.ReadRecord(active, scratch, idx);
      ReadIsParse(raw);
      ScanNext(config, active, log, idx);
      if status == E_EMPTY { return true; }
      RanNothing(v1, t1);
      if status == E_INVALID {
        invalid := invalid + 1;
      } else if status != EOK {
        error := error + 1;
      } else {
        ScanRecord(scratch, idx, raw);
      }
      RanThen(v0, t0, ConstructCmds(active, log, idx), v1, t1,
              if log[idx] == Corrupt then [ProgramSlot(active, idx, FLAGS_INVALID)] else [], media.vol, media.trace);
      done := false;
    }

    /** How both compactors begin: the destination is erased unless it is empty, and marked as being filled. */
    method OpenSector(dst: Which)
      requires Bound()
      modifies media, media.flash, media.flash.mem
      ensures Bound() && media.vol.At(dst.Other()) == old(media.vol).At(dst.Other())
      ensures Ran(old(media.vol), old(media.trace), CopyUpTo(config, old(media.vol), dst, []), media.vol, media.trace)
    {
      hide Media.Valid, Ran, CopyUpTo, HeadBytes;
      ghost var v0, t0 := media.vol, media.trace;
      var version, flags := media.GetSectorVersion(dst);
      RanNothing(v0, t0);
      if flags != SECTOR_EMPTY {
        var erased := media.EraseSector(dst);
        OtherKept(v0, t0, EraseSector(dst), media.vol, media.trace);
      }
      ghost var v1, t1 := media.vol, media.trace;
      var status := media.SetSectorFlags(dst, SECTOR_INITIALIZING);
      OtherKept(v1, t1, ProgramHead(dst, HeadBytes(config, SECTOR_INITIALIZING)), media.vol, media.trace);
      CopyNone(config, v0, dst);
      RanThen(v0, t0, EraseUnlessEmpty(v0, dst), v1, t1,
              [ProgramHead(dst, HeadBytes(config, SECTOR_INITIALIZING))], media.vol, media.trace);
    }

    /** The copy of a record that has been read into the buffer to the next slot of the destination. */
    method CopyRecord(rec: array<byte>, dst: Which, dstIdx: nat, ghost v0: Vol, ghost t0: seq<Vol>,
                      ghost idxs: seq<nat>, ghost i: nat)
      requires dstIdx == |idxs|
      requires Bound() && config.recordSize <= rec.Length && rec != media.flash.mem && |idxs| < config.MaxRecords()
      requires AllReadable(v0.At(dst.Other()).slots, idxs) && i < |v0.At(dst.Other()).slots|
      requires Readable(v0.At(dst.Other()).slots[i]) && |v0.At(dst.Other()).slots[i]| == config.recordSize
      requires LengthField(rec[..]) == LengthField(v0.At(dst.Other()).slots[i])
      requires rec[..HEAD_SIZE + LengthField(rec[..])] == CopyOf(v0.At(dst.Other()).slots[i])
      requires Ran(v0, t0, CopyUpTo(config, v0, dst, idxs), media.vol, media.trace)
      modifies media, media.flash, media.flash.mem
      ensures Bound() && media.vol.At(dst.Other()) == old(media.vol).At(dst.Other())
      ensures AllReadable(v0.At(dst.Other()).slots, idxs + [i])
      ensures Ran(v0, t0, CopyUpTo(config, v0, dst, idxs + [i]), media.vol, media.trace)
    {
      hide Media.Valid, Ran, CopyUpTo, CopyOf, Config.MaxRecords, Word, Config.Ok;
      ghost var raw := v0.At(dst.Other()).slots[i];
      ghost var v1, t1 := media.vol, media.trace;
      CopiedBytes(rec[..], raw);
      var status := media.WriteRecord(dst, rec, dstIdx);
      ghost var cmd := ProgramSlot(dst, |idxs|, CopyOf(raw));
      OtherKept(v1, t1, cmd, media.vol, media.trace);
      CopyNext(config, v0, dst, idxs, i);
      RanThen(v0, t0, CopyUpTo(config, v0, dst, idxs), v1, t1, [cmd], media.vol, media.trace);
    }

    /** move_sector: copies every good record of the active sector, oldest first. */
    method MoveSector(scratch: array<byte>, dst: Which) returns (status: Status)
      requires Bound() && scratch.Length == config.recordSize && scratch != media.flash.mem && dst == active.Other()
      modifies media, media.flash, media.flash.mem, scratch
      ensures Bound() && status == EOK && media.vol.At(active) == old(media.vol).At(active)
      ensures Ran(old(media.vol), old(media.trace),
                  CompactCmds(config, old(media.vol), dst, SectorLiveSlots(old(media.vol).At(active))),
                  media.vol, media.trace)
    {
      hide Media.Valid, Ran, CopyUpTo, CompactCmds, HeadBytes, Config.MaxRecords, Config.Ok, Parse, LogOf, LiveSlots,
           SectorLiveSlots, Readable;
      ghost var v0, t0, log := media.vol, media.trace, LogOf(media.vol.At(active));
      media.LogLength(active);
      OpenSector(dst);
      NoLiveSlots(log);
      var idx, dstIdx := 0, 0;
      while idx < config.MaxRecords()
        invariant idx <= |log| == config.MaxRecords() && forall j :: 0 <= j < idx ==> log[j] != Empty
        invariant Bound() && media.vol.At(active) == v0.At(active)
        invariant dstIdx == |LiveSlots(log, idx)| && AllReadable(v0.At(active).slots, LiveSlots(log, idx))
        invariant Ran(v0, t0, CopyUpTo(config, v0, dst, LiveSlots(log, idx)), media.vol, media.trace)
      {
        LiveSlotsNext(log, idx);
        assert LiveSlots(log, idx) + [] == LiveSlots(log, idx);
        var done, copied := MoveSlot(scratch, idx, dst, dstIdx, v0, t0, log);
        if done { break; }
        if copied { dstIdx := dstIdx + 1; }
        idx := idx + 1;
      }
      NextIdxIs(log, idx);
      LiveSlotsAll(v0.At(active), idx);
      status := CommitSector(dst, v0, t0, LiveSlots(log, idx));
    }

    /** One round of the loop of move_sector. */
    method MoveSlot(scratch: array<byte>, idx: nat, dst: Which, dstIdx: nat, ghost v0: Vol, ghost t0: seq<Vol>,
                    ghost log: Log)
      returns (done: bool, copied: bool)
      requires Bound() && scratch.Length == config.recordSize && scratch != media.flash.mem && dst == active.Other()
      requires idx < config.MaxRecords() == |log| && log == LogOf(v0.At(active))
               && media.vol.At(active) == v0.At(active)
      requires dstIdx == |LiveSlots(log, idx)| <= idx && AllReadable(v0.At(active).slots, LiveSlots(log, idx))
      requires Ran(v0, t0, CopyUpTo(config, v0, dst, LiveSlots(log, idx)), media.vol, media.trace)
      modifies media, media.flash, media.flash.mem, scratch
      ensures Bound() && media.vol.At(active) == v0.At(active)
      ensures done == (log[idx] == Empty) && copied == log[idx].Live?
      ensures var idxs := LiveSlots(log, idx) + if copied then [idx] else [];
              AllReadable(v0.At(active).slots, idxs)
                && Ran(v0, t0, CopyUpTo(config, v0, dst, idxs), media.vol, media.trace)
    {
      hide Media.Valid, Ran, CopyUpTo, Config.MaxRecords, Parse, LiveSlots, Word, Checksum;
      media.IsOk();
      ghost var raw := v0.At(active).slots[idx];
      assert log[idx] == Parse(raw);
      assert LiveSlots(log, idx) + [] == LiveSlots(log, idx);
      var status := media.ReadRecord(active, scratch, idx);
      ReadIsParse(raw);
      if status != EOK { return status == E_EMPTY, false; }
      CopiedBytes(scratch[..], raw);
      var valid := RecordValid(scratch);
      if valid != EOK { return false, false; }
      CopyRecord(scratch, dst, dstIdx, v0, t0, LiveSlots(log, idx), idx);
      return false, true;
    }

    /** The commit of a compaction: the header byte that makes the destination VALID. */
    method CommitSector(dst: Which, ghost v0: Vol, ghost t0: seq<Vol>, ghost idxs: seq<nat>) returns (status: Status)
      requires Bound() && AllReadable(v0.At(dst.Other()).slots, idxs)
      requires Ran(v0, t0, CopyUpTo(config, v0, dst, idxs), media.vol, media.trace)
      modifies media, media.flash, media.flash.mem
      ensures Bound() && status == EOK && media.vol.At(dst.Other()) == old(media.vol).At(dst.Other())
      ensures Ran(v0, t0, CompactCmds(config, v0, dst, idxs), media.vol, media.trace)
    {
      hide Media.Valid, Ran, CopyUpTo, CompactCmds, HeadBytes;
      ghost var v1, t1 := media.vol, media.trace;
      status := media.SetSectorFlags(dst, SECTOR_VALID);
      OtherKept(v1, t1, ProgramHead(dst, HeadBytes(config, SECTOR_VALID)), media.vol, media.trace);
      CopyAll(config, v0, dst, idxs);
      RanThen(v0, t0, CopyUpTo(config, v0, dst, idxs), v1, t1,
              [ProgramHead(dst, HeadBytes(config, SECTOR_VALID))], media.vol, media.trace);
    }

    /** How both compactors end: on to the destination, which is scanned before the source is erased. */
    method SwitchSector(scratch: array<byte>, dst: Which, ghost v0: Vol, ghost t0: seq<Vol>, ghost idxs: seq<nat>)
      requires HasDict() && Bound() && scratch.Length == config.recordSize && Free(scratch)
      requires dst == active.Other() && AllReadable(v0.At(active).slots, idxs)
      requires Ran(v0, t0, CompactCmds(config, v0, dst, idxs), media.vol, media.trace)
      modifies this`version, this`active, this`next, this`inuse, this`invalid, this`error
      modifies media, media.flash, media.flash.mem, dict, dict.hashtab, scratch
      ensures HasDict() && Bound() && active == dst && ScannedAll(LogOf(old(media.vol).At(dst)))
      ensures Ran(v0, t0, ReplaceCmds(config, v0, dst, idxs), media.vol, media.trace)
    {
      hide D.Dictionary.Valid, D.Dictionary.Contents, Media.Valid, CompactCmds, ScanCmds, Config.MaxRecords, LogOf,
           ScannedAll, AllReadable, Exec, Images;
      ghost var v1, t1 := media.vol, media.trace;
      ghost var src := active;
      active := dst;
      var status := ConstructLookupTable(scratch);
      ghost var v2, t2 := media.vol, media.trace;
      RanThen(v0, t0, CompactCmds(config, v0, dst, idxs), v1, t1, ScanCmds(v1, dst), v2, t2);
      status := media.EraseSector(dst.Other());
      RanThen(v0, t0, CompactCmds(config, v0, dst, idxs) + ScanCmds(v1, dst), v2, t2,
              [EraseSector(src)], media.vol, media.trace);
    }

    /** nvol3_repair: moves the good records of the active sector to the other one. */
    method Repair() returns (status: Status)
      requires HasDict() && Bound()
      modifies this`version, this`active, this`next, this`inuse, this`invalid, this`error
      modifies media, media.flash, media.flash.mem, dict, dict.hashtab
      ensures HasDict() && Bound() && active == old(active).Other() && status == EOK
      ensures var src := old(active);
              var v0, idxs := old(media.vol), SectorLiveSlots(old(media.vol).At(src));
              && Ran(v0, old(media.trace), ReplaceCmds(config, v0, src.Other(), idxs), media.vol, media.trace)
              && ScannedAll(LogOf(Exec(v0, CompactCmds(config, v0, src.Other(), idxs)).At(src.Other())))
    {
      hide D.Dictionary.Valid, D.Dictionary.Contents, Media.Valid, CompactCmds, ReplaceCmds, ScanCmds,
           Config.MaxRecords, LogOf, ScannedAll, Exec, Images, SectorLiveSlots;
      ghost var v0, t0 := media.vol, media.trace;
      var scratch := new byte[config.recordSize];
      var dst := active.Other();
      status := MoveSector(scratch, dst);
      SwitchSector(scratch, dst, v0, t0, SectorLiveSlots(v0.At(dst.Other())));
    }

    /** One round of the loop of swap_sectors: it copies the record of node m and moves its entry along. */
    method SwapRecord(scratch: array<byte>, dst: Which, dstIdx: nat, m: D.Ptr,
                      ghost v0: Vol, ghost t0: seq<Vol>, ghost done: seq<nat>, ghost i: nat)
      requires dict != null && m in dict.heap && dict.heap[m].value.idx == i
      requires dst == active.Other() && dstIdx == |done| < config.MaxRecords() && AllReadable(v0.At(active).slots, done)
      requires media.vol.At(active) == v0.At(active) && i < |v0.At(active).slots| && Readable(v0.At(active).slots[i])
      requires Ran(v0, t0, CopyUpTo(config, v0, dst, done), media.vol, media.trace)
      requires HasDict() && Bound() && scratch.Length == config.recordSize && Free(scratch)
      modifies media, media.flash, media.flash.mem, dict`heap, scratch
      ensures AllReadable(v0.At(active).slots, done + [i])
      ensures Ran(v0, t0, CopyUpTo(config, v0, dst, done + [i]), media.vol, media.trace)
      ensures OthersKept(old(dict.heap), dict.heap, m)
      ensures HasDict() && Bound() && media.vol.At(active) == v0.At(active)
    {
      hide D.Dictionary.Valid, D.Dictionary.Contents, Media.Valid, Ran, CopyUpTo, Config.MaxRecords, Config.Ok,
           Readable;
      media.LogLength(active);
      media.IsOk();
      HasBounds(config);
      var entry := dict.heap[m].value;
      var status := media.ReadRecord(active, scratch, entry.idx);
      ReadIsParse(v0.At(active).slots[entry.idx]);
      if status != EOK {
        assert false;
      }
      CopyRecord(scratch, dst, dstIdx, v0, t0, done, entry.idx);
      dict.SetValue(m, entry.(idx := dstIdx));
    }

    /** The loop of swap_sectors: it follows the dictionary while it rewrites the entries behind it. */
    method CopyIndexed(scratch: array<byte>, dst: Which, ghost v0: Vol, ghost t0: seq<Vol>, ghost idxs: seq<nat>)
      requires dst == active.Other() && |idxs| <= config.MaxRecords() && AllReadable(v0.At(active).slots, idxs)
      requires media.vol.At(active) == v0.At(active)
               && Ran(v0, t0, CopyUpTo(config, v0, dst, []), media.vol, media.trace)
      requires dict != null && SlotsAhead(dict.heap, D.WalkFrom(dict.chains, 0), idxs, 0)
               && NoRepeats(D.WalkFrom(dict.chains, 0))
      requires HasDict() && Bound() && scratch.Length == config.recordSize && Free(scratch)
      modifies media, media.flash, media.flash.mem, dict`heap, scratch
      ensures HasDict() && Bound() && media.vol.At(active) == v0.At(active)
      ensures Ran(v0, t0, CopyUpTo(config, v0, dst, idxs), media.vol, media.trace)
    {
      hide D.Dictionary.Valid, D.Dictionary.Contents, D.Dictionary.At, D.WalkFrom, Media.Valid, Ran, CopyUpTo,
           Config.MaxRecords, SlotsAhead, NoRepeats, AllReadable, Readable;
      ghost var walk := D.WalkFrom(dict.chains, 0);
      WalkSize(dict.heap, walk, idxs, 0);
      ReadableNone(v0.At(active).slots);
      assert idxs[..0] == [];
      var it := new D.DictionaryIt();
      var dstIdx := 0;
      var m := dict.ItFirst(it, D.Unsorted);
      while m != D.NULL
        invariant dict.At(it) && it.order == D.Unsorted && dict.chains == old(dict.chains)
        invariant dstIdx <= |idxs| && if m == D.NULL then dstIdx == |idxs| else dstIdx < |idxs| && m == walk[dstIdx]
        invariant m != D.NULL ==> it.rest == walk[dstIdx + 1..]
        invariant AllReadable(v0.At(active).slots, idxs[..dstIdx]) && SlotsAhead(dict.heap, walk, idxs, dstIdx)
        invariant HasDict() && Bound() && media.vol.At(active) == v0.At(active)
        invariant Ran(v0, t0, CopyUpTo(config, v0, dst, idxs[..dstIdx]), media.vol, media.trace)
        decreases |idxs| - dstIdx
      {
        ReadableAt(v0.At(active).slots, idxs, dstIdx);
        WalkSize(dict.heap, walk, idxs, dstIdx);
        ghost var was := dict.heap;
        SwapRecord(scratch, dst, dstIdx, m, v0, t0, idxs[..dstIdx], idxs[dstIdx]);
        AheadNext(was, dict.heap, walk, idxs, dstIdx);
        dstIdx := dstIdx + 1;
        m := dict.ItNext(it);
      }
      assert idxs[..dstIdx] == idxs;
    }

    /** The walk over the dictionary is a walk over the index, */
    lemma WalkOfIndex()
      requires HasDict()
      ensures IsWalk(RamState(), dict.Walk()) && NoRepeats(D.WalkFrom(dict.chains, 0))
      ensures SlotsAhead(dict.heap, D.WalkFrom(dict.chains, 0), SlotsInOrder(RamState(), dict.Walk()), 0)
    {
      hide D.Dictionary.Valid, D.Dictionary.Contents, D.Dictionary.Walk, D.WalkFrom;
      dict.WalkOnce();
    }

    /** and its entries lead to readable records. */
    lemma WalkLeads()
      requires Valid()
      ensures var ram, order := RamState(), dict.Walk();
              && IsWalk(ram, order) && Reachable(media.vol, ram) && |order| <= config.MaxRecords()
              && SlotsAhead(dict.heap, D.WalkFrom(dict.chains, 0), SlotsInOrder(ram, order), 0)
              && NoRepeats(D.WalkFrom(dict.chains, 0))
              && AllReadable(media.vol.At(active).slots, SlotsInOrder(ram, order))
    {
      hide D.Dictionary.Valid, D.Dictionary.Contents, D.Dictionary.Walk, D.WalkFrom, Media.Valid, Powered,
           Config.MaxRecords, Readable, Parse, SlotsAhead, NoRepeats, LogOf;
      WalkOfIndex();
      media.IsOk();
      WalkCompacts(config, media.vol, RamState(), dict.Walk());
      WalkFits(config, media.vol, RamState(), dict.Walk());
    }

    /** swap_sectors */
    method SwapSectors(scratch: array<byte>) returns (status: Status)
      requires Valid() && scratch.Length == config.recordSize && Free(scratch)
      modifies this`version, this`active, this`next, this`inuse, this`invalid, this`error
      modifies media, media.flash, media.flash.mem, dict, dict.hashtab, scratch
      ensures Valid() && status == EOK
      ensures SwapDone(old(media.vol), old(media.trace), old(RamState()), old(dict.Walk()))
    {
      hide D.Dictionary.Valid, D.Dictionary.Contents, D.Dictionary.Walk, D.WalkFrom, Media.Valid, Ran, CopyUpTo,
           CompactCmds, ReplaceCmds, Config.MaxRecords, SlotsAhead, NoRepeats, AllReadable, Readable, Powered,
           SlotsInOrder, Reachable, ScannedAll, LogOf;
      WalkLeads();
      media.IsOk();
      ghost var v0, t0, ram, order := media.vol, media.trace, RamState(), dict.Walk();
      ghost var idxs := SlotsInOrder(ram, order);
      var dst := if active == One then Two else One;
      ReadableNone(v0.At(active).slots);
      OpenSector(dst);
      CopyIndexed(scratch, dst, v0, t0, idxs);
      status := CommitSector(dst, v0, t0, idxs);
      ghost var v1 := media.vol;
      RanIs(v0, t0, CompactCmds(config, v0, dst, idxs), v1, media.trace);
      SwitchSector(scratch, dst, v0, t0, idxs);
      SwapEnds(v0, t0, v1, ram, order, idxs);
    }

    lemma SwapEnds(v0: Vol, t0: seq<Vol>, v1: Vol, ram: Ram, order: seq<Key>, idxs: seq<nat>)
      requires dict != null && config.Ok() && Powered(config, v0, ram) && IsWalk(ram, order) && Reachable(v0, ram)
      requires active == ram.active.Other() && idxs == SlotsInOrder(ram, order)
               && AllReadable(v0.At(ram.active).slots, idxs)
      requires v1 == Exec(v0, CompactCmds(config, v0, active, idxs)) && ScannedAll(LogOf(v1.At(active)))
      requires Ran(v0, t0, ReplaceCmds(config, v0, active, idxs), media.vol, media.trace)
      ensures SwapDone(v0, t0, ram, order) && Powered(config, media.vol, RamState())
    {
      hide D.Dictionary.Contents, CompactCmds, ReplaceCmds, Config.MaxRecords, Powered, SlotsInOrder, IsWalk,
           Reachable, LogOf, NextIdx, CountLive, CountOf, Newest, Index, Images, Exec, AllReadable, Sized, Config.Ok;
      CompactedSized(config, v0, ram, order, idxs, active);
      SwapResult(config, v0, ram, order);
      assert RamState() == SwapRam(config, v0, ram, order);
    }

    /** A swap has been carried out as Protocol says. */
    ghost predicate SwapDone(v0: Vol, t0: seq<Vol>, ram: Ram, order: seq<Key>)
      reads this, media, dict
    {
      && dict != null && IsWalk(ram, order) && Reachable(v0, ram)
      && Ran(v0, t0, SwapCmds(config, v0, ram, order), media.vol, media.trace)
      && RamState() == SwapRam(config, v0, ram, order)
    }

    lemma WalkSize(heap: D.Heap, walk: seq<D.Ptr>, idxs: seq<nat>, n: nat)
      requires SlotsAhead(heap, walk, idxs, n)
      ensures |walk| == |idxs| && (n < |idxs| ==> walk[n] in heap && heap[walk[n]].value.idx == idxs[n])
    {
    }

    /** The header that record_set writes into the caller's buffer. */
    method SetHeader(value: array<byte>, len: nat, ghost body: seq<byte>)
      requires HEAD_SIZE + len <= value.Length && len < 0x1_0000 && value[HEAD_SIZE..HEAD_SIZE + len] == body
      modifies value
      ensures value[..HEAD_SIZE + len] == RecordBytes(FLAGS_NEW, body) && value[HEAD_SIZE..] == old(value[HEAD_SIZE..])
    {
      hide Sum, Checksum, LowByte, HighByte;
      var checksum := ByteSum(value, len);
      ChecksumIs(body, checksum);
      checksum := (0x1_0000 - checksum) % 0x1_0000;
      ghost var rest := value[HEAD_SIZE..];
      assert rest[..len] == body;
      value[0], value[1] := FLAGS_NEW[0], FLAGS_NEW[1];
      value[2], value[3] := LowByte(len), HighByte(len);
      value[4], value[5] := LowByte(checksum), HighByte(checksum);
      value[6], value[7] := 0xFF, 0xFF;
      assert value[HEAD_SIZE..] == rest;
      assert value[HEAD_SIZE..HEAD_SIZE + len] == value[HEAD_SIZE..][..len];
      assert value[..HEAD_SIZE + len] == value[..HEAD_SIZE] + value[HEAD_SIZE..HEAD_SIZE + len];
      assert value[..HEAD_SIZE]
             == FLAGS_NEW + [LowByte(len), HighByte(len), LowByte(checksum), HighByte(checksum), 0xFF, 0xFF];
    }

    /** The number of leading bytes that the bodies of two records share, up to n. */
    method CountSame(a: array<byte>, b: array<byte>, n: nat) returns (same: nat)
      requires HEAD_SIZE + n <= a.Length && HEAD_SIZE + n <= b.Length
      ensures same <= n && (same == n <==> a[HEAD_SIZE..HEAD_SIZE + n] == b[HEAD_SIZE..HEAD_SIZE + n])
    {
      same := 0;
      while same < n
        invariant same <= n && forall j :: HEAD_SIZE <= j < HEAD_SIZE + same ==> a[j] == b[j]
      {
        if a[HEAD_SIZE + same] != b[HEAD_SIZE + same] {
          assert a[HEAD_SIZE..HEAD_SIZE + n][same] != b[HEAD_SIZE..HEAD_SIZE + n][same];
          return;
        }
        same := same + 1;
      }
    }

    /** Does slot idx of the active sector already hold the record? */
    method AlreadySame(value: array<byte>, len: nat, idx: nat) returns (same: bool)
      requires Bound() && HEAD_SIZE + len <= value.Length
      requires idx < |media.vol.At(active).slots| && Readable(media.vol.At(active).slots[idx])
      ensures same == (BodyOf(media.vol.At(active).slots[idx]) == value[HEAD_SIZE..HEAD_SIZE + len])
    {
      hide Media.Valid, Config.MaxRecords, Word, Config.Ok;
      media.IsOk();
      HasBounds(config);
      media.LogLength(active);
      ghost var raw := media.vol.At(active).slots[idx];
      var rec := new byte[config.recordSize];
      var status := media.ReadRecord(active, rec, idx);
      ReadIsParse(raw);
      CopiedBytes(rec[..], raw);
      var length := Word(rec[2], rec[3]);
      if len != length { return false; }
      var count := CountSame(value, rec, len);
      same := count == len;
    }

    /** The new record goes to the next free slot, and then becomes VALID. */
    method AppendRecord(value: array<byte>, len: nat, ghost body: seq<byte>)
      requires Bound() && value != media.flash.mem && len == |body| <= config.BodyMax() && next < config.MaxRecords()
      requires HEAD_SIZE + len <= value.Length && value[HEAD_SIZE..HEAD_SIZE + len] == body
      modifies media, media.flash, media.flash.mem, value
      ensures Bound() && value[HEAD_SIZE..] == old(value[HEAD_SIZE..]) && Holds(config, value[..], body)
      ensures Ran(old(media.vol), old(media.trace),
                  [ProgramSlot(active, next, RecordBytes(FLAGS_NEW, body)), ProgramSlot(active, next, FLAGS_VALID)],
                  media.vol, media.trace)
    {
      hide Media.Valid, Config.MaxRecords, Word, Config.Ok, Ran, RecordBytes, Holds;
      media.IsOk();
      HasBounds(config);
      ghost var v0, t0 := media.vol, media.trace;
      SetHeader(value, len, body);
      NewRecord(config, value[..], body);
      var status := media.WriteRecord(active, value, next);
      ghost var v1, t1 := media.vol, media.trace;
      status := media.SetRecordFlags(active, FLAGS_VALID, next);
      ghost var append := ProgramSlot(active, next, RecordBytes(FLAGS_NEW, body));
      ghost var commit := ProgramSlot(active, next, FLAGS_VALID);
      RanThen(v0, t0, [append], v1, t1, [commit], media.vol, media.trace);
      assert [append] + [commit] == [append, commit];
    }

    /** What node m, or the null pointer, says about a key. */
    ghost predicate NodeOf(m: D.Ptr, key: Key)
      requires dict != null
      reads this, dict
    {
      && (m == D.NULL <==> key !in dict.Contents())
      && (m != D.NULL ==> m in dict.heap && dict.heap[m].value == dict.Contents()[key])
    }

    /** The part of record_set that writes: the new record, the flags of the one it replaces, the index. */
    method ReplaceRecord(m: D.Ptr, value: array<byte>, len: nat, ghost body: seq<byte>)
      requires Bound() && len == |body| <= config.BodyMax() && config.KeySize() <= len && next < config.MaxRecords()
      requires HEAD_SIZE + len <= value.Length && value[HEAD_SIZE..HEAD_SIZE + len] == body && Free(value)
      requires NodeOf(m, KeyOf(config.KeySize(), body))
      requires m != D.NULL ==> m in dict.heap && dict.heap[m].value.idx < config.MaxRecords()
      requires HasDict()
      modifies this`next, this`inuse, this`invalid, media, media.flash, media.flash.mem, dict, dict.hashtab, value
      ensures HasDict() && Bound() && value[HEAD_SIZE..] == old(value[HEAD_SIZE..])
      ensures RamState() == StoredRam(config, old(RamState()), body)
      ensures Ran(old(media.vol), old(media.trace),
                  AppendCmds(old(RamState()), body) + RetireCmds(old(RamState()), KeyOf(config.KeySize(), body)),
                  media.vol, media.trace)
    {
      hide D.Dictionary.Valid, D.Dictionary.Contents, Media.Valid, Config.MaxRecords, Config.Ok, Ran, RecordBytes,
           Holds, KeyOf, MakeEntry;
      media.IsOk();
      ghost var v0, t0, ram, key := media.vol, media.trace, RamState(), KeyOf(config.KeySize(), body);
      var idx := if m != D.NULL then dict.heap[m].value.idx else 0;
      AppendRecord(value, len, body);
      ghost var v1, t1 := media.vol, media.trace;
      next := next + 1;
      inuse := inuse + 1;
      RanNothing(v1, t1);
      if m != D.NULL {
        var status := media.SetRecordFlags(active, FLAGS_INVALID, idx);
        inuse := inuse - 1;
        invalid := invalid + 1;
      }
      RanThen(v0, t0, AppendCmds(ram, body), v1, t1, RetireCmds(ram, key), media.vol, media.trace);
      InsertLookupTable(value, next - 1, body);
    }

    /** record_set */
    method StoreRecord(m: D.Ptr, value: array<byte>, len: nat, ghost body: seq<byte>) returns (status: Status)
      requires len == |body| && config.KeySize() <= len && HEAD_SIZE + len <= value.Length
               && value[HEAD_SIZE..HEAD_SIZE + len] == body
      requires Free(value) && NodeOf(m, KeyOf(config.KeySize(), body))
      requires Accepts(config, RamState(), body) ==> next < config.MaxRecords()
      requires Valid()
      modifies this`next, this`inuse, this`invalid, media, media.flash, media.flash.mem, dict, dict.hashtab, value
      ensures Valid() && value[HEAD_SIZE..] == old(value[HEAD_SIZE..])
      ensures StoreDone(old(media.vol), old(media.trace), old(RamState()), body, status)
    {
      hide D.Dictionary.Valid, D.Dictionary.Contents, Media.Valid, Config.MaxRecords, Config.Ok, Ran, KeyOf, Powered,
           Store, StoredRam, AppendCmds, RetireCmds, NewestAt, LogOf, Readable, BodyOf, Config.BodyMax;
      media.IsOk();
      ghost var v0, t0, ram, key := media.vol, media.trace, RamState(), KeyOf(config.KeySize(), body);
      StoreIs(config, v0, ram, body);
      StoreResult(config, v0, ram, body);
      RanNothing(v0, t0);
      BodyLimit(config);
      if len > config.recordSize - HEAD_SIZE { return EFAIL; }
      dict.CountIsSize();
      if dict.count >= config.MaxRecords() - HEADROOM { return EFAIL; }
      if m != D.NULL {
        EntryLeads(config, v0, ram, key);
        media.LogLength(active);
        var same := AlreadySame(value, len, dict.heap[m].value.idx);
        if same { return EOK; }
      }
      ReplaceRecord(m, value, len, body);
      RanIs(v0, t0, AppendCmds(ram, body) + RetireCmds(ram, key), media.vol, media.trace);
      return EOK;
    }

    /** A store has been carried out as Protocol says. */
    ghost predicate StoreDone(v0: Vol, t0: seq<Vol>, ram: Ram, body: seq<byte>, status: Status)
      reads this, media, dict
    {
      var o := Store(config, v0, ram, body);
      dict != null && Ran(v0, t0, o.cmds, media.vol, media.trace) && RamState() == o.ram && status == o.status
    }

    /** The map that the store shows. */
    ghost function Map(): map<Key, seq<byte>>
      requires dict != null
      reads this, media, dict
    {
      Shown(config, media.vol, RamState())
    }

    /** A set has been carried out as Protocol says, in the order that the dictionary's walk gave to a swap. */
    ghost predicate SetDone(v0: Vol, t0: seq<Vol>, ram: Ram, order: seq<Key>, body: seq<byte>, status: Status)
      reads this, media, dict
    {
      && dict != null && IsWalk(ram, order) && Reachable(v0, ram)
      && var o := Set(config, v0, ram, order, body);
         Ran(v0, t0, o.cmds, media.vol, media.trace) && RamState() == o.ram && status == o.status
    }

    /** nvol3_record_set */
    method RecordSet(value: array<byte>, len: nat) returns (status: Status)
      requires config.KeySize() <= len && HEAD_SIZE + len <= value.Length
      requires Valid() && Free(value)
      modifies this`version, this`active, this`next, this`inuse, this`invalid, this`error
      modifies media, media.flash, media.flash.mem, dict, dict.hashtab, value
      ensures Valid() && value[HEAD_SIZE..] == old(value[HEAD_SIZE..])
      ensures SetDone(old(media.vol), old(media.trace), old(RamState()), old(dict.Walk()),
                      old(value[HEAD_SIZE..HEAD_SIZE + len]), status)
      ensures OnMap(State(old(media.vol), old(RamState())),
                    SetOp(old(value[HEAD_SIZE..HEAD_SIZE + len]), old(dict.Walk())),
                    old(media.trace), status)
      ensures status == EOK && !AlreadyIn(config, old(Map()), old(value[HEAD_SIZE..HEAD_SIZE + len])) ==>
                Placed(config, old(RamState()), RamState(), old(value[HEAD_SIZE..HEAD_SIZE + len]),
                       media.flash.mem[..])
    {
      hide D.Dictionary.Valid, D.Dictionary.Contents, D.Dictionary.Walk, Media.Valid, Config.MaxRecords, Config.Ok,
           KeyOf, Powered, Reachable, IsWalk, StoreDone, Accepts, SetDone, RoomMade, AlreadyIn, Placed, OnMap, Shown;
      WalkLeads();
      media.IsOk();
      HasBounds(config);
      ghost var v0, t0, ram, order := media.vol, media.trace, RamState(), dict.Walk();
      ghost var body := value[HEAD_SIZE..HEAD_SIZE + len];
      KeyBytes(config.KeySize(), body);
      MakeRoom(body);
      ghost var v1, t1, ram1 := media.vol, media.trace, RamState();
      assert value[HEAD_SIZE..HEAD_SIZE + len] == body;
      var key := value[HEAD_SIZE..HEAD_SIZE + config.KeySize()];
      assert key == body[..config.KeySize()];
      var m := dict.Lookup(key);
      status := StoreRecord(m, value, len, body);
      SetEnds(v0, t0, v1, t1, ram, ram1, order, body, status);
      SetOnMap(v0, t0, ram, order, body, status);
      SetPlaces(v0, t0, ram, order, body, status);
    }

    lemma SetPlaces(v0: Vol, t0: seq<Vol>, ram: Ram, order: seq<Key>, body: seq<byte>, status: Status)
      requires Bound() && Powered(config, v0, ram) && config.KeySize() <= |body|
      requires SetDone(v0, t0, ram, order, body, status)
      ensures status == EOK && !AlreadyIn(config, Shown(config, v0, ram), body) ==>
                Placed(config, ram, RamState(), body, media.flash.mem[..])
    {
      hide D.Dictionary.Contents, Config.Ok, Config.MaxRecords, Powered, Set, Exec, Images, Reachable, IsWalk, Shown,
           AlreadyIn, Placed, Layout.Decode, Layout.DecodeAll, Layout.Fits;
      if status == EOK && !AlreadyIn(config, Shown(config, v0, ram), body) {
        SetStands(config, v0, ram, order, body, media.flash.mem[..]);
      }
    }

    /** A loaded store on the bytes of the memory: its header, each of its records, and what is erased. */
    lemma OnBytes()
      requires Valid()
      ensures LaidOut(config, media.flash.mem[..], RamState(), Map())
    {
      hide D.Dictionary.Valid, D.Dictionary.Contents, Config.Ok, Config.MaxRecords, Powered, LaidOut, Shown,
           Layout.Decode, Layout.DecodeAll, Layout.Fits;
      StoreStands(config, media.flash.mem[..], RamState());
    }

    /** The map, the status and every image that has been on flash are those of the operation on the map. */
    ghost predicate OnMap(s: State, op: Op, t0: seq<Vol>, status: Status)
      reads this, media, dict
    {
      && dict != null
      && Map() == MapAfter(config, MapOf(config, s), op)
      && status == StatusOf(config, MapOf(config, s), op)
      && |t0| <= |media.trace| && forall x :: x in media.trace[|t0|..] ==> Recovers(config, s, op, x)
    }

    lemma SetOnMap(v: Vol, t: seq<Vol>, ram: Ram, order: seq<Key>, body: seq<byte>, status: Status)
      requires config.Ok() && Powered(config, v, ram) && config.KeySize() <= |body|
               && SetDone(v, t, ram, order, body, status)
      ensures OnMap(State(v, ram), SetOp(body, order), t, status)
    {
      hide D.Dictionary.Contents, Config.Ok, Config.MaxRecords, Powered, Set, Exec, Images, Reachable, IsWalk,
           MapAfter, Shown, MayRecover, Stores, Recovers;
      var s, op := State(v, ram), SetOp(body, order);
      DoneRefinesMap(config, s, op);
      SetResult(config, v, ram, order, body);
      ShownSize(config, s);
      forall x | x in Images(v, Set(config, v, ram, order, body).cmds)
        ensures Recovers(config, s, op, x)
      {
        TornRecovers(config, s, op, x);
      }
    }

    lemma DeleteOnMap(v: Vol, t: seq<Vol>, ram: Ram, key: Key, status: Status)
      requires config.Ok() && Powered(config, v, ram) && DeleteDone(v, t, ram, key, status)
      ensures OnMap(State(v, ram), DeleteOp(key), t, status)
    {
      hide D.Dictionary.Contents, Config.Ok, Config.MaxRecords, Powered, Delete, Exec, Images, MapAfter, Shown,
           MayRecover, Stores, Recovers;
      var s, op := State(v, ram), DeleteOp(key);
      DoneRefinesMap(config, s, op);
      DeleteResult(config, v, ram, key);
      forall x | x in Images(v, Delete(ram, key).cmds)
        ensures Recovers(config, s, op, x)
      {
        TornRecovers(config, s, op, x);
      }
    }

    /** The flash, its history and the RAM state after a full sector, if it was one, has been swapped. */
    ghost predicate RoomMade(v0: Vol, t0: seq<Vol>, ram: Ram, order: seq<Key>, v1: Vol, t1: seq<Vol>, ram1: Ram) {
      if ram.next >= config.MaxRecords() then
        && IsWalk(ram, order) && Reachable(v0, ram)
        && Ran(v0, t0, SwapCmds(config, v0, ram, order), v1, t1) && ram1 == SwapRam(config, v0, ram, order)
      else v1 == v0 && t1 == t0 && ram1 == ram
    }

    /** The first part of nvol3_record_set: a full active sector is swapped. */
    method MakeRoom(ghost body: seq<byte>)
      requires Valid()
      modifies this`version, this`active, this`next, this`inuse, this`invalid, this`error
      modifies media, media.flash, media.flash.mem, dict, dict.hashtab
      ensures Valid() && (Accepts(config, RamState(), body) ==> next < config.MaxRecords())
      ensures RoomMade(old(media.vol), old(media.trace), old(RamState()), old(dict.Walk()),
                       media.vol, media.trace, RamState())
    {
      hide D.Dictionary.Valid, D.Dictionary.Contents, D.Dictionary.Walk, Media.Valid, Config.MaxRecords, Config.Ok,
           Ran, Powered, SwapCmds, SwapRam, Reachable, IsWalk;
      WalkLeads();
      media.IsOk();
      ghost var v0, ram, order := media.vol, RamState(), dict.Walk();
      if next >= config.MaxRecords() {
        HasBounds(config);
        var scratch := new byte[config.recordSize];
        var status := SwapSectors(scratch);
        SwapResult(config, v0, ram, order);
      }
    }

    lemma SetEnds(v0: Vol, t0: seq<Vol>, v1: Vol, t1: seq<Vol>, ram: Ram, ram1: Ram, order: seq<Key>, body: seq<byte>,
                  status: Status)
      requires dict != null && IsWalk(ram, order) && Reachable(v0, ram)
      requires RoomMade(v0, t0, ram, order, v1, t1, ram1) && StoreDone(v1, t1, ram1, body, status)
      ensures SetDone(v0, t0, ram, order, body, status)
    {
      hide D.Dictionary.Contents, Config.MaxRecords, SwapCmds, SwapRam, Store, Reachable, IsWalk, Exec, Images;
      if ram.next >= config.MaxRecords() {
        RanThen(v0, t0, SwapCmds(config, v0, ram, order), v1, t1,
                Store(config, v1, ram1, body).cmds, media.vol, media.trace);
      }
    }

    /** Clears the header of a caller's record. */
    method ClearHead(record: array<byte>)
      requires HEAD_SIZE <= record.Length
      modifies record
      ensures record[HEAD_SIZE..] == old(record[HEAD_SIZE..])
    {
      forall i | 0 <= i < HEAD_SIZE {
        record[i] := 0;
      }
    }

    /** nvol3_record_get: the record's key and data, from the RAM copy if there is one, else from flash. */
    method RecordGet(record: array<byte>) returns (status: Status, length: nat)
      requires config.recordSize <= record.Length && HEAD_SIZE + config.KeySize() <= record.Length
      requires Valid() && Free(record)
      modifies record
      ensures GetDone(old(record[HEAD_SIZE..HEAD_SIZE + config.KeySize()]), status, length, record[..])
      ensures status == E_NOTFOUND ==> record[HEAD_SIZE..] == old(record[HEAD_SIZE..])
      ensures var key := old(record[HEAD_SIZE..HEAD_SIZE + config.KeySize()]);
              && status == (if key in Map() then EOK else E_NOTFOUND) && HEAD_SIZE + length <= record.Length
              && (key in Map() ==> record[HEAD_SIZE..HEAD_SIZE + length] == key + Map()[key])
    {
      hide D.Dictionary.Valid, D.Dictionary.Contents, Media.Valid, Config.MaxRecords, Config.Ok, Powered, Readable,
           LogOf, Parse, Word, CopyOf;
      media.IsOk();
      HasBounds(config);
      ghost var ram := RamState();
      var key := record[HEAD_SIZE..HEAD_SIZE + config.KeySize()];
      GetIsLookup(config, media.vol, ram, key);
      var m := dict.Lookup(key);
      ClearHead(record);
      if m == D.NULL { return E_NOTFOUND, 0; }
      CacheIsTransparent(config, media.vol, ram, key);
      var entry := dict.heap[m].value;
      ghost var raw := media.vol.At(active).slots[entry.idx];
      media.LogLength(active);
      media.SlotSize(active, entry.idx);
      ReadableFits(raw);
      assert |key + entry.local| == |key| + |entry.local|;
      if entry.length <= config.localSize {
        ReadLocal(record, key, entry);
        return EOK, entry.length + config.KeySize();
      }
      status, length := ReadFlash(record, entry.idx);
    }

    /** The read of the whole record from flash. */
    method ReadFlash(record: array<byte>, idx: nat) returns (status: Status, length: nat)
      requires idx < |media.vol.At(active).slots| && Readable(media.vol.At(active).slots[idx])
      requires Bound() && config.recordSize <= record.Length && record != media.flash.mem
      modifies record
      ensures var body := BodyOf(media.vol.At(active).slots[idx]);
              && status == EOK && length == |body| && HEAD_SIZE + length <= record.Length
              && record[HEAD_SIZE..HEAD_SIZE + length] == body
    {
      hide Media.Valid, Config.MaxRecords, Config.Ok, Word, CopyOf;
      media.IsOk();
      HasBounds(config);
      media.LogLength(active);
      media.SlotSize(active, idx);
      ghost var raw := media.vol.At(active).slots[idx];
      status := media.ReadRecord(active, record, idx);
      ReadIsParse(raw);
      CopiedBytes(record[..], raw);
      ReadableFits(raw);
      length := Word(record[2], record[3]);
    }

    /** The copies that nvol3_record_get makes from the dictionary. */
    method ReadLocal(record: array<byte>, key: Key, entry: Entry)
      requires HEAD_SIZE + |key| + |entry.local| <= record.Length
      modifies record
      ensures record[HEAD_SIZE..HEAD_SIZE + |key| + |entry.local|] == key + entry.local
    {
      forall i | 0 <= i < |key| {
        record[HEAD_SIZE + i] := key[i];
      }
      forall i | 0 <= i < |entry.local| {
        record[HEAD_SIZE + |key| + i] := entry.local[i];
      }
    }

    /** A get has found what Protocol says, and left it behind the header of the buffer. */
    ghost predicate GetDone(key: Key, status: Status, length: nat, record: seq<byte>)
      reads this, media, dict
    {
      && dict != null
      && var r := Get(config, media.vol, RamState(), key);
         && status == r.0 && length == |r.1|
         && HEAD_SIZE + length <= |record| && record[HEAD_SIZE..HEAD_SIZE + length] == r.1
    }

    /** nvol3_record_delete */
    method RecordDelete(record: array<byte>) returns (status: Status)
      requires HEAD_SIZE + config.KeySize() <= record.Length
      requires Valid() && Free(record)
      modifies this`inuse, this`invalid, media, media.flash, media.flash.mem, dict, dict.hashtab, record
      ensures Valid() && record[HEAD_SIZE..] == old(record[HEAD_SIZE..])
      ensures DeleteDone(old(media.vol), old(media.trace), old(RamState()),
                         old(record[HEAD_SIZE..HEAD_SIZE + config.KeySize()]), status)
      ensures OnMap(State(old(media.vol), old(RamState())),
                    DeleteOp(old(record[HEAD_SIZE..HEAD_SIZE + config.KeySize()])),
                    old(media.trace), status)
      ensures Cleared(old(RamState()), old(record[HEAD_SIZE..HEAD_SIZE + config.KeySize()]))
    {
      hide D.Dictionary.Valid, D.Dictionary.Contents, Media.Valid, Config.MaxRecords, Config.Ok, Ran, Powered,
           Readable, LogOf, NewestAt, Clean, ClearedAt;
      media.IsOk();
      ghost var v0, t0, ram := media.vol, media.trace, RamState();
      var key := record[HEAD_SIZE..HEAD_SIZE + config.KeySize()];
      RanNothing(v0, t0);
      ClearHead(record);
      var m := dict.Lookup(key);
      if m == D.NULL {
        DeleteOnMap(v0, t0, ram, key, E_NOTFOUND);
        return E_NOTFOUND;
      }
      DropRecord(key, m);
      DeleteOnMap(v0, t0, ram, key, EOK);
      DeleteClears(v0, t0, ram, key);
      return EOK;
    }

    /** The flags of the record that the index led to, on the bytes of the memory. */
    ghost predicate Cleared(ram: Ram, key: Key)
      reads this, media, media.flash, media.flash.mem
    {
      key in ram.dict ==>
        && active == ram.active
        && ClearedAt(config, media.flash.mem[..], if active.One? then config.sector1 else config.sector2,
                     ram.dict[key].idx)
    }

    lemma DeleteClears(v0: Vol, t0: seq<Vol>, ram: Ram, key: Key)
      requires Bound() && Powered(config, v0, ram) && key in ram.dict && DeleteDone(v0, t0, ram, key, EOK)
      ensures Cleared(ram, key)
    {
      hide D.Dictionary.Contents, Config.Ok, Config.MaxRecords, Powered, Exec, Images, ClearedAt, Layout.Decode,
           Layout.DecodeAll, Layout.Fits;
      DeleteStands(config, v0, ram, key, media.flash.mem[..]);
    }

    /** The part of nvol3_record_delete for a key that is there. */
    method DropRecord(key: Key, m: D.Ptr)
      requires dict != null && m != D.NULL && NodeOf(m, key) && m in dict.heap && |key| == config.KeySize()
      requires Valid()
      modifies this`inuse, this`invalid, media, media.flash, media.flash.mem, dict, dict.hashtab
      ensures Valid() && DeleteDone(old(media.vol), old(media.trace), old(RamState()), key, EOK)
    {
      hide D.Dictionary.Valid, D.Dictionary.Contents, Media.Valid, Config.MaxRecords, Config.Ok, Ran, Powered,
           Readable, LogOf, NewestAt, Clean;
      media.IsOk();
      ghost var v0, t0, ram := media.vol, media.trace, RamState();
      DeleteResult(config, v0, ram, key);
      EntryLeads(config, v0, ram, key);
      CleanMeans(config, v0, ram);
      media.LogLength(active);
      var status := media.SetRecordFlags(active, FLAGS_INVALID, dict.heap[m].value.idx);
      RanIs(v0, t0, Delete(ram, key).cmds, media.vol, media.trace);
      inuse := inuse - 1;
      invalid := invalid + 1;
      var found := dict.Remove(key);
    }

    /** A delete has been carried out as Protocol says. */
    ghost predicate DeleteDone(v0: Vol, t0: seq<Vol>, ram: Ram, key: Key, status: Status)
      reads this, media, dict
    {
      var o := Delete(ram, key);
      dict != null && Ran(v0, t0, o.cmds, media.vol, media.trace) && RamState() == o.ram && status == o.status
    }

    /** The branches of init_sectors that go on with a good sector. */
    method UseSector(w: Which, drop: bool)
      requires HasDict() && Bound()
      modifies this`active, media, media.flash, media.flash.mem
      ensures HasDict() && Bound() && active == w
      ensures Ran(old(media.vol), old(media.trace),
                  PlanCmds(config, old(media.vol), Use(w, drop)), media.vol, media.trace)
    {
      hide D.Dictionary.Valid, Media.Valid, Ran;
      RanNothing(media.vol, media.trace);
      if drop {
        var status := media.EraseSector(w.Other());
      }
      active := w;
    }

    /** The branch of init_sectors for two empty sectors. */
    method FormatFirst()
      requires HasDict() && Bound()
      modifies this`active, media, media.flash, media.flash.mem
      ensures HasDict() && Bound() && active == One
      ensures Ran(old(media.vol), old(media.trace), PlanCmds(config, old(media.vol), Format), media.vol, media.trace)
    {
      hide D.Dictionary.Valid, Media.Valid, Ran, HeadBytes;
      ghost var v0, t0 := media.vol, media.trace;
      active := One;
      var status := media.EraseSector(One);
      ghost var v1, t1 := media.vol, media.trace;
      status := media.SetSectorFlags(One, SECTOR_VALID);
      ghost var head := ProgramHead(One, HeadBytes(config, SECTOR_VALID));
      RanThen(v0, t0, [EraseSector(One)], v1, t1, [head], media.vol, media.trace);
      assert [EraseSector(One)] + [head] == [EraseSector(One), head];
    }

    /** The branches of init_sectors that repair: src is the sector whose records are moved. */
    method RepairFrom(src: Which)
      requires HasDict() && Bound()
      modifies this`version, this`active, this`next, this`inuse, this`invalid, this`error
      modifies media, media.flash, media.flash.mem, dict, dict.hashtab
      ensures HasDict() && Bound() && active == src.Other()
      ensures Ran(old(media.vol), old(media.trace),
                  PlanCmds(config, old(media.vol), Plan.Repair(src)), media.vol, media.trace)
    {
      hide D.Dictionary.Valid, Media.Valid, Ran, ReplaceCmds, CompactCmds, Exec, Images, LogOf, ScannedAll,
           SectorLiveSlots;
      active := src;
      var status := Repair();
    }

    /** What happens next depends on the flags of both sectors. */
    method MountSectors(f1: SectorFlags, f2: SectorFlags)
      requires HasDict() && Bound() && f1 != FBad && f2 != FBad
      modifies this`version, this`active, this`next, this`inuse, this`invalid, this`error
      modifies media, media.flash, media.flash.mem, dict, dict.hashtab
      ensures HasDict() && Bound() && active == PlanActive(Choose(f1, f2))
      ensures Ran(old(media.vol), old(media.trace),
                  PlanCmds(config, old(media.vol), Choose(f1, f2)), media.vol, media.trace)
    {
      hide D.Dictionary.Valid, Media.Valid, Ran, PlanCmds;
      match f1 {
        case FEmpty =>
          match f2 {
            case FEmpty => FormatFirst();
            case FInitializing => RepairFrom(Two);
            case FValid => UseSector(Two, false);
            case FInvalid => RepairFrom(Two);
          }
        case FInitializing =>
          match f2 {
            case FEmpty => RepairFrom(One);
            case FInitializing => RepairFrom(One);
            case FValid => UseSector(Two, true);
            case FInvalid => RepairFrom(Two);
          }
        case FValid => UseSector(One, true);
        case FInvalid =>
          match f2 {
            case FEmpty => RepairFrom(One);
            case FInitializing => RepairFrom(One);
            case FValid => UseSector(Two, true);
            case FInvalid => RepairFrom(One);
          }
      }
    }

    /** The sector is erased if its flags, which have been read before, are none of the four known words. */
    method DropUnknown(w: Which, flags: seq<byte>) returns (f: SectorFlags)
      requires HasDict() && Bound()
      requires |media.vol.At(w).head| == SECTOR_HEAD && flags == media.vol.At(w).head[..4]
      modifies media, media.flash, media.flash.mem
      ensures HasDict() && Bound() && f == CleanFlags(old(media.vol).At(w))
              && media.vol.At(w.Other()) == old(media.vol).At(w.Other())
      ensures Ran(old(media.vol), old(media.trace), DropBad(old(media.vol), w), media.vol, media.trace)
    {
      hide D.Dictionary.Valid, Media.Valid, Ran;
      ghost var v0, t0 := media.vol, media.trace;
      RanNothing(v0, t0);
      f := FlagsWord(flags);
      if f == FBad {
        var status := media.EraseSector(w);
        OtherKept(v0, t0, EraseSector(w), media.vol, media.trace);
        f := FEmpty;
      }
    }

    /** init_sectors */
    method InitSectors(scratch: array<byte>) returns (status: Status)
      requires HasDict() && Bound() && scratch.Length == config.recordSize && Free(scratch)
      modifies this`version, this`active, this`next, this`inuse, this`invalid, this`error
      modifies media, media.flash, media.flash.mem, dict, dict.hashtab, scratch
      ensures HasDict() && Bound() && active == PlanActive(PlanFor(old(media.vol)))
      ensures ScannedAll(LogOf(Exec(old(media.vol), MountCmds(config, old(media.vol))).At(active)))
      ensures Ran(old(media.vol), old(media.trace), LoadCmds(config, old(media.vol)), media.vol, media.trace)
      ensures HeadVersion(version)
      ensures status == if version == config.version then EOK else E_VERSION
    {
      hide D.Dictionary.Valid, Media.Valid, Ran, DropBad, PlanCmds, Choose, CleanFlags, LogOf, ScannedAll, ScanCmds;
      ghost var v0, t0 := media.vol, media.trace;
      var version1, flags1 := media.GetSectorVersion(One);
      var version2, flags2 := media.GetSectorVersion(Two);
      var f1 := DropUnknown(One, flags1);
      ghost var v1, t1 := media.vol, media.trace;
      var f2 := DropUnknown(Two, flags2);
      DropSame(v1, v0, Two);
      ghost var bad := DropBad(v0, One) + DropBad(v0, Two);
      RanThen(v0, t0, DropBad(v0, One), v1, t1, DropBad(v0, Two), media.vol, media.trace);
      ghost var v2, t2 := media.vol, media.trace;
      next := 0;
      MountSectors(f1, f2);
      RanIs(v0, t0, bad, v2, t2);
      RanThen(v0, t0, bad, v2, t2, PlanCmds(config, v2, PlanFor(v0)), media.vol, media.trace);
      ghost var v3, t3 := media.vol, media.trace;
      RanIs(v0, t0, MountCmds(config, v0), v3, t3);
      status := ConstructLookupTable(scratch);
      RanThen(v0, t0, MountCmds(config, v0), v3, t3, ScanCmds(v3, active), media.vol, media.trace);
    }

    lemma DropSame(v: Vol, v0: Vol, w: Which)
      requires v.At(w) == v0.At(w)
      ensures DropBad(v, w) == DropBad(v0, w) && CleanFlags(v.At(w)) == CleanFlags(v0.At(w))
    {
    }

    /** A load has been carried out as Protocol says, and left one VALID sector and one empty one. */
    ghost predicate LoadDone(v0: Vol, t0: seq<Vol>)
      reads this, media, dict
    {
      && Ran(v0, t0, LoadCmds(config, v0), media.vol, media.trace)
      && active == LoadRam(config, v0).active && ScannedAll(LogOf(Exec(v0, MountCmds(config, v0)).At(active)))
      && FlagsOf(media.vol.At(active)) == FValid && FlagsOf(media.vol.At(active.Other())) == FEmpty
    }

    /** The index is created anew. */
    method NewDict()
      requires Closed()
      modifies this`dict, dict, if dict == null then {} else {dict.hashtab}
      ensures dict != null && fresh(dict) && fresh(dict.hashtab) && HasDict()
    {
      hide D.Dictionary.Valid, D.Dictionary.Contents, Config.MaxRecords, Powered;
      media.IsOk();
      HasHash(config);
      if dict != null {
        dict.RemoveAll();
        dict := null;
      }
      dict := new D.Dictionary(config.keyWords, config.hashSize);
    }

    /** nvol3_load, from whatever is on flash. */
    method Load() returns (status: Status)
      requires Closed()
      modifies this, media, media.flash, media.flash.mem, dict, if dict == null then {} else {dict.hashtab}
      ensures dict != null && fresh(dict) && fresh(dict.hashtab) && HasDict() && Bound()
      ensures HeadVersion(version)
      ensures LoadDone(old(media.vol), old(media.trace))
      ensures status == if version == config.version then EOK else E_VERSION
      ensures forall m :: Stores(config, old(media.vol), m) ==> Loaded(old(media.vol), old(media.trace), m)
      ensures Picked(old(media.flash.mem[..]))
    {
      hide D.Dictionary.Valid, D.Dictionary.Contents, Media.Valid, Config.Ok, Config.MaxRecords, Ran, MountCmds,
           LoadCmds, LogOf, ScannedAll, Stores, Powered, NewestAt, Shape, Loaded, Picked, LoadDone, Layout.Fits,
           Layout.Decode;
      media.IsOk();
      media.ShapedVolume();
      HasBounds(config);
      ghost var v0, t0, was := media.vol, media.trace, media.flash.mem[..];
      Decoded();
      var scratch := new byte[config.recordSize];
      active, next, inuse, invalid := One, 0, 0, 0;
      NewDict();
      status := InitSectors(scratch);
      RanIs(v0, t0, LoadCmds(config, v0), media.vol, media.trace);
      LoadIsDone(v0, t0);
      AllLoads(v0, t0);
      Decoded();
      LoadPicked(v0, t0, was);
    }

    lemma LoadIsDone(v0: Vol, t0: seq<Vol>)
      requires Shaped(config, v0) && Ran(v0, t0, LoadCmds(config, v0), media.vol, media.trace)
      requires active == PlanActive(PlanFor(v0))
      requires dict != null && ScannedAll(LogOf(Exec(v0, MountCmds(config, v0)).At(active)))
      ensures LoadDone(v0, t0)
    {
      hide D.Dictionary.Contents, MountCmds, LoadCmds, LogOf, ScannedAll, PlanFor, Shape, Exec, Images, Newest, Index,
           NextIdx, CountLive, CountOf, FlagsOf;
      LoadIsTotal(config, v0);
    }

    lemma Decoded()
      requires Bound()
      ensures config.Ok() && Layout.Fits(config, media.flash.mem.Length)
              && media.vol == Layout.Decode(config, media.flash.mem[..])
    {
      hide Config.Ok, Layout.Fits, Layout.Decode, Layout.DecodeAll;
    }

    /** The flags of the two sectors after a load, and which of them it takes, on the bytes of the memory. */
    ghost predicate Picked(was: seq<byte>)
      reads this, media, media.flash, media.flash.mem
    {
      var mem := media.flash.mem[..];
      && StandsAt(mem, if active.One? then config.sector1 else config.sector2, [0xFF, 0xFF, 0xAA, 0xAA])
      && StandsAt(mem, if active.One? then config.sector2 else config.sector1, [0xFF, 0xFF, 0xFF, 0xFF])
      && (StandsAt(was, config.sector1, [0xFF, 0xFF, 0xAA, 0xAA]) ==> active == One)
      && (StandsAt(was, config.sector2, [0xFF, 0xFF, 0xAA, 0xAA]) ==>
            StandsAt(was, config.sector1, [0xFF, 0xFF, 0xAA, 0xAA]) || active == Two)
    }

    lemma LoadPicked(v0: Vol, t0: seq<Vol>, was: seq<byte>)
      requires Bound() && config.Ok() && Layout.Fits(config, |was|) && Layout.Fits(config, media.flash.mem.Length)
      requires v0 == Layout.Decode(config, was) && media.vol == Layout.Decode(config, media.flash.mem[..])
      requires LoadDone(v0, t0)
      ensures Picked(was)
    {
      hide Media.Valid, Config.Ok, Config.MaxRecords, Layout.Fits, Layout.Decode, Ran, LoadCmds, MountCmds, LogOf,
           ScannedAll, FlagsOf, LoadRam, StandsAt;
      LoadPicks(config, was);
      FlagsStand(config, media.flash.mem[..], active, if active.One? then config.sector1 else config.sector2);
      FlagsStand(config, media.flash.mem[..], active.Other(), if active.One? then config.sector2 else config.sector1);
    }

    lemma AllLoads(v0: Vol, t0: seq<Vol>)
      requires HasDict() && Bound() && active == PlanActive(PlanFor(v0))
      requires media.vol == Exec(v0, LoadCmds(config, v0)) && media.trace == t0 + Images(v0, LoadCmds(config, v0))
      requires ScannedAll(LogOf(Exec(v0, MountCmds(config, v0)).At(active)))
      ensures forall m :: Stores(config, v0, m) ==> Loaded(v0, t0, m)
    {
      hide D.Dictionary.Valid, D.Dictionary.Contents, Media.Valid, MountCmds, LoadCmds, LogOf, Powered, Durable,
           ViewAt, PlanFor, Loaded, ScannedAll, Images, Exec;
      forall m | Stores(config, v0, m)
        ensures Loaded(v0, t0, m)
      {
        var w :| Durable(config, v0, w) && ViewAt(config, v0, w) == m;
        LoadEnds(v0, w);
        LoadKeepsStored(config, v0, m);
        LoadedIs(v0, t0, m);
      }
    }

    lemma LoadedIs(v0: Vol, t0: seq<Vol>, m: map<Key, seq<byte>>)
      requires LoadShows(v0, m) && media.trace == t0 + Images(v0, LoadCmds(config, v0))
      requires forall x :: x in Images(v0, LoadCmds(config, v0)) ==> Stores(config, x, m)
      ensures Loaded(v0, t0, m)
    {
      hide LoadShows, Images, LoadCmds, Stores;
    }

    /**
     * The load of a volume that stores a map shows this map, with an exact index, and every image that it has
     * written on the way stores the map as well.
     */
    ghost predicate Loaded(v0: Vol, t0: seq<Vol>, m: map<Key, seq<byte>>)
      reads this, media, media.flash, media.flash.mem, dict, if dict == null then {} else {dict.hashtab}
    {
      && LoadShows(v0, m)
      && |t0| <= |media.trace| && forall x :: x in media.trace[|t0|..] ==> Stores(config, x, m)
    }

    ghost predicate LoadShows(v0: Vol, m: map<Key, seq<byte>>)
      reads this, media, media.flash, media.flash.mem, dict, if dict == null then {} else {dict.hashtab}
    {
      && Valid() && RamState() == LoadRam(config, v0) && Exact(config, media.vol, RamState())
      && Map() == m
    }

    lemma LoadEnds(v0: Vol, w: Which)
      requires HasDict() && Bound() && media.vol == Exec(v0, LoadCmds(config, v0)) && active == PlanActive(PlanFor(v0))
      requires ScannedAll(LogOf(Exec(v0, MountCmds(config, v0)).At(active))) && Durable(config, v0, w)
      ensures LoadShows(v0, ViewAt(config, v0, w))
    {
      hide D.Dictionary.Valid, D.Dictionary.Contents, Media.Valid, Config.Ok, Config.MaxRecords, MountCmds, LoadCmds,
           LogOf, Powered, Parse, NewestAt, NextIdx, CountLive, CountOf, Index, Newest, Exec, Exact, PlanFor, Shown,
           Shape;
      MountDurable(config, v0, w);
      SizedSector(config, v0, w);
      Boot(config, v0, w);
      assert RamState() == LoadRam(config, v0);
      ExactShows(config, media.vol, RamState());
    }

    /** nvol3_reset: an empty map, in freshly formatted flash. */
    method Reset() returns (status: Status)
      requires Closed()
      modifies this, media, media.flash, media.flash.mem, dict, if dict == null then {} else {dict.hashtab}
      ensures dict != null && fresh(dict) && fresh(dict.hashtab) && Valid() && status == EOK
      ensures Map() == map[] && Exact(config, media.vol, RamState()) && Clean(RamState()) && next == 0
      ensures Ran(old(media.vol), old(media.trace), ResetCmds(config), media.vol, media.trace)
      ensures HeaderAt(media.flash.mem[..], config.sector1, config.version)
      ensures ErasedAt(media.flash.mem[..], config.sector2, 16)
    {
      hide D.Dictionary.Valid, D.Dictionary.Contents, Media.Valid, Config.Ok, Config.MaxRecords, Ran, MountCmds,
           LoadCmds, LogOf, ScannedAll, Durable, Powered, NewestAt, Shape, LoadDone, Loaded, Exec, Images,
           ErasedSector, ResetCmds, Picked, HeaderAt, ErasedAt, LaidOut;
      media.IsOk();
      media.ShapedVolume();
      if dict != null { dict.RemoveAll(); }
      dict := null;
      ghost var v0, t0 := media.vol, media.trace;
      var erased := media.EraseSector(One);
      RanErase(config, v0, t0, One, media.vol, media.trace);
      ghost var v1, t1 := media.vol, media.trace;
      erased := media.EraseSector(Two);
      RanErase(config, v1, t1, Two, media.vol, media.trace);
      ghost var v2, t2 := media.vol, media.trace;
      status := Load();
      ResetEnds(v2, t2);
      RanThen(v0, t0, [EraseSector(One)], v1, t1, [EraseSector(Two)], v2, t2);
      ResetRan(v0, t0, v2, t2);
      FormatStands(v2, t2);
    }

    lemma FormatStands(v: Vol, t: seq<Vol>)
      requires Valid() && v == Blanked(config) && LoadDone(v, t)
      ensures HeaderAt(media.flash.mem[..], config.sector1, config.version)
      ensures ErasedAt(media.flash.mem[..], config.sector2, 16)
    {
      hide D.Dictionary.Valid, D.Dictionary.Contents, Media.Valid, Config.MaxRecords, Powered, Ran, LoadCmds, LogOf,
           ScannedAll, LoadRam, Shown, HeaderAt, ErasedAt, SlotHolds, SlotErasedAt, Blanked;
      media.IsOk();
      LoadOfBlank(config);
      OnBytes();
    }

    lemma ResetRan(v0: Vol, t0: seq<Vol>, v2: Vol, t2: seq<Vol>)
      requires Ran(v0, t0, [EraseSector(One)] + [EraseSector(Two)], v2, t2) && v2 == Blanked(config)
      requires dict != null && LoadDone(v2, t2)
      ensures Ran(v0, t0, ResetCmds(config), media.vol, media.trace)
    {
      hide Ran, LoadCmds, MountCmds, LogOf, ScannedAll, ErasedSector, FlagsOf, Blanked;
      assert [EraseSector(One)] + [EraseSector(Two)] == [EraseSector(One), EraseSector(Two)];
      RanThen(v0, t0, [EraseSector(One), EraseSector(Two)], v2, t2, LoadCmds(config, v2), media.vol, media.trace);
    }

    /** nvol3_validate: flags and version of sector one, or else of sector two. */
    method Validate() returns (status: Status)
      requires Bound()
      ensures Shaped(config, media.vol) && status == Starts.Validate(config, media.vol)
    {
      hide Media.Valid, Shape, VersionOf;
      media.ShapedVolume();
      var version1, flags1 := media.GetSectorVersion(One);
      var version2, flags2 := media.GetSectorVersion(Two);
      if flags1 == SECTOR_INITIALIZING || flags1 == SECTOR_VALID || flags1 == SECTOR_INVALID {
        return if version1 == config.version then EOK else E_VERSION;
      }
      if flags2 == SECTOR_INITIALIZING || flags2 == SECTOR_VALID || flags2 == SECTOR_INVALID {
        return if version2 == config.version then EOK else E_VERSION;
      }
      return EFAIL;
    }

    /** registry_start: the volume is loaded if it is valid, and reset if not. */
    method Start() returns (status: Status)
      requires Closed()
      modifies this, media, media.flash, media.flash.mem, dict, if dict == null then {} else {dict.hashtab}
      ensures dict != null && fresh(dict) && fresh(dict.hashtab) && HasDict() && Bound()
      ensures Shaped(config, old(media.vol))
      ensures Ran(old(media.vol), old(media.trace), StartCmds(config, old(media.vol)), media.vol, media.trace)
      ensures forall w :: Durable(config, old(media.vol), w) ==> StartedWith(old(media.vol), w)
    {
      hide D.Dictionary.Valid, D.Dictionary.Contents, Media.Valid, Config.Ok, Config.MaxRecords, Ran, LoadCmds,
           ResetCmds, Starts.Validate, Shape, LogOf, Powered, NewestAt, Durable, StartedWith, Stores, MountCmds,
           ScannedAll, ViewAt, LoadShows;
      ghost var v0, t0 := media.vol, media.trace;
      var valid := Validate();
      if valid != EOK {
        status := Reset();
      } else {
        status := Load();
      }
      forall w | Durable(config, v0, w)
        ensures StartedWith(v0, w)
      {
        StoresBy(config, v0, w);
        StartEnds(v0, t0, w);
      }
    }

    /** The map of a valid volume is shown, and any other volume is empty now. */
    ghost predicate StartedWith(v0: Vol, w: Which)
      requires Shaped(config, v0)
      reads this, media, media.flash, media.flash.mem, dict, if dict == null then {} else {dict.hashtab}
    {
      && Valid() && Exact(config, media.vol, RamState())
      && Map() == if Starts.Validate(config, v0) == EOK then ViewAt(config, v0, w) else map[]
    }

    lemma StartEnds(v0: Vol, t0: seq<Vol>, w: Which)
      requires Shaped(config, v0)
      requires Starts.Validate(config, v0) == EOK ==> Loaded(v0, t0, ViewAt(config, v0, w))
      requires Starts.Validate(config, v0) != EOK ==>
                 Valid() && Map() == map[] && Exact(config, media.vol, RamState())
      ensures StartedWith(v0, w)
    {
      hide D.Dictionary.Valid, D.Dictionary.Contents, Media.Valid, Powered, NewestAt, Starts.Validate, ViewAt, Shape,
           Exact, Stores;
    }

    lemma ResetEnds(v: Vol, t: seq<Vol>)
      requires HasDict() && Bound() && config.Ok() && v == Blanked(config) && LoadDone(v, t) && HeadVersion(version)
      ensures Valid() && version == config.version
      ensures Map() == map[] && Exact(config, media.vol, RamState()) && Clean(RamState()) && next == 0
    {
      hide D.Dictionary.Valid, D.Dictionary.Contents, Media.Valid, Config.Ok, Config.MaxRecords, MountCmds, LoadCmds,
           LogOf, Powered, Parse, NewestAt, NextIdx, CountLive, CountOf, Index, Newest, Exec, Images, Exact, PlanFor,
           Shown, Shape, Blanked, VersionOf, HeadBytes, Clean;
      MountOfBlank(config);
      SoleSizedLog(config, Exec(v, MountCmds(config, v)), One);
      assert RamState() == LoadRam(config, v);
      FormatIsEmpty(config);
      assert State(media.vol, RamState()) == Rebooted(config, v);
      PoweredVersion(config, media.vol, RamState());
    }
  }

  /**
   * Power has failed while an operation was under way, so that the memory holds one of its images. A new
   * instance over that memory comes up with a map that the operation allows, and if power fails again on the
   * way, every image that it has written allows the next instance to do the same.
   */
  method PowerUp(c: Config, mem: array<byte>, ghost s: State, ghost op: Op) returns (n: Nvol3)
    requires c.Ok() && Layout.Fits(c, mem.Length) && Recovers(c, s, op, Layout.Decode(c, mem[..]))
    modifies mem
    ensures n.dict != null && n.Valid() && n.config == c && n.media.flash.mem == mem
    ensures Exact(c, n.media.vol, n.RamState()) && MayRecover(c, s, op, n.Map())
    ensures forall x :: x in n.media.trace ==> Recovers(c, s, op, x)
  {
    hide Config.Ok, Stores, MayRecover, Layout.Decode, Layout.Fits, LoadRam, LoadCmds;
    ghost var m :| Stores(c, Layout.Decode(c, mem[..]), m) && MayRecover(c, s, op, m);
    var flash := new RamDrv(mem);
    var media := new Media(c, flash);
    n := new Nvol3(media);
    var status := n.Load();
    assert n.Loaded(Layout.Decode(c, old(mem[..])), [], m);
    assert n.media.trace[0..] == n.media.trace;
  }
}
