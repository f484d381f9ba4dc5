/**
 * What each operation of the store does to flash and to its RAM state (src/nvram/nvol3.c), as the list
 * of flash commands it issues and the RAM state it leaves. Nothing here can fail part-way: crashes are
 * prefixes of the command lists.
 */
module Protocol {
  import opened ErrorDef
  import opened Flash
  import opened Records
  import opened Volumes
  import opened Logs

  const PAGE_SIZE: nat := 0x20
  const HEADROOM: nat := 4
  const SECTOR_HEAD: nat := 16

  /** The integer quotient, as repeated subtraction. */
  function Quotient(n: nat, d: nat): nat
    requires 0 < d
  {
    if n < d then 0 else 1 + Quotient(n - d, d)
  }

  lemma {:induction false} QuotientIs(n: nat, d: nat)
    requires 0 < d
    ensures d * Quotient(n, d) <= n < d * Quotient(n, d) + d
  {
    if n >= d {
      QuotientIs(n - d, d);
      assert d * Quotient(n, d) == d * Quotient(n - d, d) + d;
    }
  }

  /** max_records: as many slots as fit behind the first page of a sector. */
  lemma MaxRecordsFit(c: Config)
    requires 0 < c.recordSize && PAGE_SIZE <= c.sectorSize
    ensures var room := c.sectorSize - PAGE_SIZE;
            c.recordSize * c.MaxRecords() <= room < c.recordSize * c.MaxRecords() + c.recordSize
  {
    QuotientIs(c.sectorSize - PAGE_SIZE, c.recordSize);
  }

  datatype Config = Config(
    sector1: nat, sector2: nat, sectorSize: nat,
    recordSize: nat, localSize: nat, keyWords: nat, hashSize: nat, version: nat)
  {
    function KeySize(): nat { 4 * keyWords }

    function MaxRecords(): nat {
      if recordSize == 0 || sectorSize < PAGE_SIZE then 0 else Quotient(sectorSize - PAGE_SIZE, recordSize)
    }

    /** The largest key and data that fit a slot. */
    function BodyMax(): nat { if recordSize < HEAD_SIZE then 0 else recordSize - HEAD_SIZE }

    /** What a declaration of a volume must get right. */
    predicate Ok() {
      && HEADROOM < MaxRecords() < 0xFFFF
      && 0 < keyWords && HEAD_SIZE + KeySize() <= recordSize < 0x1_0000
      && localSize < 0x1_0000 && version < 0x1_0000 && 0 < hashSize
    }
  }

  function LogOf(s: Sector): (log: Log)
    ensures |log| == |s.slots|
  {
    seq(|s.slots|, i requires 0 <= i < |s.slots| => Parse(s.slots[i]))
  }

  /** The newest live record of each key in sector w. */
  function NewestAt(c: Config, v: Vol, w: Which): map<Key, Rec> {
    var log := LogOf(v.At(w));
    Newest(c.KeySize(), log, NextIdx(log))
  }

  /** The map that sector w stores. */
  function ViewAt(c: Config, v: Vol, w: Which): map<Key, seq<byte>> { DataMap(c.KeySize(), NewestAt(c, v, w)) }

  predicate Shape(c: Config, s: Sector) {
    && |s.head| == SECTOR_HEAD && |s.slots| == c.MaxRecords()
    && forall i :: 0 <= i < |s.slots| ==> |s.slots[i]| == c.recordSize
  }

  predicate Shaped(c: Config, v: Vol) { Shape(c, v.one) && Shape(c, v.two) }

  function ErasedSector(c: Config): Sector {
    Sector(Erased(SECTOR_HEAD), seq(c.MaxRecords(), _ => Erased(c.recordSize)))
  }

  /** The header that set_sector_flags programs. */
  function HeadBytes(c: Config, flags: seq<byte>): (h: seq<byte>)
    requires |flags| == 4
    ensures |h| == SECTOR_HEAD
  {
    flags + seq(8, _ => 0x55) + [!LowByte(c.version), !HighByte(c.version), 0xFF, 0xFF]
  }

  function VersionOf(s: Sector): nat
    requires |s.head| == SECTOR_HEAD
  {
    Word(!s.head[12], !s.head[13])
  }

  // ---------------------------------------------------------------- RAM state

  /** An index entry: the slot, the length of the data, and the data itself if it is short enough to cache. */
  datatype Entry = Entry(idx: nat, length: nat, local: seq<byte>)

  datatype Ram = Ram(active: Which, next: nat, inuse: nat, invalid: nat, error: nat, dict: map<Key, Entry>)

  function MakeEntry(c: Config, idx: nat, body: seq<byte>): Entry {
    var data := DataOf(c.KeySize(), body);
    Entry(idx, (|body| - c.KeySize()) % 0x1_0000, if |data| <= c.localSize then data else [])
  }

  function Index(c: Config, m: map<Key, Rec>): map<Key, Entry> {
    map k | k in m :: MakeEntry(c, m[k].idx, m[k].body)
  }

  /** The RAM state after construct_lookup_table has scanned sector w. */
  function Scanned(c: Config, w: Which, log: Log): Ram {
    var n := NextIdx(log);
    Ram(w, n, CountLive(log, n),
        CountOf(Invalid, log, n) + CountOf(Corrupt, log, n),
        CountOf(Unreadable, log, n) + CountOf(Corrupt, log, n),
        Index(c, Newest(c.KeySize(), log, n)))
  }

  /** The scan marks every VALID record with a bad checksum INVALID. */
  function ConstructCmds(w: Which, log: Log, n: nat): seq<Cmd>
    requires n <= |log|
  {
    if n == 0 then []
    else ConstructCmds(w, log, n - 1) + if log[n - 1].Corrupt? then [ProgramSlot(w, n - 1, FLAGS_INVALID)] else []
  }

  function ScanCmds(v: Vol, w: Which): seq<Cmd> {
    var log := LogOf(v.At(w));
    ConstructCmds(w, log, NextIdx(log))
  }

  // ---------------------------------------------------------------- compaction

  predicate AllReadable(slots: seq<seq<byte>>, idxs: seq<nat>) {
    forall j :: 0 <= j < |idxs| ==> idxs[j] < |slots| && Readable(slots[idxs[j]])
  }

  /** Copies the chosen slots to the front of sector w. */
  function CopyCmds(slots: seq<seq<byte>>, idxs: seq<nat>, w: Which): (cmds: seq<Cmd>)
    requires AllReadable(slots, idxs)
    ensures |cmds| == |idxs|
  {
    seq(|idxs|, j requires 0 <= j < |idxs| => ProgramSlot(w, j, CopyOf(slots[idxs[j]])))
  }

  /** Fills sector dst from the other sector and makes it VALID. */
  function CompactCmds(c: Config, v: Vol, dst: Which, idxs: seq<nat>): seq<Cmd>
    requires AllReadable(v.At(dst.Other()).slots, idxs)
  {
    (if FlagsOf(v.At(dst)) == FEmpty then [] else [EraseSector(dst)])
    + [ProgramHead(dst, HeadBytes(c, SECTOR_INITIALIZING))]
    + CopyCmds(v.At(dst.Other()).slots, idxs, dst)
    + [ProgramHead(dst, HeadBytes(c, SECTOR_VALID))]
  }

  function SectorLiveSlots(s: Sector): (idxs: seq<nat>)
    ensures AllReadable(s.slots, idxs)
  {
    var log := LogOf(s);
    var idxs := LiveSlots(log, NextIdx(log));
    assert forall j :: 0 <= j < |idxs| ==> log[idxs[j]] == Parse(s.slots[idxs[j]]);
    idxs
  }

  /** Compaction, the scan of the destination and the erase of the source. */
  function ReplaceCmds(c: Config, v: Vol, dst: Which, idxs: seq<nat>): seq<Cmd>
    requires AllReadable(v.At(dst.Other()).slots, idxs)
  {
    var cmds := CompactCmds(c, v, dst, idxs);
    cmds + ScanCmds(Exec(v, cmds), dst) + [EraseSector(dst.Other())]
  }

  // ---------------------------------------------------------------- load

  /** What init_sectors decides to do about the two headers. */
  datatype Plan = Format | Use(w: Which, drop: bool) | Repair(src: Which)

  /** The 4x4 table; headers with any other flags have been erased before. */
  function Choose(f1: SectorFlags, f2: SectorFlags): Plan
    requires !f1.FBad? && !f2.FBad?
  {
    match f1
    case FEmpty =>
      (match f2
       case FEmpty => Format
       case FInitializing => Repair(Two)
       case FValid => Use(Two, false)
       case FInvalid => Repair(Two))
    case FInitializing =>
      (match f2
       case FEmpty => Repair(One)
       case FInitializing => Repair(One)
       case FValid => Use(Two, true)
       case FInvalid => Repair(Two))
    case FValid => Use(One, true)
    case FInvalid =>
      (match f2
       case FEmpty => Repair(One)
       case FInitializing => Repair(One)
       case FValid => Use(Two, true)
       case FInvalid => Repair(One))
  }

  function DropBad(v: Vol, w: Which): seq<Cmd> {
    if FlagsOf(v.At(w)) == FBad then [EraseSector(w)] else []
  }

  function PlanCmds(c: Config, v: Vol, p: Plan): seq<Cmd> {
    match p
    case Format => [EraseSector(One), ProgramHead(One, HeadBytes(c, SECTOR_VALID))]
    case Use(w, drop) => if drop then [EraseSector(w.Other())] else []
    case Repair(src) => ReplaceCmds(c, v, src.Other(), SectorLiveSlots(v.At(src)))
  }

  function PlanActive(p: Plan): Which {
    match p
    case Format => One
    case Use(w, _) => w
    case Repair(src) => src.Other()
  }

  /** The flags init_sectors goes on with: a sector with bad flags counts as empty. */
  function CleanFlags(s: Sector): (f: SectorFlags)
    ensures !f.FBad?
  {
    if FlagsOf(s) == FBad then FEmpty else FlagsOf(s)
  }

  function PlanFor(v: Vol): Plan { Choose(CleanFlags(v.one), CleanFlags(v.two)) }

  /** The commands of init_sectors before the final scan. */
  function MountCmds(c: Config, v: Vol): seq<Cmd> {
    var bad := DropBad(v, One) + DropBad(v, Two);
    bad + PlanCmds(c, Exec(v, bad), PlanFor(v))
  }

  function LoadCmds(c: Config, v: Vol): seq<Cmd> {
    var cmds := MountCmds(c, v);
    cmds + ScanCmds(Exec(v, cmds), PlanActive(PlanFor(v)))
  }

  /** The RAM state after a load. */
  function LoadRam(c: Config, v: Vol): Ram {
    var w := PlanActive(PlanFor(v));
    Scanned(c, w, LogOf(Exec(v, MountCmds(c, v)).At(w)))
  }

  // ---------------------------------------------------------------- set, delete, get

  datatype Outcome = Outcome(cmds: seq<Cmd>, ram: Ram, status: Status)

  /** The slots of the index in the order of the walk over its keys. */
  function SlotsInOrder(ram: Ram, order: seq<Key>): (idxs: seq<nat>)
    requires forall j :: 0 <= j < |order| ==> order[j] in ram.dict
    ensures |idxs| == |order|
  {
    seq(|order|, j requires 0 <= j < |order| => ram.dict[order[j]].idx)
  }

  /** order is a walk over the index: each key once. */
  predicate IsWalk(ram: Ram, order: seq<Key>) {
    && (forall j :: 0 <= j < |order| ==> order[j] in ram.dict)
    && (forall k :: k in ram.dict ==> k in order)
    && (forall i, j :: 0 <= i < j < |order| ==> order[i] != order[j])
  }

  /** Every entry of the index leads to a readable slot of the active sector. */
  predicate Reachable(v: Vol, ram: Ram) {
    forall k :: k in ram.dict ==>
      ram.dict[k].idx < |v.At(ram.active).slots| && Readable(v.At(ram.active).slots[ram.dict[k].idx])
  }

  function SwapCmds(c: Config, v: Vol, ram: Ram, order: seq<Key>): seq<Cmd>
    requires IsWalk(ram, order) && Reachable(v, ram)
  {
    ReplaceCmds(c, v, ram.active.Other(), SlotsInOrder(ram, order))
  }

  function SwapRam(c: Config, v: Vol, ram: Ram, order: seq<Key>): Ram
    requires IsWalk(ram, order) && Reachable(v, ram)
  {
    var dst := ram.active.Other();
    Scanned(c, dst, LogOf(Exec(v, CompactCmds(c, v, dst, SlotsInOrder(ram, order))).At(dst)))
  }

  /** record_set: append the record, make it VALID, then clear the one it replaces. */
  function Store(c: Config, v: Vol, ram: Ram, body: seq<byte>): Outcome {
    var key := KeyOf(c.KeySize(), body);
    var slots := v.At(ram.active).slots;
    if |body| > c.BodyMax() then Outcome([], ram, EFAIL)
    else if |ram.dict| >= c.MaxRecords() - HEADROOM then Outcome([], ram, EFAIL)
    else if key in ram.dict && ram.dict[key].idx < |slots| && Readable(slots[ram.dict[key].idx])
            && BodyOf(slots[ram.dict[key].idx]) == body then
      Outcome([], ram, EOK)
    else
      var append := [ProgramSlot(ram.active, ram.next, RecordBytes(FLAGS_NEW, body)),
                     ProgramSlot(ram.active, ram.next, FLAGS_VALID)];
      var dict := ram.dict[key := MakeEntry(c, ram.next, body)];
      if key in ram.dict then
        Outcome(append + [ProgramSlot(ram.active, ram.dict[key].idx, FLAGS_INVALID)],
                ram.(next := ram.next + 1, invalid := ram.invalid + 1, dict := dict), EOK)
      else
        Outcome(append, ram.(next := ram.next + 1, inuse := ram.inuse + 1, dict := dict), EOK)
  }

  /** nvol3_record_set: swap the sectors first if the active one is full. */
  function Set(c: Config, v: Vol, ram: Ram, order: seq<Key>, body: seq<byte>): Outcome
    requires IsWalk(ram, order) && Reachable(v, ram)
  {
    if ram.next >= c.MaxRecords() then
      var swap := SwapCmds(c, v, ram, order);
      var o := Store(c, Exec(v, swap), SwapRam(c, v, ram, order), body);
      o.(cmds := swap + o.cmds)
    else
      Store(c, v, ram, body)
  }

  /** nvol3_record_delete. */
  function Delete(ram: Ram, key: Key): Outcome {
    if key in ram.dict then
      Outcome([ProgramSlot(ram.active, ram.dict[key].idx, FLAGS_INVALID)],
              ram.(inuse := if ram.inuse == 0 then 0xFFFF_FFFF else ram.inuse - 1, invalid := ram.invalid + 1,
                   dict := ram.dict - {key}), EOK)
    else
      Outcome([], ram, E_NOTFOUND)
  }

  /** nvol3_record_get: the key and data bytes, from the RAM copy if there is one. */
  function Get(c: Config, v: Vol, ram: Ram, key: Key): (r: (Status, seq<byte>)) {
    if key !in ram.dict then (E_NOTFOUND, [])
    else
      var e := ram.dict[key];
      var slots := v.At(ram.active).slots;
      if e.length <= c.localSize then (EOK, key + e.local)
      else if e.idx < |slots| && Readable(slots[e.idx]) then (EOK, BodyOf(slots[e.idx]))
      else (EFAIL, [])
  }
}
