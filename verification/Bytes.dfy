/** Which bytes stand at which addresses of the memory that the driver keeps. */
module Bytes {
  import opened ErrorDef
  import opened Flash
  import opened Records
  import opened Volumes
  import opened Logs
  import opened Protocol
  import opened Layout
  import opened Durability
  import opened Atomicity
  import opened Compaction
  import opened CrashSafety
  import opened Steps
  import opened Mounts

  predicate StandsAt(mem: seq<byte>, a: nat, bytes: seq<byte>) {
    a + |bytes| <= |mem| && mem[a..a + |bytes|] == bytes
  }

  predicate ErasedAt(mem: seq<byte>, a: nat, n: nat) {
    a + n <= |mem| && forall i :: a <= i < a + n ==> mem[i] == 0xFF
  }

  /** The header of a VALID sector: the flags, eight bytes of filler, the inverted version, low byte first. */
  predicate HeaderAt(mem: seq<byte>, a: nat, version: nat) {
    && StandsAt(mem, a, [0xFF, 0xFF, 0xAA, 0xAA, 0x55, 0x55, 0x55, 0x55, 0x55, 0x55, 0x55, 0x55])
    && StandsAt(mem, a + 14, [0xFF, 0xFF])
    && (!mem[a + 12]) as nat + 256 * ((!mem[a + 13]) as nat) == version
  }

  /** A VALID record: the flags, the length, a checksum that makes the sum of the body a multiple of 2^16, the body. */
  predicate RecordAt(mem: seq<byte>, a: nat, body: seq<byte>) {
    && StandsAt(mem, a, [0xAF, 0xAA]) && StandsAt(mem, a + 8, body)
    && mem[a + 2] as nat + 256 * (mem[a + 3] as nat) == |body|
    && Balanced(body, mem[a + 4] as nat + 256 * (mem[a + 5] as nat))
  }

  // ---------------------------------------------------------------- where sectors and slots are

  lemma SliceStands(mem: seq<byte>, a: nat, n: nat)
    requires a + n <= |mem|
    ensures |Slice(mem, a, n)| == n && StandsAt(mem, a, Slice(mem, a, n))
  {
  }

  /** The header of a sector is its first 16 bytes. */
  lemma HeadStands(c: Config, mem: seq<byte>)
    requires c.Ok() && Fits(c, |mem|)
    ensures |Decode(c, mem).one.head| == 16 && StandsAt(mem, c.sector1, Decode(c, mem).one.head)
    ensures |Decode(c, mem).two.head| == 16 && StandsAt(mem, c.sector2, Decode(c, mem).two.head)
  {
    hide Config.Ok, Config.MaxRecords, SlotAddr, Slice, Fits, StandsAt;
    HeadFits(c, |mem|, One);
    HeadFits(c, |mem|, Two);
    SliceStands(mem, SectorAddr(c, One), SECTOR_HEAD);
    SliceStands(mem, SectorAddr(c, Two), SECTOR_HEAD);
  }

  /** The slots lie behind the first 32 bytes of a sector, one record size apart. */
  lemma SlotStands(c: Config, mem: seq<byte>, i: nat)
    requires c.Ok() && Fits(c, |mem|) && i < c.MaxRecords()
    ensures i < |Decode(c, mem).one.slots| && |Decode(c, mem).one.slots[i]| == c.recordSize
            && StandsAt(mem, c.sector1 + 32 + c.recordSize * i, Decode(c, mem).one.slots[i])
    ensures i < |Decode(c, mem).two.slots| && |Decode(c, mem).two.slots[i]| == c.recordSize
            && StandsAt(mem, c.sector2 + 32 + c.recordSize * i, Decode(c, mem).two.slots[i])
  {
    hide Config.Ok, Config.MaxRecords, SlotAddr, Slice, Fits, StandsAt;
    SlotFits(c, |mem|, One, i);
    SlotFits(c, |mem|, Two, i);
    Addresses(c, One, i);
    Addresses(c, Two, i);
    SliceStands(mem, SlotAddr(c, One, i), c.recordSize);
    SliceStands(mem, SlotAddr(c, Two, i), c.recordSize);
  }

  // ---------------------------------------------------------------- what headers and records are

  lemma ByteAt(mem: seq<byte>, a: nat, bytes: seq<byte>, i: nat)
    requires StandsAt(mem, a, bytes) && i < |bytes|
    ensures mem[a + i] == bytes[i]
  {
    assert mem[a..a + |bytes|][i] == mem[a + i];
  }

  lemma PartAt(mem: seq<byte>, a: nat, bytes: seq<byte>, i: nat, n: nat)
    requires StandsAt(mem, a, bytes) && i + n <= |bytes|
    ensures StandsAt(mem, a + i, bytes[i..i + n])
  {
    SubSlice(mem, a, |bytes|, i, n);
  }

  lemma ErasedStands(mem: seq<byte>, a: nat, bytes: seq<byte>)
    requires StandsAt(mem, a, bytes) && AllErased(bytes)
    ensures ErasedAt(mem, a, |bytes|)
  {
    forall i | a <= i < a + |bytes|
      ensures mem[i] == 0xFF
    {
      ByteAt(mem, a, bytes, i - a);
    }
  }

  lemma HeaderStands(c: Config, mem: seq<byte>, a: nat)
    requires c.version < 0x1_0000 && StandsAt(mem, a, HeadBytes(c, SECTOR_VALID))
    ensures HeaderAt(mem, a, c.version)
  {
    hide LowByte, HighByte;
    var head := HeadBytes(c, SECTOR_VALID);
    ByteAt(mem, a, head, 12);
    ByteAt(mem, a, head, 13);
    PartAt(mem, a, head, 14, 2);
    PartAt(mem, a, head, 0, 12);
    WordRoundTrip(c.version);
    NotNot(LowByte(c.version));
    NotNot(HighByte(c.version));
    assert head[0..12] == [0xFF, 0xFF, 0xAA, 0xAA, 0x55, 0x55, 0x55, 0x55, 0x55, 0x55, 0x55, 0x55];
    assert head[14..16] == [0xFF, 0xFF];
  }

  lemma RecordStands(mem: seq<byte>, a: nat, raw: seq<byte>, body: seq<byte>)
    requires StandsAt(mem, a, raw) && Parse(raw) == Live(body)
    ensures RecordAt(mem, a, body)
  {
    hide Sum;
    PartAt(mem, a, raw, 0, 2);
    PartAt(mem, a, raw, 8, |body|);
    ByteAt(mem, a, raw, 2);
    ByteAt(mem, a, raw, 3);
    ByteAt(mem, a, raw, 4);
    ByteAt(mem, a, raw, 5);
    assert raw[0..2] == raw[..2] == FLAGS_VALID;
  }

  // ---------------------------------------------------------------- a loaded store

  predicate SlotHolds(c: Config, mem: seq<byte>, a: nat, i: nat, body: seq<byte>) {
    RecordAt(mem, a + 32 + c.recordSize * i, body)
  }

  predicate SlotErasedAt(c: Config, mem: seq<byte>, a: nat, i: nat) {
    ErasedAt(mem, a + 32 + c.recordSize * i, c.recordSize)
  }

  /** The bytes of a store that shows m: the sector at address a is in use, the one at address b is erased. */
  predicate LaidOut(c: Config, mem: seq<byte>, ram: Ram, m: map<Key, seq<byte>>) {
    var a := if ram.active.One? then c.sector1 else c.sector2;
    var b := if ram.active.One? then c.sector2 else c.sector1;
    && HeaderAt(mem, a, c.version) && ErasedAt(mem, b, 16)
    && (forall k :: k in m ==> k in ram.dict && SlotHolds(c, mem, a, ram.dict[k].idx, k + m[k]))
    && (forall i :: ram.next <= i < c.MaxRecords() ==> SlotErasedAt(c, mem, a, i))
    && (forall i :: 0 <= i < c.MaxRecords() ==> SlotErasedAt(c, mem, b, i))
  }

  lemma LiveStands(c: Config, mem: seq<byte>, ram: Ram, k: Key)
    requires c.Ok() && Fits(c, |mem|) && Powered(c, Decode(c, mem), ram) && k in Shown(c, Decode(c, mem), ram)
    ensures k in ram.dict
    ensures SlotHolds(c, mem, if ram.active.One? then c.sector1 else c.sector2, ram.dict[k].idx,
                      k + Shown(c, Decode(c, mem), ram)[k])
  {
    hide Config.Ok, Config.MaxRecords, Fits, Decode, Powered, Parse, Newest, StandsAt, RecordAt, Readable, BodyOf,
         KeyOf, DataOf, NextIdx;
    var v := Decode(c, mem);
    EntryLeads(c, v, ram, k);
    var i := ram.dict[k].idx;
    var body := NewestAt(c, v, ram.active)[k].body;
    LiveIsReadable(v.At(ram.active), i);
    SizedEntry(c, v, ram, k);
    KeyAndData(c.KeySize(), body);
    NextBound(c, v, ram);
    SlotStands(c, mem, i);
    RecordStands(mem, (if ram.active.One? then c.sector1 else c.sector2) + 32 + c.recordSize * i,
                 v.At(ram.active).slots[i], body);
  }

  lemma SizedEntry(c: Config, v: Vol, ram: Ram, k: Key)
    requires Powered(c, v, ram) && k in ram.dict && k in NewestAt(c, v, ram.active)
    ensures c.KeySize() <= |NewestAt(c, v, ram.active)[k].body|
  {
    hide Parse;
    EntryLeads(c, v, ram, k);
  }

  lemma FreeStands(c: Config, mem: seq<byte>, ram: Ram, i: nat)
    requires c.Ok() && Fits(c, |mem|) && Powered(c, Decode(c, mem), ram) && i < c.MaxRecords()
    ensures ram.next <= i ==> SlotErasedAt(c, mem, if ram.active.One? then c.sector1 else c.sector2, i)
    ensures SlotErasedAt(c, mem, if ram.active.One? then c.sector2 else c.sector1, i)
  {
    hide Config.Ok, Config.MaxRecords, Fits, Decode, Parse, NewestAt, StandsAt, ErasedAt, CountLive, CountOf, NextIdx;
    var v := Decode(c, mem);
    SlotStands(c, mem, i);
    if ram.next <= i {
      ErasedStands(mem, (if ram.active.One? then c.sector1 else c.sector2) + 32 + c.recordSize * i,
                   v.At(ram.active).slots[i]);
    }
    ErasedStands(mem, (if ram.active.One? then c.sector2 else c.sector1) + 32 + c.recordSize * i,
                 v.At(ram.active.Other()).slots[i]);
  }

  /** A loaded store on the bytes of the memory. */
  lemma StoreStands(c: Config, mem: seq<byte>, ram: Ram)
    requires c.Ok() && Fits(c, |mem|) && Powered(c, Decode(c, mem), ram)
    ensures LaidOut(c, mem, ram, Shown(c, Decode(c, mem), ram))
  {
    hide Config.MaxRecords, Fits, Decode, Shown, Parse, NewestAt, StandsAt, ErasedAt, HeaderAt, SlotHolds, SlotErasedAt,
         LogOf, NextIdx, CountLive, CountOf, HeadBytes;
    var v := Decode(c, mem);
    HeadStands(c, mem);
    HeaderStands(c, mem, if ram.active.One? then c.sector1 else c.sector2);
    ErasedStands(mem, if ram.active.One? then c.sector2 else c.sector1, v.At(ram.active.Other()).head);
    forall k | k in Shown(c, v, ram)
      ensures k in ram.dict
      ensures SlotHolds(c, mem, if ram.active.One? then c.sector1 else c.sector2, ram.dict[k].idx,
                        k + Shown(c, v, ram)[k])
    {
      LiveStands(c, mem, ram, k);
    }
    var a := if ram.active.One? then c.sector1 else c.sector2;
    var b := if ram.active.One? then c.sector2 else c.sector1;
    forall i | ram.next <= i < c.MaxRecords()
      ensures SlotErasedAt(c, mem, a, i)
    {
      FreeStands(c, mem, ram, i);
    }
    forall i | 0 <= i < c.MaxRecords()
      ensures SlotErasedAt(c, mem, b, i)
    {
      FreeStands(c, mem, ram, i);
    }
  }

  // ---------------------------------------------------------------- a set and a delete

  /** The record of a set in slot i of the sector at address a: the last two bytes of its header stay erased. */
  predicate FreshAt(c: Config, mem: seq<byte>, a: nat, i: nat, body: seq<byte>) {
    SlotHolds(c, mem, a, i, body) && StandsAt(mem, a + 32 + c.recordSize * i + 6, [0xFF, 0xFF])
  }

  predicate ClearedAt(c: Config, mem: seq<byte>, a: nat, i: nat) {
    StandsAt(mem, a + 32 + c.recordSize * i, [0x00, 0x00])
  }

  lemma ExecNothing(v: Vol)
    ensures Exec(v, []) == v
  {
  }

  lemma FlippedSlots(v: Vol, w: Which, n: nat, body: seq<byte>, i: nat)
    requires n < |v.At(w).slots| && i < |v.At(w).slots| && i != n
    ensures var s, u := v.At(w), Flipped(v, w, n, body);
            && |u.At(w).slots| == |s.slots| && u.At(w).slots[i] == s.slots[i]
            && u.At(w).slots[n] == Programmed(Programmed(s.slots[n], 0, RecordBytes(FLAGS_NEW, body)), 0, FLAGS_VALID)
            && Apply(u, ProgramSlot(w, i, FLAGS_INVALID)).At(w).slots
               == u.At(w).slots[i := Programmed(s.slots[i], 0, FLAGS_INVALID)]
  {
    hide RecordBytes, Programmed;
    var data := RecordBytes(FLAGS_NEW, body);
    assert data[..|data|] == data && FLAGS_VALID[..2] == FLAGS_VALID && FLAGS_INVALID[..2] == FLAGS_INVALID;
  }

  lemma FlippedSlot(v: Vol, w: Which, n: nat, body: seq<byte>)
    requires n < |v.At(w).slots|
    ensures var s, u := v.At(w), Flipped(v, w, n, body);
            && |u.At(w).slots| == |s.slots|
            && u.At(w).slots[n] == Programmed(Programmed(s.slots[n], 0, RecordBytes(FLAGS_NEW, body)), 0, FLAGS_VALID)
  {
    hide RecordBytes, Programmed;
    var data := RecordBytes(FLAGS_NEW, body);
    assert data[..|data|] == data && FLAGS_VALID[..2] == FLAGS_VALID;
  }

  lemma FreeSlot(c: Config, v: Vol, ram: Ram)
    requires Powered(c, v, ram) && ram.next < c.MaxRecords()
    ensures var slots := v.At(ram.active).slots;
            ram.next < |slots| == c.MaxRecords() && AllErased(slots[ram.next]) && |slots[ram.next]| == c.recordSize
  {
    hide Parse, NewestAt, NextIdx, CountLive, CountOf, LogOf;
  }

  /** The slot that a store takes, and the one that it retires. */
  lemma StoredSlots(c: Config, v: Vol, ram: Ram, body: seq<byte>)
    requires c.Ok() && Powered(c, v, ram) && ram.next < c.MaxRecords() && c.KeySize() <= |body| <= c.BodyMax()
    ensures var key, s := KeyOf(c.KeySize(), body), v.At(ram.active);
            var t := Exec(v, AppendCmds(ram, body) + RetireCmds(ram, key)).At(ram.active);
            && |t.slots| == |s.slots| && ram.next < |s.slots|
            && t.slots[ram.next]
               == Programmed(Programmed(s.slots[ram.next], 0, RecordBytes(FLAGS_NEW, body)), 0, FLAGS_VALID)
            && (key in ram.dict ==>
                  && ram.dict[key].idx < ram.next
                  && t.slots[ram.dict[key].idx] == Programmed(s.slots[ram.dict[key].idx], 0, FLAGS_INVALID))
  {
    hide Config.Ok, Config.MaxRecords, Parse, Powered, NewestAt, KeyOf, LogOf, RecordBytes, Programmed, Exec, Images,
         AllErased, Flipped, AppendCmds, Readable, BodyOf, Apply;
    var key := KeyOf(c.KeySize(), body);
    FreeSlot(c, v, ram);
    StoreImages(v, ram, body, key);
    if key in ram.dict {
      EntryLeads(c, v, ram, key);
      FlippedSlots(v, ram.active, ram.next, body, ram.dict[key].idx);
      ExecOne(Flipped(v, ram.active, ram.next, body), ProgramSlot(ram.active, ram.dict[key].idx, FLAGS_INVALID));
    } else {
      FlippedSlot(v, ram.active, ram.next, body);
      ExecNothing(Flipped(v, ram.active, ram.next, body));
    }
  }

  lemma FreshBytes(mem: seq<byte>, a: nat, raw: seq<byte>, body: seq<byte>)
    requires AllErased(raw) && HEAD_SIZE + |body| <= |raw| && |body| < 0x1_0000
    requires StandsAt(mem, a, Programmed(Programmed(raw, 0, RecordBytes(FLAGS_NEW, body)), 0, FLAGS_VALID))
    ensures RecordAt(mem, a, body) && StandsAt(mem, a + 6, [0xFF, 0xFF])
  {
    hide Parse, Checksum, RecordAt, StandsAt;
    CommitRecord(raw, body, 2);
    assert FLAGS_VALID[..2] == FLAGS_VALID;
    var written := Programmed(Programmed(raw, 0, RecordBytes(FLAGS_NEW, body)), 0, FLAGS_VALID);
    RecordStands(mem, a, written, body);
    PartAt(mem, a, written, 6, 2);
    assert written[6..8] == [0xFF, 0xFF];
  }

  lemma ClearedBytes(mem: seq<byte>, a: nat, raw: seq<byte>)
    requires 2 <= |raw| && StandsAt(mem, a, Programmed(raw, 0, FLAGS_INVALID))
    ensures StandsAt(mem, a, [0x00, 0x00])
  {
    hide StandsAt;
    PartAt(mem, a, Programmed(raw, 0, FLAGS_INVALID), 0, 2);
    assert Programmed(raw, 0, FLAGS_INVALID)[0..2] == [0x00, 0x00];
  }

  /** A store that has written, on the bytes of the memory. */
  lemma FreshStands(c: Config, v: Vol, ram: Ram, body: seq<byte>, mem: seq<byte>)
    requires c.Ok() && Powered(c, v, ram) && ram.next < c.MaxRecords() && c.KeySize() <= |body| <= c.BodyMax()
    requires Fits(c, |mem|)
             && Decode(c, mem) == Exec(v, AppendCmds(ram, body) + RetireCmds(ram, KeyOf(c.KeySize(), body)))
    ensures FreshAt(c, mem, if ram.active.One? then c.sector1 else c.sector2, ram.next, body)
    ensures KeyOf(c.KeySize(), body) in ram.dict ==>
              ClearedAt(c, mem, if ram.active.One? then c.sector1 else c.sector2,
                        ram.dict[KeyOf(c.KeySize(), body)].idx)
  {
    hide Config.MaxRecords, Fits, Decode, Powered, Exec, AppendCmds, RetireCmds, RecordBytes, Programmed, RecordAt,
         Parse, KeyOf, AllErased, StandsAt;
    StoredSlots(c, v, ram, body);
    FreeSlot(c, v, ram);
    var a := if ram.active.One? then c.sector1 else c.sector2;
    var key := KeyOf(c.KeySize(), body);
    SlotStands(c, mem, ram.next);
    FreshBytes(mem, a + 32 + c.recordSize * ram.next, v.At(ram.active).slots[ram.next], body);
    if key in ram.dict {
      SlotStands(c, mem, ram.dict[key].idx);
      ClearedBytes(mem, a + 32 + c.recordSize * ram.dict[key].idx, v.At(ram.active).slots[ram.dict[key].idx]);
    }
  }

  /** body is the record that the map m has. */
  predicate AlreadyIn(c: Config, m: map<Key, seq<byte>>, body: seq<byte>) {
    KeyOf(c.KeySize(), body) in m && m[KeyOf(c.KeySize(), body)] == DataOf(c.KeySize(), body)
  }

  /**
   * Where a set has put a record, from the RAM state before the call: the next slot of the sector in use, or of the
   * other sector the first slot behind one copy for each key.
   */
  predicate Placed(c: Config, was: Ram, ram: Ram, body: seq<byte>, mem: seq<byte>) {
    if was.next < c.MaxRecords() then
      var a := if was.active.One? then c.sector1 else c.sector2;
      && ram.active == was.active && ram.next == was.next + 1 && FreshAt(c, mem, a, was.next, body)
      && (KeyOf(c.KeySize(), body) in was.dict ==> ClearedAt(c, mem, a, was.dict[KeyOf(c.KeySize(), body)].idx))
    else
      var b := if was.active.One? then c.sector2 else c.sector1;
      && ram.active == was.active.Other() && ram.next == |was.dict| + 1 && FreshAt(c, mem, b, |was.dict|, body)
  }

  /** New data are not there already: a store writes. */
  lemma NewIsStored(c: Config, v: Vol, ram: Ram, body: seq<byte>)
    requires Powered(c, v, ram) && !AlreadyIn(c, Shown(c, v, ram), body)
    ensures Store(c, v, ram, body).status == EOK ==>
              && |body| <= c.BodyMax()
              && Store(c, v, ram, body)
                 == Outcome(AppendCmds(ram, body) + RetireCmds(ram, KeyOf(c.KeySize(), body)),
                            StoredRam(c, ram, body), EOK)
  {
    hide Parse, Powered, NewestAt, AppendCmds, RetireCmds, StoredRam, Store;
    StoreIs(c, v, ram, body);
  }

  /** A set of new data, on the bytes of the memory. */
  lemma SetStands(c: Config, v: Vol, ram: Ram, order: seq<Key>, body: seq<byte>, mem: seq<byte>)
    requires c.Ok() && Powered(c, v, ram) && IsWalk(ram, order) && Reachable(v, ram) && c.KeySize() <= |body|
    requires Fits(c, |mem|) && Decode(c, mem) == Exec(v, Set(c, v, ram, order, body).cmds)
    requires Set(c, v, ram, order, body).status == EOK && !AlreadyIn(c, Shown(c, v, ram), body)
    ensures Placed(c, ram, Set(c, v, ram, order, body).ram, body, mem)
  {
    hide Config.Ok, Config.MaxRecords, Config.BodyMax, Fits, Decode, Powered, Exec, AppendCmds, RetireCmds, Shown,
         ViewAt, NewestAt, KeyOf, DataOf, Store, SwapCmds, SwapRam, Reachable, IsWalk, FreshAt, ClearedAt, AlreadyIn,
         MakeEntry;
    if ram.next >= c.MaxRecords() {
      var swap, ram1 := SwapCmds(c, v, ram, order), SwapRam(c, v, ram, order);
      var v1 := Exec(v, swap);
      SwapResult(c, v, ram, order);
      SameSize(ram.dict, ram1.dict);
      ExactShows(c, v1, ram1);
      NewIsStored(c, v1, ram1, body);
      ExecAppend(v, swap, Store(c, v1, ram1, body).cmds);
      RoomBehind(c, v1, ram1, body);
      FreshStands(c, v1, ram1, body, mem);
    } else {
      NewIsStored(c, v, ram, body);
      FreshStands(c, v, ram, body, mem);
    }
  }

  /** A sector that a store accepts and that has one slot for each key has a free slot. */
  lemma RoomBehind(c: Config, v: Vol, ram: Ram, body: seq<byte>)
    requires Store(c, v, ram, body).status == EOK && ram.next == |ram.dict|
    ensures ram.next < c.MaxRecords()
  {
    hide Parse, Readable, Config.MaxRecords;
  }

  /** A delete, on the bytes of the memory. */
  lemma DeleteStands(c: Config, v: Vol, ram: Ram, key: Key, mem: seq<byte>)
    requires c.Ok() && Powered(c, v, ram) && key in ram.dict
    requires Fits(c, |mem|) && Decode(c, mem) == Exec(v, Delete(ram, key).cmds)
    ensures ClearedAt(c, mem, if ram.active.One? then c.sector1 else c.sector2, ram.dict[key].idx)
  {
    hide Config.Ok, Config.MaxRecords, Fits, Decode, Powered, Exec, Programmed, Parse, NewestAt, LogOf, StandsAt,
         Readable, BodyOf;
    var i, clear := ram.dict[key].idx, ProgramSlot(ram.active, ram.dict[key].idx, FLAGS_INVALID);
    EntryLeads(c, v, ram, key);
    var raw := v.At(ram.active).slots[i];
    NextBound(c, v, ram);
    ReadableFits(raw);
    ExecOne(v, clear);
    assert FLAGS_INVALID[..2] == FLAGS_INVALID;
    SlotStands(c, mem, i);
    ClearedBytes(mem, (if ram.active.One? then c.sector1 else c.sector2) + 32 + c.recordSize * i, raw);
  }

  // ---------------------------------------------------------------- a load

  lemma FirstFour(mem: seq<byte>, a: nat, head: seq<byte>, flags: seq<byte>)
    requires StandsAt(mem, a, head) && 4 <= |head| && |flags| == 4
    ensures head[..4] == flags <==> StandsAt(mem, a, flags)
  {
    PartAt(mem, a, head, 0, 4);
    assert head[0..4] == head[..4];
  }

  /** The four flag words. */
  lemma FlagsStand(c: Config, mem: seq<byte>, w: Which, a: nat)
    requires c.Ok() && Fits(c, |mem|) && a == if w.One? then c.sector1 else c.sector2
    ensures FlagsOf(Decode(c, mem).At(w)) == FEmpty <==> StandsAt(mem, a, [0xFF, 0xFF, 0xFF, 0xFF])
    ensures FlagsOf(Decode(c, mem).At(w)) == FInitializing <==> StandsAt(mem, a, [0xFF, 0xFF, 0xFF, 0xAA])
    ensures FlagsOf(Decode(c, mem).At(w)) == FValid <==> StandsAt(mem, a, [0xFF, 0xFF, 0xAA, 0xAA])
    ensures FlagsOf(Decode(c, mem).At(w)) == FInvalid <==> StandsAt(mem, a, [0xAA, 0xAA, 0xAA, 0xAA])
  {
    hide Config.Ok, Config.MaxRecords, Fits, Decode, StandsAt;
    HeadStands(c, mem);
    var head := Decode(c, mem).At(w).head;
    FirstFour(mem, a, head, [0xFF, 0xFF, 0xFF, 0xFF]);
    FirstFour(mem, a, head, [0xFF, 0xFF, 0xFF, 0xAA]);
    FirstFour(mem, a, head, [0xFF, 0xFF, 0xAA, 0xAA]);
    FirstFour(mem, a, head, [0xAA, 0xAA, 0xAA, 0xAA]);
  }

  /** A load goes on with the sector at sector1_addr if it is VALID, or else with a VALID one at sector2_addr. */
  lemma LoadPicks(c: Config, mem: seq<byte>)
    requires c.Ok() && Fits(c, |mem|)
    ensures StandsAt(mem, c.sector1, [0xFF, 0xFF, 0xAA, 0xAA]) ==> LoadRam(c, Decode(c, mem)).active == One
    ensures !StandsAt(mem, c.sector1, [0xFF, 0xFF, 0xAA, 0xAA]) && StandsAt(mem, c.sector2, [0xFF, 0xFF, 0xAA, 0xAA])
            ==> LoadRam(c, Decode(c, mem)).active == Two
  {
    hide Config.Ok, Config.MaxRecords, Fits, Decode, StandsAt, FlagsOf, LoadRam, MountCmds, Shape;
    DecodeShaped(c, mem);
    FlagsStand(c, mem, One, c.sector1);
    FlagsStand(c, mem, Two, c.sector2);
    ValidIsUsed(c, Decode(c, mem));
  }
}
