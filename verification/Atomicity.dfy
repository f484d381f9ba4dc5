/** Setting a record, with and without a sector swap: at every moment flash holds the old or the new map. */
module Atomicity {
  import opened ErrorDef
  import opened Flash
  import opened Records
  import opened Volumes
  import opened Logs
  import opened Protocol
  import opened Durability

  function WithSlot(s: Sector, i: nat, raw: seq<byte>): Sector
    requires i < |s.slots|
  {
    s.(slots := s.slots[i := raw])
  }

  lemma WithSlotLog(s: Sector, i: nat, raw: seq<byte>)
    requires i < |s.slots|
    ensures LogOf(WithSlot(s, i, raw)) == LogOf(s)[i := Parse(raw)]
  {
    hide Parse;
  }

  // ---------------------------------------------------------------- changing one slot of a good sector

  /** Slot n of a log gets other content: what this adds to the winners and to the counts. */
  lemma TakenLog(ks: nat, log: Log, n: nat, cell: Content)
    requires n < |log|
    ensures Newest(ks, log[n := cell], n + 1)
            == if cell.Live? then Newest(ks, log, n)[KeyOf(ks, cell.body) := Rec(n, cell.body)] else Newest(ks, log, n)
    ensures CountLive(log[n := cell], n + 1) == CountLive(log, n) + if cell.Live? then 1 else 0
    ensures CountOf(Invalid, log[n := cell], n + 1) == CountOf(Invalid, log, n) + if cell == Invalid then 1 else 0
  {
    hide KeyOf;
    SameNewest(ks, log, log[n := cell], n);
    CountUpdate(Invalid, log, n, n, cell);
  }

  lemma TakenSector(c: Config, s: Sector, raw: seq<byte>)
    requires SectorOk(c, s) && NextIdx(LogOf(s)) < |s.slots|
    requires |raw| == c.recordSize && Parse(raw) != Empty
    requires Parse(raw).Live? ==> c.KeySize() <= |Parse(raw).body|
    ensures var n := NextIdx(LogOf(s)); SectorOk(c, WithSlot(s, n, raw)) && NextIdx(LogOf(WithSlot(s, n, raw))) == n + 1
  {
    var n := NextIdx(LogOf(s));
    WithSlotLog(s, n, raw);
    TailIsEmpty(c, s);
    hide Parse;
    NextIdxIs(LogOf(WithSlot(s, n, raw)), n + 1);
  }

  /** The next free slot is taken by something. */
  lemma TakeSlot(c: Config, s: Sector, raw: seq<byte>)
    requires SectorOk(c, s) && NextIdx(LogOf(s)) < |s.slots|
    requires |raw| == c.recordSize && Parse(raw) != Empty
    requires Parse(raw).Live? ==> c.KeySize() <= |Parse(raw).body|
    ensures var n := NextIdx(LogOf(s)); var t := WithSlot(s, n, raw);
            && SectorOk(c, t) && NextIdx(LogOf(t)) == n + 1
            && Newest(c.KeySize(), LogOf(t), n + 1)
               == (if Parse(raw).Live? then
                     Newest(c.KeySize(), LogOf(s), n)[KeyOf(c.KeySize(), Parse(raw).body) := Rec(n, Parse(raw).body)]
                   else Newest(c.KeySize(), LogOf(s), n))
            && CountLive(LogOf(t), n + 1) == CountLive(LogOf(s), n) + (if Parse(raw).Live? then 1 else 0)
            && CountOf(Invalid, LogOf(t), n + 1)
               == CountOf(Invalid, LogOf(s), n) + (if Parse(raw) == Invalid then 1 else 0)
  {
    hide Parse, SectorOk, NextIdx, LogOf, Newest, CountLive, CountOf, KeyOf;
    var n := NextIdx(LogOf(s));
    TakenSector(c, s, raw);
    WithSlotLog(s, n, raw);
    TakenLog(c.KeySize(), LogOf(s), n, Parse(raw));
  }

  lemma TailIsEmpty(c: Config, s: Sector)
    requires SectorOk(c, s)
    ensures forall i :: NextIdx(LogOf(s)) < i < |s.slots| ==> LogOf(s)[i] == Empty || c.recordSize < HEAD_SIZE
  {
    forall i | NextIdx(LogOf(s)) < i < |s.slots|
      ensures LogOf(s)[i] == Empty || c.recordSize < HEAD_SIZE
    {
      ErasedIsEmpty(s.slots[i]);
    }
  }

  /** The record in slot i is cleared while a newer one of its key exists, or as the newest of its key. */
  lemma ClearSlot(c: Config, s: Sector, i: nat, raw: seq<byte>, key: Key)
    requires SectorOk(c, s) && i < NextIdx(LogOf(s))
    requires LiveFor(c.KeySize(), LogOf(s)[i], key)
    requires |raw| == c.recordSize && Parse(raw) != Empty && !Parse(raw).Live?
    ensures var n := NextIdx(LogOf(s)); var t := WithSlot(s, i, raw);
            var m := Newest(c.KeySize(), LogOf(s), n);
            && SectorOk(c, t) && NextIdx(LogOf(t)) == n
            && (key in m && m[key].idx != i ==> Newest(c.KeySize(), LogOf(t), n) == m)
            && CountLive(LogOf(t), n) + 1 == CountLive(LogOf(s), n)
            && CountOf(Invalid, LogOf(t), n) == CountOf(Invalid, LogOf(s), n) + (if Parse(raw) == Invalid then 1 else 0)
  {
    hide Parse;
    var n := NextIdx(LogOf(s));
    var t := WithSlot(s, i, raw);
    WithSlotLog(s, i, raw);
    NextIdxIs(LogOf(t), n);
    CountUpdate(Invalid, LogOf(s), n, i, Parse(raw));
    var m := Newest(c.KeySize(), LogOf(s), n);
    if key in m && m[key].idx != i {
      KillSlot(c.KeySize(), LogOf(s), n, i, Parse(raw), key);
    }
  }

  // ---------------------------------------------------------------- the three writes of a store

  /** Sector w is good, the other one is erased. */
  predicate Sole(c: Config, v: Vol, w: Which) {
    Shaped(c, v) && SectorOk(c, v.At(w)) && v.At(w.Other()) == ErasedSector(c)
  }

  lemma SoleDurable(c: Config, x: Vol, w: Which)
    requires Sole(c, x, w)
    ensures Durable(c, x, w)
  {
  }

  lemma SoleWith(c: Config, v: Vol, w: Which, t: Sector)
    requires Sole(c, v, w) && SectorOk(c, t)
    ensures Sole(c, v.With(w, t), w) && Durable(c, v.With(w, t), w)
    ensures NewestAt(c, v.With(w, t), w) == Newest(c.KeySize(), LogOf(t), NextIdx(LogOf(t)))
  {
  }

  /** A moment of programming the next free slot is the sector with that slot partly programmed. */
  lemma SlotMoment(v: Vol, w: Which, i: nat, data: seq<byte>, k: nat)
    requires i < |v.At(w).slots| && k <= |data|
    ensures Partial(v, ProgramSlot(w, i, data), k)
            == v.With(w, WithSlot(v.At(w), i, Programmed(v.At(w).slots[i], 0, data[..k])))
  {
  }

  /** Writing the record: the map does not change. */
  lemma WriteRecord(c: Config, v: Vol, w: Which, body: seq<byte>, k: nat)
    requires Sole(c, v, w) && NextIdx(LogOf(v.At(w))) < c.MaxRecords()
    requires HEAD_SIZE + |body| <= c.recordSize && k <= HEAD_SIZE + |body|
    ensures var x := Partial(v, ProgramSlot(w, NextIdx(LogOf(v.At(w))), RecordBytes(FLAGS_NEW, body)), k);
            Durable(c, x, w) && NewestAt(c, x, w) == NewestAt(c, v, w)
  {
    hide Parse, Newest, RecordBytes, Readable, NextIdx;
    var s, n := v.At(w), NextIdx(LogOf(v.At(w)));
    var torn := Programmed(s.slots[n], 0, RecordBytes(FLAGS_NEW, body)[..k]);
    TornAppend(s.slots[n], body, k);
    SlotMoment(v, w, n, RecordBytes(FLAGS_NEW, body), k);
    if torn == s.slots[n] {
      assert WithSlot(s, n, torn) == s;
      SoleWith(c, v, w, s);
    } else {
      TakeSlot(c, s, torn);
      SoleWith(c, v, w, WithSlot(s, n, torn));
    }
  }

  /** The slot after the record has been written completely. */
  function Written(v: Vol, w: Which, n: nat, body: seq<byte>): Vol {
    Apply(v, ProgramSlot(w, n, RecordBytes(FLAGS_NEW, body)))
  }

  function Flipped(v: Vol, w: Which, n: nat, body: seq<byte>): Vol {
    Apply(Written(v, w, n, body), ProgramSlot(w, n, FLAGS_VALID))
  }

  /** Flipping the record to VALID is the switch to the new map, at the second flag byte. */
  lemma CommitStore(c: Config, v: Vol, w: Which, body: seq<byte>, k: nat)
    requires Sole(c, v, w) && NextIdx(LogOf(v.At(w))) < c.MaxRecords()
    requires c.KeySize() <= |body| && HEAD_SIZE + |body| <= c.recordSize < 0x1_0000 && k <= 2
    ensures var n := NextIdx(LogOf(v.At(w)));
            var x := Partial(Written(v, w, n, body), ProgramSlot(w, n, FLAGS_VALID), k);
            && Sole(c, x, w) && Durable(c, x, w) && NextIdx(LogOf(x.At(w))) == n + 1
            && NewestAt(c, x, w) == (if k == 2 then NewestAt(c, v, w)[KeyOf(c.KeySize(), body) := Rec(n, body)]
                                     else NewestAt(c, v, w))
            && (k == 2 ==> CountLive(LogOf(x.At(w)), n + 1) == CountLive(LogOf(v.At(w)), n) + 1)
            && (k == 2 ==> CountOf(Invalid, LogOf(x.At(w)), n + 1) == CountOf(Invalid, LogOf(v.At(w)), n))
  {
    hide Parse, Newest, RecordBytes, Readable, NextIdx, CountLive, CountOf;
    var s, n := v.At(w), NextIdx(LogOf(v.At(w)));
    var data := RecordBytes(FLAGS_NEW, body);
    var written := Programmed(s.slots[n], 0, data);
    var raw := Programmed(written, 0, FLAGS_VALID[..k]);
    SlotMoment(v, w, n, data, |data|);
    assert data[..|data|] == data;
    assert Written(v, w, n, body).At(w) == WithSlot(s, n, written);
    SlotMoment(Written(v, w, n, body), w, n, FLAGS_VALID, k);
    assert WithSlot(WithSlot(s, n, written), n, raw) == WithSlot(s, n, raw);
    CommitRecord(s.slots[n], body, k);
    TakeSlot(c, s, raw);
    SoleWith(c, v, w, WithSlot(s, n, raw));
  }

  /** Clearing a superseded record changes nothing at any moment. */
  lemma RetireRecord(c: Config, v: Vol, w: Which, i: nat, key: Key, k: nat)
    requires Sole(c, v, w) && i < NextIdx(LogOf(v.At(w))) && k <= 2
    requires LiveFor(c.KeySize(), LogOf(v.At(w))[i], key)
    requires key in NewestAt(c, v, w) && NewestAt(c, v, w)[key].idx != i
    ensures var n := NextIdx(LogOf(v.At(w)));
            var x := Partial(v, ProgramSlot(w, i, FLAGS_INVALID), k);
            && Sole(c, x, w) && Durable(c, x, w) && NextIdx(LogOf(x.At(w))) == n
            && NewestAt(c, x, w) == NewestAt(c, v, w)
            && (k == 2 ==> CountLive(LogOf(x.At(w)), n) + 1 == CountLive(LogOf(v.At(w)), n))
            && (k == 2 ==> CountOf(Invalid, LogOf(x.At(w)), n) == CountOf(Invalid, LogOf(v.At(w)), n) + 1)
  {
    var s := v.At(w);
    var raw := Programmed(s.slots[i], 0, FLAGS_INVALID[..k]);
    LiveIsReadable(s, i);
    hide Parse, Newest, Readable, NextIdx, CountLive, CountOf;
    SlotMoment(v, w, i, FLAGS_INVALID, k);
    ClearFlags(s.slots[i], k);
    if k == 0 {
      assert WithSlot(s, i, raw) == s;
    } else {
      ClearSlot(c, s, i, raw, key);
    }
    SoleWith(c, v, w, WithSlot(s, i, raw));
  }

  lemma LiveIsReadable(s: Sector, i: nat)
    requires i < |s.slots| && LogOf(s)[i].Live?
    ensures Readable(s.slots[i]) && BodyOf(s.slots[i]) == LogOf(s)[i].body && Parse(s.slots[i]) == LogOf(s)[i]
    ensures HEAD_SIZE + |LogOf(s)[i].body| <= |s.slots[i]|
  {
  }

  // ---------------------------------------------------------------- storing a record

  /** The result of a store depends only on the two sizes. */
  predicate Accepts(c: Config, ram: Ram, body: seq<byte>) {
    |body| <= c.BodyMax() && |ram.dict| < c.MaxRecords() - HEADROOM
  }

  /** The record is already there, byte for byte. */
  predicate AlreadyStored(c: Config, v: Vol, ram: Ram, body: seq<byte>) {
    var key := KeyOf(c.KeySize(), body);
    key in ram.dict && key in NewestAt(c, v, ram.active) && NewestAt(c, v, ram.active)[key].body == body
  }

  /** An index entry leads to the newest live record of its key. */
  lemma EntryLeads(c: Config, v: Vol, ram: Ram, key: Key)
    requires Powered(c, v, ram) && key in ram.dict
    ensures var i := ram.dict[key].idx; var s := v.At(ram.active);
            && key in NewestAt(c, v, ram.active) && i == NewestAt(c, v, ram.active)[key].idx < ram.next <= |s.slots|
            && LiveFor(c.KeySize(), LogOf(s)[i], key) && NewestAt(c, v, ram.active)[key].body == LogOf(s)[i].body
            && Readable(s.slots[i]) && BodyOf(s.slots[i]) == LogOf(s)[i].body
  {
    hide Parse, Readable;
    NewestIsLast(c.KeySize(), LogOf(v.At(ram.active)), ram.next);
    LiveIsReadable(v.At(ram.active), ram.dict[key].idx);
  }

  function AppendCmds(ram: Ram, body: seq<byte>): seq<Cmd> {
    [ProgramSlot(ram.active, ram.next, RecordBytes(FLAGS_NEW, body)), ProgramSlot(ram.active, ram.next, FLAGS_VALID)]
  }

  function RetireCmds(ram: Ram, key: Key): seq<Cmd> {
    if key in ram.dict then [ProgramSlot(ram.active, ram.dict[key].idx, FLAGS_INVALID)] else []
  }

  function StoredRam(c: Config, ram: Ram, body: seq<byte>): Ram {
    var key := KeyOf(c.KeySize(), body);
    var dict := ram.dict[key := MakeEntry(c, ram.next, body)];
    if key in ram.dict then ram.(next := ram.next + 1, invalid := ram.invalid + 1, dict := dict)
    else ram.(next := ram.next + 1, inuse := ram.inuse + 1, dict := dict)
  }

  lemma StoreIs(c: Config, v: Vol, ram: Ram, body: seq<byte>)
    requires Powered(c, v, ram)
    ensures var o := Store(c, v, ram, body);
            if !Accepts(c, ram, body) then o == Outcome([], ram, EFAIL)
            else if AlreadyStored(c, v, ram, body) then o == Outcome([], ram, EOK)
            else o == Outcome(AppendCmds(ram, body) + RetireCmds(ram, KeyOf(c.KeySize(), body)),
                              StoredRam(c, ram, body), EOK)
  {
    hide Parse, Readable, Powered, NewestAt;
    var key := KeyOf(c.KeySize(), body);
    if key in ram.dict {
      EntryLeads(c, v, ram, key);
    }
  }

  /** Flash and RAM after the record has become VALID and before an older one is cleared. */
  lemma StoredAppend(c: Config, v: Vol, ram: Ram, body: seq<byte>)
    requires c.Ok() && Powered(c, v, ram) && ram.next < c.MaxRecords()
    requires c.KeySize() <= |body| <= c.BodyMax()
    ensures var key := KeyOf(c.KeySize(), body);
            var x := Flipped(v, ram.active, ram.next, body);
            var r := ram.(next := ram.next + 1, inuse := ram.inuse + 1,
                          dict := ram.dict[key := MakeEntry(c, ram.next, body)]);
            && Powered(c, x, r) && Sole(c, x, ram.active)
            && NewestAt(c, x, ram.active) == NewestAt(c, v, ram.active)[key := Rec(ram.next, body)]
  {
    hide Parse, Readable, RecordBytes, NextIdx, CountLive, CountOf, Newest, SectorOk, Shape, KeyOf, LogOf;
    CommitStore(c, v, ram.active, body, 2);
    assert FLAGS_VALID[..2] == FLAGS_VALID;
  }

  /** The record that a store supersedes is not the one it has appended. */
  lemma Superseded(c: Config, v: Vol, ram: Ram, body: seq<byte>)
    requires c.Ok() && Powered(c, v, ram) && ram.next < c.MaxRecords()
    requires c.KeySize() <= |body| <= c.BodyMax()
    requires KeyOf(c.KeySize(), body) in ram.dict
    ensures var key := KeyOf(c.KeySize(), body);
            var u, i := Flipped(v, ram.active, ram.next, body), ram.dict[key].idx;
            && i < NextIdx(LogOf(u.At(ram.active))) && LiveFor(c.KeySize(), LogOf(u.At(ram.active))[i], key)
            && key in NewestAt(c, u, ram.active) && NewestAt(c, u, ram.active)[key].idx != i
  {
    hide Parse, Readable, RecordBytes, CountLive, CountOf, Newest, SectorOk, Shape, KeyOf, Flipped;
    EntryLeads(c, v, ram, KeyOf(c.KeySize(), body));
    StoredAppend(c, v, ram, body);
    SlotUntouched(v, ram.active, ram.next, body, ram.dict[KeyOf(c.KeySize(), body)].idx);
  }

  /** Clearing the superseded record completes the store. */
  lemma StoredRetire(c: Config, v: Vol, ram: Ram, body: seq<byte>, k: nat)
    requires c.Ok() && Powered(c, v, ram) && ram.next < c.MaxRecords()
    requires c.KeySize() <= |body| <= c.BodyMax() && k <= 2
    requires KeyOf(c.KeySize(), body) in ram.dict
    ensures var key := KeyOf(c.KeySize(), body);
            var u := Flipped(v, ram.active, ram.next, body);
            var x := Partial(u, ProgramSlot(ram.active, ram.dict[key].idx, FLAGS_INVALID), k);
            && Durable(c, x, ram.active) && NewestAt(c, x, ram.active) == NewestAt(c, u, ram.active)
            && (k == 2 ==> Powered(c, x, StoredRam(c, ram, body)))
  {
    hide Parse, Readable, RecordBytes, NextIdx, CountLive, CountOf, NewestAt, SectorOk, Shape, KeyOf, LogOf, Flipped,
         Durable, Partial;
    var key := KeyOf(c.KeySize(), body);
    StoredAppend(c, v, ram, body);
    Superseded(c, v, ram, body);
    RetireRecord(c, Flipped(v, ram.active, ram.next, body), ram.active, ram.dict[key].idx, key, k);
  }

  lemma SlotUntouched(v: Vol, w: Which, n: nat, body: seq<byte>, i: nat)
    requires i < |v.At(w).slots| && i != n
    ensures |Flipped(v, w, n, body).At(w).slots| == |v.At(w).slots|
    ensures LogOf(Flipped(v, w, n, body).At(w))[i] == LogOf(v.At(w))[i]
  {
    hide Parse, RecordBytes;
  }

  lemma StoreImages(v: Vol, ram: Ram, body: seq<byte>, key: Key)
    ensures var w := ram.active; var a := AppendCmds(ram, body); var u := Flipped(v, w, ram.next, body);
            && Exec(v, a) == u && Exec(v, a + RetireCmds(ram, key)) == Exec(u, RetireCmds(ram, key))
            && Images(v, a + RetireCmds(ram, key))
               == CmdImages(v, a[0]) + CmdImages(Written(v, w, ram.next, body), a[1])
                                                      + Images(u, RetireCmds(ram, key))
  {
    hide RecordBytes, Partial;
    var a := AppendCmds(ram, body);
    assert a == [a[0]] + [a[1]];
    ExecAppend(v, [a[0]], [a[1]]);
    ExecOne(v, a[0]);
    ExecOne(Written(v, ram.active, ram.next, body), a[1]);
    ExecAppend(v, a, RetireCmds(ram, key));
  }

  /** The newest records after body has been stored in slot n. */
  function Updated(c: Config, m: map<Key, Rec>, n: nat, body: seq<byte>): map<Key, Rec> {
    m[KeyOf(c.KeySize(), body) := Rec(n, body)]
  }

  /** Every moment of a store shows the old records or the new ones. */
  lemma StoreMoments(c: Config, v: Vol, ram: Ram, body: seq<byte>, x: Vol)
    requires c.Ok() && Powered(c, v, ram) && ram.next < c.MaxRecords()
    requires c.KeySize() <= |body| <= c.BodyMax()
    requires x in Images(v, AppendCmds(ram, body) + RetireCmds(ram, KeyOf(c.KeySize(), body)))
    ensures Durable(c, x, ram.active)
    ensures NewestAt(c, x, ram.active) == NewestAt(c, v, ram.active)
            || NewestAt(c, x, ram.active) == Updated(c, NewestAt(c, v, ram.active), ram.next, body)
  {
    hide Parse, Readable, RecordBytes, NextIdx, NewestAt, SectorOk, Shape, KeyOf, LogOf, Durable, Partial, Flipped,
         Written, Powered;
    var a := AppendCmds(ram, body);
    StoreImages(v, ram, body, KeyOf(c.KeySize(), body));
    NextIs(c, v, ram);
    if x in CmdImages(v, a[0]) {
      var k: nat :| k < a[0].Duration() && x == Partial(v, a[0], k + 1);
      WriteRecord(c, v, ram.active, body, k + 1);
    } else if x in CmdImages(Written(v, ram.active, ram.next, body), a[1]) {
      var k: nat :| k < 2 && x == Partial(Written(v, ram.active, ram.next, body), a[1], k + 1);
      CommitStore(c, v, ram.active, body, k + 1);
    } else {
      RetireMoments(c, v, ram, body, x);
    }
  }

  lemma RetireMoments(c: Config, v: Vol, ram: Ram, body: seq<byte>, x: Vol)
    requires c.Ok() && Powered(c, v, ram) && ram.next < c.MaxRecords()
    requires c.KeySize() <= |body| <= c.BodyMax()
    requires x in Images(Flipped(v, ram.active, ram.next, body), RetireCmds(ram, KeyOf(c.KeySize(), body)))
    ensures Durable(c, x, ram.active)
    ensures NewestAt(c, x, ram.active) == Updated(c, NewestAt(c, v, ram.active), ram.next, body)
  {
    hide Parse, Readable, RecordBytes, NextIdx, NewestAt, SectorOk, Shape, KeyOf, LogOf, Durable, Partial, Flipped,
         Powered;
    var u := Flipped(v, ram.active, ram.next, body);
    var retire := ProgramSlot(ram.active, ram.dict[KeyOf(c.KeySize(), body)].idx, FLAGS_INVALID);
    ExecOne(u, retire);
    StoredAppend(c, v, ram, body);
    var k: nat :| k < 2 && x == Partial(u, retire, k + 1);
    StoredRetire(c, v, ram, body, k + 1);
  }

  lemma NextIs(c: Config, v: Vol, ram: Ram)
    requires Powered(c, v, ram)
    ensures ram.next == NextIdx(LogOf(v.At(ram.active))) && Sole(c, v, ram.active)
  {
  }

  lemma UpdatedView(c: Config, m: map<Key, Rec>, n: nat, body: seq<byte>)
    ensures DataMap(c.KeySize(), Updated(c, m, n, body))
            == DataMap(c.KeySize(), m)[KeyOf(c.KeySize(), body) := DataOf(c.KeySize(), body)]
  {
  }

  /** The map after a set. */
  function Put(c: Config, m: map<Key, seq<byte>>, body: seq<byte>): map<Key, seq<byte>> {
    m[KeyOf(c.KeySize(), body) := DataOf(c.KeySize(), body)]
  }

  /** Flash and RAM after a store that wrote something. */
  lemma StoreWrites(c: Config, v: Vol, ram: Ram, body: seq<byte>)
    requires c.Ok() && Powered(c, v, ram) && ram.next < c.MaxRecords()
    requires c.KeySize() <= |body| <= c.BodyMax()
    ensures var v' := Exec(v, AppendCmds(ram, body) + RetireCmds(ram, KeyOf(c.KeySize(), body)));
            && Powered(c, v', StoredRam(c, ram, body))
            && NewestAt(c, v', ram.active) == Updated(c, NewestAt(c, v, ram.active), ram.next, body)
  {
    hide Parse, Readable, RecordBytes, NextIdx, NewestAt, Powered, KeyOf, LogOf, Flipped, Partial;
    var key, u := KeyOf(c.KeySize(), body), Flipped(v, ram.active, ram.next, body);
    StoreImages(v, ram, body, key);
    StoredAppend(c, v, ram, body);
    if key in ram.dict {
      var retire := ProgramSlot(ram.active, ram.dict[key].idx, FLAGS_INVALID);
      ExecOne(u, retire);
      StoredRetire(c, v, ram, body, 2);
      assert Apply(u, retire) == Partial(u, retire, 2);
    }
  }

  lemma AlreadyThere(c: Config, v: Vol, ram: Ram, body: seq<byte>)
    requires AlreadyStored(c, v, ram, body)
    ensures Put(c, ViewAt(c, v, ram.active), body) == ViewAt(c, v, ram.active)
  {
    hide Parse, Newest, KeyOf, DataOf;
  }

  /** A store that has a free slot: accepted exactly when it fits and there is room, and then it updates the map. */
  lemma StoreResult(c: Config, v: Vol, ram: Ram, body: seq<byte>)
    requires c.Ok() && Powered(c, v, ram) && c.KeySize() <= |body|
    requires Accepts(c, ram, body) ==> ram.next < c.MaxRecords()
    ensures var o := Store(c, v, ram, body);
            var v' := Exec(v, o.cmds);
            && o.status == (if Accepts(c, ram, body) then EOK else EFAIL)
            && o.ram.active == ram.active && Powered(c, v', o.ram)
            && ViewAt(c, v', ram.active)
               == (if Accepts(c, ram, body) then Put(c, ViewAt(c, v, ram.active), body) else ViewAt(c, v, ram.active))
            && o.ram.dict.Keys == ram.dict.Keys + (if Accepts(c, ram, body) then {KeyOf(c.KeySize(), body)} else {})
            && (Exact(c, v, ram) ==> Exact(c, v', o.ram))
  {
    hide Parse, Readable, RecordBytes, NextIdx, Powered, KeyOf, LogOf, DataOf, Partial, Store, NewestAt, AppendCmds,
         RetireCmds, AlreadyStored;
    StoreIs(c, v, ram, body);
    if Accepts(c, ram, body) {
      if AlreadyStored(c, v, ram, body) {
        AlreadyThere(c, v, ram, body);
        AlreadyKey(c, v, ram, body);
      } else {
        StoreWrites(c, v, ram, body);
        UpdatedView(c, NewestAt(c, v, ram.active), ram.next, body);
      }
    }
  }

  lemma AlreadyKey(c: Config, v: Vol, ram: Ram, body: seq<byte>)
    requires AlreadyStored(c, v, ram, body)
    ensures KeyOf(c.KeySize(), body) in ram.dict
  {
  }

  lemma StoreImagesHold(c: Config, v: Vol, ram: Ram, body: seq<byte>, x: Vol)
    requires c.Ok() && Powered(c, v, ram) && c.KeySize() <= |body|
    requires Accepts(c, ram, body) ==> ram.next < c.MaxRecords()
    requires x in Images(v, Store(c, v, ram, body).cmds)
    ensures Durable(c, x, ram.active)
    ensures ViewAt(c, x, ram.active) == ViewAt(c, v, ram.active)
            || (Accepts(c, ram, body) && ViewAt(c, x, ram.active) == Put(c, ViewAt(c, v, ram.active), body))
  {
    StoreIs(c, v, ram, body);
    hide Parse, Readable, RecordBytes, NextIdx, CountLive, CountOf, Newest, SectorOk, Shape, KeyOf, LogOf, DataOf,
         Partial, Durable;
    StoreMoments(c, v, ram, body, x);
    UpdatedView(c, NewestAt(c, v, ram.active), ram.next, body);
  }
}
