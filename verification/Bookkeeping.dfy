/** The counters and the RAM cache. */
module Bookkeeping {
  import opened Cardinality
  import opened ErrorDef
  import opened Flash
  import opened Records
  import opened Volumes
  import opened Logs
  import opened Protocol
  import opened Durability
  import opened Atomicity
  import opened Compaction

  // ---------------------------------------------------------------- counters

  /**
   * After a load of any flash contents the counters are those of the slots in front of the first empty one,
   * and none of these is a corrupt record. Slots behind a gap are not looked at.
   */
  lemma LoadCounts(c: Config, v: Vol)
    ensures var r := LoadRam(c, v);
            var log := LogOf(Exec(v, LoadCmds(c, v)).At(r.active));
            && r.next == NextIdx(log) && r.inuse == CountLive(log, r.next) && r.invalid == CountOf(Invalid, log, r.next)
            && CountOf(Corrupt, log, r.next) == 0
  {
    hide Parse, Marked, MarkedUpTo, MountCmds, PlanFor, Newest;
    var w, u := PlanActive(PlanFor(v)), Exec(v, MountCmds(c, v));
    var log, n := LogOf(u.At(w)), NextIdx(LogOf(u.At(w)));
    ExecAppend(v, MountCmds(c, v), ScanCmds(u, w));
    ScanMarks(u, w, log, n);
    var t := Exec(u, ScanCmds(u, w)).At(w);
    MarkedCounts(u.At(w), t, n, n);
    MarkedNext(u.At(w), t, n);
  }

  /**
   * A load counts each slot in front of the first empty one once: as a record in use, as an error, or as a record
   * that was INVALID before. The errors are what it cannot read and what it marks for a wrong checksum.
   */
  lemma LoadCountsOnce(c: Config, v: Vol)
    ensures var r := LoadRam(c, v);
            var log := LogOf(Exec(v, MountCmds(c, v)).At(r.active));
            && r.next == NextIdx(log) && r.inuse + r.error + CountOf(Invalid, log, r.next) == r.next
            && r.error == CountOf(Unreadable, log, r.next) + CountOf(Corrupt, log, r.next)
  {
    hide Parse, MountCmds, PlanFor, Newest, LogOf;
    var w := PlanActive(PlanFor(v));
    var log := LogOf(Exec(v, MountCmds(c, v)).At(w));
    SlotsCounted(log, NextIdx(log));
  }

  lemma {:induction false} SlotsCounted(log: Log, n: nat)
    requires n <= |log| && forall i :: 0 <= i < n ==> log[i] != Empty
    ensures CountLive(log, n) + CountOf(Invalid, log, n) + CountOf(Unreadable, log, n) + CountOf(Corrupt, log, n) == n
  {
    if n > 0 {
      SlotsCounted(log, n - 1);
    }
  }

  lemma MarkedNext(s: Sector, t: Sector, n: nat)
    requires MarkedUpTo(s, t, n) && n == NextIdx(LogOf(s))
    ensures NextIdx(LogOf(t)) == n
  {
    hide Parse;
    assert forall i :: 0 <= i < |s.slots| ==> LogOf(t)[i] == Parse(t.slots[i]) && LogOf(s)[i] == Parse(s.slots[i]);
    NextIdxIs(LogOf(t), n);
  }

  /** While the RAM state fits flash there is no gap, so the counters are those of the whole sector. */
  lemma CountsCoverSector(c: Config, v: Vol, ram: Ram)
    requires c.Ok() && Powered(c, v, ram)
    ensures var log := LogOf(v.At(ram.active));
            && ram.inuse == CountLive(log, |log|) && ram.invalid == CountOf(Invalid, log, |log|)
            && CountOf(Empty, log, |log|) == |log| - ram.next
  {
    hide Parse, NewestAt, SectorOk, NextIdx, CountLive, CountOf;
    var log := LogOf(v.At(ram.active));
    forall i | ram.next <= i < |log|
      ensures log[i] == Empty
    {
      FreeIsEmpty(c, v, ram, i);
      assert log[i] == Parse(v.At(ram.active).slots[i]);
    }
    NoneEmpty(log, ram.next);
    CountsBehind(log, ram.next, |log|);
  }

  lemma {:induction false} NoneEmpty(log: Log, n: nat)
    requires n <= |log| && forall i :: 0 <= i < n ==> log[i] != Empty
    ensures CountOf(Empty, log, n) == 0
  {
    if n > 0 {
      NoneEmpty(log, n - 1);
    }
  }

  /** Empty slots add to no other counter. */
  lemma {:induction false} CountsBehind(log: Log, n: nat, m: nat)
    requires n <= m <= |log| && forall i :: n <= i < m ==> log[i] == Empty
    ensures CountLive(log, m) == CountLive(log, n) && CountOf(Invalid, log, m) == CountOf(Invalid, log, n)
    ensures CountOf(Empty, log, m) == CountOf(Empty, log, n) + m - n
    decreases m
  {
    if n < m {
      CountsBehind(log, n, m - 1);
    }
  }

  /** No record is shadowed and no key on flash is missing from the index: two counters tell. */
  predicate Clean(ram: Ram) { ram.inuse == |ram.dict| }

  /** The index count meets the in-use count exactly when no VALID record is shadowed or orphaned. */
  lemma CleanMeans(c: Config, v: Vol, ram: Ram)
    requires Powered(c, v, ram)
    ensures |ram.dict| <= ram.inuse
    ensures Clean(ram) <==> Exact(c, v, ram) && NoShadow(c.KeySize(), LogOf(v.At(ram.active)))
  {
    hide Parse, SectorOk, Shape, LogOf, Newest, Distinct, CountLive, CountOf;
    var log := LogOf(v.At(ram.active));
    var m := Newest(c.KeySize(), log, ram.next);
    assert m == NewestAt(c, v, ram.active);
    LiveRecordsAndKeys(c.KeySize(), log, ram.next);
    assert ram.dict.Keys <= m.Keys;
    SubsetSize(ram.dict.Keys, m.Keys);
    assert |ram.dict.Keys| == |ram.dict| && |m.Keys| == |m|;
    assert ram.dict.Keys == m.Keys ==> |ram.dict.Keys| == |m.Keys|;
  }

  lemma CleanUnshadows(c: Config, v: Vol, ram: Ram, key: Key)
    requires Powered(c, v, ram) && Clean(ram)
    ensures Unshadowed(c.KeySize(), LogOf(v.At(ram.active)), key)
  {
    hide Parse, SectorOk, Shape, LogOf, Newest;
    CleanMeans(c, v, ram);
  }

  /** Every operation that completes keeps a clean store clean, and a swap makes any store clean. */
  lemma SetKeepsClean(c: Config, v: Vol, ram: Ram, order: seq<Key>, body: seq<byte>)
    requires c.Ok() && Powered(c, v, ram) && IsWalk(ram, order) && Reachable(v, ram) && c.KeySize() <= |body|
    requires Clean(ram) || ram.next >= c.MaxRecords()
    ensures Clean(Set(c, v, ram, order, body).ram)
  {
    hide Parse, SectorOk, Shape, LogOf, NewestAt, SwapCmds, SwapRam, NoShadow, Powered, Reachable, IsWalk;
    if ram.next >= c.MaxRecords() {
      SwapResult(c, v, ram, order);
      CleanMeans(c, Exec(v, SwapCmds(c, v, ram, order)), SwapRam(c, v, ram, order));
    }
  }

  lemma DeleteKeepsClean(c: Config, v: Vol, ram: Ram, key: Key)
    requires Powered(c, v, ram) && Clean(ram)
    ensures Clean(Delete(ram, key).ram)
  {
    if key in ram.dict {
      assert (ram.dict - {key}).Keys == ram.dict.Keys - {key};
      assert |(ram.dict - {key}).Keys| == |ram.dict.Keys| - 1;
    }
  }

  // ---------------------------------------------------------------- get and the RAM cache

  /**
   * Cache transparency: for every cache size, an entry of the index holds the length that is on flash,
   * and a cached copy, when there is one, is the data that is on flash.
   */
  lemma CacheIsTransparent(c: Config, v: Vol, ram: Ram, key: Key)
    requires c.Ok() && Powered(c, v, ram) && key in ram.dict
    ensures var e := ram.dict[key]; var slots := v.At(ram.active).slots;
            && e.idx < |slots| && Readable(slots[e.idx])
            && LengthField(slots[e.idx]) == c.KeySize() + e.length
            && (e.length <= c.localSize ==> key + e.local == BodyOf(slots[e.idx]))
            && (e.length > c.localSize ==> e.local == [])
  {
    hide Parse, Readable, Powered, SectorOk, LogOf, BodyOf;
    EntryLeads(c, v, ram, key);
    SoleSized(c, v, ram);
    EntryIs(c, v, ram, key);
    LiveIsReadable(v.At(ram.active), ram.dict[key].idx);
    BodyLength(v.At(ram.active).slots[ram.dict[key].idx]);
    KeyAndData(c.KeySize(), LogOf(v.At(ram.active))[ram.dict[key].idx].body);
  }

  lemma BodyLength(raw: seq<byte>)
    requires Readable(raw)
    ensures |BodyOf(raw)| == LengthField(raw)
  {
  }

  lemma EntryIs(c: Config, v: Vol, ram: Ram, key: Key)
    requires Powered(c, v, ram) && key in ram.dict
    ensures key in NewestAt(c, v, ram.active) && ram.dict[key] == EntryFor(c, NewestAt(c, v, ram.active)[key])
  {
  }

  /** nvol3_record_get is the lookup in the map that the store shows. */
  lemma GetIsLookup(c: Config, v: Vol, ram: Ram, key: Key)
    requires c.Ok() && Powered(c, v, ram)
    ensures Get(c, v, ram, key)
            == if key in Shown(c, v, ram) then (EOK, key + Shown(c, v, ram)[key]) else (E_NOTFOUND, [])
  {
    if key in ram.dict {
      hide Parse, Readable, Powered, SectorOk, LogOf, BodyOf;
      EntryLeads(c, v, ram, key);
      CacheIsTransparent(c, v, ram, key);
      SoleSized(c, v, ram);
      KeyAndData(c.KeySize(), LogOf(v.At(ram.active))[ram.dict[key].idx].body);
    }
  }
}
