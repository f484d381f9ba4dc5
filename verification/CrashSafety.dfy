/** The store's promises about single operations that power may cut short at any byte. */
module CrashSafety {
  import opened ErrorDef
  import opened Flash
  import opened Records
  import opened Volumes
  import opened Logs
  import opened Protocol
  import opened Recovery
  import opened Durability
  import opened Atomicity
  import opened Compaction

  lemma StoresBy(c: Config, x: Vol, w: Which)
    requires Durable(c, x, w)
    ensures Stores(c, x, ViewAt(c, x, w))
  {
  }

  lemma SameSector(c: Config, v: Vol, x: Vol, w: Which)
    requires x.At(w) == v.At(w)
    ensures NewestAt(c, x, w) == NewestAt(c, v, w)
  {
  }

  lemma SameView(c: Config, v: Vol, x: Vol, w: Which)
    requires x.At(w) == v.At(w)
    ensures ViewAt(c, x, w) == ViewAt(c, v, w)
  {
    hide DataMap;
  }

  /** The moment the destination is committed: both sectors are VALID, and then the source is erased. */
  lemma SwapCommit(c: Config, v: Vol, ram: Ram, order: seq<Key>, idxs: seq<nat>, dst: Which)
    requires c.Ok() && Powered(c, v, ram) && IsWalk(ram, order) && Reachable(v, ram)
    requires dst == ram.active.Other() && idxs == SlotsInOrder(ram, order) && CanCompact(c, v, dst, idxs)
    requires AllReadable(v.At(dst.Other()).slots, idxs)
    ensures var y := Committed(c, v, dst, idxs);
            var z := y.With(ram.active, ErasedSector(c));
            && Images(v, SwapCmds(c, v, ram, order)) == Images(v, CompactCmds(c, v, dst, idxs)) + [z]
            && Sole(c, z, dst) && Shaped(c, y) && SectorOk(c, y.At(dst)) && y.At(ram.active) == v.At(ram.active)
            && ViewAt(c, z, dst) == Shown(c, v, ram) && ViewAt(c, y, dst) == Shown(c, v, ram)
  {
    hide Parse, Readable, NewestAt, KeyOf, SectorOk, Shape, FlagsOf, LogOf, CompactCmds, Committed, CanCompact,
         SlotsOfKeys, Shown, SwapRam, NoShadow, ReplaceCmds, SlotsInOrder, Packed, Powered, IsWalk, Sole, NextIdx;
    ReplaceResult(c, v, dst, idxs);
    CompactResult(c, v, dst, idxs);
    SwapResult(c, v, ram, order);
    var y := Committed(c, v, dst, idxs);
    SameSector(c, y.With(ram.active, ErasedSector(c)), y, dst);
  }

  lemma SoleStores(c: Config, x: Vol, w: Which)
    requires Sole(c, x, w)
    ensures Stores(c, x, ViewAt(c, x, w))
  {
    StoresBy(c, x, w);
  }

  /** Both sectors VALID: a load takes sector one. */
  lemma BothStore(c: Config, x: Vol)
    requires Shaped(c, x) && SectorOk(c, x.one) && SectorOk(c, x.two)
    ensures Stores(c, x, ViewAt(c, x, One))
  {
    StoresBy(c, x, One);
  }

  lemma UnfinishedStores(c: Config, x: Vol, src: Which)
    requires Shaped(c, x) && SectorOk(c, x.At(src))
    requires x.At(src.Other()) == ErasedSector(c) || FlagsOf(x.At(src.Other())) == FInitializing
    ensures Stores(c, x, ViewAt(c, x, src))
  {
    StoresBy(c, x, src);
  }

  /** At every moment of a swap flash holds the map of the source or the map that the store shows. */
  lemma SwapMoments(c: Config, v: Vol, ram: Ram, order: seq<Key>, x: Vol)
    requires c.Ok() && Powered(c, v, ram) && IsWalk(ram, order) && Reachable(v, ram)
    requires x in Images(v, SwapCmds(c, v, ram, order))
    ensures Stores(c, x, ViewAt(c, v, ram.active)) || Stores(c, x, Shown(c, v, ram))
  {
    var src, dst, idxs := ram.active, ram.active.Other(), SlotsInOrder(ram, order);
    hide Parse, Readable, NewestAt, KeyOf, SectorOk, Shape, FlagsOf, LogOf, CompactCmds, Committed, CanCompact, Shown,
         Stores, SwapCmds, SlotsInOrder, Reachable, IsWalk, Powered, Sole, SlotsOfKeys;
    WalkCompacts(c, v, ram, order);
    CompactsReadable(c, v, dst, idxs);
    SwapCommit(c, v, ram, order, idxs, dst);
    NextIs(c, v, ram);
    SoleOk(c, v, src);
    if x in Images(v, CompactCmds(c, v, dst, idxs)) {
      CompactMoments(c, v, dst, idxs, x);
      SameSector(c, v, x, src);
      if x == Committed(c, v, dst, idxs) {
        BothStore(c, x);
      } else {
        UnfinishedStores(c, x, src);
      }
    } else {
      SoleStores(c, x, dst);
    }
  }

  lemma SoleOk(c: Config, v: Vol, w: Which)
    requires Sole(c, v, w)
    ensures Shaped(c, v) && SectorOk(c, v.At(w))
  {
  }

  /** The map that is on flash before the record is stored: a swap drops what the store no longer shows. */
  function Base(c: Config, v: Vol, ram: Ram): map<Key, seq<byte>> {
    if ram.next >= c.MaxRecords() then Shown(c, v, ram) else ViewAt(c, v, ram.active)
  }

  /** Free slots: the scan ends inside the sector, or the sector is full. */
  lemma NextBound(c: Config, v: Vol, ram: Ram)
    requires Powered(c, v, ram)
    ensures ram.next <= c.MaxRecords()
  {
  }

  /**
   * nvol3_record_set, completed: it succeeds exactly when the record fits its slot and the volume is
   * below its limit, and then the map is updated; otherwise the map is as before.
   */
  lemma SetResult(c: Config, v: Vol, ram: Ram, order: seq<Key>, body: seq<byte>)
    requires c.Ok() && Powered(c, v, ram) && IsWalk(ram, order) && Reachable(v, ram) && c.KeySize() <= |body|
    ensures var o := Set(c, v, ram, order, body); var v' := Exec(v, o.cmds);
            && o.status == (if Accepts(c, ram, body) then EOK else EFAIL)
            && Powered(c, v', o.ram)
            && ViewAt(c, v', o.ram.active)
               == (if Accepts(c, ram, body) then Put(c, Base(c, v, ram), body) else Base(c, v, ram))
            && o.ram.dict.Keys == ram.dict.Keys + (if Accepts(c, ram, body) then {KeyOf(c.KeySize(), body)} else {})
            && (Exact(c, v, ram) || ram.next >= c.MaxRecords() ==> Exact(c, v', o.ram))
  {
    hide Parse, Readable, NewestAt, KeyOf, Powered, SwapCmds, SwapRam, Store, Reachable, IsWalk, Shown;
    NextBound(c, v, ram);
    if ram.next >= c.MaxRecords() {
      var swap, ram' := SwapCmds(c, v, ram, order), SwapRam(c, v, ram, order);
      SwapResult(c, v, ram, order);
      SameSize(ram.dict, ram'.dict);
      StoreResult(c, Exec(v, swap), ram', body);
      ExecAppend(v, swap, Store(c, Exec(v, swap), ram', body).cmds);
    } else {
      StoreResult(c, v, ram, body);
    }
  }

  lemma SameSize(a: map<Key, Entry>, b: map<Key, Entry>)
    requires a.Keys == b.Keys
    ensures |a| == |b|
  {
    assert |a| == |a.Keys| && |b| == |b.Keys|;
  }

  /**
   * nvol3_record_set, cut short anywhere, a sector swap included: a load finds the map before the call,
   * the map the store showed before the call, or the map after it, and nothing else.
   */
  lemma SetMoments(c: Config, v: Vol, ram: Ram, order: seq<Key>, body: seq<byte>, x: Vol)
    requires c.Ok() && Powered(c, v, ram) && IsWalk(ram, order) && Reachable(v, ram) && c.KeySize() <= |body|
    requires x in Images(v, Set(c, v, ram, order, body).cmds)
    ensures Stores(c, x, ViewAt(c, v, ram.active)) || Stores(c, x, Base(c, v, ram))
            || (Accepts(c, ram, body) && Stores(c, x, Put(c, Base(c, v, ram), body)))
  {
    hide Parse, Readable, NewestAt, KeyOf, Powered, SwapCmds, SwapRam, Store, Reachable, IsWalk, Shown, Stores, Put,
         Durable;
    NextBound(c, v, ram);
    if ram.next >= c.MaxRecords() {
      var swap, ram' := SwapCmds(c, v, ram, order), SwapRam(c, v, ram, order);
      var v1 := Exec(v, swap);
      SwapResult(c, v, ram, order);
      SameSize(ram.dict, ram'.dict);
      ExecAppend(v, swap, Store(c, v1, ram', body).cmds);
      if x in Images(v, swap) {
        SwapMoments(c, v, ram, order, x);
      } else {
        StoreImagesHold(c, v1, ram', body, x);
        StoresBy(c, x, ram'.active);
      }
    } else {
      StoreImagesHold(c, v, ram, body, x);
      StoresBy(c, x, ram.active);
    }
  }

  /** With an exact index the store shows what is on flash. */
  lemma ExactShows(c: Config, v: Vol, ram: Ram)
    requires Powered(c, v, ram) && Exact(c, v, ram)
    ensures Shown(c, v, ram) == ViewAt(c, v, ram.active)
  {
    hide NewestAt;
  }

  /** Crash atomicity of set: every moment of the call stores the map before or the map after it. */
  lemma SetIsAtomic(c: Config, v: Vol, ram: Ram, order: seq<Key>, body: seq<byte>, x: Vol)
    requires c.Ok() && Powered(c, v, ram) && Exact(c, v, ram) && IsWalk(ram, order) && Reachable(v, ram)
             && c.KeySize() <= |body|
    requires x in Images(v, Set(c, v, ram, order, body).cmds)
    ensures var o := Set(c, v, ram, order, body);
            Stores(c, x, ViewAt(c, v, ram.active)) || Stores(c, x, ViewAt(c, Exec(v, o.cmds), o.ram.active))
  {
    hide Parse, Readable, NewestAt, KeyOf, Powered, Set, Reachable, IsWalk, Stores, Put;
    ExactShows(c, v, ram);
    SetMoments(c, v, ram, order, body, x);
    SetResult(c, v, ram, order, body);
  }

  /** The header pairs of a working volume. */
  predicate WorkingPair(x: Vol) {
    (FlagsOf(x.one), FlagsOf(x.two)) in
      {(FValid, FEmpty), (FValid, FInitializing), (FValid, FValid), (FEmpty, FValid), (FInitializing, FValid)}
  }

  /** The five header pairs of a volume of the store's own. */
  lemma HeaderPairs(c: Config, x: Vol, m: map<Key, seq<byte>>)
    requires Stores(c, x, m)
    ensures WorkingPair(x)
  {
    hide Parse, NewestAt;
    var w :| Durable(c, x, w) && ViewAt(c, x, w) == m;
    ValidFlags(c, x.At(w));
    assert ErasedSector(c).head[..4] == SECTOR_EMPTY;
    if w == One && SectorOk(c, x.two) { ValidFlags(c, x.two); }
  }

  /** Whenever both sectors are VALID during a swap, they store the same map. */
  lemma BothValidAgree(c: Config, v: Vol, ram: Ram, order: seq<Key>, x: Vol)
    requires c.Ok() && Powered(c, v, ram) && Exact(c, v, ram) && IsWalk(ram, order) && Reachable(v, ram)
    requires x in Images(v, SwapCmds(c, v, ram, order))
    requires FlagsOf(x.one) == FValid && FlagsOf(x.two) == FValid
    ensures ViewAt(c, x, One) == ViewAt(c, x, Two) == ViewAt(c, v, ram.active)
  {
    var src, dst, idxs := ram.active, ram.active.Other(), SlotsInOrder(ram, order);
    EraseIs(c, v, src);
    hide Parse, Readable, NewestAt, KeyOf, SectorOk, Shape, FlagsOf, LogOf, CompactCmds, Committed, CanCompact, Shown,
         SwapCmds, SlotsInOrder, Reachable, IsWalk, Powered, SlotsOfKeys, Exact, Sole;
    WalkCompacts(c, v, ram, order);
    CompactsReadable(c, v, dst, idxs);
    SwapCommit(c, v, ram, order, idxs, dst);
    ExactShows(c, v, ram);
    SameSector(c, v, Committed(c, v, dst, idxs), src);
    if x in Images(v, CompactCmds(c, v, dst, idxs)) {
      CompactMoments(c, v, dst, idxs, x);
    }
  }

  /** The order-preserving compactor and the one that follows the index produce the same map. */
  lemma CompactorsAgree(c: Config, v: Vol, ram: Ram, order: seq<Key>)
    requires c.Ok() && Powered(c, v, ram) && Exact(c, v, ram) && IsWalk(ram, order) && Reachable(v, ram)
    ensures var moved := Exec(v, ReplaceCmds(c, v, ram.active.Other(), SectorLiveSlots(v.At(ram.active))));
            var swapped := Exec(v, SwapCmds(c, v, ram, order));
            ViewAt(c, moved, ram.active.Other()) == ViewAt(c, swapped, ram.active.Other()) == ViewAt(c, v, ram.active)
  {
    PoweredBlank(c, v, ram);
    hide Parse, Readable, NewestAt, SectorOk, Shape, LogOf, SwapCmds, SwapRam, ReplaceCmds, SectorLiveSlots, Shown,
         Powered, Exact, NoShadow, Reachable, IsWalk, Blank;
    SoleSized(c, v, ram);
    MoveKeepsMap(c, v, ram.active);
    SwapResult(c, v, ram, order);
    ExactShows(c, v, ram);
  }

  lemma PoweredBlank(c: Config, v: Vol, ram: Ram)
    requires Powered(c, v, ram)
    ensures Shaped(c, v) && Blank(c, v.At(ram.active.Other()))
  {
  }

  // ---------------------------------------------------------------- delete

  /** Clearing the newest record of a key, after k >= 1 of the two flag bytes. */
  lemma ClearNewest(c: Config, v: Vol, w: Which, key: Key, i: nat, k: nat)
    requires Sole(c, v, w) && 1 <= k <= 2
    requires key in NewestAt(c, v, w) && i == NewestAt(c, v, w)[key].idx
    ensures var log, n := LogOf(v.At(w)), NextIdx(LogOf(v.At(w)));
            var x := Partial(v, ProgramSlot(w, i, FLAGS_INVALID), k);
            var log' := LogOf(x.At(w));
            && Sole(c, x, w) && Durable(c, x, w) && NextIdx(log') == n
            && (exists dead: Content :: log' == log[i := dead] && !dead.Live? && dead != Empty)
            && (k == 2 ==> CountLive(log', n) + 1 == CountLive(log, n)
                            && CountOf(Invalid, log', n) == CountOf(Invalid, log, n) + 1)
  {
    var s, n := v.At(w), NextIdx(LogOf(v.At(w)));
    var raw := Programmed(s.slots[i], 0, FLAGS_INVALID[..k]);
    NewestIsLast(c.KeySize(), LogOf(s), n);
    LiveIsReadable(s, i);
    hide Parse, Newest, Readable, NextIdx, CountLive, CountOf, SectorOk;
    SlotMoment(v, w, i, FLAGS_INVALID, k);
    ClearFlags(s.slots[i], k);
    ClearSlot(c, s, i, raw, key);
    WithSlotLog(s, i, raw);
    SoleWith(c, v, w, WithSlot(s, i, raw));
  }

  /** The newest records once one of them has been cleared. */
  lemma ClearedNewest(c: Config, v: Vol, w: Which, x: Vol, key: Key, i: nat, dead: Content)
    requires key in NewestAt(c, v, w) && i == NewestAt(c, v, w)[key].idx
    requires LogOf(x.At(w)) == LogOf(v.At(w))[i := dead] && !dead.Live? && dead != Empty
    ensures key in NewestAt(c, x, w) <==> !Unshadowed(c.KeySize(), LogOf(v.At(w)), key)
    ensures forall k :: k != key ==> (k in NewestAt(c, x, w) <==> k in NewestAt(c, v, w))
    ensures forall k :: k != key && k in NewestAt(c, v, w) ==> NewestAt(c, x, w)[k] == NewestAt(c, v, w)[k]
  {
    hide Parse, Newest, Unshadowed;
    KillNewest(c.KeySize(), LogOf(v.At(w)), NextIdx(LogOf(v.At(w))), dead, key, i);
  }

  /**
   * Every moment of a delete but the first one, and its end: the key's newest record no longer counts.
   * The key is gone from flash exactly when it had no older record; all other keys are as before.
   */
  lemma DeleteMoment(c: Config, v: Vol, ram: Ram, key: Key, k: nat)
    requires Powered(c, v, ram) && key in ram.dict && 1 <= k <= 2
    ensures var x := Partial(v, ProgramSlot(ram.active, ram.dict[key].idx, FLAGS_INVALID), k);
            var m, m' := NewestAt(c, v, ram.active), NewestAt(c, x, ram.active);
            && Durable(c, x, ram.active)
            && (key in m' <==> !Unshadowed(c.KeySize(), LogOf(v.At(ram.active)), key))
            && (forall j :: j != key ==> (j in m' <==> j in m))
            && (forall j :: j != key && j in m ==> m'[j] == m[j])
            && (k == 2 ==> Powered(c, x, Delete(ram, key).ram))
  {
    hide Parse, NewestAt, SectorOk, Shape, LogOf, Unshadowed, NextIdx, CountLive, CountOf, Durable, Partial;
    EntryLeads(c, v, ram, key);
    NextIs(c, v, ram);
    ClearNewest(c, v, ram.active, key, ram.dict[key].idx, k);
    var x := Partial(v, ProgramSlot(ram.active, ram.dict[key].idx, FLAGS_INVALID), k);
    var dead: Content :| LogOf(x.At(ram.active)) == LogOf(v.At(ram.active))[ram.dict[key].idx := dead]
                         && !dead.Live? && dead != Empty;
    ClearedNewest(c, v, ram.active, x, key, ram.dict[key].idx, dead);
  }

  lemma WithoutKey(ks: nat, m: map<Key, Rec>, m': map<Key, Rec>, key: Key)
    requires forall j :: j != key ==> (j in m' <==> j in m)
    requires forall j :: j != key && j in m ==> m'[j] == m[j]
    ensures DataMap(ks, m') - {key} == DataMap(ks, m) - {key}
    ensures DataMap(ks, m') == DataMap(ks, m) - {key} <==> key !in m'
  {
    hide DataOf;
    var d, d' := DataMap(ks, m), DataMap(ks, m');
    assert forall j :: j in d' - {key} <==> j in d - {key};
    assert forall j :: j in d - {key} ==> (d' - {key})[j] == (d - {key})[j];
    if key !in m' {
      assert d' - {key} == d';
    }
  }

  /** nvol3_record_delete, completed. */
  lemma DeleteResult(c: Config, v: Vol, ram: Ram, key: Key)
    requires Powered(c, v, ram)
    ensures var o := Delete(ram, key); var v' := Exec(v, o.cmds);
            && o.status == (if key in Shown(c, v, ram) then EOK else E_NOTFOUND)
            && o.ram.active == ram.active && Powered(c, v', o.ram)
            && Shown(c, v', o.ram) == Shown(c, v, ram) - {key}
            && (key in ram.dict && Exact(c, v, ram) ==>
                  (Exact(c, v', o.ram) <==> Unshadowed(c.KeySize(), LogOf(v.At(ram.active)), key)))
  {
    hide NewestAt, LogOf, Unshadowed, Partial, Shown, Exact, Powered;
    ShownKeys(c, v, ram);
    if key in ram.dict {
      EntryLeads(c, v, ram, key);
      var clear := ProgramSlot(ram.active, ram.dict[key].idx, FLAGS_INVALID);
      DeleteMoment(c, v, ram, key, 2);
      ExecOne(v, clear);
      assert Apply(v, clear) == Partial(v, clear, 2);
      ShownDeleted(c, v, Apply(v, clear), ram, Delete(ram, key).ram, key);
    } else {
      assert Shown(c, v, ram) - {key} == Shown(c, v, ram);
    }
  }

  lemma ShownKeys(c: Config, v: Vol, ram: Ram)
    requires Powered(c, v, ram)
    ensures Shown(c, v, ram).Keys == ram.dict.Keys
  {
    hide LogOf, NewestAt, SectorOk, DataOf, Shape;
  }

  /** The index and the records of a deleted key are gone, those of all other keys are as before. */
  lemma ShownDeleted(c: Config, v: Vol, v': Vol, ram: Ram, ram': Ram, key: Key)
    requires ram'.active == ram.active && ram'.dict == ram.dict - {key} && key in ram.dict
    requires forall j :: j != key ==> (j in NewestAt(c, v', ram.active) <==> j in NewestAt(c, v, ram.active))
    requires forall j :: j != key && j in NewestAt(c, v, ram.active) ==>
               NewestAt(c, v', ram.active)[j] == NewestAt(c, v, ram.active)[j]
    ensures Shown(c, v', ram') == Shown(c, v, ram) - {key}
    ensures Exact(c, v, ram) ==> (Exact(c, v', ram') <==> key !in NewestAt(c, v', ram.active))
  {
    hide NewestAt, DataOf;
  }

  /**
   * Delete is atomic and durable, torn or not, exactly when the key has no older record on flash: then
   * every moment after the first byte stores the map without the key, and otherwise none does.
   */
  lemma DeleteIsDurable(c: Config, v: Vol, ram: Ram, key: Key, x: Vol)
    requires Powered(c, v, ram) && key in ram.dict && x in Images(v, Delete(ram, key).cmds)
    ensures Stores(c, x, ViewAt(c, x, ram.active))
    ensures ViewAt(c, x, ram.active) - {key} == ViewAt(c, v, ram.active) - {key}
    ensures ViewAt(c, x, ram.active) == ViewAt(c, v, ram.active) - {key}
            <==> Unshadowed(c.KeySize(), LogOf(v.At(ram.active)), key)
  {
    hide Parse, SectorOk, Shape, NewestAt, LogOf, Unshadowed, Partial, DataMap, Stores, Powered;
    var clear := ProgramSlot(ram.active, ram.dict[key].idx, FLAGS_INVALID);
    ExecOne(v, clear);
    var k: nat :| k < 2 && x == Partial(v, clear, k + 1);
    DeleteMoment(c, v, ram, key, k + 1);
    WithoutKey(c.KeySize(), NewestAt(c, v, ram.active), NewestAt(c, x, ram.active), key);
    StoresBy(c, x, ram.active);
  }
}
