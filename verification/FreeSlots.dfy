/**
 * What an operation that power cuts short does to the next free slot: it takes one slot at most, and if the
 * store comes up in the other sector, it comes up with the slots that a completed swap would have left.
 */
module FreeSlots {
  import opened Flash
  import opened Records
  import opened Volumes
  import opened Logs
  import opened Protocol
  import opened Recovery
  import opened Durability
  import opened Atomicity
  import opened Compaction
  import opened CrashSafety
  import opened Runs

  /** None of the commands programs slot m. */
  predicate Spare(cmds: seq<Cmd>, m: nat) {
    forall i :: 0 <= i < |cmds| ==> cmds[i].ProgramSlot? && cmds[i].slot != m
  }

  lemma {:induction false} SpareSlot(v: Vol, cmds: seq<Cmd>, w: Which, m: nat)
    requires OnlySlots(cmds, w) && Spare(cmds, m) && m < |v.At(w).slots|
    ensures forall x :: x in Images(v, cmds) ==> m < |x.At(w).slots| && x.At(w).slots[m] == v.At(w).slots[m]
    decreases |cmds|
  {
    hide Programmed;
    if cmds != [] {
      assert OnlySlots(cmds[1..], w) && Spare(cmds[1..], m);
      SpareSlot(Apply(v, cmds[0]), cmds[1..], w, m);
    }
  }

  /** While slot m stays spare, the first empty slot is not behind it. */
  lemma SpareBounds(c: Config, v: Vol, ram: Ram, cmds: seq<Cmd>, m: nat, x: Vol)
    requires c.Ok() && Powered(c, v, ram) && OnlySlots(cmds, ram.active) && Spare(cmds, m) && ram.next <= m
    requires x in Images(v, cmds) && Durable(c, x, ram.active)
    ensures NextFree(x, ram.active) <= m
  {
    hide Parse, Images, Powered, SectorOk, FlagsOf, Config.MaxRecords;
    var log := LogOf(x.At(ram.active));
    if m < c.MaxRecords() {
      FreeIsEmpty(c, v, ram, m);
      SpareSlot(v, cmds, ram.active, m);
      assert log[m] == Parse(x.At(ram.active).slots[m]);
    }
  }

  /** A store takes the next free slot at most. */
  lemma StoreTakesOne(c: Config, v: Vol, ram: Ram, body: seq<byte>, x: Vol)
    requires c.Ok() && Powered(c, v, ram) && c.KeySize() <= |body|
    requires Accepts(c, ram, body) ==> ram.next < c.MaxRecords()
    requires x in Images(v, Store(c, v, ram, body).cmds)
    ensures Durable(c, x, ram.active) && NextFree(x, ram.active) <= ram.next + 1
  {
    hide Powered, Store, AppendCmds, RetireCmds, NewestAt, LogOf, Readable, BodyOf, KeyOf, Accepts, AlreadyStored,
         Durable, Images, NextFree, Config.Ok;
    StoreIs(c, v, ram, body);
    StoreImagesHold(c, v, ram, body, x);
    var key := KeyOf(c.KeySize(), body);
    var cmds := Store(c, v, ram, body).cmds;
    if cmds == [] {
      NoImages(v);
    } else {
      if key in ram.dict { EntryLeads(c, v, ram, key); }
      StoreSpares(ram, body, key);
      SpareBounds(c, v, ram, cmds, ram.next + 1, x);
    }
  }

  lemma NoImages(v: Vol)
    ensures Images(v, []) == []
  {
  }

  lemma StoreSpares(ram: Ram, body: seq<byte>, key: Key)
    requires key in ram.dict ==> ram.dict[key].idx < ram.next
    ensures var cmds := AppendCmds(ram, body) + RetireCmds(ram, key);
            OnlySlots(cmds, ram.active) && Spare(cmds, ram.next + 1)
  {
    hide RecordBytes;
  }

  /** A delete takes none. */
  lemma DeleteTakesNone(c: Config, v: Vol, ram: Ram, key: Key, x: Vol)
    requires c.Ok() && Powered(c, v, ram) && x in Images(v, Delete(ram, key).cmds)
    ensures Durable(c, x, ram.active) && NextFree(x, ram.active) <= ram.next
  {
    hide Powered, NewestAt, LogOf, Readable, BodyOf, Durable, NextFree, Config.Ok, Partial, Unshadowed, Parse;
    if key in ram.dict {
      EntryLeads(c, v, ram, key);
      var clear := ProgramSlot(ram.active, ram.dict[key].idx, FLAGS_INVALID);
      ExecOne(v, clear);
      var k: nat :| k < 2 && x == Partial(v, clear, k + 1);
      DeleteMoment(c, v, ram, key, k + 1);
      SpareBounds(c, v, ram, [clear], ram.next, x);
    }
  }

  /** The sector that a load chooses at a moment of a swap: the source as it was, or the packed destination. */
  lemma SwapChooses(c: Config, v: Vol, ram: Ram, order: seq<Key>, x: Vol) returns (w: Which)
    requires c.Ok() && Powered(c, v, ram) && IsWalk(ram, order) && Reachable(v, ram)
    requires x in Images(v, SwapCmds(c, v, ram, order))
    ensures Durable(c, x, w) && NextFree(x, w) == if w == ram.active then ram.next else |ram.dict|
  {
    var src, dst, idxs := ram.active, ram.active.Other(), SlotsInOrder(ram, order);
    hide Parse, Readable, NewestAt, KeyOf, SectorOk, Shape, FlagsOf, LogOf, CompactCmds, Committed, CanCompact, Shown,
         SwapCmds, SlotsInOrder, Reachable, IsWalk, Powered, Sole, SlotsOfKeys, NextIdx, Packed, ErasedSector;
    WalkCompacts(c, v, ram, order);
    WalkFits(c, v, ram, order);
    CompactsReadable(c, v, dst, idxs);
    SwapCommit(c, v, ram, order, idxs, dst);
    CompactResult(c, v, dst, idxs);
    NextIs(c, v, ram);
    SoleOk(c, v, src);
    if x in Images(v, CompactCmds(c, v, dst, idxs)) {
      CompactMoments(c, v, dst, idxs, x);
      w := if x == Committed(c, v, dst, idxs) then One else src;
    } else {
      w := dst;
      SoleDurable(c, x, dst);
    }
  }

  /** A moment of a set, whether or not it has to swap the sectors first. */
  lemma SetTakesOne(c: Config, s: Runs.State, body: seq<byte>, order: seq<Key>, x: Vol) returns (w: Which)
    requires c.Ok() && Sound(c, s) && CanDo(c, s, SetOp(body, order))
    requires x in Images(s.vol, Set(c, s.vol, s.ram, order, body).cmds)
    ensures Durable(c, x, w) && NextFree(x, w) <= s.ram.next + 1
    ensures w != s.ram.active ==> s.ram.next >= c.MaxRecords() && NextFree(x, w) <= |s.ram.dict| + 1
  {
    hide Powered, Store, SwapCmds, SwapRam, NewestAt, LogOf, Shown, Durable, Images, NextFree, Reachable, IsWalk,
         Config.Ok, Config.MaxRecords;
    NextBound(c, s.vol, s.ram);
    if s.ram.next >= c.MaxRecords() {
      var swap, ram := SwapCmds(c, s.vol, s.ram, order), SwapRam(c, s.vol, s.ram, order);
      var v := Exec(s.vol, swap);
      WalkFits(c, s.vol, s.ram, order);
      SwapResult(c, s.vol, s.ram, order);
      SameSize(s.ram.dict, ram.dict);
      ExecAppend(s.vol, swap, Store(c, v, ram, body).cmds);
      if x in Images(s.vol, swap) {
        w := SwapChooses(c, s.vol, s.ram, order, x);
      } else {
        w := ram.active;
        RoomAfterSwap(c, ram, body);
        StoreTakesOne(c, v, ram, body, x);
      }
    } else {
      w := s.ram.active;
      StoreTakesOne(c, s.vol, s.ram, body, x);
    }
  }

  lemma RoomAfterSwap(c: Config, ram: Ram, body: seq<byte>)
    requires c.Ok() && ram.next == |ram.dict|
    ensures Accepts(c, ram, body) ==> ram.next < c.MaxRecords()
  {
  }

  /** Every moment of an operation: one slot at most is taken, and only a swap changes the sector. */
  lemma TornTakesOne(c: Config, s: Runs.State, op: Op, x: Vol) returns (w: Which)
    requires c.Ok() && Sound(c, s) && CanDo(c, s, op)
    requires x == s.vol || x in Images(s.vol, Result(c, s, op).cmds)
    ensures Durable(c, x, w) && NextFree(x, w) <= s.ram.next + 1
    ensures w != s.ram.active ==>
              op.SetOp? && s.ram.next >= c.MaxRecords() && NextFree(x, w) <= |s.ram.dict| + 1
  {
    hide Powered, Set, Delete, NewestAt, LogOf, Durable, Images, Reachable, IsWalk, Config.Ok, Config.MaxRecords;
    NextIs(c, s.vol, s.ram);
    if x == s.vol {
      w := s.ram.active;
      SoleDurable(c, s.vol, w);
    } else {
      match op {
        case SetOp(body, order) => w := SetTakesOne(c, s, body, order, x);
        case DeleteOp(key) =>
          w := s.ram.active;
          DeleteTakesNone(c, s.vol, s.ram, key, x);
      }
    }
  }

  /**
   * Power fails at any moment of an operation, and then of the loads: the store comes up with one slot less
   * at most. If it comes up in the other sector, the operation was a set that found its sector full.
   */
  lemma CutTakesOne(c: Config, s: Runs.State, op: Op, at: nat, loads: seq<nat>)
    requires c.Ok() && Sound(c, s) && CanDo(c, s, op)
    ensures var t := Next(c, s, Cut(op, at, loads));
            && t.ram.next <= s.ram.next + 1
            && (t.ram.active != s.ram.active ==>
                  op.SetOp? && s.ram.next >= c.MaxRecords() && t.ram.next <= |s.ram.dict| + 1)
  {
    hide Powered, NewestAt, Result, Durable, AfterCuts, LoadCmds, LoadRam, NextFree, Images, CanDo, Config.Ok,
         Config.MaxRecords;
    var cmds := Result(c, s, op).cmds;
    var n := |Images(s.vol, cmds)|;
    var x := Torn(s.vol, cmds, if at <= n then at else n);
    var w := TornTakesOne(c, s, op, x);
    RecoveryIsIdempotent(c, x, w, loads);
    CutsKeepNext(c, x, w, loads);
    var y := AfterCuts(c, x, loads);
    Boot(c, y, w);
    LoadKeepsNext(c, y, w);
  }
}
