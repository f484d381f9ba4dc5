/**
 * How often a run erases each sector: once for every time the store leaves it, and once more at most for every
 * load that finds the map in the other one.
 */
module Erases {
  import opened Flash
  import opened Records
  import opened Volumes
  import opened Logs
  import opened Protocol
  import opened Recovery
  import opened Durability
  import opened Atomicity
  import opened Compaction
  import opened CrashSafety
  import opened Runs
  import opened Mounts
  import opened FreeSlots
  import opened Wear

  // ---------------------------------------------------------------- counting

  /** The erases of sector w among the first n steps of the commands. */
  function ErasesIn(cmds: seq<Cmd>, w: Which, n: nat): nat
    decreases |cmds|
  {
    if cmds == [] || n < cmds[0].Duration() then 0
    else ErasesIn(cmds[1..], w, n - cmds[0].Duration()) + if cmds[0] == EraseSector(w) then 1 else 0
  }

  function Clipped(v: Vol, cmds: seq<Cmd>, n: nat): (m: nat)
    ensures m <= |Images(v, cmds)|
  {
    if n <= |Images(v, cmds)| then n else |Images(v, cmds)|
  }

  /** The erases of sector w by loads that are cut short after the given numbers of steps and one that completes. */
  function LoadErases(c: Config, v: Vol, w: Which, loads: seq<nat>): nat
    decreases |loads|
  {
    var cmds := LoadCmds(c, v);
    if loads == [] then ErasesIn(cmds, w, |Images(v, cmds)|)
    else
      var n := Clipped(v, cmds, loads[0]);
      ErasesIn(cmds, w, n) + LoadErases(c, Torn(v, cmds, n), w, loads[1..])
  }

  /** The erases of sector w during an event, those of its loads included. */
  function EventErases(c: Config, s: State, e: Event, w: Which): nat
    requires CanDo(c, s, e.op)
  {
    var cmds := Result(c, s, e.op).cmds;
    match e
    case Done(_) => ErasesIn(cmds, w, |Images(s.vol, cmds)|)
    case Cut(_, at, loads) =>
      var n := Clipped(s.vol, cmds, at);
      ErasesIn(cmds, w, n) + LoadErases(c, Torn(s.vol, cmds, n), w, loads)
  }

  function EraseCount(c: Config, states: seq<State>, events: seq<Event>, w: Which, i: nat): nat
    requires IsRun(c, states, events) && i <= |events|
  {
    if i == 0 then 0 else EraseCount(c, states, events, w, i - 1) + EventErases(c, states[i - 1], events[i - 1], w)
  }

  function LoadCount(events: seq<Event>, i: nat): nat
    requires i <= |events|
  {
    if i == 0 then 0
    else LoadCount(events, i - 1) + if events[i - 1].Cut? then |events[i - 1].loads| + 1 else 0
  }

  /** The times the store has left sector w. */
  function SwapsOut(states: seq<State>, w: Which, i: nat): nat
    requires i < |states|
  {
    if i == 0 then 0
    else SwapsOut(states, w, i - 1) + if Swaps(states[i - 1], states[i]) && states[i - 1].ram.active == w then 1 else 0
  }

  /** The store leaves the two sectors in turn. */
  lemma {:induction false} SwapsAlternate(states: seq<State>, w: Which, i: nat)
    requires i < |states|
    ensures SwapsOut(states, w, i) + SwapsOut(states, w.Other(), i) == SwapCount(states, i)
    ensures SwapsOut(states, w, i) - SwapsOut(states, w.Other(), i)
            == (if states[0].ram.active == w then 1 else 0) - (if states[i].ram.active == w then 1 else 0)
  {
    if i > 0 {
      SwapsAlternate(states, w, i - 1);
    }
  }

  // ---------------------------------------------------------------- commands without erases

  predicate NoErase(cmds: seq<Cmd>) { forall i :: 0 <= i < |cmds| ==> !cmds[i].EraseSector? }

  lemma {:induction false} NoErases(cmds: seq<Cmd>, w: Which, n: nat)
    requires NoErase(cmds)
    ensures ErasesIn(cmds, w, n) == 0
    decreases |cmds|
  {
    if cmds != [] && cmds[0].Duration() <= n {
      assert NoErase(cmds[1..]);
      NoErases(cmds[1..], w, n - cmds[0].Duration());
    }
  }

  /** An erase behind other commands happens once all of their steps, and its own, have been done. */
  lemma {:induction false} EraseBehind(v: Vol, a: seq<Cmd>, src: Which, b: seq<Cmd>, w: Which, n: nat)
    requires NoErase(a) && NoErase(b)
    ensures ErasesIn(a + [EraseSector(src)] + b, w, n) == if src == w && |Images(v, a)| < n then 1 else 0
    decreases |a|
  {
    hide Partial;
    var cmds := a + [EraseSector(src)] + b;
    if a == [] {
      assert cmds[1..] == b;
      if n >= 1 { NoErases(b, w, n - 1); }
    } else {
      assert cmds[1..] == a[1..] + [EraseSector(src)] + b && cmds[0] == a[0];
      assert NoErase(a[1..]);
      assert |Images(v, a)| == a[0].Duration() + |Images(Apply(v, a[0]), a[1..])|;
      if a[0].Duration() <= n {
        EraseBehind(Apply(v, a[0]), a[1..], src, b, w, n - a[0].Duration());
      }
    }
  }

  lemma SlotsNoErase(cmds: seq<Cmd>, w: Which)
    requires OnlySlots(cmds, w)
    ensures NoErase(cmds)
  {
  }

  // ---------------------------------------------------------------- loads

  /** A load of this volume erases the other sector. */
  predicate DropsOther(v: Vol, w: Which) { w == One || FlagsOf(v.one) != FEmpty }

  /** A load of a volume that holds a map in sector w: its only erase is its first step, if it has one. */
  lemma LoadErasesOne(c: Config, v: Vol, w: Which, w': Which, n: nat)
    requires Durable(c, v, w)
    ensures ErasesIn(LoadCmds(c, v), w', n) == if w' != w && DropsOther(v, w) && 0 < n then 1 else 0
    ensures DropsOther(v, w) ==> 0 < |Images(v, LoadCmds(c, v))|
  {
    hide Parse, LogOf, NewestAt, SectorOk, Shape, ErasedSector, FlagsOf, MountCmds, ScanCmds, PlanFor;
    var u := v.With(w.Other(), ErasedSector(c));
    var scan := ScanCmds(u, w);
    MountDurable(c, v, w);
    MountExact(c, v, w);
    ScanOnlySlots(u, w);
    SlotsNoErase(scan, w);
    if DropsOther(v, w) {
      assert [] + [EraseSector(w.Other())] + scan == [EraseSector(w.Other())] + scan;
      EraseBehind(v, [], w.Other(), scan, w', n);
      EraseStep(v, [], w.Other(), scan);
    } else {
      assert [] + scan == scan;
      NoErases(scan, w', n);
    }
  }

  /** The loads that have done a step when power fails. */
  function Attempts(loads: seq<nat>): nat {
    if loads == [] then 0 else Attempts(loads[1..]) + if loads[0] == 0 then 0 else 1
  }

  /**
   * The exact number of erases of loads that are cut short and one that completes. If the map is in sector one, each
   * of them erases sector two. If it is in sector two, sector one is erased once, unless it is EMPTY already.
   */
  lemma {:induction false} LoadsErase(c: Config, v: Vol, w: Which, w': Which, loads: seq<nat>)
    requires Durable(c, v, w)
    ensures LoadErases(c, v, w', loads)
            == if w' == w then 0 else if w == One then Attempts(loads) + 1 else if DropsOther(v, w) then 1 else 0
    decreases |loads|
  {
    hide Durable, NewestAt, LoadRam, LoadCmds, Images, ErasesIn, ErasedSector, FlagsOf;
    var cmds := LoadCmds(c, v);
    LoadErasesOne(c, v, w, w', |Images(v, cmds)|);
    if loads != [] {
      var n := Clipped(v, cmds, loads[0]);
      LoadErasesOne(c, v, w, w', n);
      Boot(c, v, w);
      LoadsErase(c, Torn(v, cmds, n), w, w', loads[1..]);
      if 0 < n {
        LoadErasesOther(c, v, w, Torn(v, cmds, n));
        ErasedFlags(c);
      }
    }
  }

  lemma AttemptsWithin(loads: seq<nat>)
    ensures Attempts(loads) <= |loads|
  {
  }

  // ---------------------------------------------------------------- operations

  /** A swap erases the sector that it leaves, as its last command. */
  lemma SwapEnds(c: Config, v: Vol, ram: Ram, order: seq<Key>) returns (before: seq<Cmd>)
    requires c.Ok() && Powered(c, v, ram) && IsWalk(ram, order) && Reachable(v, ram)
    ensures NoErase(before) && SwapCmds(c, v, ram, order) == before + [EraseSector(ram.active)]
  {
    hide Parse, Readable, NewestAt, LogOf, SectorOk, Shape, Committed, CanCompact, HeadBytes, FlagsOf, Powered, Sole,
         SlotsOfKeys, CopyOf, ScanCmds, ErasedSector;
    var dst, idxs := ram.active.Other(), SlotsInOrder(ram, order);
    WalkCompacts(c, v, ram, order);
    CompactsReadable(c, v, dst, idxs);
    ReplaceResult(c, v, dst, idxs);
    CompactStages(c, v, dst, idxs);
    NextIs(c, v, ram);
    SoleEmpty(c, v, ram.active);
    before := CompactCmds(c, v, dst, idxs);
  }

  lemma SoleEmpty(c: Config, v: Vol, w: Which)
    requires Sole(c, v, w)
    ensures FlagsOf(v.At(w.Other())) == FEmpty
  {
    EraseIs(c, v, w);
  }

  lemma DeleteErases(ram: Ram, key: Key)
    ensures NoErase(Delete(ram, key).cmds)
  {
  }

  lemma StoreErases(c: Config, v: Vol, ram: Ram, body: seq<byte>)
    requires Powered(c, v, ram)
    ensures NoErase(Store(c, v, ram, body).cmds)
  {
    hide Powered, Accepts, AlreadyStored, RecordBytes, Store, KeyOf;
    StoreIs(c, v, ram, body);
  }

  /** The commands of a set that swaps, around its erase. */
  lemma SetSplits(c: Config, s: State, body: seq<byte>, order: seq<Key>) returns (before: seq<Cmd>, after: seq<Cmd>)
    requires c.Ok() && Sound(c, s) && CanDo(c, s, SetOp(body, order)) && s.ram.next >= c.MaxRecords()
    ensures NoErase(before) && NoErase(after)
    ensures Set(c, s.vol, s.ram, order, body).cmds == before + [EraseSector(s.ram.active)] + after
    ensures var swap, ram := SwapCmds(c, s.vol, s.ram, order), SwapRam(c, s.vol, s.ram, order);
            && swap == before + [EraseSector(s.ram.active)]
            && after == Store(c, Exec(s.vol, swap), ram, body).cmds
  {
    hide Powered, Store, SwapCmds, SwapRam, NewestAt, LogOf, NoErase, IsWalk, Reachable, NoShadow, ViewAt, Shown;
    var swap, ram := SwapCmds(c, s.vol, s.ram, order), SwapRam(c, s.vol, s.ram, order);
    before := SwapEnds(c, s.vol, s.ram, order);
    SwapResult(c, s.vol, s.ram, order);
    after := Store(c, Exec(s.vol, swap), ram, body).cmds;
    StoreErases(c, Exec(s.vol, swap), ram, body);
  }

  /** A completed operation erases the sector that it leaves, if it leaves it, and nothing else. */
  lemma DoneErases(c: Config, s: State, op: Op, w: Which)
    requires c.Ok() && Sound(c, s) && CanDo(c, s, op)
    ensures EventErases(c, s, Done(op), w) == if Swaps(s, Next(c, s, Done(op))) && s.ram.active == w then 1 else 0
  {
    hide Powered, Store, SwapCmds, SwapRam, ErasesIn, NoErase, IsWalk, Reachable, Images, Next, Swaps, Delete,
         Config.MaxRecords;
    SwapsAre(c, s, op);
    var cmds := Result(c, s, op).cmds;
    var n := |Images(s.vol, cmds)|;
    match op {
      case DeleteOp(key) =>
        DeleteErases(s.ram, key);
        NoErases(cmds, w, n);
      case SetOp(body, order) =>
        if s.ram.next >= c.MaxRecords() {
          var before, after := SetSplits(c, s, body, order);
          EraseBehind(s.vol, before, s.ram.active, after, w, n);
          EraseStep(s.vol, before, s.ram.active, after);
        } else {
          StoreErases(c, s.vol, s.ram, body);
          NoErases(cmds, w, n);
        }
    }
  }

  lemma EraseStep(v: Vol, a: seq<Cmd>, src: Which, b: seq<Cmd>)
    ensures Images(v, a + [EraseSector(src)] + b)
            == Images(v, a) + CmdImages(Exec(v, a), EraseSector(src)) + Images(Exec(v, a + [EraseSector(src)]), b)
    ensures |CmdImages(Exec(v, a), EraseSector(src))| == 1
    ensures CmdImages(Exec(v, a), EraseSector(src))[0] == Exec(v, a + [EraseSector(src)])
  {
    hide Partial;
    ExecAppend(v, a, [EraseSector(src)]);
    ExecOne(Exec(v, a), EraseSector(src));
    ExecAppend(v, a + [EraseSector(src)], b);
  }

  /** If an operation has erased a sector when power fails, a load finds the map in the other one. */
  lemma ErasedIsLeft(c: Config, s: State, op: Op, w: Which, n: nat)
    requires c.Ok() && Sound(c, s) && CanDo(c, s, op) && n <= |Images(s.vol, Result(c, s, op).cmds)|
    ensures ErasesIn(Result(c, s, op).cmds, w, n) <= 1
    ensures ErasesIn(Result(c, s, op).cmds, w, n) == 1 ==>
              w == s.ram.active && Durable(c, Torn(s.vol, Result(c, s, op).cmds, n), s.ram.active.Other())
  {
    hide Powered, Store, SwapCmds, SwapRam, ErasesIn, NoErase, IsWalk, Reachable, Images, Delete, Durable,
         Config.MaxRecords;
    var cmds := Result(c, s, op).cmds;
    match op {
      case DeleteOp(key) =>
        DeleteErases(s.ram, key);
        NoErases(cmds, w, n);
      case SetOp(body, order) =>
        if s.ram.next >= c.MaxRecords() {
          var before, after := SetSplits(c, s, body, order);
          EraseBehind(s.vol, before, s.ram.active, after, w, n);
          EraseStep(s.vol, before, s.ram.active, after);
          if |Images(s.vol, before)| < n {
            AfterErase(c, s, body, order, before, after, n);
          }
        } else {
          StoreErases(c, s.vol, s.ram, body);
          NoErases(cmds, w, n);
        }
    }
  }

  lemma AfterErase(c: Config, s: State, body: seq<byte>, order: seq<Key>, before: seq<Cmd>, after: seq<Cmd>, n: nat)
    requires c.Ok() && Sound(c, s) && CanDo(c, s, SetOp(body, order)) && s.ram.next >= c.MaxRecords()
    requires var cmds := Set(c, s.vol, s.ram, order, body).cmds;
             && cmds == before + [EraseSector(s.ram.active)] + after
             && |Images(s.vol, before)| < n <= |Images(s.vol, cmds)|
    requires var swap, ram := SwapCmds(c, s.vol, s.ram, order), SwapRam(c, s.vol, s.ram, order);
             && swap == before + [EraseSector(s.ram.active)]
             && after == Store(c, Exec(s.vol, swap), ram, body).cmds
    ensures Durable(c, Torn(s.vol, Set(c, s.vol, s.ram, order, body).cmds, n), s.ram.active.Other())
  {
    hide Powered, Store, SwapCmds, SwapRam, IsWalk, Reachable, Images, Durable, Set, NewestAt, LogOf, NoShadow, ViewAt,
         Shown, NextFree, Config.MaxRecords, Config.Ok;
    var swap, ram := SwapCmds(c, s.vol, s.ram, order), SwapRam(c, s.vol, s.ram, order);
    var v, x := Exec(s.vol, swap), Torn(s.vol, Set(c, s.vol, s.ram, order, body).cmds, n);
    SwapResult(c, s.vol, s.ram, order);
    EraseStep(s.vol, before, s.ram.active, after);
    if x == v {
      NextIs(c, v, ram);
      SoleDurable(c, v, ram.active);
    } else {
      WalkFits(c, s.vol, s.ram, order);
      SameSize(s.ram.dict, ram.dict);
      RoomAfterSwap(c, ram, body);
      StoreTakesOne(c, v, ram, body, x);
    }
  }

  lemma CutErases(c: Config, s: State, op: Op, at: nat, loads: seq<nat>, w: Which)
    requires c.Ok() && Sound(c, s) && CanDo(c, s, op)
    ensures var e := Cut(op, at, loads); var t := Next(c, s, e);
            EventErases(c, s, e, w)
            <= (if Swaps(s, t) && s.ram.active == w then 1 else 0) + (if t.ram.active == w then 0 else |loads| + 1)
  {
    hide Powered, Result, ErasesIn, LoadErases, Images, Durable, NewestAt, LoadCmds, LoadRam, AfterCuts, MayRecover,
         ViewAt, NextFree;
    var cmds := Result(c, s, op).cmds;
    var n := Clipped(s.vol, cmds, at);
    var x := Torn(s.vol, cmds, n);
    var w' := TornTakesOne(c, s, op, x);
    RecoveryIsIdempotent(c, x, w', loads);
    Boot(c, AfterCuts(c, x, loads), w');
    LoadsErase(c, x, w', w, loads);
    AttemptsWithin(loads);
    ErasedIsLeft(c, s, op, w, n);
    if ErasesIn(cmds, w, n) == 1 {
      DurableIsUnique(c, x, w', s.ram.active.Other());
    }
  }

  // ---------------------------------------------------------------- runs

  /**
   * Over any run each sector is erased once at most for every time the store leaves it and once for every load,
   * and without power failures exactly once for every time the store leaves it.
   */
  lemma {:induction false} ErasesAreBounded(c: Config, states: seq<State>, events: seq<Event>, w: Which, i: nat)
    requires c.Ok() && IsRun(c, states, events) && Sound(c, states[0]) && i <= |events|
    ensures EraseCount(c, states, events, w, i) <= SwapsOut(states, w, i) + LoadCount(events, i)
    ensures LoadCount(events, i) == 0 ==> EraseCount(c, states, events, w, i) == SwapsOut(states, w, i)
  {
    hide Sound, CanDo, Swaps, Next, EventErases, Shown, MayRecover;
    if i > 0 {
      ErasesAreBounded(c, states, events, w, i - 1);
      RunsStaySound(c, states, events, i);
      var s, e := states[i - 1], events[i - 1];
      match e {
        case Done(op) => DoneErases(c, s, op, w);
        case Cut(op, at, loads) => CutErases(c, s, op, at, loads, w);
      }
    }
  }

  /** Within the limit eight writes or power failures pay for an erase of each sector, apart from those of loads. */
  lemma ErasesOfRun(c: Config, states: seq<State>, events: seq<Event>, w: Which, i: nat)
    requires c.Ok() && IsRun(c, states, events) && Sound(c, states[0]) && i <= |events|
    requires forall j :: 0 <= j < i ==> WithinLimit(c, states[j])
    ensures 8 * EraseCount(c, states, events, w, i) + states[i].ram.next
            <= states[0].ram.next + 4 + WriteCount(c, states, events, i) + CutCount(events, i)
               + 8 * LoadCount(events, i)
  {
    hide Sound, CanDo, Next, WithinLimit, EraseCount, SwapsOut, LoadCount, SwapCount, WriteCount, CutCount, Config.Ok;
    ErasesAreBounded(c, states, events, w, i);
    SwapsAlternate(states, w, i);
    WearIsBounded(c, states, events, i);
  }
}
