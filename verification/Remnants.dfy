/**
 * Why the atomicity of a reset needs its condition: power fails while a swap copies records to sector two, the
 * volume is reset instead of loaded, and power fails again after the first erase. The load then repairs from
 * sector two and shows the records that had been copied, and no others.
 */
module Remnants {
  import opened Flash
  import opened Records
  import opened Volumes
  import opened Logs
  import opened Protocol
  import opened Recovery
  import opened Durability
  import opened Atomicity
  import opened Compaction
  import opened CrashSafety
  import opened Runs
  import opened Wear
  import opened Shadows
  import opened Scenarios
  import opened Overfull
  import opened Resets

  // ---------------------------------------------------------------- a swap after n copies

  /** Flash when a swap into sector dst has copied the records of the first n keys. */
  function AfterCopies(c: Config, s: State, order: seq<Key>, n: nat): Vol
    requires IsWalk(s.ram, order) && Reachable(s.vol, s.ram) && n <= |order|
  {
    Copied(c, s.vol, s.ram.active.Other(), SlotsInOrder(s.ram, order)[..n])
  }

  lemma {:induction false} LastImage(v: Vol, cmds: seq<Cmd>)
    requires cmds != [] && cmds[|cmds| - 1].Duration() > 0
    ensures Exec(v, cmds) in Images(v, cmds)
  {
    hide Partial;
    var n := |cmds| - 1;
    assert cmds == cmds[..n] + [cmds[n]];
    ExecAppend(v, cmds[..n], [cmds[n]]);
    var u := Exec(v, cmds[..n]);
    ExecOne(u, cmds[n]);
    assert CmdImages(u, cmds[n])[cmds[n].Duration() - 1] == Apply(u, cmds[n]);
  }

  lemma CopiesSplit(slots: seq<seq<byte>>, idxs: seq<nat>, w: Which, n: nat)
    requires AllReadable(slots, idxs) && n <= |idxs|
    ensures CopyCmds(slots, idxs, w) == CopyCmds(slots, idxs[..n], w) + CopyCmds(slots, idxs, w)[n..]
  {
    hide Readable, CopyOf;
  }

  lemma PrefixCompacts(c: Config, v: Vol, dst: Which, idxs: seq<nat>, n: nat)
    requires CanCompact(c, v, dst, idxs) && n <= |idxs|
    ensures CanCompact(c, v, dst, idxs[..n]) && AllReadable(v.At(dst.Other()).slots, idxs)
  {
    hide Readable, LogOf, FlagsOf, Shape;
  }

  /** It is one of the moments of the swap. */
  lemma CopiesAreMoments(c: Config, s: State, order: seq<Key>, n: nat)
    requires c.Ok() && Sound(c, s) && IsWalk(s.ram, order) && Reachable(s.vol, s.ram) && 0 < n <= |order|
    ensures AfterCopies(c, s, order, n) in Images(s.vol, SwapCmds(c, s.vol, s.ram, order))
  {
    hide Parse, Readable, NewestAt, LogOf, Powered, CanCompact, Shape, SectorOk, CopyOf, SlotsInOrder,
         CompactCmds, HeadBytes, FlagsOf, Opened, Sole, Committed, ReplaceCmds, CopyCmds, Cleaned;
    var v, dst, idxs := s.vol, s.ram.active.Other(), SlotsInOrder(s.ram, order);
    WalkCompacts(c, v, s.ram, order);
    PrefixCompacts(c, v, dst, idxs, n);
    var u, slots := Opened(c, v, dst), v.At(dst.Other()).slots;
    var done := CopyCmds(slots, idxs[..n], dst);
    ReplaceResult(c, v, dst, idxs);
    CompactStages(c, v, dst, idxs);
    CopiesSplit(slots, idxs, dst, n);
    ExecAppend(u, done, CopyCmds(slots, idxs, dst)[n..]);
    LongCopy(slots, idxs[..n], dst);
    LastImage(u, done);
  }

  lemma LongCopy(slots: seq<seq<byte>>, idxs: seq<nat>, w: Which)
    requires AllReadable(slots, idxs) && idxs != []
    ensures |CopyCmds(slots, idxs, w)| == |idxs| && CopyCmds(slots, idxs, w)[|idxs| - 1].Duration() > 0
  {
    assert Readable(slots[idxs[|idxs| - 1]]);
    assert |CopyOf(slots[idxs[|idxs| - 1]])| >= HEAD_SIZE;
  }

  /** The source still has the whole map, and the destination the first n keys of it. */
  lemma CopiedKeys(c: Config, s: State, order: seq<Key>, n: nat)
    requires c.Ok() && Sound(c, s) && IsWalk(s.ram, order) && Reachable(s.vol, s.ram) && n <= |order|
    ensures var x, src, dst := AfterCopies(c, s, order, n), s.ram.active, s.ram.active.Other();
            && Durable(c, x, src) && ViewAt(c, x, src) == ViewAt(c, s.vol, src)
            && FlagsOf(x.At(dst)) == FInitializing && Sized(c, LogOf(x.At(dst)))
            && ViewAt(c, x, dst).Keys == set k | k in order[..n]
  {
    hide Parse, Readable, NewestAt, LogOf, CanCompact, Shape, CopyOf, SlotsInOrder, HeadBytes, FlagsOf, Copied,
         Packed, SlotsOfKeys, DataOf, AllLive, Sized;
    var v, src, dst, idxs := s.vol, s.ram.active, s.ram.active.Other(), SlotsInOrder(s.ram, order);
    WalkFits(c, v, s.ram, order);
    WalkCompacts(c, v, s.ram, order);
    PrefixCompacts(c, v, dst, idxs, n);
    CopiedIs(c, v, dst, idxs[..n]);
    var x := AfterCopies(c, s, order, n);
    InitFlags(c, x.At(dst));
    SameView(c, v, x, src);
    PrefixOfKeys(c.KeySize(), LogOf(v.At(src)), idxs, order, n);
    SlotsAreLive(c.KeySize(), LogOf(v.At(src)), idxs[..n], order[..n]);
    PackedView(c, x, dst, LogOf(v.At(src)), idxs[..n], order[..n]);
    SoleSized(c, v, s.ram);
    PackedSized(c, LogOf(v.At(src)), idxs[..n], c.MaxRecords());
  }

  lemma PrefixOfKeys(ks: nat, log: Log, idxs: seq<nat>, keys: seq<Key>, n: nat)
    requires SlotsOfKeys(ks, log, idxs, keys) && n <= |idxs|
    ensures SlotsOfKeys(ks, log, idxs[..n], keys[..n])
  {
    hide LiveFor;
  }

  lemma PackedView(c: Config, x: Vol, w: Which, log: Log, idxs: seq<nat>, keys: seq<Key>)
    requires SlotsOfKeys(c.KeySize(), log, idxs, keys) && |keys| <= c.MaxRecords() && AllLive(log, idxs)
    requires LogOf(x.At(w)) == Packed(log, idxs, c.MaxRecords())
    ensures ViewAt(c, x, w).Keys == set k | k in keys
  {
    hide Newest, Packed, LogOf, KeyOf, DataOf, NextIdx, LiveFor, Config.MaxRecords;
    PackedByKeys(c.KeySize(), log, idxs, keys, c.MaxRecords());
    PackedNext(log, idxs, c.MaxRecords());
  }

  // ---------------------------------------------------------------- the failing run

  /**
   * A set that has to swap into sector two fails after n copies, and the reset of this volume after its first
   * erase: the load shows the n records that had been copied, although flash had all of them.
   */
  lemma ResetShowsAPart(c: Config, s: State, body: seq<byte>, order: seq<Key>, n: nat) returns (at: nat)
    requires c.Ok() && Sound(c, s) && CanDo(c, s, SetOp(body, order))
    requires s.ram.active == One && s.ram.next >= c.MaxRecords() && 0 < n < |order|
    ensures at <= |Images(s.vol, Result(c, s, SetOp(body, order)).cmds)|
    ensures var x := Torn(s.vol, Result(c, s, SetOp(body, order)).cmds, at);
            && Durable(c, x, One) && ViewAt(c, x, One) == OnFlash(c, s)
            && 1 <= |Images(x, ResetCmds(c))|
            && var m := MapOf(c, Rebooted(c, Torn(x, ResetCmds(c), 1)));
               m.Keys == (set k | k in order[..n]) && m != map[] && m != OnFlash(c, s)
  {
    hide Parse, Powered, Durable, AfterCopies, ViewAt, SwapCmds, Rebooted, Shown, ResetCmds, Images, LogOf, Sized,
         FlagsOf, Reachable, Result, IsWalk, Torn, Config.Ok, Config.MaxRecords;
    var x := AfterCopies(c, s, order, n);
    CopiesAreMoments(c, s, order, n);
    CopiedKeys(c, s, order, n);
    at := SwapMomentOfSet(c, s, body, order, x);
    FirstEraseIsAtomic(c, x, One);
    FirstEraseFinds(c, x);
    PartIsNeither(c, s, order, n);
  }

  /** A moment of the swap is a moment of the set. */
  lemma SwapMomentOfSet(c: Config, s: State, body: seq<byte>, order: seq<Key>, x: Vol) returns (at: nat)
    requires CanDo(c, s, SetOp(body, order)) && s.ram.next >= c.MaxRecords()
    requires x in Images(s.vol, SwapCmds(c, s.vol, s.ram, order))
    ensures at <= |Images(s.vol, Result(c, s, SetOp(body, order)).cmds)|
    ensures Torn(s.vol, Result(c, s, SetOp(body, order)).cmds, at) == x
  {
    hide SwapCmds, SwapRam, Store, Images, Reachable, IsWalk, Config.MaxRecords;
    var swap := SwapCmds(c, s.vol, s.ram, order);
    ExecAppend(s.vol, swap, Store(c, Exec(s.vol, swap), SwapRam(c, s.vol, s.ram, order), body).cmds);
    var i :| 0 <= i < |Images(s.vol, swap)| && Images(s.vol, swap)[i] == x;
    at := i + 1;
  }

  lemma FirstEraseFinds(c: Config, x: Vol)
    requires c.Ok() && Durable(c, x, One) && Sized(c, LogOf(x.two)) && 1 <= |Images(x, ResetCmds(c))|
    ensures MapOf(c, Rebooted(c, Torn(x, ResetCmds(c), 1))) == ViewAt(c, x, Two)
  {
    hide Durable, ViewAt, Rebooted, Shown, ResetCmds, Images, LogOf, Sized, FlagsOf;
    ResetFinds(c, x, One, 1, []);
    NoCuts(c, Torn(x, ResetCmds(c), 1));
  }

  /** The first n keys of the walk are some of the keys, but not all. */
  lemma PartIsNeither(c: Config, s: State, order: seq<Key>, n: nat)
    requires Sound(c, s) && IsWalk(s.ram, order) && 0 < n < |order|
    ensures var part := set k | k in order[..n]; part != {} && part != OnFlash(c, s).Keys
  {
    hide ViewAt, Powered, Shown;
    var part := set k | k in order[..n];
    assert order[..n][0] in part;
    ShownSize(c, s);
    ShownWithinFlash(c, s);
    assert order[n] in s.ram.dict.Keys;
    assert order[n] !in order[..n];
  }

  predicate AllDone(events: seq<Event>) { forall i :: 0 <= i < |events| ==> events[i].Done? }

  lemma DoneFirst(c: Config, s: State, e: Event, states: seq<State>, events: seq<Event>)
    requires IsRun(c, states, events) && CanDo(c, s, e.op) && states[0] == Runs.Next(c, s, e)
    requires e.Done? && AllDone(events)
    ensures IsRun(c, [s] + states, [e] + events) && AllDone([e] + events)
    ensures ([s] + states)[|[e] + events|] == states[|events|]
  {
    hide CanDo, Runs.Next;
    RunFrom(c, s, e, states, events);
  }

  /** Sets of one key with two records in turn fill the sector up. */
  lemma {:induction false} FillUp(c: Config, s: State, order: seq<Key>, a: seq<byte>, b: seq<byte>, n: nat)
    returns (states: seq<State>, events: seq<Event>)
    requires c.Ok() && Sound(c, s) && CanWalk(s, order) && s.ram.next + n <= c.MaxRecords()
    requires c.KeySize() <= |a| && HasRoom(c, MapOf(c, s), a) && c.KeySize() <= |b| && HasRoom(c, MapOf(c, s), b)
    requires KeyOf(c.KeySize(), a) == KeyOf(c.KeySize(), b) && DataOf(c.KeySize(), a) != DataOf(c.KeySize(), b)
    requires KeyOf(c.KeySize(), a) in MapOf(c, s) && MapOf(c, s)[KeyOf(c.KeySize(), a)] == DataOf(c.KeySize(), b)
    ensures IsRun(c, states, events) && |events| == n && states[0] == s && AllDone(events)
    ensures var t := states[n];
            && Sound(c, t) && CanWalk(t, order) && t.ram.next == s.ram.next + n && t.ram.active == s.ram.active
    decreases n
  {
    hide Powered, Shown, KeyOf, DataOf, Runs.Next, Reachable, IsWalk, Config.Ok, Config.MaxRecords, Config.BodyMax;
    if n == 0 {
      states, events := [s], [];
    } else {
      var e := Done(SetOp(a, order));
      var t := Runs.Next(c, s, e);
      RefillStep(c, s, order, a);
      PutSize(MapOf(c, s), KeyOf(c.KeySize(), a), DataOf(c.KeySize(), a));
      var rest, later := FillUp(c, t, order, b, a, n - 1);
      DoneFirst(c, s, e, rest, later);
      states, events := [s] + rest, [e] + later;
    }
  }

  lemma RefillStep(c: Config, s: State, order: seq<Key>, a: seq<byte>)
    requires c.Ok() && Sound(c, s) && CanWalk(s, order) && s.ram.next < c.MaxRecords()
    requires c.KeySize() <= |a| && HasRoom(c, MapOf(c, s), a) && KeyOf(c.KeySize(), a) in MapOf(c, s)
    requires MapOf(c, s)[KeyOf(c.KeySize(), a)] != DataOf(c.KeySize(), a)
    ensures var t := Runs.Next(c, s, Done(SetOp(a, order)));
            && Sound(c, t) && CanWalk(t, order) && MapOf(c, t) == Put(c, MapOf(c, s), a)
            && t.ram.next == s.ram.next + 1 && t.ram.active == s.ram.active
  {
    hide Powered, Store, Shown, KeyOf, DataOf, Reachable, IsWalk, Config.Ok, Config.MaxRecords, Config.BodyMax,
         SwapCmds, SwapRam;
    var t := Runs.Next(c, s, Done(SetOp(a, order)));
    DoneRefinesMap(c, s, SetOp(a, order));
    StoreAdvances(c, s, a);
    SwapsAre(c, s, SetOp(a, order));
    ShownSize(c, s);
    ShownSize(c, t);
    assert t.ram.dict.Keys == s.ram.dict.Keys;
    SameWalk(c, s, t, order);
  }

  lemma FormatActive(c: Config, b: seq<byte>)
    requires c.Ok() && c.KeySize() <= |b| <= c.BodyMax() && CanDo(c, Rebooted(c, Blanked(c)), SetOp(b, []))
    ensures AfterFirst(c, b) == Runs.Next(c, Rebooted(c, Blanked(c)), Done(SetOp(b, [])))
    ensures AfterFirst(c, b).ram.active == One
  {
    hide Runs.Next, Blanked, CanDo, LoadCmds, LoadRam, Config.MaxRecords;
    FormatIsEmpty(c);
    LoadOfBlank(c);
    AfterFirstIs(c, b);
    SwapsAre(c, Rebooted(c, Blanked(c)), SetOp(b, []));
  }

  /** A format, two keys, and sets of the first one until sector one is full: from there the run can fail. */
  lemma FullAfterFormat(c: Config, a: seq<byte>, b: seq<byte>, z: seq<byte>)
    returns (states: seq<State>, events: seq<Event>, order: seq<Key>)
    requires c.Ok() && HEADROOM + 2 < c.MaxRecords() && |z| <= c.BodyMax() && c.KeySize() <= |z|
    requires c.KeySize() <= |a| <= c.BodyMax() && c.KeySize() <= |b| <= c.BodyMax()
    requires KeyOf(c.KeySize(), a) == KeyOf(c.KeySize(), b) != KeyOf(c.KeySize(), z)
    requires DataOf(c.KeySize(), a) != DataOf(c.KeySize(), b)
    ensures IsRun(c, states, events) && states[0] == Rebooted(c, Blanked(c))
    ensures AllDone(events)
    ensures var t := states[|events|];
            Sound(c, t) && t.ram.active == One && t.ram.next == c.MaxRecords() && |order| == 2 && CanWalk(t, order)
  {
    hide Powered, Exact, Shown, KeyOf, DataOf, Runs.Next, Reachable, IsWalk, Config.Ok, Config.MaxRecords,
         Config.BodyMax, Rebooted, Blanked, IsRun, AllDone;
    var key, other := KeyOf(c.KeySize(), a), KeyOf(c.KeySize(), z);
    FormatIsEmpty(c);
    FirstSet(c, b);
    FormatActive(c, b);
    var s0, s1 := Rebooted(c, Blanked(c)), AfterFirst(c, b);
    OneKey(key, DataOf(c.KeySize(), b));
    NewKeyStep(c, s1, [key], z);
    order := [key] + [other];
    var e := Done(SetOp(z, [key]));
    var s2 := Runs.Next(c, s1, e);
    PutSize(MapOf(c, s1), other, DataOf(c.KeySize(), z));
    var rest, later := FillUp(c, s2, order, a, b, c.MaxRecords() - 2);
    DoneFirst(c, s1, e, rest, later);
    DoneFirst(c, s0, Done(SetOp(b, [])), [s1] + rest, [e] + later);
    states, events := [s0] + ([s1] + rest), [Done(SetOp(b, []))] + ([e] + later);
  }

  /** All in one, from a format: the load after the reset shows one of the two keys. */
  lemma PartAfterFormat(c: Config, a: seq<byte>, b: seq<byte>, z: seq<byte>)
    returns (states: seq<State>, events: seq<Event>, order: seq<Key>, at: nat)
    requires c.Ok() && HEADROOM + 2 < c.MaxRecords() && |z| <= c.BodyMax() && c.KeySize() <= |z|
    requires c.KeySize() <= |a| <= c.BodyMax() && c.KeySize() <= |b| <= c.BodyMax()
    requires KeyOf(c.KeySize(), a) == KeyOf(c.KeySize(), b) != KeyOf(c.KeySize(), z)
    requires DataOf(c.KeySize(), a) != DataOf(c.KeySize(), b)
    ensures IsRun(c, states, events) && states[0] == Rebooted(c, Blanked(c))
    ensures |order| == 2 && CanDo(c, states[|events|], SetOp(a, order))
    ensures var s, op := states[|events|], SetOp(a, order);
            && at <= |Images(s.vol, Result(c, s, op).cmds)|
            && var x := Torn(s.vol, Result(c, s, op).cmds, at);
               && |OnFlash(c, s)| >= 2 && ViewAt(c, x, One) == OnFlash(c, s)
               && 1 <= |Images(x, ResetCmds(c))|
               && MapOf(c, Rebooted(c, Torn(x, ResetCmds(c), 1))).Keys == {order[0]}
  {
    hide Powered, Shown, KeyOf, DataOf, Runs.Next, IsWalk, Reachable, Durable, Config.Ok, Config.MaxRecords,
         Config.BodyMax, Rebooted, Blanked, Result, ResetCmds, Images, ViewAt, Torn;
    states, events, order := FullAfterFormat(c, a, b, z);
    var s := states[|events|];
    at := ResetShowsAPart(c, s, a, order, 1);
    assert order[..1] == [order[0]];
    TwoKeys(c, s, order);
  }

  lemma TwoKeys(c: Config, s: State, order: seq<Key>)
    requires c.Ok() && Sound(c, s) && IsWalk(s.ram, order) && |order| == 2
    ensures |OnFlash(c, s)| >= 2
  {
    hide Powered, ViewAt, Shown, IsWalk;
    WalkFits(c, s.vol, s.ram, order);
    ShownSize(c, s);
    ShownWithinFlash(c, s);
  }
}
