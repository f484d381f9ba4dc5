/**
 * Why the limit needs the same condition as deletes: the guard of a set counts the keys of the index, and a
 * key whose delete has met an older record is on flash without being in the index.
 */
module Overfull {
  import opened Cardinality
  import opened Flash
  import opened Records
  import opened Volumes
  import opened Logs
  import opened Protocol
  import opened Durability
  import opened Atomicity
  import opened CrashSafety
  import opened Compaction
  import opened Runs
  import opened Wear
  import opened Shadows
  import opened Scenarios

  // ---------------------------------------------------------------- one set

  /**
   * After a completed set a load is within the limit exactly if nothing new was stored, or the set swapped the
   * sectors, or flash already had the key, or flash itself was below the limit and not only the index.
   */
  lemma LoadAfterSet(c: Config, s: State, body: seq<byte>, order: seq<Key>)
    requires c.Ok() && Sound(c, s) && CanDo(c, s, SetOp(body, order))
    requires |OnFlash(c, s)| <= c.MaxRecords() - HEADROOM
    ensures WithinLimit(c, Rebooted(c, Runs.Next(c, s, Done(SetOp(body, order))).vol))
            <==> !HasRoom(c, MapOf(c, s), body) || s.ram.next >= c.MaxRecords()
                 || KeyOf(c.KeySize(), body) in OnFlash(c, s) || |OnFlash(c, s)| < c.MaxRecords() - HEADROOM
  {
    hide Powered, Set, ViewAt, Shown, KeyOf, DataOf, Rebooted, Reachable, IsWalk, Exact, Config.MaxRecords;
    var t := Runs.Next(c, s, Done(SetOp(body, order)));
    SetResult(c, s.vol, s.ram, order, body);
    LoadShowsFlash(c, t);
    ShownSize(c, s);
    ShownWithinFlash(c, s);
    PutSize(Base(c, s.vol, s.ram), KeyOf(c.KeySize(), body), DataOf(c.KeySize(), body));
  }

  lemma ShownWithinFlash(c: Config, s: State)
    ensures MapOf(c, s).Keys <= OnFlash(c, s).Keys && |MapOf(c, s)| <= |OnFlash(c, s)|
  {
    hide ViewAt;
    SubsetSize(MapOf(c, s).Keys, OnFlash(c, s).Keys);
    assert |MapOf(c, s)| == |MapOf(c, s).Keys| && |OnFlash(c, s)| == |OnFlash(c, s).Keys|;
  }

  /** The test that a caller can make: fewer records in use than the limit. */
  lemma InUseTells(c: Config, s: State, body: seq<byte>, order: seq<Key>)
    requires c.Ok() && Sound(c, s) && CanDo(c, s, SetOp(body, order))
    requires s.ram.inuse < c.MaxRecords() - HEADROOM
    ensures WithinLimit(c, Rebooted(c, Runs.Next(c, s, Done(SetOp(body, order))).vol))
  {
    hide Powered, Set, Shown, KeyOf, Rebooted, Reachable, IsWalk, Exact, Config.MaxRecords, WithinLimit, Runs.Next,
         HasRoom, OnFlash;
    FlashWithinUse(c, s);
    LoadAfterSet(c, s, body, order);
  }

  lemma FlashWithinUse(c: Config, s: State)
    requires Sound(c, s)
    ensures |OnFlash(c, s)| <= s.ram.inuse
  {
    hide Parse, SectorOk, Shape, LogOf, Newest, Distinct, CountLive, CountOf, DataOf;
    var log := LogOf(s.vol.At(s.ram.active));
    var m := Newest(c.KeySize(), log, s.ram.next);
    LiveRecordsAndKeys(c.KeySize(), log, s.ram.next);
    assert OnFlash(c, s).Keys == m.Keys;
    assert |OnFlash(c, s)| == |OnFlash(c, s).Keys| && |m| == |m.Keys|;
  }

  /**
   * The load after an interrupted set: the same condition decides, and if it fails, only the load that finds the
   * new key is past the limit.
   */
  lemma LoadAfterCut(c: Config, s: State, body: seq<byte>, order: seq<Key>, x: Vol)
    requires c.Ok() && Sound(c, s) && CanDo(c, s, SetOp(body, order))
    requires |OnFlash(c, s)| <= c.MaxRecords() - HEADROOM && x in Images(s.vol, Set(c, s.vol, s.ram, order, body).cmds)
    ensures var key := KeyOf(c.KeySize(), body);
            WithinLimit(c, Rebooted(c, x))
            <==> !HasRoom(c, MapOf(c, s), body) || s.ram.next >= c.MaxRecords() || key in OnFlash(c, s)
                 || |OnFlash(c, s)| < c.MaxRecords() - HEADROOM || key !in MapOf(c, Rebooted(c, x))
  {
    hide Powered, Set, ViewAt, Shown, KeyOf, DataOf, Rebooted, Reachable, IsWalk, Exact, Stores, Images, Faithful,
         Config.MaxRecords;
    ShownSize(c, s);
    ShownWithinFlash(c, s);
    NoCuts(c, x);
    PutSize(Base(c, s.vol, s.ram), KeyOf(c.KeySize(), body), DataOf(c.KeySize(), body));
    SetMoments(c, s.vol, s.ram, order, body, x);
    if Stores(c, x, OnFlash(c, s)) {
      RebootShows(c, x, OnFlash(c, s), []);
    } else if Stores(c, x, Base(c, s.vol, s.ram)) {
      RebootShows(c, x, Base(c, s.vol, s.ram), []);
    } else {
      RebootShows(c, x, Put(c, Base(c, s.vol, s.ram), body), []);
    }
  }

  // ---------------------------------------------------------------- how far the limit can be passed

  /**
   * There is an INVALID record for each key that is on flash but not in the index, and flash is two keys past the
   * limit at most.
   */
  predicate Bounded(c: Config, s: State) {
    && Sound(c, s)
    && |OnFlash(c, s)| - |MapOf(c, s)| <= s.ram.invalid
    && |OnFlash(c, s)| <= c.MaxRecords() - HEADROOM + 2
  }

  /** Live and INVALID records share the sector. */
  lemma SlotsBound(c: Config, s: State)
    requires Sound(c, s)
    ensures |OnFlash(c, s)| + s.ram.invalid <= c.MaxRecords()
  {
    hide Parse, SectorOk, ViewAt, NewestAt;
    FlashWithinUse(c, s);
    CountsWithin(LogOf(s.vol.At(s.ram.active)), s.ram.next);
  }

  lemma {:induction false} CountsWithin(log: Log, n: nat)
    requires n <= |log|
    ensures CountLive(log, n) + CountOf(Invalid, log, n) <= n
  {
    if n > 0 {
      CountsWithin(log, n - 1);
    }
  }

  /** Hidden keys cost two slots each, so an index within the limit leaves room for two. */
  lemma IndexBounds(c: Config, s: State)
    requires Sound(c, s) && |OnFlash(c, s)| - |MapOf(c, s)| <= s.ram.invalid && WithinLimit(c, s)
    ensures Bounded(c, s)
  {
    hide Powered, ViewAt, Shown;
    SlotsBound(c, s);
  }

  lemma ExactIsBounded(c: Config, s: State)
    requires Faithful(c, s) && |MapOf(c, s)| <= c.MaxRecords() - HEADROOM + 2
    ensures Bounded(c, s)
  {
    hide Powered, ViewAt, Shown, Exact;
    ExactShows(c, s.vol, s.ram);
  }

  lemma WithoutSize(m: Map, key: Key)
    ensures |m - {key}| == |m| - if key in m then 1 else 0
  {
    assert (m - {key}).Keys == m.Keys - {key};
    assert |(m - {key}).Keys| == |m - {key}| && |m.Keys| == |m|;
  }

  /** A delete takes a key from the index, adds an INVALID record, and adds no key to flash. */
  lemma DeletedSizes(c: Config, s: State, key: Key)
    requires c.Ok() && Sound(c, s)
    ensures var t := Runs.Next(c, s, Done(DeleteOp(key)));
            && |OnFlash(c, t)| <= |OnFlash(c, s)|
            && |MapOf(c, t)| - |MapOf(c, s)| + t.ram.invalid == s.ram.invalid
  {
    hide Parse, Powered, LogOf, Unshadowed, Shown, Exact, Stores, ViewAt, Partial, NewestAt;
    var t := Runs.Next(c, s, Done(DeleteOp(key)));
    ShownSize(c, s);
    ShownWithinFlash(c, s);
    DeleteResult(c, s.vol, s.ram, key);
    WithoutSize(MapOf(c, s), key);
    assert key in s.ram.dict <==> key in s.ram.dict.Keys;
    if key in s.ram.dict {
      var clear := ProgramSlot(s.ram.active, s.ram.dict[key].idx, FLAGS_INVALID);
      ExecOne(s.vol, clear);
      assert CmdImages(s.vol, clear)[1] == t.vol;
      DeleteIsDurable(c, s.vol, s.ram, key, t.vol);
      WithoutSize(OnFlash(c, s), key);
      WithoutSize(OnFlash(c, t), key);
    }
  }

  lemma DeleteStaysBounded(c: Config, s: State, key: Key)
    requires c.Ok() && Bounded(c, s)
    ensures Bounded(c, Runs.Next(c, s, Done(DeleteOp(key))))
  {
    hide Powered, ViewAt, Shown, Delete;
    DoneRefinesMap(c, s, DeleteOp(key));
    DeletedSizes(c, s, key);
  }

  /** A set that swaps leaves no key hidden; any other adds its key to flash only if it adds it to the index. */
  lemma SetSizes(c: Config, s: State, body: seq<byte>, order: seq<Key>)
    requires c.Ok() && Sound(c, s) && CanDo(c, s, SetOp(body, order))
    ensures var t := Runs.Next(c, s, Done(SetOp(body, order)));
            && |OnFlash(c, t)| - |MapOf(c, t)|
               <= (if s.ram.next >= c.MaxRecords() then 0 else |OnFlash(c, s)| - |MapOf(c, s)|)
            && (s.ram.next < c.MaxRecords() ==> s.ram.invalid <= t.ram.invalid)
            && (!HasRoom(c, MapOf(c, s), body) ==> |OnFlash(c, t)| <= |OnFlash(c, s)|)
            && OnFlash(c, t) == if HasRoom(c, MapOf(c, s), body) then Put(c, Base(c, s.vol, s.ram), body)
                                else Base(c, s.vol, s.ram)
  {
    hide Parse, Powered, LogOf, Shown, Exact, ViewAt, NewestAt, SwapCmds, SwapRam, Store, KeyOf, DataOf, Reachable,
         IsWalk, Config.MaxRecords;
    var key, data := KeyOf(c.KeySize(), body), DataOf(c.KeySize(), body);
    ShownSize(c, s);
    ShownWithinFlash(c, s);
    SetResult(c, s.vol, s.ram, order, body);
    DoneRefinesMap(c, s, SetOp(body, order));
    StoreInvalid(c, s.vol, s.ram, body);
    PutSize(Base(c, s.vol, s.ram), key, data);
    PutSize(MapOf(c, s), key, data);
  }

  lemma StoreInvalid(c: Config, v: Vol, ram: Ram, body: seq<byte>)
    ensures ram.invalid <= Store(c, v, ram, body).ram.invalid
  {
    hide Parse, Readable, BodyOf, KeyOf, MakeEntry, RecordBytes, Config.MaxRecords;
  }

  lemma SetStaysBounded(c: Config, s: State, body: seq<byte>, order: seq<Key>)
    requires c.Ok() && Bounded(c, s) && CanDo(c, s, SetOp(body, order))
    ensures Bounded(c, Runs.Next(c, s, Done(SetOp(body, order))))
  {
    hide Powered, ViewAt, Shown, Runs.Next, CanDo, KeyOf, Config.MaxRecords, Config.BodyMax;
    var t := Runs.Next(c, s, Done(SetOp(body, order)));
    DoneRefinesMap(c, s, SetOp(body, order));
    SetSizes(c, s, body, order);
    if HasRoom(c, MapOf(c, s), body) {
      MapAfterLimit(c, MapOf(c, s), SetOp(body, order));
      IndexBounds(c, t);
    }
  }

  /** Neither does a delete that is cut short add a key to flash. */
  lemma CutDeleteSize(c: Config, s: State, key: Key, m: Map)
    requires Sound(c, s) && MayRecover(c, s, DeleteOp(key), m)
    ensures |m| <= |OnFlash(c, s)|
  {
    hide Powered, ViewAt, Unshadowed, LogOf;
    WithoutSize(m, key);
    WithoutSize(OnFlash(c, s), key);
    if key !in OnFlash(c, s) { NoRecordIsUnshadowed(c, s, key); }
  }

  lemma NoRecordIsUnshadowed(c: Config, s: State, key: Key)
    requires key !in OnFlash(c, s)
    ensures Unshadowed(c.KeySize(), LogOf(s.vol.At(s.ram.active)), key)
  {
    hide LogOf, Newest, KeyOf, DataOf, LiveFor;
    var log := LogOf(s.vol.At(s.ram.active));
    NewestIsLast(c.KeySize(), log, NextIdx(log));
  }

  /** The maps that a set may leave on flash are those before it, after its swap and after it. */
  lemma CutSetSize(c: Config, s: State, body: seq<byte>, order: seq<Key>, m: Map)
    requires c.Ok() && Bounded(c, s) && CanDo(c, s, SetOp(body, order)) && MayRecover(c, s, SetOp(body, order), m)
    ensures |m| <= c.MaxRecords() - HEADROOM + 2
  {
    hide Powered, ViewAt, Shown, Runs.Next, CanDo, KeyOf, Config.MaxRecords, Config.BodyMax;
    ShownSize(c, s);
    ShownWithinFlash(c, s);
    SetSizes(c, s, body, order);
    SetStaysBounded(c, s, body, order);
  }

  lemma StepStaysBounded(c: Config, s: State, e: Event)
    requires c.Ok() && Bounded(c, s) && CanDo(c, s, e.op)
    ensures Bounded(c, Runs.Next(c, s, e))
  {
    hide Sound, Runs.Next, CanDo, MayRecover, OnFlash, Shown, Faithful, Config.MaxRecords;
    match e {
      case Done(op) =>
        match op {
          case SetOp(body, order) => SetStaysBounded(c, s, body, order);
          case DeleteOp(key) => DeleteStaysBounded(c, s, key);
        }
      case Cut(op, at, loads) =>
        var t := Runs.Next(c, s, e);
        CutRecovers(c, s, op, at, loads);
        match op {
          case SetOp(body, order) => CutSetSize(c, s, body, order, MapOf(c, t));
          case DeleteOp(key) => CutDeleteSize(c, s, key, MapOf(c, t));
        }
        ExactIsBounded(c, t);
    }
  }

  /**
   * Over any run, whatever its deletes were and wherever power failed, neither flash nor the map that the store
   * shows ever has more than two keys above the limit.
   */
  lemma {:induction false} TwoKeysAtMost(c: Config, states: seq<State>, events: seq<Event>, i: nat)
    requires c.Ok() && IsRun(c, states, events) && Bounded(c, states[0]) && i <= |events|
    ensures Bounded(c, states[i]) && |MapOf(c, states[i])| <= |OnFlash(c, states[i])| <= c.MaxRecords() - 2
  {
    hide Sound, Runs.Next, CanDo, OnFlash, Shown, Config.MaxRecords;
    if i > 0 {
      TwoKeysAtMost(c, states, events, i - 1);
      StepStaysBounded(c, states[i - 1], events[i - 1]);
    }
    ShownWithinFlash(c, states[i]);
  }

  /** So a change of sector frees at least two slots, without any condition on the run. */
  lemma {:induction false} SwapsFreeTwo(c: Config, states: seq<State>, events: seq<Event>, i: nat)
    requires c.Ok() && IsRun(c, states, events) && Bounded(c, states[0]) && i <= |events|
    ensures 2 * SwapCount(states, i) <= Freed(c, states, i)
  {
    hide Bounded, Runs.Next, CanDo, OnFlash, Shown, Swaps, Config.MaxRecords;
    if i > 0 {
      SwapsFreeTwo(c, states, events, i - 1);
      TwoKeysAtMost(c, states, events, i - 1);
    }
  }

  /** The wear bound for all runs: two slots for each change of sector. */
  lemma WearOfAnyRun(c: Config, states: seq<State>, events: seq<Event>, i: nat)
    requires c.Ok() && IsRun(c, states, events) && Bounded(c, states[0]) && i <= |events|
    ensures 2 * SwapCount(states, i) + states[i].ram.next
            <= states[0].ram.next + WriteCount(c, states, events, i) + CutCount(events, i)
  {
    hide Sound, Runs.Next, CanDo, OnFlash, Shown, Freed, SwapCount, WriteCount, CutCount, Config.MaxRecords, Config.Ok;
    SlotsAreAccountedFor(c, states, events, i);
    SwapsFreeTwo(c, states, events, i);
  }
}
