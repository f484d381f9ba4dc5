/**
 * Whole runs of the store: any number of sets and deletes, each of which power may cut short after any
 * byte, with recoveries that are cut short themselves.
 */
module Runs {
  import opened ErrorDef
  import opened Flash
  import opened Records
  import opened Volumes
  import opened Logs
  import opened Protocol
  import opened Recovery
  import opened Durability
  import opened Atomicity
  import opened Compaction
  import opened CrashSafety
  import opened Bookkeeping
  import opened ReadBack

  datatype State = State(vol: Vol, ram: Ram)

  /** order is the walk over the index that a swap would take. */
  datatype Op = SetOp(body: seq<byte>, order: seq<Key>) | DeleteOp(key: Key)

  /**
   * Done: the operation completes. Cut: power fails after the given number of its flash steps, loads fail
   * after the given numbers of theirs, and then a load completes.
   */
  datatype Event = Done(op: Op) | Cut(op: Op, at: nat, loads: seq<nat>)

  /** What a caller must see to: a key in every record. The walk is the dictionary's. */
  predicate CanDo(c: Config, s: State, op: Op) {
    op.SetOp? ==> c.KeySize() <= |op.body| && IsWalk(s.ram, op.order) && Reachable(s.vol, s.ram)
  }

  function Result(c: Config, s: State, op: Op): Outcome
    requires CanDo(c, s, op)
  {
    match op
    case SetOp(body, order) => Set(c, s.vol, s.ram, order, body)
    case DeleteOp(key) => Delete(s.ram, key)
  }

  function Rebooted(c: Config, v: Vol): State { State(Exec(v, LoadCmds(c, v)), LoadRam(c, v)) }

  /** Flash after the operation has been cut short and the loads after it as well. */
  function Wreck(c: Config, s: State, op: Op, at: nat, loads: seq<nat>): Vol
    requires CanDo(c, s, op)
  {
    var cmds := Result(c, s, op).cmds;
    var n := |Images(s.vol, cmds)|;
    AfterCuts(c, Torn(s.vol, cmds, if at <= n then at else n), loads)
  }

  function Next(c: Config, s: State, e: Event): State
    requires CanDo(c, s, e.op)
  {
    match e
    case Done(op) => State(Exec(s.vol, Result(c, s, op).cmds), Result(c, s, op).ram)
    case Cut(op, at, loads) => Rebooted(c, Wreck(c, s, op, at, loads))
  }

  /** states[i] --events[i]--> states[i + 1] */
  predicate IsRun(c: Config, states: seq<State>, events: seq<Event>) {
    && |states| == |events| + 1
    && forall i :: 0 <= i < |events| ==>
         CanDo(c, states[i], events[i].op) && states[i + 1] == Next(c, states[i], events[i])
  }

  // ---------------------------------------------------------------- the map a run computes

  type Map = map<Key, seq<byte>>

  /** A set is accepted exactly when the record fits a slot and the map is below the volume's limit. */
  predicate HasRoom(c: Config, m: Map, body: seq<byte>) {
    |body| <= c.BodyMax() && |m| < c.MaxRecords() - HEADROOM
  }

  function MapAfter(c: Config, m: Map, op: Op): Map {
    match op
    case SetOp(body, _) => if HasRoom(c, m, body) then Put(c, m, body) else m
    case DeleteOp(key) => m - {key}
  }

  function MapOf(c: Config, s: State): Map { Shown(c, s.vol, s.ram) }

  predicate Sound(c: Config, s: State) { Powered(c, s.vol, s.ram) }

  /** The index is exact: what the store shows is what a load would find. */
  predicate Faithful(c: Config, s: State) { Powered(c, s.vol, s.ram) && Exact(c, s.vol, s.ram) }

  lemma ShownSize(c: Config, s: State)
    requires Sound(c, s)
    ensures MapOf(c, s).Keys == s.ram.dict.Keys && |MapOf(c, s)| == |s.ram.dict|
  {
    hide Parse, NewestAt, SectorOk, LogOf, DataOf;
    assert MapOf(c, s).Keys == s.ram.dict.Keys;
    assert |MapOf(c, s).Keys| == |s.ram.dict.Keys|;
  }

  // ---------------------------------------------------------------- completed operations, any history

  lemma ShownAfterSet(c: Config, s: State, body: seq<byte>, order: seq<Key>)
    requires c.Ok() && Sound(c, s) && CanDo(c, s, SetOp(body, order))
    ensures var t := Next(c, s, Done(SetOp(body, order)));
            Sound(c, t) && MapOf(c, t) == MapAfter(c, MapOf(c, s), SetOp(body, order))
  {
    hide DataOf, KeyOf, Set, Reachable, IsWalk, Powered, Exact, ViewAt, Shown;
    var t := Next(c, s, Done(SetOp(body, order)));
    SetResult(c, s.vol, s.ram, order, body);
    ShownSize(c, s);
    var key, data, keys := KeyOf(c.KeySize(), body), DataOf(c.KeySize(), body), s.ram.dict.Keys;
    ShownIs(c, s.vol, s.ram);
    ShownIs(c, t.vol, t.ram);
    RestrictTwice(ViewAt(c, s.vol, s.ram.active), keys);
    RestrictPut(Base(c, s.vol, s.ram), keys, key, data);
  }

  function Restrict(m: Map, keys: set<Key>): Map { map k | k in m && k in keys :: m[k] }

  lemma ShownIs(c: Config, v: Vol, ram: Ram)
    ensures Shown(c, v, ram) == Restrict(ViewAt(c, v, ram.active), ram.dict.Keys)
  {
    hide ViewAt;
  }

  lemma RestrictTwice(m: Map, keys: set<Key>)
    ensures Restrict(Restrict(m, keys), keys) == Restrict(m, keys)
  {
  }

  lemma RestrictPut(m: Map, keys: set<Key>, key: Key, data: seq<byte>)
    ensures Restrict(m[key := data], keys + {key}) == Restrict(m, keys)[key := data]
  {
  }

  /**
   * Get, set and delete that complete refine lookup, update and removal on a map, after any history of
   * power failures and whatever the deletes were.
   */
  lemma DoneRefinesMap(c: Config, s: State, op: Op)
    requires c.Ok() && Sound(c, s) && CanDo(c, s, op)
    ensures Sound(c, Next(c, s, Done(op)))
    ensures MapOf(c, Next(c, s, Done(op))) == MapAfter(c, MapOf(c, s), op)
    ensures forall k :: Get(c, s.vol, s.ram, k) ==
              if k in MapOf(c, s) then (EOK, k + MapOf(c, s)[k]) else (E_NOTFOUND, [])
  {
    hide Parse, NewestAt, SectorOk, LogOf, DataOf, KeyOf, Set, Powered, Shown, Get;
    match op {
      case SetOp(body, order) => ShownAfterSet(c, s, body, order);
      case DeleteOp(key) => DeleteResult(c, s.vol, s.ram, key);
    }
    forall k
      ensures Get(c, s.vol, s.ram, k) == if k in MapOf(c, s) then (EOK, k + MapOf(c, s)[k]) else (E_NOTFOUND, [])
    {
      GetIsLookup(c, s.vol, s.ram, k);
    }
  }

  // ---------------------------------------------------------------- power failures

  /** A volume that stores m shows m after any number of failed loads and one that completes. */
  lemma RebootShows(c: Config, x: Vol, m: Map, loads: seq<nat>)
    requires Stores(c, x, m)
    ensures var t := Rebooted(c, AfterCuts(c, x, loads)); Faithful(c, t) && MapOf(c, t) == m
  {
    hide Parse, NewestAt, Durable, Powered, LoadRam, LoadCmds, AfterCuts;
    var w :| Durable(c, x, w) && ViewAt(c, x, w) == m;
    var y := AfterCuts(c, x, loads);
    RecoveryIsIdempotent(c, x, w, loads);
    Boot(c, y, w);
    ExactShows(c, Rebooted(c, y).vol, Rebooted(c, y).ram);
  }

  lemma SoundStores(c: Config, s: State)
    requires Sound(c, s)
    ensures Stores(c, s.vol, ViewAt(c, s.vol, s.ram.active))
  {
    hide Parse, NewestAt;
    StoresBy(c, s.vol, s.ram.active);
  }

  /** The maps that a load may find after the operation has been cut short. */
  predicate MayRecover(c: Config, s: State, op: Op, m: Map) {
    var before := ViewAt(c, s.vol, s.ram.active);
    match op
    case SetOp(body, _) =>
      m == before || m == Base(c, s.vol, s.ram) || (Accepts(c, s.ram, body) && m == Put(c, Base(c, s.vol, s.ram), body))
    case DeleteOp(key) =>
      m == before
      || (m - {key} == before - {key}
          && (m == before - {key} <==> Unshadowed(c.KeySize(), LogOf(s.vol.At(s.ram.active)), key)))
  }

  lemma TornStores(c: Config, s: State, op: Op, x: Vol) returns (m: Map)
    requires c.Ok() && Sound(c, s) && CanDo(c, s, op)
    requires x == s.vol || x in Images(s.vol, Result(c, s, op).cmds)
    ensures Stores(c, x, m) && MayRecover(c, s, op, m)
  {
    hide Parse, NewestAt, Powered, LogOf, Set, Shown, Stores, Reachable, IsWalk, Unshadowed;
    m := ViewAt(c, s.vol, s.ram.active);
    if x == s.vol {
      SoundStores(c, s);
    } else {
      match op {
        case SetOp(body, order) =>
          SetMoments(c, s.vol, s.ram, order, body, x);
          if Stores(c, x, m) {
          } else if Stores(c, x, Base(c, s.vol, s.ram)) {
            m := Base(c, s.vol, s.ram);
          } else {
            m := Put(c, Base(c, s.vol, s.ram), body);
          }
        case DeleteOp(key) =>
          DeleteIsDurable(c, s.vol, s.ram, key, x);
          m := ViewAt(c, x, s.ram.active);
      }
    }
  }

  /**
   * Power fails at any moment of an operation, and then of the loads: the store comes up with an exact
   * index of the map before or of the map after the operation, and of no third one for a set.
   */
  lemma CutRecovers(c: Config, s: State, op: Op, at: nat, loads: seq<nat>)
    requires c.Ok() && Sound(c, s) && CanDo(c, s, op)
    ensures var t := Next(c, s, Cut(op, at, loads));
            Faithful(c, t) && MayRecover(c, s, op, MapOf(c, t))
  {
    hide Parse, NewestAt, Powered, Result, MayRecover, Shown, Stores, Exact, Faithful, AfterCuts;
    var cmds := Result(c, s, op).cmds;
    var n := |Images(s.vol, cmds)|;
    var x := Torn(s.vol, cmds, if at <= n then at else n);
    var m := TornStores(c, s, op, x);
    RebootShows(c, x, m, loads);
  }

  /** From a format to the next reset the header pair is one of five, at every moment of every operation, */
  lemma OperationHeaders(c: Config, s: State, op: Op, x: Vol)
    requires c.Ok() && Sound(c, s) && CanDo(c, s, op) && x in Images(s.vol, Result(c, s, op).cmds)
    ensures WorkingPair(x)
  {
    hide Result, Images, Stores, MayRecover, Powered;
    var m := TornStores(c, s, op, x);
    HeaderPairs(c, x, m);
  }

  /** and at every moment of every load that follows a power failure, however many loads have failed before. */
  lemma LoadHeaders(c: Config, s: State, op: Op, at: nat, loads: seq<nat>, x: Vol)
    requires c.Ok() && Sound(c, s) && CanDo(c, s, op)
    requires x in Images(Wreck(c, s, op, at, loads), LoadCmds(c, Wreck(c, s, op, at, loads)))
    ensures WorkingPair(x)
  {
    hide Result, Images, MayRecover, Powered, LoadCmds, AfterCuts, Durable, ViewAt, WorkingPair, NewestAt;
    var cmds := Result(c, s, op).cmds;
    var n := |Images(s.vol, cmds)|;
    var y := Torn(s.vol, cmds, if at <= n then at else n);
    var m := TornStores(c, s, op, y);
    var w :| Durable(c, y, w) && ViewAt(c, y, w) == m;
    RecoveryIsIdempotent(c, y, w, loads);
    Boot(c, AfterCuts(c, y, loads), w);
    StoresBy(c, x, w);
    HeaderPairs(c, x, ViewAt(c, x, w));
  }

  // ---------------------------------------------------------------- the format a run starts from

  function Blanked(c: Config): Vol { Vol(ErasedSector(c), ErasedSector(c)) }

  /** The mount of two erased sectors formats the first one. */
  lemma MountOfBlank(c: Config)
    requires c.Ok()
    ensures PlanFor(Blanked(c)) == Format
    ensures var u := Exec(Blanked(c), MountCmds(c, Blanked(c))); Sole(c, u, One) && NextIdx(LogOf(u.one)) == 0
  {
    hide Parse, Newest, SectorOk, NextIdx, HeadBytes, LogOf;
    var v := Blanked(c);
    var head := ProgramHead(One, HeadBytes(c, SECTOR_VALID));
    assert ErasedSector(c).head[..4] == SECTOR_EMPTY;
    assert MountCmds(c, v) == [EraseSector(One)] + [head];
    ExecAppend(v, [EraseSector(One)], [head]);
    ExecOne(v, EraseSector(One));
    EraseIs(c, v, One);
    ExecOne(v, head);
    var u := Exec(v, MountCmds(c, v));
    FormattedSector(c);
    assert u.At(One) == ErasedSector(c).(head := HeadBytes(c, SECTOR_VALID)) by {
      ProgrammedOnErased(Erased(SECTOR_HEAD), 0, HeadBytes(c, SECTOR_VALID));
      assert HeadBytes(c, SECTOR_VALID)[..SECTOR_HEAD] == HeadBytes(c, SECTOR_VALID);
      assert Programmed(Erased(SECTOR_HEAD), 0, HeadBytes(c, SECTOR_VALID))[0..SECTOR_HEAD]
          == Programmed(Erased(SECTOR_HEAD), 0, HeadBytes(c, SECTOR_VALID));
    }
  }

  /** nvol3_reset: the load of two erased sectors formats the first one and comes up empty and clean. */
  lemma FormatIsEmpty(c: Config)
    requires c.Ok()
    ensures var t := Rebooted(c, Blanked(c)); Faithful(c, t) && MapOf(c, t) == map[] && Clean(t.ram) && t.ram.next == 0
  {
    hide Parse, Newest, Powered, SectorOk, NextIdx, LogOf, Scanned, ScanCmds, MountCmds, PlanFor;
    var v := Blanked(c);
    var u := Exec(v, MountCmds(c, v));
    MountOfBlank(c);
    ScanOfFormatted(c, u);
    ExecAppend(v, MountCmds(c, v), ScanCmds(u, One));
  }

  lemma FormattedSector(c: Config)
    requires c.Ok()
    ensures var s := ErasedSector(c).(head := HeadBytes(c, SECTOR_VALID));
            SectorOk(c, s) && NextIdx(LogOf(s)) == 0
  {
    hide Parse, HeadBytes;
    var s := ErasedSector(c).(head := HeadBytes(c, SECTOR_VALID));
    forall i | 0 <= i < |s.slots|
      ensures LogOf(s)[i] == Empty
    {
      ErasedIsEmpty(s.slots[i]);
    }
    NextIdxIs(LogOf(s), 0);
  }

  lemma ScanOfFormatted(c: Config, u: Vol)
    requires Sole(c, u, One) && NextIdx(LogOf(u.one)) == 0
    ensures ScanCmds(u, One) == []
    ensures var t := State(u, Scanned(c, One, LogOf(u.one)));
            Faithful(c, t) && MapOf(c, t) == map[] && Clean(t.ram) && t.ram.next == 0
  {
    hide Parse, SectorOk, Shape;
    ScanResult(c, u, One);
  }

  // ---------------------------------------------------------------- runs

  /** Deletes meet no older record of their key. */
  predicate CleanDelete(c: Config, s: State, op: Op) {
    op.DeleteOp? ==> Unshadowed(c.KeySize(), LogOf(s.vol.At(s.ram.active)), op.key)
  }

  predicate Allowed(c: Config, m: Map, e: Event, m': Map) {
    match e
    case Done(op) => m' == MapAfter(c, m, op)
    case Cut(op, _, _) => m' == m || m' == MapAfter(c, m, op)
  }

  lemma StepIsAtomic(c: Config, s: State, e: Event)
    requires c.Ok() && Faithful(c, s) && CanDo(c, s, e.op) && CleanDelete(c, s, e.op)
    ensures Faithful(c, Next(c, s, e)) && Allowed(c, MapOf(c, s), e, MapOf(c, Next(c, s, e)))
  {
    hide Parse, NewestAt, Powered, LogOf, Set, Shown, Reachable, IsWalk, Unshadowed;
    ExactShows(c, s.vol, s.ram);
    ShownSize(c, s);
    match e {
      case Done(op) =>
        DoneRefinesMap(c, s, op);
        match op {
          case SetOp(body, order) => SetResult(c, s.vol, s.ram, order, body);
          case DeleteOp(key) => DeleteResult(c, s.vol, s.ram, key);
        }
      case Cut(op, at, loads) =>
        CutRecovers(c, s, op, at, loads);
    }
  }

  /**
   * Crash safety over whole runs: with any number of power failures at any byte, every state of a run has
   * an exact index, and each event takes the map to the one before or the one after its operation.
   */
  lemma {:induction false} RunsAreAtomic(c: Config, states: seq<State>, events: seq<Event>, i: nat)
    requires c.Ok() && IsRun(c, states, events) && Faithful(c, states[0]) && i <= |events|
    requires forall j :: 0 <= j < i ==> CleanDelete(c, states[j], events[j].op)
    ensures forall j :: 0 <= j <= i ==> Faithful(c, states[j])
    ensures forall j :: 0 <= j < i ==> Allowed(c, MapOf(c, states[j]), events[j], MapOf(c, states[j + 1]))
  {
    hide Faithful, Allowed, CleanDelete, Shown, Next, CanDo;
    if i > 0 {
      RunsAreAtomic(c, states, events, i - 1);
      StepIsAtomic(c, states[i - 1], events[i - 1]);
    }
  }

  /** Without any condition on deletes the store stays sound, and completed operations refine the map. */
  lemma {:induction false} RunsStaySound(c: Config, states: seq<State>, events: seq<Event>, i: nat)
    requires c.Ok() && IsRun(c, states, events) && Sound(c, states[0]) && i <= |events|
    ensures forall j :: 0 <= j <= i ==> Sound(c, states[j])
    ensures forall j :: 0 <= j < i && events[j].Done? ==>
              MapOf(c, states[j + 1]) == MapAfter(c, MapOf(c, states[j]), events[j].op)
    ensures forall j :: 0 <= j < i && events[j].Cut? ==> MayRecover(c, states[j], events[j].op, MapOf(c, states[j + 1]))
  {
    hide Sound, MayRecover, Shown, CanDo, MapAfter, Powered, Exact, Faithful;
    if i > 0 {
      RunsStaySound(c, states, events, i - 1);
      var s, e := states[i - 1], events[i - 1];
      match e {
        case Done(op) => DoneRefinesMap(c, s, op);
        case Cut(op, at, loads) =>
          CutRecovers(c, s, op, at, loads);
          FaithfulIsSound(c, states[i]);
      }
    }
  }

  /**
   * Everything that the event programs can be read back: what its operation programs up to a power failure,
   * and what the loads program, those that are cut short and the one that completes.
   */
  predicate EventReadsBack(c: Config, s: State, e: Event)
    requires CanDo(c, s, e.op)
  {
    && AllReadBack(s.vol, Result(c, s, e.op).cmds)
    && (e.Cut? ==> forall k :: 0 <= k <= |e.loads| ==> LoadReads(c, Wreck(c, s, e.op, e.at, e.loads[..k])))
  }

  predicate LoadReads(c: Config, v: Vol) { AllReadBack(v, LoadCmds(c, v)) }

  lemma DoneReadsBack(c: Config, s: State, op: Op)
    requires c.Ok() && Sound(c, s) && CanDo(c, s, op)
    ensures AllReadBack(s.vol, Result(c, s, op).cmds)
  {
    hide AllReadBack, Powered, Set, Delete, Reachable, IsWalk;
    match op {
      case SetOp(body, order) => SetReadsBack(c, s.vol, s.ram, order, body);
      case DeleteOp(key) => DeleteReadsBack(c, s.vol, s.ram, key);
    }
  }

  lemma WreckReadsBack(c: Config, s: State, op: Op, at: nat, loads: seq<nat>)
    requires c.Ok() && Sound(c, s) && CanDo(c, s, op)
    ensures LoadReads(c, Wreck(c, s, op, at, loads))
  {
    hide AllReadBack, Result, MayRecover, AfterCuts, Durable, Powered, ViewAt, LoadCmds;
    var cmds := Result(c, s, op).cmds;
    var n := |Images(s.vol, cmds)|;
    var x := Torn(s.vol, cmds, if at <= n then at else n);
    var m := TornStores(c, s, op, x);
    var w :| Durable(c, x, w) && ViewAt(c, x, w) == m;
    RecoveryIsIdempotent(c, x, w, loads);
    LoadReadsBack(c, AfterCuts(c, x, loads), w);
  }

  /**
   * Over whole runs AND-only flash behaves like memory that is overwritten: all that sets, deletes and loads
   * program, cut short or not, reads back as it was written.
   */
  lemma {:induction false} RunsReadBack(c: Config, states: seq<State>, events: seq<Event>, i: nat)
    requires c.Ok() && IsRun(c, states, events) && Sound(c, states[0]) && i <= |events|
    ensures forall j :: 0 <= j < i ==> EventReadsBack(c, states[j], events[j])
  {
    hide Sound, EventReadsBack, CanDo, Next;
    if i > 0 {
      RunsReadBack(c, states, events, i - 1);
      RunsStaySound(c, states, events, i);
      EventIsReadBack(c, states[i - 1], events[i - 1]);
    }
  }

  lemma EventIsReadBack(c: Config, s: State, e: Event)
    requires c.Ok() && Sound(c, s) && CanDo(c, s, e.op)
    ensures EventReadsBack(c, s, e)
  {
    hide Sound, CanDo, AllReadBack, Result, Wreck, LoadReads;
    DoneReadsBack(c, s, e.op);
    if e.Cut? {
      forall k | 0 <= k <= |e.loads|
        ensures LoadReads(c, Wreck(c, s, e.op, e.at, e.loads[..k]))
      {
        WreckReadsBack(c, s, e.op, e.at, e.loads[..k]);
      }
    }
  }

  lemma FaithfulIsSound(c: Config, s: State)
    requires Faithful(c, s)
    ensures Sound(c, s)
  {
  }

  /** A run without power failures keeps a clean store clean, so its deletes need no condition. */
  lemma {:induction false} CrashFreeRunsAreClean(c: Config, states: seq<State>, events: seq<Event>, i: nat)
    requires c.Ok() && IsRun(c, states, events) && Sound(c, states[0]) && Clean(states[0].ram) && i <= |events|
    requires forall j :: 0 <= j < i ==> events[j].Done?
    ensures Sound(c, states[i]) && Clean(states[i].ram)
    ensures forall j :: 0 <= j < i ==> CleanDelete(c, states[j], events[j].op)
  {
    hide Sound, CanDo, MapAfter, Clean, Shown, Powered, Set, Delete, Unshadowed, LogOf, Reachable, IsWalk;
    if i > 0 {
      CrashFreeRunsAreClean(c, states, events, i - 1);
      CleanStep(c, states[i - 1], events[i - 1].op);
    }
  }

  lemma CleanStep(c: Config, s: State, op: Op)
    requires c.Ok() && Sound(c, s) && Clean(s.ram) && CanDo(c, s, op)
    ensures Sound(c, Next(c, s, Done(op))) && Clean(Next(c, s, Done(op)).ram) && CleanDelete(c, s, op)
  {
    hide Powered, MapAfter, Shown, Set, Delete, Unshadowed, LogOf, Reachable, IsWalk, Clean;
    DoneRefinesMap(c, s, op);
    match op {
      case SetOp(body, order) => SetKeepsClean(c, s.vol, s.ram, order, body);
      case DeleteOp(key) =>
        DeleteKeepsClean(c, s.vol, s.ram, key);
        CleanUnshadows(c, s.vol, s.ram, key);
    }
  }
}
