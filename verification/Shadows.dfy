/**
 * Why deletes need a condition: after a power failure between the commit of a new record and the clearing
 * of the old one, a load leaves both VALID, and a later delete clears the newer one only.
 */
module Shadows {
  import opened Flash
  import opened Records
  import opened Volumes
  import opened Logs
  import opened Protocol
  import opened Durability
  import opened Atomicity
  import opened Compaction
  import opened CrashSafety
  import opened Bookkeeping
  import opened Runs
  import opened Wear

  /** Once its new record is VALID, and before the old one is cleared, the key is shadowed. */
  lemma FlipShadows(c: Config, v: Vol, ram: Ram, body: seq<byte>)
    requires c.Ok() && Powered(c, v, ram) && ram.next < c.MaxRecords() && c.KeySize() <= |body| <= c.BodyMax()
    requires KeyOf(c.KeySize(), body) in ram.dict
    ensures !Unshadowed(c.KeySize(),
                        LogOf(Flipped(v, ram.active, ram.next, body).At(ram.active)), KeyOf(c.KeySize(), body))
  {
    hide Parse, Powered, Flipped, LogOf, KeyOf, NextIdx, Newest, LiveFor;
    var key, u := KeyOf(c.KeySize(), body), Flipped(v, ram.active, ram.next, body);
    Superseded(c, v, ram, body);
    var log := LogOf(u.At(ram.active));
    var i, j := ram.dict[key].idx, NewestAt(c, u, ram.active)[key].idx;
    NewestIsLast(c.KeySize(), log, NextIdx(log));
    assert LiveFor(c.KeySize(), log[i], key) && LiveFor(c.KeySize(), log[j], key);
  }

  /** A load does not clear older records. */
  lemma ShadowSurvivesLoad(c: Config, x: Vol, w: Which, key: Key)
    requires Sole(c, x, w) && !Unshadowed(c.KeySize(), LogOf(x.At(w)), key)
    ensures !Unshadowed(c.KeySize(), LogOf(Exec(x, LoadCmds(c, x)).At(w)), key)
  {
    hide Parse, SectorOk, MarkedUpTo, MountCmds, ConstructCmds, Shape, LogOf, NextIdx, PlanFor;
    var log := LogOf(x.At(w));
    var n := NextIdx(log);
    MountDurable(c, x, w);
    assert x.With(w.Other(), ErasedSector(c)) == x;
    ExecAppend(x, MountCmds(c, x), ScanCmds(x, w));
    var y := Exec(x, LoadCmds(c, x));
    ScanMarks(x, w, log, n);
    MarkedNext(x.At(w), y.At(w), n);
    var i, j :| 0 <= i < j < n && LiveFor(c.KeySize(), log[i], key) && LiveFor(c.KeySize(), log[j], key);
    MarkedLive(x.At(w), y.At(w), n, i);
    MarkedLive(x.At(w), y.At(w), n, j);
  }

  lemma MarkedLive(s: Sector, t: Sector, n: nat, i: nat)
    requires MarkedUpTo(s, t, n) && i < n <= |LogOf(s)| && LogOf(s)[i].Live?
    ensures i < |LogOf(t)| && LogOf(t)[i] == LogOf(s)[i]
  {
    hide Parse;
    MarkedContent(s, t, n, i);
  }

  /** The step of a set at which the new record is VALID and the old one not yet cleared. */
  function CommitStep(s: State, body: seq<byte>): nat { |Images(s.vol, AppendCmds(s.ram, body))| }

  lemma TornAtCommit(c: Config, s: State, body: seq<byte>)
    ensures var cmds := AppendCmds(s.ram, body) + RetireCmds(s.ram, KeyOf(c.KeySize(), body));
            CommitStep(s, body) <= |Images(s.vol, cmds)|
            && Torn(s.vol, cmds, CommitStep(s, body)) == Flipped(s.vol, s.ram.active, s.ram.next, body)
  {
    hide RecordBytes, Partial;
    var a := AppendCmds(s.ram, body);
    StoreImages(s.vol, s.ram, body, KeyOf(c.KeySize(), body));
    ExecAppend(s.vol, a, RetireCmds(s.ram, KeyOf(c.KeySize(), body)));
    var last := CmdImages(Written(s.vol, s.ram.active, s.ram.next, body), a[1]);
    assert |last| == 2;
    StoreImages(s.vol, s.ram, body, []);
    AppendImages(s.vol, s.ram, body);
    assert Images(s.vol, a)[CommitStep(s, body) - 1] == last[1];
  }

  lemma AppendImages(v: Vol, ram: Ram, body: seq<byte>)
    ensures var a := AppendCmds(ram, body);
            Images(v, a) == CmdImages(v, a[0]) + CmdImages(Written(v, ram.active, ram.next, body), a[1])
  {
    hide RecordBytes, Partial;
    var a := AppendCmds(ram, body);
    assert a == [a[0]] + [a[1]];
    ExecAppend(v, [a[0]], [a[1]]);
    ExecOne(v, a[0]);
    ExecOne(Written(v, ram.active, ram.next, body), a[1]);
  }

  /** Power fails at this step: the load starts from flash with the new record committed. */
  lemma FailsAtCommit(c: Config, s: State, body: seq<byte>, order: seq<Key>)
    requires Sound(c, s) && CanDo(c, s, SetOp(body, order)) && s.ram.next < c.MaxRecords()
    requires Accepts(c, s.ram, body) && !AlreadyStored(c, s.vol, s.ram, body)
    ensures Runs.Next(c, s, Cut(SetOp(body, order), CommitStep(s, body), []))
            == Rebooted(c, Flipped(s.vol, s.ram.active, s.ram.next, body))
  {
    hide Parse, Powered, LogOf, KeyOf, Flipped, NewestAt, Store, AppendCmds, RetireCmds, LoadCmds, LoadRam, CommitStep,
         Accepts, AlreadyStored, Reachable, IsWalk, Images;
    StoreIs(c, s.vol, s.ram, body);
    TornAtCommit(c, s, body);
  }

  /** This flash has the new data, and both records of the key. */
  lemma CommittedFlash(c: Config, s: State, body: seq<byte>)
    requires c.Ok() && Faithful(c, s) && s.ram.next < c.MaxRecords() && c.KeySize() <= |body| <= c.BodyMax()
    requires KeyOf(c.KeySize(), body) in MapOf(c, s)
    ensures var x, w := Flipped(s.vol, s.ram.active, s.ram.next, body), s.ram.active;
            && Sole(c, x, w) && ViewAt(c, x, w) == Put(c, MapOf(c, s), body)
            && !Unshadowed(c.KeySize(), LogOf(x.At(w)), KeyOf(c.KeySize(), body))
  {
    hide Parse, Powered, LogOf, KeyOf, DataOf, Flipped, NewestAt, Unshadowed, SectorOk, Shape, Shown, Exact, DataMap;
    ExactShows(c, s.vol, s.ram);
    ShownSize(c, s);
    StoredAppend(c, s.vol, s.ram, body);
    FlipShadows(c, s.vol, s.ram, body);
    UpdatedView(c, NewestAt(c, s.vol, s.ram.active), s.ram.next, body);
  }

  /** The load after a failure of a set that replaces data: it finds the new data and both records. */
  lemma FailedSet(c: Config, s: State, body: seq<byte>, order: seq<Key>)
    requires c.Ok() && Faithful(c, s) && CanDo(c, s, SetOp(body, order)) && s.ram.next < c.MaxRecords()
    requires HasRoom(c, MapOf(c, s), body) && KeyOf(c.KeySize(), body) in MapOf(c, s)
    requires MapOf(c, s)[KeyOf(c.KeySize(), body)] != DataOf(c.KeySize(), body)
    ensures var t := Runs.Next(c, s, Cut(SetOp(body, order), CommitStep(s, body), []));
            && Faithful(c, t) && MapOf(c, t) == MapAfter(c, MapOf(c, s), SetOp(body, order))
            && !Unshadowed(c.KeySize(), LogOf(t.vol.At(t.ram.active)), KeyOf(c.KeySize(), body))
  {
    hide Parse, Powered, LogOf, KeyOf, DataOf, Flipped, NewestAt, Unshadowed, Sole, ViewAt, LoadCmds, LoadRam, Shown,
         Exact, CommitStep, Runs.Next, Reachable, IsWalk, Durable;
    var x, w := Flipped(s.vol, s.ram.active, s.ram.next, body), s.ram.active;
    ShownSize(c, s);
    AlreadyIs(c, s, body);
    FailsAtCommit(c, s, body, order);
    CommittedFlash(c, s, body);
    ShadowSurvivesLoad(c, x, w, KeyOf(c.KeySize(), body));
    SoleDurable(c, x, w);
    Boot(c, x, w);
    ExactShows(c, Rebooted(c, x).vol, Rebooted(c, x).ram);
    BootView(c, x, w);
  }

  lemma BootView(c: Config, x: Vol, w: Which)
    requires NewestAt(c, Exec(x, LoadCmds(c, x)), w) == NewestAt(c, x, w)
    ensures ViewAt(c, Rebooted(c, x).vol, w) == ViewAt(c, x, w)
  {
    hide NewestAt, LoadCmds, LoadRam;
  }

  /** The map that a load would find; the index may have fewer keys. */
  function OnFlash(c: Config, s: State): Map { ViewAt(c, s.vol, s.ram.active) }

  lemma LoadShowsFlash(c: Config, s: State)
    requires Sound(c, s)
    ensures MapOf(c, Rebooted(c, s.vol)) == OnFlash(c, s)
  {
    hide Powered, Stores, ViewAt, Shown, Faithful, LoadCmds, LoadRam;
    SoundStores(c, s);
    RebootShows(c, s.vol, OnFlash(c, s), []);
  }

  /** These keys are on flash but not in the index, which has all the others. */
  predicate Hidden(c: Config, s: State, keys: set<Key>) {
    Sound(c, s) && keys <= OnFlash(c, s).Keys && OnFlash(c, s) - keys == MapOf(c, s)
  }

  lemma NothingHidden(c: Config, s: State)
    requires Faithful(c, s)
    ensures Hidden(c, s, {})
  {
    hide Powered, ViewAt, Shown, Exact;
    ExactShows(c, s.vol, s.ram);
    assert OnFlash(c, s) - {} == OnFlash(c, s);
  }

  /** The delete of a shadowed key hides it. */
  lemma ShadowedDeleteHides(c: Config, t: State, keys: set<Key>, key: Key)
    requires c.Ok() && Hidden(c, t, keys) && key in MapOf(c, t)
    requires !Unshadowed(c.KeySize(), LogOf(t.vol.At(t.ram.active)), key)
    ensures var u := Runs.Next(c, t, Done(DeleteOp(key)));
            Hidden(c, u, keys + {key}) && MapOf(c, u) == MapOf(c, t) - {key}
  {
    hide Parse, Powered, LogOf, Unshadowed, Shown, Exact, Stores, ViewAt, Partial;
    ShownSize(c, t);
    var u := Runs.Next(c, t, Done(DeleteOp(key)));
    assert key in t.ram.dict by { assert key in MapOf(c, t).Keys; }
    var clear := ProgramSlot(t.ram.active, t.ram.dict[key].idx, FLAGS_INVALID);
    DeleteResult(c, t.vol, t.ram, key);
    ExecOne(t.vol, clear);
    assert CmdImages(t.vol, clear)[1] == u.vol;
    DeleteIsDurable(c, t.vol, t.ram, key, u.vol);
    assert key in OnFlash(c, u) || OnFlash(c, u) - {key} == OnFlash(c, u);
    HideOne(OnFlash(c, t), OnFlash(c, u), keys, key);
  }

  lemma HideOne(m: Map, m': Map, keys: set<Key>, key: Key)
    requires m' - {key} == m - {key} && key in m' && keys <= m.Keys
    ensures keys + {key} <= m'.Keys && m' - (keys + {key}) == m - keys - {key}
  {
    assert m' - (keys + {key}) == m' - {key} - keys;
    assert m - {key} - keys == m - keys - {key};
    forall k | k in keys
      ensures k in m'
    {
      if k != key { assert k in m - {key}; }
    }
  }

  /**
   * A deleted key comes back: a set that replaces data fails at that step, the store is loaded, the key is
   * deleted and is gone from the map that the store shows; the next load finds it again.
   */
  lemma DeletedKeyReturns(c: Config, s: State, body: seq<byte>, order: seq<Key>)
    requires c.Ok() && Faithful(c, s) && CanDo(c, s, SetOp(body, order)) && s.ram.next < c.MaxRecords()
    requires HasRoom(c, MapOf(c, s), body) && KeyOf(c.KeySize(), body) in MapOf(c, s)
    requires MapOf(c, s)[KeyOf(c.KeySize(), body)] != DataOf(c.KeySize(), body)
    ensures var key := KeyOf(c.KeySize(), body);
            var t := Runs.Next(c, s, Cut(SetOp(body, order), CommitStep(s, body), []));
            var u := Runs.Next(c, t, Done(DeleteOp(key)));
            key in MapOf(c, t) && key !in MapOf(c, u) && key in MapOf(c, Rebooted(c, u.vol))
  {
    hide Parse, Powered, LogOf, KeyOf, DataOf, NewestAt, Unshadowed, LoadCmds, LoadRam, Shown, Exact, CommitStep,
         Images, Set, Stores, Result, Wreck, ViewAt;
    var key := KeyOf(c.KeySize(), body);
    FailedSet(c, s, body, order);
    var t := Runs.Next(c, s, Cut(SetOp(body, order), CommitStep(s, body), []));
    NothingHidden(c, t);
    ShadowedDeleteHides(c, t, {}, key);
    LoadShowsFlash(c, Runs.Next(c, t, Done(DeleteOp(key))));
  }

  /** A freshly formatted store after one set. */
  function AfterFirst(c: Config, a: seq<byte>): State
    requires c.Ok() && CanDo(c, Rebooted(c, Blanked(c)), SetOp(a, []))
  {
    Runs.Next(c, Rebooted(c, Blanked(c)), Done(SetOp(a, [])))
  }

  lemma FirstSet(c: Config, a: seq<byte>)
    requires c.Ok() && c.KeySize() <= |a| <= c.BodyMax()
    ensures CanDo(c, Rebooted(c, Blanked(c)), SetOp(a, []))
    ensures var s, key := AfterFirst(c, a), KeyOf(c.KeySize(), a);
            && Faithful(c, s) && s.ram.next == 1
            && MapOf(c, s) == map[key := DataOf(c.KeySize(), a)]
            && IsWalk(s.ram, [key]) && Reachable(s.vol, s.ram)
  {
    hide Parse, Powered, LogOf, KeyOf, DataOf, NewestAt, LoadCmds, LoadRam, Shown, Exact, Store, Blanked,
         Config.BodyMax, Clean;
    var s0, key := Rebooted(c, Blanked(c)), KeyOf(c.KeySize(), a);
    FormatIsEmpty(c);
    ShownSize(c, s0);
    assert s0.ram.dict.Keys == {};
    var e := Done(SetOp(a, []));
    StepIsAtomic(c, s0, e);
    StoreAdvances(c, s0, a);
    var s := AfterFirst(c, a);
    ShownSize(c, s);
    assert s.ram.dict.Keys == {key};
    WalkCompacts(c, s.vol, s.ram, [key]);
  }

  /** It happens in a store that has just been formatted: for any key, and any two different data for it. */
  lemma ComesBackAfterFormat(c: Config, a: seq<byte>, b: seq<byte>)
    requires c.Ok() && HEADROOM + 1 < c.MaxRecords()
    requires c.KeySize() <= |a| <= c.BodyMax() && c.KeySize() <= |b| <= c.BodyMax()
    requires KeyOf(c.KeySize(), a) == KeyOf(c.KeySize(), b) && DataOf(c.KeySize(), a) != DataOf(c.KeySize(), b)
    ensures var key := KeyOf(c.KeySize(), a);
            && CanDo(c, Rebooted(c, Blanked(c)), SetOp(a, [])) && CanDo(c, AfterFirst(c, a), SetOp(b, [key]))
            && var s := AfterFirst(c, a);
               var t := Runs.Next(c, s, Cut(SetOp(b, [key]), CommitStep(s, b), []));
               var u := Runs.Next(c, t, Done(DeleteOp(key)));
               key in MapOf(c, t) && key !in MapOf(c, u) && key in MapOf(c, Rebooted(c, u.vol))
  {
    hide KeyOf, DataOf, Faithful, Shown, AfterFirst, Config.BodyMax, CommitStep, Runs.Next, Rebooted, Reachable,
         IsWalk, Blanked;
    FirstSet(c, a);
    DeletedKeyReturns(c, AfterFirst(c, a), b, [KeyOf(c.KeySize(), a)]);
  }
}
