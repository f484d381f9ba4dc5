/**
 * Runs that pass the limit of the volume by one key and by two: shadow some keys, delete them, fill the index up
 * and load.
 */
module Breaches {
  import opened Flash
  import opened Records
  import opened Volumes
  import opened Logs
  import opened Protocol
  import opened Durability
  import opened Atomicity
  import opened Compaction
  import opened CrashSafety
  import opened Runs
  import opened Counters
  import opened FreeSlots
  import opened Wear
  import opened Shadows
  import opened Scenarios
  import opened Overfull

  // ---------------------------------------------------------------- shadows that stay

  /** These keys are in the map, each with an older record. */
  predicate Shadowed(c: Config, s: State, keys: set<Key>) {
    forall k :: k in keys ==> k in MapOf(c, s) && !Unshadowed(c.KeySize(), LogOf(s.vol.At(s.ram.active)), k)
  }

  /** Changing a slot that is not one of its records leaves a key shadowed. */
  lemma ShadowKept(ks: nat, log: Log, i: nat, cell: Content, key: Key)
    requires i < |log| && i <= NextIdx(log) && cell != Empty && !LiveFor(ks, log[i], key)
    requires !Unshadowed(ks, log, key)
    ensures !Unshadowed(ks, log[i := cell], key)
  {
    hide KeyOf, LiveFor;
    var n := NextIdx(log);
    var a, b :| 0 <= a < b < n && LiveFor(ks, log[a], key) && LiveFor(ks, log[b], key);
    var log' := log[i := cell];
    assert NextIdx(log') >= n by { FirstEmpty(log', n); }
    assert LiveFor(ks, log'[a], key) && LiveFor(ks, log'[b], key);
  }

  lemma FirstEmpty(log: Log, n: nat)
    requires n <= |log| && forall j :: 0 <= j < n ==> log[j] != Empty
    ensures NextIdx(log) >= n
  {
  }

  lemma AppendKeepsShadow(c: Config, v: Vol, ram: Ram, body: seq<byte>, key: Key)
    requires c.Ok() && Powered(c, v, ram) && ram.next < c.MaxRecords() && |body| <= c.BodyMax()
    requires !Unshadowed(c.KeySize(), LogOf(v.At(ram.active)), key)
    ensures !Unshadowed(c.KeySize(), LogOf(Flipped(v, ram.active, ram.next, body).At(ram.active)), key)
  {
    hide Powered, LogOf, Unshadowed, Sole, Flipped, NewestAt, Config.MaxRecords;
    NextIs(c, v, ram);
    FitsSlot(c, body);
    SoleSize(c, v, ram.active);
    AppendLog(c, v, ram.active, body);
    ShadowKept(c.KeySize(), LogOf(v.At(ram.active)), ram.next, Live(body), key);
  }

  lemma ClearKeepsShadow(c: Config, v: Vol, ram: Ram, gone: Key, key: Key)
    requires Powered(c, v, ram) && gone in ram.dict && gone != key
    requires !Unshadowed(c.KeySize(), LogOf(v.At(ram.active)), key)
    ensures !Unshadowed(c.KeySize(), LogOf(Exec(v, Delete(ram, gone).cmds).At(ram.active)), key)
  {
    hide Powered, Unshadowed, NewestAt, LogOf, Readable;
    var i := ram.dict[gone].idx;
    EntryLeads(c, v, ram, gone);
    NextIs(c, v, ram);
    ClearLog(v, ram.active, i);
    ExecOne(v, ProgramSlot(ram.active, i, FLAGS_INVALID));
    ShadowKept(c.KeySize(), LogOf(v.At(ram.active)), i, Invalid, key);
  }

  /** A completed set of a new key keeps the others shadowed, */
  lemma NewKeyShadows(c: Config, s: State, order: seq<Key>, keys: set<Key>, z: seq<byte>)
    requires c.Ok() && Faithful(c, s) && CanWalk(s, order) && s.ram.next < c.MaxRecords() && Shadowed(c, s, keys)
    requires c.KeySize() <= |z| && HasRoom(c, MapOf(c, s), z) && KeyOf(c.KeySize(), z) !in MapOf(c, s)
    ensures var t := Runs.Next(c, s, Done(SetOp(z, order)));
            && Faithful(c, t) && CanWalk(t, order + [KeyOf(c.KeySize(), z)]) && MapOf(c, t) == Put(c, MapOf(c, s), z)
            && t.ram.next == s.ram.next + 1 && Shadowed(c, t, keys)
  {
    hide Powered, Exact, Shown, KeyOf, DataOf, Reachable, IsWalk, LogOf, Unshadowed, Flipped, Config.Ok,
         Config.MaxRecords, Config.BodyMax, Set;
    var t := Runs.Next(c, s, Done(SetOp(z, order)));
    NewKeyStep(c, s, order, z);
    StepIsAtomic(c, s, Done(SetOp(z, order)));
    NewKeyFlips(c, s, order, z);
    forall k | k in keys
      ensures !Unshadowed(c.KeySize(), LogOf(t.vol.At(t.ram.active)), k)
    {
      AppendKeepsShadow(c, s.vol, s.ram, z, k);
    }
  }

  lemma NewKeyFlips(c: Config, s: State, order: seq<Key>, z: seq<byte>)
    requires c.Ok() && Sound(c, s) && CanWalk(s, order) && s.ram.next < c.MaxRecords()
    requires c.KeySize() <= |z| && HasRoom(c, MapOf(c, s), z) && KeyOf(c.KeySize(), z) !in MapOf(c, s)
    ensures Runs.Next(c, s, Done(SetOp(z, order))).vol == Flipped(s.vol, s.ram.active, s.ram.next, z)
  {
    hide Powered, Shown, KeyOf, Reachable, IsWalk, LogOf, Flipped, Config.Ok, Config.MaxRecords, Config.BodyMax, Store,
         AppendCmds, NewestAt;
    ShownSize(c, s);
    assert KeyOf(c.KeySize(), z) !in s.ram.dict by { assert KeyOf(c.KeySize(), z) !in s.ram.dict.Keys; }
    StoreIs(c, s.vol, s.ram, z);
    StoreImages(s.vol, s.ram, z, KeyOf(c.KeySize(), z));
    assert AppendCmds(s.ram, z) + [] == AppendCmds(s.ram, z);
  }

  /** and one that replaces data and fails at its commit shadows its key as well. */
  lemma ReplaceShadows(c: Config, s: State, order: seq<Key>, keys: set<Key>, body: seq<byte>)
    requires c.Ok() && Faithful(c, s) && CanWalk(s, order) && s.ram.next < c.MaxRecords() && Shadowed(c, s, keys)
    requires c.KeySize() <= |body| && HasRoom(c, MapOf(c, s), body) && KeyOf(c.KeySize(), body) in MapOf(c, s)
    requires MapOf(c, s)[KeyOf(c.KeySize(), body)] != DataOf(c.KeySize(), body)
    ensures var t := Runs.Next(c, s, Cut(SetOp(body, order), CommitStep(s, body), []));
            && Faithful(c, t) && CanWalk(t, order) && MapOf(c, t) == Put(c, MapOf(c, s), body)
            && t.ram.next <= s.ram.next + 1 && Shadowed(c, t, keys + {KeyOf(c.KeySize(), body)})
  {
    hide Powered, Exact, Shown, KeyOf, DataOf, Reachable, IsWalk, LogOf, Unshadowed, Flipped, Config.Ok,
         Config.MaxRecords, Config.BodyMax, Sole, LoadCmds, LoadRam, CommitStep, ViewAt, Runs.Next, NewestAt,
         AlreadyStored, Durable;
    var t := Runs.Next(c, s, Cut(SetOp(body, order), CommitStep(s, body), []));
    var x, w := Flipped(s.vol, s.ram.active, s.ram.next, body), s.ram.active;
    ShownSize(c, s);
    AlreadyIs(c, s, body);
    FailedSet(c, s, body, order);
    FailsAtCommit(c, s, body, order);
    CommittedFlash(c, s, body);
    SoleDurable(c, x, w);
    Boot(c, x, w);
    CutTakesOne(c, s, SetOp(body, order), CommitStep(s, body), []);
    ShownSize(c, t);
    assert t.ram.dict.Keys == s.ram.dict.Keys;
    SameWalk(c, s, t, order);
    forall k | k in keys
      ensures !Unshadowed(c.KeySize(), LogOf(t.vol.At(t.ram.active)), k)
    {
      AppendKeepsShadow(c, s.vol, s.ram, body, k);
      ShadowSurvivesLoad(c, x, w, k);
    }
  }

  // ---------------------------------------------------------------- shadow some keys

  type Pair = (seq<byte>, seq<byte>)

  /** Two records for each of some keys, which are all different and none of the others. */
  predicate Pairs(c: Config, others: set<Key>, pairs: seq<Pair>) {
    && (forall i :: 0 <= i < |pairs| ==>
          && c.KeySize() <= |pairs[i].0| <= c.BodyMax() && c.KeySize() <= |pairs[i].1| <= c.BodyMax()
          && KeyOf(c.KeySize(), pairs[i].0) == KeyOf(c.KeySize(), pairs[i].1)
          && KeyOf(c.KeySize(), pairs[i].0) !in others
          && DataOf(c.KeySize(), pairs[i].0) != DataOf(c.KeySize(), pairs[i].1))
    && (forall i, j :: 0 <= i < j < |pairs| ==> KeyOf(c.KeySize(), pairs[i].0) != KeyOf(c.KeySize(), pairs[j].0))
  }

  function PairKeys(c: Config, pairs: seq<Pair>): set<Key> {
    set i | 0 <= i < |pairs| :: KeyOf(c.KeySize(), pairs[i].0)
  }

  lemma PairsRest(c: Config, others: set<Key>, pairs: seq<Pair>)
    requires Pairs(c, others, pairs) && pairs != []
    ensures var k := KeyOf(c.KeySize(), pairs[0].0);
            && Pairs(c, others + {k}, pairs[1..]) && PairKeys(c, pairs) == {k} + PairKeys(c, pairs[1..])
            && k !in PairKeys(c, pairs[1..]) && k !in others
  {
    hide KeyOf, DataOf, Config.BodyMax;
    var rest := pairs[1..];
    assert forall i :: 0 < i < |pairs| ==> pairs[i] == rest[i - 1];
    forall k | k in PairKeys(c, pairs)
      ensures k in {KeyOf(c.KeySize(), pairs[0].0)} + PairKeys(c, rest)
    {
      var i :| 0 <= i < |pairs| && KeyOf(c.KeySize(), pairs[i].0) == k;
      if i > 0 { assert KeyOf(c.KeySize(), rest[i - 1].0) == k; }
    }
    assert forall j :: 0 <= j < |rest| ==> KeyOf(c.KeySize(), rest[j].0) == KeyOf(c.KeySize(), pairs[j + 1].0);
  }

  /** A key is set, and set again until power fails at the commit. */
  lemma ShadowOne(c: Config, s: State, order: seq<Key>, a: seq<byte>, b: seq<byte>) returns (t: State, u: State)
    requires c.Ok() && Faithful(c, s) && CanWalk(s, order) && Shadowed(c, s, MapOf(c, s).Keys)
    requires c.KeySize() <= |a| <= c.BodyMax() && c.KeySize() <= |b| <= c.BodyMax()
    requires KeyOf(c.KeySize(), a) == KeyOf(c.KeySize(), b) && DataOf(c.KeySize(), a) != DataOf(c.KeySize(), b)
    requires KeyOf(c.KeySize(), a) !in MapOf(c, s) && |MapOf(c, s)| + 1 < c.MaxRecords() - HEADROOM
    requires s.ram.next + 2 <= c.MaxRecords()
    ensures var k := KeyOf(c.KeySize(), a);
            && CanDo(c, s, SetOp(a, order)) && t == Runs.Next(c, s, Done(SetOp(a, order)))
            && CanDo(c, t, SetOp(b, order + [k]))
            && u == Runs.Next(c, t, Cut(SetOp(b, order + [k]), CommitStep(t, b), []))
            && Faithful(c, u) && CanWalk(u, order + [k]) && MapOf(c, u).Keys == MapOf(c, s).Keys + {k}
            && |MapOf(c, t)| == |MapOf(c, u)| == |MapOf(c, s)| + 1 && u.ram.next <= s.ram.next + 2
            && Shadowed(c, u, MapOf(c, u).Keys)
  {
    hide Faithful, Shown, KeyOf, DataOf, Runs.Next, Reachable, IsWalk, Config.Ok, Config.MaxRecords, Config.BodyMax,
         Shadowed, CommitStep;
    var k := KeyOf(c.KeySize(), a);
    t := Runs.Next(c, s, Done(SetOp(a, order)));
    NewKeyShadows(c, s, order, MapOf(c, s).Keys, a);
    PutSize(MapOf(c, s), k, DataOf(c.KeySize(), a));
    u := Runs.Next(c, t, Cut(SetOp(b, order + [k]), CommitStep(t, b), []));
    ReplaceShadows(c, t, order + [k], MapOf(c, s).Keys, b);
    PutSize(MapOf(c, t), k, DataOf(c.KeySize(), b));
    assert MapOf(c, u).Keys == MapOf(c, s).Keys + {k};
  }

  lemma {:induction false} Shadow(c: Config, s: State, order: seq<Key>, pairs: seq<Pair>)
    returns (states: seq<State>, events: seq<Event>)
    requires c.Ok() && Faithful(c, s) && CanWalk(s, order) && Shadowed(c, s, MapOf(c, s).Keys)
    requires Pairs(c, MapOf(c, s).Keys, pairs) && s.ram.next + 2 * |pairs| <= c.MaxRecords()
    requires |MapOf(c, s)| + |pairs| < c.MaxRecords() - HEADROOM
    ensures IsRun(c, states, events) && states[0] == s
    ensures AllWithin(c, states)
    ensures var t := states[|events|];
            && Faithful(c, t) && t.ram.next <= s.ram.next + 2 * |pairs| && Shadowed(c, t, MapOf(c, t).Keys)
            && MapOf(c, t).Keys == MapOf(c, s).Keys + PairKeys(c, pairs)
    decreases |pairs|
  {
    hide Faithful, Shown, KeyOf, DataOf, Runs.Next, CanWalk, Config.Ok, Config.MaxRecords, Config.BodyMax, Shadowed,
         Pairs, PairKeys, CommitStep, IsRun, CanDo, MapOf, AllWithin, WithinLimit;
    if pairs == [] {
      states, events := [s], [];
      NoPairs(c);
      NoEvents(c, s);
      WithinBy(c, s, s);
    } else {
      var a, b, k := pairs[0].0, pairs[0].1, KeyOf(c.KeySize(), pairs[0].0);
      FirstPair(c, MapOf(c, s).Keys, pairs);
      var t, u := ShadowOne(c, s, order, a, b);
      PairsRest(c, MapOf(c, s).Keys, pairs);
      var rest, later := Shadow(c, u, order + [k], pairs[1..]);
      WithinBy(c, s, t);
      states := [s] + ([t] + rest);
      events := [Done(SetOp(a, order))] + ([Cut(SetOp(b, order + [k]), CommitStep(t, b), [])] + later);
      TwoFirst(c, s, t, Done(SetOp(a, order)), Cut(SetOp(b, order + [k]), CommitStep(t, b), []), rest, later);
      SameKeys(MapOf(c, s).Keys, k, PairKeys(c, pairs[1..]));
    }
  }

  lemma SameKeys(a: set<Key>, k: Key, b: set<Key>)
    ensures (a + {k}) + b == a + ({k} + b)
  {
  }

  predicate AllWithin(c: Config, states: seq<State>) { forall i :: 0 <= i < |states| ==> WithinLimit(c, states[i]) }

  lemma WithinBy(c: Config, s: State, t: State)
    requires |MapOf(c, s)| < c.MaxRecords() - HEADROOM && |MapOf(c, t)| <= |MapOf(c, s)| + 1
    ensures WithinLimit(c, s) && WithinLimit(c, t)
  {
    hide MapOf, Config.MaxRecords;
  }

  lemma NoEvents(c: Config, s: State)
    ensures IsRun(c, [s], []) && (WithinLimit(c, s) ==> AllWithin(c, [s]))
  {
    hide CanDo, Runs.Next, MapOf, Config.MaxRecords;
  }

  lemma TwoFirst(c: Config, s: State, t: State, e: Event, f: Event, states: seq<State>, events: seq<Event>)
    requires IsRun(c, states, events) && CanDo(c, s, e.op) && t == Runs.Next(c, s, e)
    requires CanDo(c, t, f.op) && states[0] == Runs.Next(c, t, f)
    requires WithinLimit(c, s) && WithinLimit(c, t) && AllWithin(c, states)
    ensures IsRun(c, [s] + ([t] + states), [e] + ([f] + events))
    ensures ([s] + ([t] + states))[|[e] + ([f] + events)|] == states[|events|]
    ensures AllWithin(c, [s] + ([t] + states))
  {
    hide CanDo, Runs.Next, WithinLimit;
    RunFrom(c, t, f, states, events);
    RunFrom(c, s, e, [t] + states, [f] + events);
  }

  lemma NoPairs(c: Config)
    ensures PairKeys(c, []) == {}
  {
  }

  lemma FirstPair(c: Config, others: set<Key>, pairs: seq<Pair>)
    requires Pairs(c, others, pairs) && pairs != []
    ensures KeyOf(c.KeySize(), pairs[0].0) !in others
    ensures c.KeySize() <= |pairs[0].0| <= c.BodyMax() && c.KeySize() <= |pairs[0].1| <= c.BodyMax()
    ensures KeyOf(c.KeySize(), pairs[0].0) == KeyOf(c.KeySize(), pairs[0].1)
    ensures DataOf(c.KeySize(), pairs[0].0) != DataOf(c.KeySize(), pairs[0].1)
  {
  }

  // ---------------------------------------------------------------- hide them, and fill up

  /** The delete of one of several shadowed keys hides it and leaves the others shadowed. */
  lemma DeleteOne(c: Config, s: State, hidden: set<Key>, key: Key)
    requires c.Ok() && Hidden(c, s, hidden) && Shadowed(c, s, MapOf(c, s).Keys) && key in MapOf(c, s)
    ensures var u := Runs.Next(c, s, Done(DeleteOp(key)));
            && Hidden(c, u, hidden + {key}) && MapOf(c, u) == MapOf(c, s) - {key} && u.ram.next == s.ram.next
            && Shadowed(c, u, MapOf(c, u).Keys) && |MapOf(c, u)| <= |MapOf(c, s)|
  {
    hide Powered, Hidden, Shown, LogOf, Unshadowed, Delete;
    var u := Runs.Next(c, s, Done(DeleteOp(key)));
    HiddenIsSound(c, s, hidden);
    ShadowedDeleteHides(c, s, hidden, key);
    DeleteAdvances(c, s, key);
    DeleteResult(c, s.vol, s.ram, key);
    ShownSize(c, s);
    WithoutSize(MapOf(c, s), key);
    assert key in s.ram.dict by { assert key in MapOf(c, s).Keys; }
    forall k | k in MapOf(c, u)
      ensures !Unshadowed(c.KeySize(), LogOf(u.vol.At(u.ram.active)), k)
    {
      ClearKeepsShadow(c, s.vol, s.ram, key, k);
    }
  }

  lemma HiddenIsSound(c: Config, s: State, hidden: set<Key>)
    requires Hidden(c, s, hidden)
    ensures Sound(c, s)
  {
  }

  lemma {:induction false} HideAll(c: Config, s: State, hidden: set<Key>, pairs: seq<Pair>)
    returns (states: seq<State>, events: seq<Event>)
    requires c.Ok() && Hidden(c, s, hidden) && Shadowed(c, s, MapOf(c, s).Keys) && WithinLimit(c, s)
    requires MapOf(c, s).Keys == PairKeys(c, pairs) && Pairs(c, hidden, pairs)
    ensures IsRun(c, states, events) && states[0] == s && AllWithin(c, states)
    ensures var t := states[|events|];
            Hidden(c, t, hidden + PairKeys(c, pairs)) && MapOf(c, t) == map[] && t.ram.next == s.ram.next
    decreases |pairs|
  {
    hide Hidden, Shown, KeyOf, DataOf, Runs.Next, Config.Ok, Config.MaxRecords, Config.BodyMax, Shadowed, Pairs,
         PairKeys, MapOf, AllWithin, IsRun;
    if pairs == [] {
      states, events := [s], [];
      NoPairs(c);
      NoEvents(c, s);
      assert MapOf(c, s) == map[] && hidden + {} == hidden;
    } else {
      var key := KeyOf(c.KeySize(), pairs[0].0);
      var u := Runs.Next(c, s, Done(DeleteOp(key)));
      PairsRest(c, hidden, pairs);
      DeleteOne(c, s, hidden, key);
      assert MapOf(c, u).Keys == PairKeys(c, pairs[1..]);
      var rest, later := HideAll(c, u, hidden + {key}, pairs[1..]);
      OneFirst(c, s, Done(DeleteOp(key)), rest, later);
      SameKeys(hidden, key, PairKeys(c, pairs[1..]));
      states, events := [s] + rest, [Done(DeleteOp(key))] + later;
    }
  }

  lemma OneFirst(c: Config, s: State, e: Event, states: seq<State>, events: seq<Event>)
    requires IsRun(c, states, events) && CanDo(c, s, e.op) && states[0] == Runs.Next(c, s, e)
    requires WithinLimit(c, s) && AllWithin(c, states)
    ensures IsRun(c, [s] + states, [e] + events) && AllWithin(c, [s] + states)
    ensures ([s] + states)[|[e] + events|] == states[|events|]
  {
    hide CanDo, Runs.Next, WithinLimit;
    RunFrom(c, s, e, states, events);
  }

  /** Sets of other keys leave keys hidden. */
  lemma HiddenSet(c: Config, s: State, keys: set<Key>, body: seq<byte>, order: seq<Key>)
    requires c.Ok() && Hidden(c, s, keys) && CanWalk(s, order) && s.ram.next < c.MaxRecords()
    requires c.KeySize() <= |body| && HasRoom(c, MapOf(c, s), body)
    requires KeyOf(c.KeySize(), body) !in keys && KeyOf(c.KeySize(), body) !in MapOf(c, s)
    ensures var t := Runs.Next(c, s, Done(SetOp(body, order)));
            && Hidden(c, t, keys) && MapOf(c, t) == Put(c, MapOf(c, s), body)
            && t.ram.next == s.ram.next + 1 && CanWalk(t, order + [KeyOf(c.KeySize(), body)])
  {
    hide Powered, OnFlash, Shown, KeyOf, DataOf, Reachable, IsWalk, Config.MaxRecords, Config.BodyMax, Runs.Next;
    NewKeyStep(c, s, order, body);
    PutBut(OnFlash(c, s), keys, KeyOf(c.KeySize(), body), DataOf(c.KeySize(), body));
  }

  lemma PutBut(m: Map, keys: set<Key>, k: Key, data: seq<byte>)
    requires k !in keys && keys <= m.Keys
    ensures m[k := data] - keys == (m - keys)[k := data] && keys <= m[k := data].Keys
  {
  }

  /** Records of keys that are neither hidden nor in the map, and all different. */
  predicate Fresh(c: Config, m: Map, hidden: set<Key>, fill: seq<seq<byte>>) {
    && (forall i :: 0 <= i < |fill| ==> c.KeySize() <= |fill[i]| <= c.BodyMax())
    && (forall i :: 0 <= i < |fill| ==> KeyOf(c.KeySize(), fill[i]) !in hidden && KeyOf(c.KeySize(), fill[i]) !in m)
    && (forall i, j :: 0 <= i < j < |fill| ==> KeyOf(c.KeySize(), fill[i]) != KeyOf(c.KeySize(), fill[j]))
  }

  lemma FreshRest(c: Config, m: Map, hidden: set<Key>, fill: seq<seq<byte>>)
    requires Fresh(c, m, hidden, fill) && fill != []
    ensures Fresh(c, Put(c, m, fill[0]), hidden, fill[1..])
  {
    hide KeyOf, DataOf, Config.BodyMax;
  }

  lemma FirstFresh(c: Config, m: Map, hidden: set<Key>, fill: seq<seq<byte>>)
    requires Fresh(c, m, hidden, fill) && fill != []
    ensures c.KeySize() <= |fill[0]| <= c.BodyMax()
    ensures KeyOf(c.KeySize(), fill[0]) !in hidden && KeyOf(c.KeySize(), fill[0]) !in m
  {
  }

  /** Completed sets fill the index up. */
  lemma {:induction false} Fill(c: Config, s: State, hidden: set<Key>, order: seq<Key>, fill: seq<seq<byte>>)
    returns (states: seq<State>, events: seq<Event>)
    requires c.Ok() && Hidden(c, s, hidden) && CanWalk(s, order) && Fresh(c, MapOf(c, s), hidden, fill)
    requires |MapOf(c, s)| + |fill| <= c.MaxRecords() - HEADROOM && s.ram.next + |fill| <= c.MaxRecords()
    ensures IsRun(c, states, events) && states[0] == s && AllWithin(c, states)
    ensures Hidden(c, states[|events|], hidden) && |MapOf(c, states[|events|])| == |MapOf(c, s)| + |fill|
    decreases |fill|
  {
    hide Hidden, Shown, KeyOf, DataOf, Runs.Next, IsWalk, Reachable, Config.Ok, Config.MaxRecords, Config.BodyMax,
         Fresh, AllWithin, IsRun, MapOf;
    if fill == [] {
      states, events := [s], [];
      NoEvents(c, s);
    } else {
      var e, k := Done(SetOp(fill[0], order)), KeyOf(c.KeySize(), fill[0]);
      FirstFresh(c, MapOf(c, s), hidden, fill);
      HiddenSet(c, s, hidden, fill[0], order);
      PutSize(MapOf(c, s), k, DataOf(c.KeySize(), fill[0]));
      FreshRest(c, MapOf(c, s), hidden, fill);
      var rest, later := Fill(c, Runs.Next(c, s, e), hidden, order + [k], fill[1..]);
      OneFirst(c, s, e, rest, later);
      states, events := [s] + rest, [e] + later;
    }
  }

  // ---------------------------------------------------------------- the run

  /** Power fails before a delete has done anything: the load shows the hidden keys again. */
  lemma LoadShowsHidden(c: Config, s: State, keys: set<Key>, key: Key)
    requires Hidden(c, s, keys) && key !in s.ram.dict
    ensures |MapOf(c, Runs.Next(c, s, Cut(DeleteOp(key), 0, [])))| == |MapOf(c, s)| + |keys|
  {
    hide Powered, ViewAt, Shown, Rebooted, Images;
    LoadShowsFlash(c, s);
    RestSize(OnFlash(c, s), keys);
  }

  lemma RestSize(m: Map, keys: set<Key>)
    requires keys <= m.Keys
    ensures |m - keys| + |keys| == |m|
  {
    assert (m - keys).Keys == m.Keys - keys;
    assert m.Keys == (m.Keys - keys) + keys;
    assert |m| == |m.Keys| && |m - keys| == |(m - keys).Keys|;
  }

  lemma {:induction false} PairKeysCount(c: Config, others: set<Key>, pairs: seq<Pair>)
    requires Pairs(c, others, pairs)
    ensures |PairKeys(c, pairs)| == |pairs|
    decreases |pairs|
  {
    hide Pairs, PairKeys, KeyOf;
    if pairs == [] {
      NoPairs(c);
    } else {
      PairsRest(c, others, pairs);
      PairKeysCount(c, others + {KeyOf(c.KeySize(), pairs[0].0)}, pairs[1..]);
    }
  }

  lemma Joined(c: Config, states: seq<State>, events: seq<Event>, states': seq<State>, events': seq<Event>)
    returns (all: seq<State>)
    requires IsRun(c, states, events) && IsRun(c, states', events') && states[|events|] == states'[0]
    requires AllWithin(c, states) && AllWithin(c, states')
    ensures IsRun(c, all, events + events') && AllWithin(c, all)
    ensures all[0] == states[0] && all[|events + events'|] == states'[|events'|]
  {
    hide CanDo, Runs.Next, WithinLimit;
    all := states + states'[1..];
    RunJoin(c, states, events, states', events');
  }

  lemma RunLength(c: Config, states: seq<State>, events: seq<Event>)
    requires IsRun(c, states, events)
    ensures |states| == |events| + 1
  {
  }

  /** From a format to a store with an empty index and the keys hidden. */
  lemma HiddenFromFormat(c: Config, pairs: seq<Pair>) returns (states: seq<State>, events: seq<Event>)
    requires c.Ok() && |pairs| <= 2 && |pairs| + HEADROOM < c.MaxRecords() && Pairs(c, {}, pairs)
    ensures IsRun(c, states, events) && AllWithin(c, states) && states[0] == Rebooted(c, Blanked(c))
    ensures var t := states[|events|];
            && Hidden(c, t, PairKeys(c, pairs)) && MapOf(c, t) == map[] && t.ram.next <= 2 * |pairs| && CanWalk(t, [])
  {
    hide Powered, Exact, KeyOf, DataOf, Shown, Config.BodyMax, Config.MaxRecords, Config.Ok, Rebooted, Blanked, Hidden,
         Runs.Next, CanWalk, Pairs, PairKeys, AllWithin, IsRun, Shadowed, MapOf, WithinLimit;
    StartsUnshadowed(c, pairs);
    var first, e1 := Shadow(c, Rebooted(c, Blanked(c)), [], pairs);
    RunLength(c, first, e1);
    var t := first[|e1|];
    NothingHidden(c, t);
    PairKeysCount(c, {}, pairs);
    ShadowsFit(c, t, pairs);
    var second, e2 := HideAll(c, t, {}, pairs);
    RunLength(c, second, e2);
    assert {} + PairKeys(c, pairs) == PairKeys(c, pairs);
    HiddenIsSound(c, second[|e2|], PairKeys(c, pairs));
    NothingToWalk(c, second[|e2|]);
    states := Joined(c, first, e1, second, e2);
    events := e1 + e2;
    RunLength(c, states, events);
  }

  /**
   * From a format a run that stays within the limit ends with a load that shows one key or two keys too many: set
   * these keys, lose power while each of them is set again, delete them, and fill the store up. So
   * Overfull.TwoKeysAtMost is sharp.
   */
  lemma LimitIsPassed(c: Config, pairs: seq<Pair>, fill: seq<seq<byte>>)
    returns (states: seq<State>, events: seq<Event>)
    requires c.Ok() && 1 <= |pairs| <= 2 && |pairs| + 4 < c.MaxRecords() && Pairs(c, {}, pairs)
    requires |fill| == c.MaxRecords() - 4 && Fresh(c, map[], PairKeys(c, pairs), fill)
    ensures IsRun(c, states, events) && states[0] == Rebooted(c, Blanked(c)) && events != []
    ensures forall i :: 0 <= i < |events| ==> WithinLimit(c, states[i])
    ensures |MapOf(c, states[|events|])| == c.MaxRecords() - 4 + |pairs|
  {
    hide Powered, Exact, KeyOf, DataOf, Shown, Config.BodyMax, Config.MaxRecords, Config.Ok, Rebooted, Blanked, Hidden,
         Runs.Next, Fresh, CanWalk, Pairs, PairKeys, AllWithin, IsRun, MapOf, WithinLimit;
    var keys, key := PairKeys(c, pairs), KeyOf(c.KeySize(), pairs[0].0);
    var first, start := HiddenFromFormat(c, pairs);
    RunLength(c, first, start);
    var rest, sets := Fill(c, first[|start|], keys, [], fill);
    RunLength(c, rest, sets);
    var all := Joined(c, first, start, rest, sets);
    RunLength(c, all, start + sets);
    HiddenKeyIsOut(c, rest[|sets|], keys, pairs);
    LoadShowsHidden(c, rest[|sets|], keys, key);
    PairKeysCount(c, {}, pairs);
    states, events := EndWithLoad(c, all, start + sets, key);
    RunLength(c, states, events);
  }

  lemma StartsUnshadowed(c: Config, pairs: seq<Pair>)
    requires c.Ok() && Pairs(c, {}, pairs)
    ensures var s := Rebooted(c, Blanked(c));
            && Faithful(c, s) && CanWalk(s, []) && MapOf(c, s) == map[] && s.ram.next == 0
            && Shadowed(c, s, MapOf(c, s).Keys) && Pairs(c, MapOf(c, s).Keys, pairs)
  {
    hide Powered, Exact, Shown, Rebooted, Blanked, CanWalk, LogOf, Unshadowed, Pairs;
    FormatIsEmpty(c);
    NothingToWalk(c, Rebooted(c, Blanked(c)));
    var none: Map := map[];
    assert none.Keys == {};
  }

  lemma ShadowsFit(c: Config, t: State, pairs: seq<Pair>)
    requires MapOf(c, t).Keys == {} + PairKeys(c, pairs) && |PairKeys(c, pairs)| == |pairs|
    requires |pairs| + HEADROOM < c.MaxRecords()
    ensures MapOf(c, t).Keys == PairKeys(c, pairs) && WithinLimit(c, t)
  {
    hide MapOf, PairKeys, Config.MaxRecords;
    assert {} + PairKeys(c, pairs) == PairKeys(c, pairs);
    assert |MapOf(c, t)| == |MapOf(c, t).Keys|;
  }

  lemma HiddenKeyIsOut(c: Config, u: State, keys: set<Key>, pairs: seq<Pair>)
    requires Hidden(c, u, keys) && pairs != [] && keys == PairKeys(c, pairs)
    ensures KeyOf(c.KeySize(), pairs[0].0) !in u.ram.dict
  {
    hide Powered, OnFlash, Shown, KeyOf;
    ShownSize(c, u);
    var key := KeyOf(c.KeySize(), pairs[0].0);
    assert key in keys;
    assert key !in MapOf(c, u).Keys;
  }

  lemma EndWithLoad(c: Config, all: seq<State>, evs: seq<Event>, key: Key)
    returns (states: seq<State>, events: seq<Event>)
    requires IsRun(c, all, evs) && AllWithin(c, all)
    ensures IsRun(c, states, events) && |events| == |evs| + 1 && states[0] == all[0]
    ensures states[|events|] == Runs.Next(c, all[|evs|], Cut(DeleteOp(key), 0, []))
    ensures forall i :: 0 <= i < |events| ==> WithinLimit(c, states[i])
  {
    hide Runs.Next, WithinLimit;
    var e := Cut(DeleteOp(key), 0, []);
    RunUpTo(c, all, evs, e);
    states, events := all + [Runs.Next(c, all[|evs|], e)], evs + [e];
  }
}
