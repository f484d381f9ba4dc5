/** Building blocks of the runs that show why a result needs its condition. */
module Scenarios {
  import opened Flash
  import opened Logs
  import opened Protocol
  import opened Durability
  import opened Atomicity
  import opened Compaction
  import opened CrashSafety
  import opened Runs
  import opened Wear
  import opened Shadows

  predicate CanWalk(s: State, order: seq<Key>) { IsWalk(s.ram, order) && Reachable(s.vol, s.ram) }

  lemma LongerWalk(ram: Ram, ram': Ram, order: seq<Key>, key: Key)
    requires IsWalk(ram, order) && key !in ram.dict && ram'.dict.Keys == ram.dict.Keys + {key}
    ensures IsWalk(ram', order + [key])
  {
    forall k | k in ram'.dict
      ensures k in order + [key]
    {
      assert k in ram'.dict.Keys;
      if k != key { assert k in ram.dict.Keys; }
    }
    assert forall j :: 0 <= j < |order| ==> order[j] in ram.dict.Keys;
    assert forall j :: 0 <= j < |order| + 1 ==> (order + [key])[j] in ram'.dict.Keys;
  }

  lemma RunFrom(c: Config, s: State, e: Event, states: seq<State>, events: seq<Event>)
    requires IsRun(c, states, events) && CanDo(c, s, e.op) && states[0] == Runs.Next(c, s, e)
    ensures IsRun(c, [s] + states, [e] + events)
  {
    hide CanDo, Runs.Next;
  }

  lemma RunUpTo(c: Config, states: seq<State>, events: seq<Event>, e: Event)
    requires IsRun(c, states, events) && CanDo(c, states[|events|], e.op)
    ensures IsRun(c, states + [Runs.Next(c, states[|events|], e)], events + [e])
  {
    hide CanDo, Runs.Next;
  }

  lemma PutSize(m: Map, key: Key, data: seq<byte>)
    ensures |m[key := data]| == |m| + if key in m then 0 else 1
  {
    assert m[key := data].Keys == m.Keys + {key};
    assert |m[key := data].Keys| == |m[key := data]| && |m.Keys| == |m|;
    if key in m { assert m.Keys + {key} == m.Keys; }
  }

  lemma OneKey(key: Key, data: seq<byte>)
    ensures var m: Map := map[key := data]; |m| == 1 && m - {key} == map[]
  {
    PutSize(map[], key, data);
  }

  /** A completed set of a new key without a swap. */
  lemma NewKeyStep(c: Config, s: State, order: seq<Key>, z: seq<byte>)
    requires c.Ok() && Sound(c, s) && CanWalk(s, order) && s.ram.next < c.MaxRecords()
    requires c.KeySize() <= |z| && HasRoom(c, MapOf(c, s), z) && KeyOf(c.KeySize(), z) !in MapOf(c, s)
    ensures var t := Runs.Next(c, s, Done(SetOp(z, order)));
            && Sound(c, t) && CanWalk(t, order + [KeyOf(c.KeySize(), z)]) && MapOf(c, t) == Put(c, MapOf(c, s), z)
            && OnFlash(c, t) == Put(c, OnFlash(c, s), z)
            && t.ram.next == s.ram.next + 1 && t.ram.active == s.ram.active
  {
    hide Powered, Store, Shown, KeyOf, DataOf, Reachable, Config.Ok, Config.MaxRecords, Config.BodyMax, SwapCmds,
         SwapRam, IsWalk, ViewAt;
    var t, k := Runs.Next(c, s, Done(SetOp(z, order))), KeyOf(c.KeySize(), z);
    DoneRefinesMap(c, s, SetOp(z, order));
    SetResult(c, s.vol, s.ram, order, z);
    StoreAdvances(c, s, z);
    SwapsAre(c, s, SetOp(z, order));
    ShownSize(c, s);
    ShownSize(c, t);
    LongerWalk(s.ram, t.ram, order, k);
    WalkCompacts(c, t.vol, t.ram, order + [k]);
  }

  lemma AfterFirstIs(c: Config, a: seq<byte>)
    requires c.Ok() && CanDo(c, Rebooted(c, Blanked(c)), SetOp(a, []))
    ensures AfterFirst(c, a) == Runs.Next(c, Rebooted(c, Blanked(c)), Done(SetOp(a, [])))
  {
    hide Runs.Next, Rebooted, Blanked, CanDo;
  }

  lemma NothingToWalk(c: Config, s: State)
    requires Sound(c, s) && MapOf(c, s) == map[]
    ensures CanWalk(s, []) && |MapOf(c, s)| == 0
  {
    hide Powered, ViewAt, Shown;
    ShownSize(c, s);
  }

  lemma RunJoin(c: Config, states: seq<State>, events: seq<Event>, states': seq<State>, events': seq<Event>)
    requires IsRun(c, states, events) && IsRun(c, states', events') && states[|events|] == states'[0]
    ensures var all := states + states'[1..];
            IsRun(c, all, events + events') && all[0] == states[0] && all[|events + events'|] == states'[|events'|]
  {
    hide CanDo, Runs.Next;
    var all, evs := states + states'[1..], events + events';
    forall i | 0 <= i < |evs|
      ensures CanDo(c, all[i], evs[i].op) && all[i + 1] == Runs.Next(c, all[i], evs[i])
    {
      if i >= |events| {
        assert all[i] == states'[i - |events|] && all[i + 1] == states'[i - |events| + 1];
      }
    }
  }

  lemma SameWalk(c: Config, s: State, t: State, order: seq<Key>)
    requires c.Ok() && CanWalk(s, order) && Sound(c, t) && t.ram.dict.Keys == s.ram.dict.Keys
    ensures CanWalk(t, order)
  {
    hide Powered, Reachable;
    assert forall k :: k in t.ram.dict <==> k in s.ram.dict.Keys;
    assert forall k :: k in s.ram.dict <==> k in s.ram.dict.Keys;
    WalkCompacts(c, t.vol, t.ram, order);
  }
}
