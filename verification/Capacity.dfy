/**
 * The capacity of a volume in numbers: how many slots a sector has, which records fit one, and how many records a
 * store takes before it refuses.
 */
module Capacity {
  import opened ErrorDef
  import opened Flash
  import opened Logs
  import opened Protocol
  import opened Durability
  import opened Atomicity
  import opened Compaction
  import opened CrashSafety
  import opened Runs
  import opened Scenarios

  /** A sector has as many slots as fit behind its first 32 bytes. */
  lemma SlotsOfSector(c: Config)
    requires 0 < c.recordSize && 32 <= c.sectorSize
    ensures c.recordSize * c.MaxRecords() + 32 <= c.sectorSize < c.recordSize * c.MaxRecords() + c.recordSize + 32
  {
    MaxRecordsFit(c);
  }

  /** A key and data fit a slot with a header of eight bytes, and a store refuses four slots before it is full. */
  lemma SetStatus(c: Config, s: State, body: seq<byte>, order: seq<Key>)
    requires c.Ok() && Sound(c, s) && CanDo(c, s, SetOp(body, order))
    ensures Result(c, s, SetOp(body, order)).status
            == if |body| + 8 <= c.recordSize && |MapOf(c, s)| + 4 < c.MaxRecords() then EOK else EFAIL
    ensures MapOf(c, Next(c, s, Done(SetOp(body, order))))
            == if |body| + 8 <= c.recordSize && |MapOf(c, s)| + 4 < c.MaxRecords()
               then MapOf(c, s)[KeyOf(c.KeySize(), body) := DataOf(c.KeySize(), body)] else MapOf(c, s)
  {
    hide Powered, Exact, Shown, KeyOf, DataOf, Set, Reachable, IsWalk, ViewAt, Config.MaxRecords;
    SetResult(c, s.vol, s.ram, order, body);
    DoneRefinesMap(c, s, SetOp(body, order));
    ShownSize(c, s);
  }

  // ---------------------------------------------------------------- filling a store

  /** Records that fit, with different keys that are not in the map. */
  predicate Different(c: Config, m: Map, bodies: seq<seq<byte>>) {
    && (forall i :: 0 <= i < |bodies| ==> c.KeySize() <= |bodies[i]| && |bodies[i]| + 8 <= c.recordSize)
    && (forall i :: 0 <= i < |bodies| ==> KeyOf(c.KeySize(), bodies[i]) !in m)
    && (forall i, j :: 0 <= i < j < |bodies| ==> KeyOf(c.KeySize(), bodies[i]) != KeyOf(c.KeySize(), bodies[j]))
  }

  lemma DifferentRest(c: Config, m: Map, bodies: seq<seq<byte>>)
    requires Different(c, m, bodies) && bodies != []
    ensures c.KeySize() <= |bodies[0]| && |bodies[0]| + 8 <= c.recordSize && KeyOf(c.KeySize(), bodies[0]) !in m
    ensures Different(c, Put(c, m, bodies[0]), bodies[1..])
  {
    hide KeyOf, DataOf;
  }

  /** The map has all of these records, and what it had before. */
  predicate HasAll(c: Config, m: Map, m': Map, bodies: seq<seq<byte>>) {
    && |m'| == |m| + |bodies|
    && (forall k :: k in m ==> k in m' && m'[k] == m[k])
    && (forall i :: 0 <= i < |bodies| ==>
          KeyOf(c.KeySize(), bodies[i]) in m' && m'[KeyOf(c.KeySize(), bodies[i])] == DataOf(c.KeySize(), bodies[i]))
  }

  lemma HasAllNext(c: Config, m: Map, m': Map, bodies: seq<seq<byte>>)
    requires bodies != [] && KeyOf(c.KeySize(), bodies[0]) !in m && HasAll(c, Put(c, m, bodies[0]), m', bodies[1..])
    ensures HasAll(c, m, m', bodies)
  {
    hide KeyOf, DataOf;
    PutSize(m, KeyOf(c.KeySize(), bodies[0]), DataOf(c.KeySize(), bodies[0]));
    forall i | 0 <= i < |bodies|
      ensures KeyOf(c.KeySize(), bodies[i]) in m'
      ensures m'[KeyOf(c.KeySize(), bodies[i])] == DataOf(c.KeySize(), bodies[i])
    {
      if i > 0 { assert bodies[i] == bodies[1..][i - 1]; }
    }
  }

  /** Completed sets that all return EOK. */
  predicate AllOk(c: Config, states: seq<State>, events: seq<Event>)
    requires IsRun(c, states, events)
  {
    forall i :: 0 <= i < |events| ==> events[i].Done? && Result(c, states[i], events[i].op).status == EOK
  }

  lemma OkFirst(c: Config, s: State, e: Event, states: seq<State>, events: seq<Event>)
    requires IsRun(c, states, events) && AllOk(c, states, events) && CanDo(c, s, e.op) && states[0] == Next(c, s, e)
    requires e.Done? && Result(c, s, e.op).status == EOK
    ensures IsRun(c, [s] + states, [e] + events) && AllOk(c, [s] + states, [e] + events)
    ensures ([s] + states)[|[e] + events|] == states[|events|]
  {
    hide CanDo, Next, Result;
    RunFrom(c, s, e, states, events);
    forall i | 0 <= i < |[e] + events|
      ensures ([e] + events)[i].Done? && Result(c, ([s] + states)[i], ([e] + events)[i].op).status == EOK
    {
      if i > 0 { assert ([e] + events)[i] == events[i - 1] && ([s] + states)[i] == states[i - 1]; }
    }
  }

  lemma {:induction false} StoresAll(c: Config, s: State, order: seq<Key>, bodies: seq<seq<byte>>)
    returns (states: seq<State>, events: seq<Event>)
    requires c.Ok() && Sound(c, s) && CanWalk(s, order) && Different(c, MapOf(c, s), bodies)
    requires |MapOf(c, s)| + |bodies| + 4 <= c.MaxRecords() && s.ram.next + |bodies| <= c.MaxRecords()
    ensures IsRun(c, states, events) && |events| == |bodies| && states[0] == s && AllOk(c, states, events)
    ensures HasAll(c, MapOf(c, s), MapOf(c, states[|events|]), bodies)
    decreases |bodies|
  {
    hide Powered, Shown, KeyOf, DataOf, Next, IsWalk, Reachable, Config.Ok, Config.MaxRecords, Different, HasAll,
         Result;
    if bodies == [] {
      states, events := [s], [];
      NothingStored(c, MapOf(c, s));
    } else {
      var e, k := Done(SetOp(bodies[0], order)), KeyOf(c.KeySize(), bodies[0]);
      DifferentRest(c, MapOf(c, s), bodies);
      SetStatus(c, s, bodies[0], order);
      NewKeyStep(c, s, order, bodies[0]);
      PutSize(MapOf(c, s), k, DataOf(c.KeySize(), bodies[0]));
      var rest, later := StoresAll(c, Next(c, s, e), order + [k], bodies[1..]);
      OkFirst(c, s, e, rest, later);
      HasAllNext(c, MapOf(c, s), MapOf(c, rest[|later|]), bodies);
      states, events := [s] + rest, [e] + later;
    }
  }

  lemma NothingStored(c: Config, m: Map)
    ensures HasAll(c, m, m, [])
  {
  }

  /**
   * From a format: up to max_records - 4 records that fit, with different keys, are all accepted and all there in the
   * end. Once there are max_records - 4, every set is refused, an update of a stored key included.
   */
  lemma StoreHolds(c: Config, bodies: seq<seq<byte>>) returns (states: seq<State>, events: seq<Event>)
    requires c.Ok() && |bodies| + 4 <= c.MaxRecords() && Different(c, map[], bodies)
    ensures IsRun(c, states, events) && |events| == |bodies| && AllOk(c, states, events)
    ensures states[0] == Rebooted(c, Blanked(c)) && HasAll(c, map[], MapOf(c, states[|events|]), bodies)
    ensures |bodies| + 4 == c.MaxRecords() ==>
              forall body, order :: CanDo(c, states[|events|], SetOp(body, order)) ==>
                && Result(c, states[|events|], SetOp(body, order)).status == EFAIL
                && MapOf(c, Next(c, states[|events|], Done(SetOp(body, order)))) == MapOf(c, states[|events|])
  {
    hide Powered, Exact, Shown, KeyOf, DataOf, Next, IsWalk, Reachable, Config.Ok, Config.MaxRecords, Different, Result,
         Rebooted, Blanked, CanDo;
    FormatIsEmpty(c);
    NothingToWalk(c, Rebooted(c, Blanked(c)));
    states, events := StoresAll(c, Rebooted(c, Blanked(c)), [], bodies);
    RunsStaySound(c, states, events, |events|);
    var t := states[|events|];
    forall body, order | |bodies| + 4 == c.MaxRecords() && CanDo(c, t, SetOp(body, order))
      ensures Result(c, t, SetOp(body, order)).status == EFAIL
      ensures MapOf(c, Next(c, t, Done(SetOp(body, order)))) == MapOf(c, t)
    {
      SetStatus(c, t, body, order);
    }
  }
}
