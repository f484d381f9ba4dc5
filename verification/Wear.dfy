/**
 * The volume's limit, and how much a run wears the flash: a write takes one slot and so does a power failure
 * at worst, and the store changes to its other sector at most once in four slots.
 */
module Wear {
  import opened Cardinality
  import opened Flash
  import opened Records
  import opened Volumes
  import opened Logs
  import opened Protocol
  import opened Durability
  import opened Atomicity
  import opened Compaction
  import opened CrashSafety
  import opened Runs
  import opened FreeSlots

  // ---------------------------------------------------------------- the limit

  predicate WithinLimit(c: Config, s: State) { |MapOf(c, s)| <= c.MaxRecords() - HEADROOM }

  lemma MapAfterLimit(c: Config, m: Map, op: Op)
    requires c.Ok() && |m| <= c.MaxRecords() - HEADROOM
    ensures |MapAfter(c, m, op)| <= c.MaxRecords() - HEADROOM
  {
    hide KeyOf, DataOf, Config.MaxRecords, Config.BodyMax;
    match op {
      case SetOp(body, _) => UpdateSize(m, KeyOf(c.KeySize(), body), DataOf(c.KeySize(), body));
      case DeleteOp(key) => RemoveSize(m, key);
    }
  }

  lemma UpdateSize(m: Map, key: Key, data: seq<byte>)
    ensures |m[key := data]| <= |m| + 1
  {
    assert m[key := data].Keys == m.Keys + {key};
    assert |m[key := data].Keys| <= |m.Keys| + 1;
  }

  lemma RemoveSize(m: Map, key: Key)
    ensures |m - {key}| <= |m|
  {
    SubsetSize((m - {key}).Keys, m.Keys);
    assert |m - {key}| == |(m - {key}).Keys|;
  }

  /** Power failures or not, the number of records stays within the limit, as long as deletes meet no older record. */
  lemma {:induction false} RunsStayWithinLimit(c: Config, states: seq<State>, events: seq<Event>, i: nat)
    requires c.Ok() && IsRun(c, states, events) && Faithful(c, states[0]) && WithinLimit(c, states[0]) && i <= |events|
    requires forall j :: 0 <= j < i ==> CleanDelete(c, states[j], events[j].op)
    ensures WithinLimit(c, states[i]) && |MapOf(c, states[i])| + 4 <= c.MaxRecords()
  {
    hide Faithful, CleanDelete, Shown, Next, CanDo, MapAfter;
    if i > 0 {
      RunsStayWithinLimit(c, states, events, i - 1);
      RunsAreAtomic(c, states, events, i);
      MapAfterLimit(c, MapOf(c, states[i - 1]), events[i - 1].op);
      assert Allowed(c, MapOf(c, states[i - 1]), events[i - 1], MapOf(c, states[i]));
    }
  }

  // ---------------------------------------------------------------- swaps and what they cost

  /** The store has changed to its other sector. */
  predicate Swaps(s: State, t: State) { t.ram.active != s.ram.active }

  /** An operation that completes does so exactly if it is a set that finds its sector full. */
  lemma SwapsAre(c: Config, s: State, op: Op)
    requires CanDo(c, s, op)
    ensures Swaps(s, Next(c, s, Done(op))) <==> op.SetOp? && s.ram.next >= c.MaxRecords()
  {
    hide SwapCmds, Reachable, IsWalk, LogOf, Config.MaxRecords, Config.BodyMax, BodyOf, KeyOf, MakeEntry, Readable;
  }

  function SwapCount(states: seq<State>, i: nat): nat
    requires i < |states|
  {
    if i == 0 then 0 else SwapCount(states, i - 1) + if Swaps(states[i - 1], states[i]) then 1 else 0
  }

  /** What the swaps have freed: the whole sector but for one slot for each key. */
  function Freed(c: Config, states: seq<State>, i: nat): int
    requires i < |states|
  {
    if i == 0 then 0
    else Freed(c, states, i - 1)
         + if Swaps(states[i - 1], states[i]) then c.MaxRecords() - |MapOf(c, states[i - 1])| else 0
  }

  /** The slots that completed sets have filled with new records. */
  function WriteCount(c: Config, states: seq<State>, events: seq<Event>, i: nat): nat
    requires |states| == |events| + 1 && i <= |events|
  {
    if i == 0 then 0
    else WriteCount(c, states, events, i - 1) + if Writes(c, states[i - 1], events[i - 1]) then 1 else 0
  }

  /** The record of a completed set was accepted and is not already there. */
  predicate Writes(c: Config, s: State, e: Event) {
    && e.Done? && e.op.SetOp? && HasRoom(c, MapOf(c, s), e.op.body)
    && !(KeyOf(c.KeySize(), e.op.body) in MapOf(c, s)
         && MapOf(c, s)[KeyOf(c.KeySize(), e.op.body)] == DataOf(c.KeySize(), e.op.body))
  }

  function CutCount(events: seq<Event>, i: nat): nat
    requires i <= |events|
  {
    if i == 0 then 0 else CutCount(events, i - 1) + if events[i - 1].Cut? then 1 else 0
  }

  lemma SameBody(c: Config, a: seq<byte>, b: seq<byte>)
    requires c.KeySize() <= |a| && c.KeySize() <= |b|
    ensures KeyOf(c.KeySize(), a) == KeyOf(c.KeySize(), b) && DataOf(c.KeySize(), a) == DataOf(c.KeySize(), b)
            <==> a == b
  {
    KeyAndData(c.KeySize(), a);
    KeyAndData(c.KeySize(), b);
  }

  /** The store leaves a record alone exactly when the map already has it. */
  lemma AlreadyIs(c: Config, s: State, body: seq<byte>)
    requires Sound(c, s) && c.KeySize() <= |body|
    ensures var key := KeyOf(c.KeySize(), body);
            AlreadyStored(c, s.vol, s.ram, body)
            <==> key in MapOf(c, s) && MapOf(c, s)[key] == DataOf(c.KeySize(), body)
  {
    var key := KeyOf(c.KeySize(), body);
    if key in s.ram.dict {
      hide Parse, Powered, NewestAt, LogOf, Readable;
      EntryLeads(c, s.vol, s.ram, key);
      SoleSized(c, s.vol, s.ram);
      SameBody(c, body, NewestAt(c, s.vol, s.ram.active)[key].body);
    }
  }

  lemma StoreAdvances(c: Config, s: State, body: seq<byte>)
    requires Sound(c, s) && c.KeySize() <= |body|
    ensures var key := KeyOf(c.KeySize(), body);
            Store(c, s.vol, s.ram, body).ram.next
            == s.ram.next + if HasRoom(c, MapOf(c, s), body)
                               && !(key in MapOf(c, s) && MapOf(c, s)[key] == DataOf(c.KeySize(), body)) then 1 else 0
  {
    hide Parse, Powered, NewestAt, LogOf, KeyOf, DataOf, Shown, Store;
    StoreIs(c, s.vol, s.ram, body);
    AlreadyIs(c, s, body);
    ShownSize(c, s);
  }

  /** A completed set moves the next free slot by what it writes, and back by what its swap frees. */
  lemma SetAdvances(c: Config, s: State, body: seq<byte>, order: seq<Key>)
    requires c.Ok() && Sound(c, s) && CanDo(c, s, SetOp(body, order))
    ensures var e := Done(SetOp(body, order));
            Next(c, s, e).ram.next + (if s.ram.next >= c.MaxRecords() then c.MaxRecords() - |MapOf(c, s)| else 0)
            == s.ram.next + if Writes(c, s, e) then 1 else 0
  {
    hide Parse, Powered, NewestAt, LogOf, KeyOf, DataOf, Shown, Store, SwapCmds, SwapRam, Reachable, IsWalk;
    NextBound(c, s.vol, s.ram);
    if s.ram.next >= c.MaxRecords() {
      var u := State(Exec(s.vol, SwapCmds(c, s.vol, s.ram, order)), SwapRam(c, s.vol, s.ram, order));
      SwapResult(c, s.vol, s.ram, order);
      ExactShows(c, u.vol, u.ram);
      ShownSize(c, s);
      StoreAdvances(c, u, body);
    } else {
      StoreAdvances(c, s, body);
    }
  }

  /** An event that is cut short moves it by one at most. */
  lemma CutAdvances(c: Config, s: State, op: Op, at: nat, loads: seq<nat>)
    requires c.Ok() && Sound(c, s) && CanDo(c, s, op)
    ensures var t := Next(c, s, Cut(op, at, loads));
            && t.ram.next + (if Swaps(s, t) then c.MaxRecords() - |MapOf(c, s)| else 0) <= s.ram.next + 1
            && (Swaps(s, t) ==> s.ram.next >= c.MaxRecords())
  {
    hide Powered, Shown, Next, CanDo, Config.MaxRecords;
    ShownSize(c, s);
    CutTakesOne(c, s, op, at, loads);
  }

  lemma StepWear(c: Config, s: State, e: Event)
    requires c.Ok() && Sound(c, s) && CanDo(c, s, e.op)
    ensures var t := Next(c, s, e);
            var after := t.ram.next + if Swaps(s, t) then c.MaxRecords() - |MapOf(c, s)| else 0;
            && after <= s.ram.next + (if Writes(c, s, e) || e.Cut? then 1 else 0)
            && (e.Done? ==> after == s.ram.next + if Writes(c, s, e) then 1 else 0)
            && (Swaps(s, t) ==> s.ram.next >= c.MaxRecords())
  {
    hide Powered, Shown, Set, Delete, Reachable, IsWalk, KeyOf, DataOf, HasRoom, Config.MaxRecords;
    match e {
      case Cut(op, at, loads) => CutAdvances(c, s, op, at, loads);
      case Done(op) =>
        SwapsAre(c, s, op);
        match op {
          case SetOp(body, order) => SetAdvances(c, s, body, order);
          case DeleteOp(key) => DeleteAdvances(c, s, key);
        }
    }
  }

  lemma DeleteAdvances(c: Config, s: State, key: Key)
    ensures Next(c, s, Done(DeleteOp(key))).ram.next == s.ram.next
  {
  }

  lemma CompletedWrites(c: Config, s: State, e: Event)
    ensures Writes(c, s, e) ==> !e.Cut?
  {
  }

  // ---------------------------------------------------------------- runs

  /**
   * Over any run, whatever its deletes were and wherever power failed: what the swaps free is what has been
   * written, up to one slot for each power failure, and exactly that if power never fails.
   */
  lemma {:induction false} SlotsAreAccountedFor(c: Config, states: seq<State>, events: seq<Event>, i: nat)
    requires c.Ok() && IsRun(c, states, events) && Sound(c, states[0]) && i <= |events|
    ensures Freed(c, states, i) + states[i].ram.next
            <= states[0].ram.next + WriteCount(c, states, events, i) + CutCount(events, i)
    ensures CutCount(events, i) == 0 ==>
              Freed(c, states, i) + states[i].ram.next == states[0].ram.next + WriteCount(c, states, events, i)
  {
    hide Sound, CanDo, Swaps, Writes, Next, Shown, Config.MaxRecords, Config.Ok;
    if i > 0 {
      SlotsAreAccountedFor(c, states, events, i - 1);
      RunsStaySound(c, states, events, i);
      StepWear(c, states[i - 1], events[i - 1]);
      CompletedWrites(c, states[i - 1], events[i - 1]);
    }
  }

  /** Within the limit a swap frees at least four slots. */
  lemma {:induction false} SwapsFree(c: Config, states: seq<State>, i: nat)
    requires i < |states| && forall j :: 0 <= j < i ==> WithinLimit(c, states[j])
    ensures HEADROOM * SwapCount(states, i) <= Freed(c, states, i)
  {
    hide Swaps, Shown, Config.MaxRecords;
    if i > 0 {
      SwapsFree(c, states, i - 1);
      assert WithinLimit(c, states[i - 1]);
    }
  }

  /**
   * The wear bound: over any run within the limit, with power failures anywhere, four times the number of
   * swaps is paid for by the slots written and one slot for each power failure.
   */
  lemma WearIsBounded(c: Config, states: seq<State>, events: seq<Event>, i: nat)
    requires c.Ok() && IsRun(c, states, events) && Sound(c, states[0]) && i <= |events|
    requires forall j :: 0 <= j < i ==> WithinLimit(c, states[j])
    ensures 4 * SwapCount(states, i) + states[i].ram.next
            <= states[0].ram.next + WriteCount(c, states, events, i) + CutCount(events, i)
  {
    hide CanDo, Next, Sound, WithinLimit, Freed, SwapCount, WriteCount, CutCount, Config.Ok, Config.MaxRecords;
    SlotsAreAccountedFor(c, states, events, i);
    SwapsFree(c, states, i);
  }

  lemma SwapWear(c: Config, s: State, e: Event)
    requires c.Ok() && Sound(c, s) && CanDo(c, s, e.op) && WithinLimit(c, s)
    ensures Next(c, s, e).ram.next + (if Swaps(s, Next(c, s, e)) then HEADROOM else 0)
            <= s.ram.next + (if Writes(c, s, e) then 1 else 0) + (if e.Cut? then 1 else 0)
    ensures Swaps(s, Next(c, s, e)) ==> s.ram.next >= c.MaxRecords()
  {
    hide Sound, CanDo, Next, Shown, Swaps, Writes, Config.Ok, Config.MaxRecords;
    StepWear(c, s, e);
    CompletedWrites(c, s, e);
  }

  /** Since a swap the next free slot has moved by what has been written and by one for each power failure. */
  lemma {:induction false} SinceSwap(c: Config, states: seq<State>, events: seq<Event>, a: nat, b: nat)
    requires c.Ok() && IsRun(c, states, events) && Sound(c, states[0]) && a < b <= |events|
    requires forall j :: a <= j < b ==> WithinLimit(c, states[j])
    requires Swaps(states[a], states[a + 1])
    ensures states[b].ram.next + HEADROOM + WriteCount(c, states, events, a) + CutCount(events, a)
            <= c.MaxRecords() + WriteCount(c, states, events, b) + CutCount(events, b)
  {
    hide Powered, CanDo, Shown, WithinLimit, Swaps, Writes, Next, Config.Ok, Config.MaxRecords;
    RunsStaySound(c, states, events, b);
    SwapWear(c, states[b - 1], events[b - 1]);
    if a == b - 1 {
      NextBound(c, states[a].vol, states[a].ram);
    } else {
      SinceSwap(c, states, events, a, b - 1);
    }
  }

  /** Between any two swaps at least four slots are written, but for one for each power failure between them. */
  lemma SwapsApart(c: Config, states: seq<State>, events: seq<Event>, a: nat, b: nat)
    requires c.Ok() && IsRun(c, states, events) && Sound(c, states[0]) && a < b < |events|
    requires forall j :: a <= j < b ==> WithinLimit(c, states[j])
    requires Swaps(states[a], states[a + 1]) && Swaps(states[b], states[b + 1])
    ensures WriteCount(c, states, events, b) + CutCount(events, b)
            >= WriteCount(c, states, events, a) + CutCount(events, a) + 4
  {
    hide Sound, WithinLimit, WriteCount, CutCount, Swaps, Next, CanDo, Config.Ok;
    RunsStaySound(c, states, events, b);
    SinceSwap(c, states, events, a, b);
    StepWear(c, states[b], events[b]);
  }
}
