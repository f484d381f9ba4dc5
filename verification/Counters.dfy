/** The counters over whole runs: no VALID record with a bad checksum is left, so inuse counts the VALID slots. */
module Counters {
  import opened Flash
  import opened Records
  import opened Volumes
  import opened Logs
  import opened Protocol
  import opened Recovery
  import opened Durability
  import opened Atomicity
  import opened Compaction
  import opened CrashSafety
  import opened Bookkeeping
  import opened Runs

  /** No slot holds a VALID record with a bad checksum. */
  predicate NoCorrupt(log: Log) { forall i :: 0 <= i < |log| ==> log[i] != Corrupt }

  predicate Checked(s: State) { NoCorrupt(LogOf(s.vol.At(s.ram.active))) }

  // ---------------------------------------------------------------- one operation

  lemma AppendLog(c: Config, v: Vol, w: Which, body: seq<byte>)
    requires Sole(c, v, w) && NextIdx(LogOf(v.At(w))) < c.MaxRecords()
    requires HEAD_SIZE + |body| <= c.recordSize < 0x1_0000
    ensures var n := NextIdx(LogOf(v.At(w)));
            LogOf(Flipped(v, w, n, body).At(w)) == LogOf(v.At(w))[n := Live(body)]
  {
    hide Parse, RecordBytes, Readable, NextIdx;
    var s, n := v.At(w), NextIdx(LogOf(v.At(w)));
    var data := RecordBytes(FLAGS_NEW, body);
    var written := Programmed(s.slots[n], 0, data);
    var raw := Programmed(written, 0, FLAGS_VALID);
    SlotMoment(v, w, n, data, |data|);
    assert data[..|data|] == data && FLAGS_VALID[..2] == FLAGS_VALID;
    SlotMoment(Written(v, w, n, body), w, n, FLAGS_VALID, 2);
    assert WithSlot(WithSlot(s, n, written), n, raw) == WithSlot(s, n, raw);
    CommitRecord(s.slots[n], body, 2);
    WithSlotLog(s, n, raw);
  }

  lemma ClearLog(v: Vol, w: Which, i: nat)
    requires i < |v.At(w).slots| && Readable(v.At(w).slots[i])
    ensures LogOf(Apply(v, ProgramSlot(w, i, FLAGS_INVALID)).At(w)) == LogOf(v.At(w))[i := Invalid]
  {
    hide Parse, Readable;
    var raw := v.At(w).slots[i];
    SlotMoment(v, w, i, FLAGS_INVALID, 2);
    assert FLAGS_INVALID[..2] == FLAGS_INVALID;
    ClearFlags(raw, 2);
    WithSlotLog(v.At(w), i, Programmed(raw, 0, FLAGS_INVALID));
  }

  lemma NoCorruptWith(log: Log, i: nat, cell: Content)
    requires NoCorrupt(log) && i < |log| && cell != Corrupt
    ensures NoCorrupt(log[i := cell])
  {
  }

  lemma StoreStaysChecked(c: Config, v: Vol, ram: Ram, body: seq<byte>)
    requires c.Ok() && Powered(c, v, ram) && c.KeySize() <= |body| && NoCorrupt(LogOf(v.At(ram.active)))
    requires Accepts(c, ram, body) ==> ram.next < c.MaxRecords()
    ensures NoCorrupt(LogOf(Exec(v, Store(c, v, ram, body).cmds).At(ram.active)))
  {
    hide Parse, Readable, Powered, LogOf, KeyOf, NewestAt, Sole, Flipped, NoCorrupt, AppendCmds, AlreadyStored, Store,
         NextIdx, Config.MaxRecords;
    var key, w := KeyOf(c.KeySize(), body), ram.active;
    StoreIs(c, v, ram, body);
    if Accepts(c, ram, body) && !AlreadyStored(c, v, ram, body) {
      NextIs(c, v, ram);
      FitsSlot(c, body);
      AppendLog(c, v, w, body);
      NextBound(c, v, ram);
      SoleSize(c, v, w);
      NoCorruptWith(LogOf(v.At(w)), ram.next, Live(body));
      StoreImages(v, ram, body, key);
      if key in ram.dict {
        var u, i := Flipped(v, w, ram.next, body), ram.dict[key].idx;
        EntryReadable(c, v, ram, body);
        ClearLog(u, w, i);
        NoCorruptWith(LogOf(u.At(w)), i, Invalid);
        ExecOne(u, ProgramSlot(w, i, FLAGS_INVALID));
      }
    }
  }

  lemma FitsSlot(c: Config, body: seq<byte>)
    requires c.Ok() && |body| <= c.BodyMax()
    ensures HEAD_SIZE + |body| <= c.recordSize < 0x1_0000
  {
    hide Config.MaxRecords;
  }

  lemma SoleSize(c: Config, v: Vol, w: Which)
    requires Sole(c, v, w)
    ensures |LogOf(v.At(w))| == |v.At(w).slots| == c.MaxRecords()
  {
    hide Parse, NextIdx;
  }

  /** The superseded record is still readable once the new one has been appended. */
  lemma EntryReadable(c: Config, v: Vol, ram: Ram, body: seq<byte>)
    requires c.Ok() && Powered(c, v, ram) && ram.next < c.MaxRecords() && c.KeySize() <= |body| <= c.BodyMax()
    requires KeyOf(c.KeySize(), body) in ram.dict
    ensures var u, i := Flipped(v, ram.active, ram.next, body), ram.dict[KeyOf(c.KeySize(), body)].idx;
            i < |u.At(ram.active).slots| && Readable(u.At(ram.active).slots[i])
  {
    hide Parse, Readable, Powered, LogOf, KeyOf, NewestAt, Flipped, NextIdx, Config.MaxRecords;
    var u := Flipped(v, ram.active, ram.next, body);
    Superseded(c, v, ram, body);
    LiveIsReadable(u.At(ram.active), ram.dict[KeyOf(c.KeySize(), body)].idx);
  }

  lemma DeleteStaysChecked(c: Config, v: Vol, ram: Ram, key: Key)
    requires Powered(c, v, ram) && NoCorrupt(LogOf(v.At(ram.active)))
    ensures NoCorrupt(LogOf(Exec(v, Delete(ram, key).cmds).At(ram.active)))
  {
    hide Parse, Readable, Powered, LogOf, NewestAt, NoCorrupt, NextIdx;
    if key in ram.dict {
      var i := ram.dict[key].idx;
      EntryLeads(c, v, ram, key);
      ClearLog(v, ram.active, i);
      NoCorruptWith(LogOf(v.At(ram.active)), i, Invalid);
      ExecOne(v, ProgramSlot(ram.active, i, FLAGS_INVALID));
    }
  }

  lemma PackedHasNoCorrupt(log: Log, idxs: seq<nat>, size: nat)
    requires AllLive(log, idxs)
    ensures NoCorrupt(Packed(log, idxs, size))
  {
  }

  lemma SwapIsChecked(c: Config, v: Vol, ram: Ram, order: seq<Key>)
    requires c.Ok() && Powered(c, v, ram) && IsWalk(ram, order) && Reachable(v, ram)
    ensures NoCorrupt(LogOf(Exec(v, SwapCmds(c, v, ram, order)).At(ram.active.Other())))
  {
    hide Parse, Readable, Powered, LogOf, NewestAt, NoCorrupt, SwapCmds, SwapRam, Committed, CanCompact, SlotsOfKeys,
         Sole, Reachable, SlotsInOrder, Packed, AllLive;
    var dst, idxs := ram.active.Other(), SlotsInOrder(ram, order);
    WalkCompacts(c, v, ram, order);
    CompactsReadable(c, v, dst, idxs);
    SwapFinal(c, v, ram, order, idxs, dst);
    SlotsAreLive(c.KeySize(), LogOf(v.At(ram.active)), idxs, order);
    PackedHasNoCorrupt(LogOf(v.At(ram.active)), idxs, c.MaxRecords());
  }

  lemma SetStaysChecked(c: Config, s: State, body: seq<byte>, order: seq<Key>)
    requires c.Ok() && Sound(c, s) && CanDo(c, s, SetOp(body, order)) && Checked(s)
    ensures Checked(Next(c, s, Done(SetOp(body, order))))
  {
    hide Powered, LogOf, NewestAt, NoCorrupt, SwapCmds, SwapRam, Store, KeyOf, IsWalk, Reachable, NoShadow, ViewAt,
         Shown, Config.MaxRecords, Config.Ok;
    NextBound(c, s.vol, s.ram);
    if s.ram.next >= c.MaxRecords() {
      var swap, ram := SwapCmds(c, s.vol, s.ram, order), SwapRam(c, s.vol, s.ram, order);
      var u := Exec(s.vol, swap);
      SwapResult(c, s.vol, s.ram, order);
      SwapIsChecked(c, s.vol, s.ram, order);
      SameSize(s.ram.dict, ram.dict);
      StoreStaysChecked(c, u, ram, body);
      StoreKeepsSector(c, u, ram, body);
      ExecAppend(s.vol, swap, Store(c, u, ram, body).cmds);
    } else {
      StoreStaysChecked(c, s.vol, s.ram, body);
      StoreKeepsSector(c, s.vol, s.ram, body);
    }
  }

  lemma StoreKeepsSector(c: Config, v: Vol, ram: Ram, body: seq<byte>)
    ensures Store(c, v, ram, body).ram.active == ram.active
  {
    hide Parse, Readable, BodyOf, KeyOf, MakeEntry, RecordBytes, Config.MaxRecords;
  }

  // ---------------------------------------------------------------- loads and runs

  lemma LoadIsChecked(c: Config, v: Vol, w: Which)
    requires c.Ok() && Durable(c, v, w)
    ensures Checked(Rebooted(c, v))
  {
    hide Parse, NewestAt, LoadCmds, LoadRam, SectorOk, NextIdx, Durable, CountLive, CountOf;
    var t := Rebooted(c, v);
    var log := LogOf(t.vol.At(t.ram.active));
    Boot(c, v, w);
    LoadCounts(c, v);
    NoneBefore(log, t.ram.next);
    forall i | t.ram.next <= i < |log|
      ensures log[i] == Empty
    {
      FreeIsEmpty(c, t.vol, t.ram, i);
      assert log[i] == Parse(t.vol.At(t.ram.active).slots[i]);
    }
  }

  lemma {:induction false} NoneBefore(log: Log, n: nat)
    requires n <= |log| && CountOf(Corrupt, log, n) == 0
    ensures forall i :: 0 <= i < n ==> log[i] != Corrupt
  {
    if n > 0 {
      NoneBefore(log, n - 1);
    }
  }

  /** From a load on, in every state of a run, wherever power fails. */
  lemma {:induction false} RunsStayChecked(c: Config, states: seq<State>, events: seq<Event>, i: nat)
    requires c.Ok() && IsRun(c, states, events) && Sound(c, states[0]) && Checked(states[0]) && i <= |events|
    ensures Sound(c, states[i]) && Checked(states[i])
  {
    hide Sound, Checked, Next, CanDo, MayRecover, Shown;
    RunsStaySound(c, states, events, i);
    if i > 0 {
      RunsStayChecked(c, states, events, i - 1);
      StepStaysChecked(c, states[i - 1], events[i - 1]);
    }
  }

  lemma StepStaysChecked(c: Config, s: State, e: Event)
    requires c.Ok() && Sound(c, s) && CanDo(c, s, e.op) && Checked(s)
    ensures Checked(Next(c, s, e))
  {
    hide Powered, LogOf, NewestAt, NoCorrupt, Set, IsWalk, Reachable, MayRecover, Durable, AfterCuts, ViewAt, Shown,
         LoadCmds, LoadRam, Images, Rebooted;
    match e {
      case Done(op) =>
        match op {
          case SetOp(body, order) => SetStaysChecked(c, s, body, order);
          case DeleteOp(key) => DeleteStaysChecked(c, s.vol, s.ram, key);
        }
      case Cut(op, at, loads) =>
        var w := WreckIsDurable(c, s, op, at, loads);
        LoadIsChecked(c, Wreck(c, s, op, at, loads), w);
    }
  }

  lemma WreckIsDurable(c: Config, s: State, op: Op, at: nat, loads: seq<nat>) returns (w: Which)
    requires c.Ok() && Sound(c, s) && CanDo(c, s, op)
    ensures Durable(c, Wreck(c, s, op, at, loads), w)
  {
    hide Powered, NewestAt, Result, MayRecover, ViewAt, Durable, AfterCuts, Images;
    var cmds := Result(c, s, op).cmds;
    var n := |Images(s.vol, cmds)|;
    var x := Torn(s.vol, cmds, if at <= n then at else n);
    var m := TornStores(c, s, op, x);
    w :| Durable(c, x, w) && ViewAt(c, x, w) == m;
    RecoveryIsIdempotent(c, x, w, loads);
  }

  /** Then inuse is the number of VALID slots of the sector, whatever their checksums. */
  lemma InUseIsValid(c: Config, s: State)
    requires c.Ok() && Sound(c, s) && Checked(s)
    ensures var log := LogOf(s.vol.At(s.ram.active));
            s.ram.inuse == CountLive(log, |log|) + CountOf(Corrupt, log, |log|) && CountOf(Corrupt, log, |log|) == 0
  {
    hide Powered, LogOf, CountLive, CountOf;
    CountsCoverSector(c, s.vol, s.ram);
    var log := LogOf(s.vol.At(s.ram.active));
    NoneCorrupt(log, |log|);
  }

  lemma {:induction false} NoneCorrupt(log: Log, n: nat)
    requires NoCorrupt(log) && n <= |log|
    ensures CountOf(Corrupt, log, n) == 0
  {
    if n > 0 {
      NoneCorrupt(log, n - 1);
    }
  }
}
