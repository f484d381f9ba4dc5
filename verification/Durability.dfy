/**
 * What flash must look like for a map to survive a power failure, and the proof that loading such a
 * volume finds that map, also when the load itself is cut short any number of times.
 */
module Durability {
  import opened Flash
  import opened Records
  import opened Volumes
  import opened Logs
  import opened Protocol
  import opened Recovery

  /** Live records hold at least a key. */
  predicate Sized(c: Config, log: Log) {
    forall i :: 0 <= i < |log| && log[i].Live? ==> c.KeySize() <= |log[i].body|
  }

  /** From the first empty slot on, everything is erased. */
  predicate TailErased(s: Sector) {
    forall i :: NextIdx(LogOf(s)) <= i < |s.slots| ==> AllErased(s.slots[i])
  }

  /** A sector the store can work in. */
  predicate SectorOk(c: Config, s: Sector) {
    && Shape(c, s)
    && s.head == HeadBytes(c, SECTOR_VALID)
    && TailErased(s)
    && Sized(c, LogOf(s))
  }

  /**
   * Sector w holds the map. The other one is erased, or a compaction into it was cut short, or one out
   * of it was: then both are VALID and a load takes sector one.
   */
  predicate Durable(c: Config, v: Vol, w: Which) {
    && Shaped(c, v)
    && SectorOk(c, v.At(w))
    && (v.At(w.Other()) == ErasedSector(c)
        || FlagsOf(v.At(w.Other())) == FInitializing
        || (w == One && SectorOk(c, v.two)))
  }

  /** A load of v finds the map m. */
  ghost predicate Stores(c: Config, v: Vol, m: map<Key, seq<byte>>) {
    exists w :: Durable(c, v, w) && ViewAt(c, v, w) == m
  }

  lemma ValidFlags(c: Config, s: Sector)
    requires SectorOk(c, s)
    ensures FlagsOf(s) == FValid
  {
    assert s.head[..4] == SECTOR_VALID;
  }

  // ---------------------------------------------------------------- the scan

  /** t is s after some of its corrupt records have been marked, perhaps not completely. */
  predicate Marked(s: Sector, t: Sector) {
    && t.head == s.head && |t.slots| == |s.slots|
    && forall i :: 0 <= i < |s.slots| ==>
         && |t.slots[i]| == |s.slots[i]|
         && (t.slots[i] == s.slots[i]
             || (Parse(s.slots[i]) == Corrupt && (Parse(t.slots[i]) == Unreadable || Parse(t.slots[i]) == Invalid)))
  }

  lemma MarkedKeeps(c: Config, s: Sector, t: Sector)
    requires SectorOk(c, s) && Marked(s, t)
    ensures SectorOk(c, t)
    ensures NextIdx(LogOf(t)) == NextIdx(LogOf(s))
    ensures Newest(c.KeySize(), LogOf(t), NextIdx(LogOf(t))) == Newest(c.KeySize(), LogOf(s), NextIdx(LogOf(s)))
  {
    var n := NextIdx(LogOf(s));
    assert forall i :: 0 <= i < |s.slots| ==> LogOf(t)[i] == Parse(t.slots[i]) && LogOf(s)[i] == Parse(s.slots[i]);
    NextIdxIs(LogOf(t), n);
    SameNewest(c.KeySize(), LogOf(s), LogOf(t), n);
    forall i | n <= i < |t.slots|
      ensures AllErased(t.slots[i])
    {
      ErasedIsEmpty(s.slots[i]);
    }
  }

  lemma ErasedIsEmpty(raw: seq<byte>)
    requires AllErased(raw)
    ensures Parse(raw) == if |raw| < HEAD_SIZE then Unreadable else Empty
  {
    assert |raw| >= 2 ==> raw[..2] == FLAGS_EMPTY;
  }

  /** The sector after the scan has marked the corrupt records among the first n. */
  predicate MarkedUpTo(s: Sector, t: Sector, n: nat) {
    && Marked(s, t)
    && forall i :: 0 <= i < |s.slots| ==>
         if i < n && Parse(s.slots[i]) == Corrupt then Parse(t.slots[i]) == Invalid else t.slots[i] == s.slots[i]
  }

  lemma MarkStep(s: Sector, t: Sector, n: nat, k: nat)
    requires 0 < n <= |s.slots| && k <= 2
    requires MarkedUpTo(s, t, n - 1) && Parse(s.slots[n - 1]) == Corrupt
    ensures var t' := SlotProgrammed(t, n - 1, FLAGS_INVALID[..k]);
            Marked(s, t') && (k == 2 ==> MarkedUpTo(s, t', n))
  {
    assert t.slots[n - 1] == s.slots[n - 1];
    assert Readable(s.slots[n - 1]);
    ClearFlags(s.slots[n - 1], k);
    var t' := SlotProgrammed(t, n - 1, FLAGS_INVALID[..k]);
    assert forall i :: 0 <= i < |s.slots| && i != n - 1 ==> t'.slots[i] == t.slots[i];
  }

  lemma MarkSlot(v: Vol, u: Vol, w: Which, n: nat)
    requires 0 < n <= |v.At(w).slots|
    requires MarkedUpTo(v.At(w), u.At(w), n - 1) && Parse(v.At(w).slots[n - 1]) == Corrupt
    ensures MarkedUpTo(v.At(w), Apply(u, ProgramSlot(w, n - 1, FLAGS_INVALID)).At(w), n)
    ensures forall x :: x in CmdImages(u, ProgramSlot(w, n - 1, FLAGS_INVALID)) ==>
              Marked(v.At(w), x.At(w)) && x.At(w.Other()) == u.At(w.Other())
  {
    hide Parse, MarkedUpTo, Marked;
    MarkStep(v.At(w), u.At(w), n, 1);
    MarkStep(v.At(w), u.At(w), n, 2);
    assert FLAGS_INVALID[..2] == FLAGS_INVALID;
  }

  /** Only corrupt records have been marked, and the other sector is as before. */
  predicate MarkedAt(v: Vol, w: Which, x: Vol) { Marked(v.At(w), x.At(w)) && x.At(w.Other()) == v.At(w.Other()) }

  lemma MarkedNothing(s: Sector)
    ensures MarkedUpTo(s, s, 0)
  {
  }

  lemma MarkedOneMore(s: Sector, t: Sector, n: nat)
    requires 0 < n <= |s.slots| && MarkedUpTo(s, t, n - 1) && !LogOf(s)[n - 1].Corrupt?
    ensures MarkedUpTo(s, t, n)
  {
    assert LogOf(s)[n - 1] == Parse(s.slots[n - 1]);
  }

  /** The scan marks exactly the corrupt records, and no moment of it shows anything else. */
  lemma {:induction false} ScanMarks(v: Vol, w: Which, log: Log, n: nat)
    requires log == LogOf(v.At(w)) && n <= |log|
    ensures MarkedUpTo(v.At(w), Exec(v, ConstructCmds(w, log, n)).At(w), n)
    ensures Exec(v, ConstructCmds(w, log, n)).At(w.Other()) == v.At(w.Other())
    ensures forall x :: x in Images(v, ConstructCmds(w, log, n)) ==> MarkedAt(v, w, x)
  {
    hide Parse, Readable, Marked, MarkedUpTo;
    if n == 0 {
      MarkedNothing(v.At(w));
    } else {
      ScanMarks(v, w, log, n - 1);
      var before := ConstructCmds(w, log, n - 1);
      if log[n - 1].Corrupt? {
        var mark := ProgramSlot(w, n - 1, FLAGS_INVALID);
        ExecAppend(v, before, [mark]);
        ExecOne(Exec(v, before), mark);
        assert Parse(v.At(w).slots[n - 1]) == log[n - 1];
        MarkSlot(v, Exec(v, before), w, n);
      } else {
        assert ConstructCmds(w, log, n) == before;
        MarkedOneMore(v.At(w), Exec(v, before).At(w), n);
      }
    }
  }

  // ---------------------------------------------------------------- boot

  /** The mount of a durable volume erases the other sector at most. */
  lemma MountDurable(c: Config, v: Vol, w: Which)
    requires Durable(c, v, w)
    ensures PlanActive(PlanFor(v)) == w
    ensures Exec(v, MountCmds(c, v)) == v.With(w.Other(), ErasedSector(c))
    ensures forall x :: x in Images(v, MountCmds(c, v)) ==> x == v.With(w.Other(), ErasedSector(c))
  {
    ValidFlags(c, v.At(w));
    EraseIs(c, v, w.Other());
    if w == One && SectorOk(c, v.two) { ValidFlags(c, v.two); }
    assert MountCmds(c, v) == PlanCmds(c, v, PlanFor(v));
    ExecOne(v, EraseSector(w.Other()));
  }

  lemma {:induction false} MarkedCounts(s: Sector, t: Sector, n: nat, m: nat)
    requires MarkedUpTo(s, t, n) && m <= n <= |s.slots|
    ensures CountLive(LogOf(t), m) == CountLive(LogOf(s), m)
    ensures CountOf(Invalid, LogOf(t), m) == CountOf(Invalid, LogOf(s), m) + CountOf(Corrupt, LogOf(s), m)
    ensures CountOf(Corrupt, LogOf(t), m) == 0
  {
    if m > 0 {
      MarkedCounts(s, t, n, m - 1);
      MarkedContent(s, t, n, m - 1);
    }
  }

  lemma MarkedContent(s: Sector, t: Sector, n: nat, i: nat)
    requires MarkedUpTo(s, t, n) && i < n <= |s.slots|
    ensures LogOf(t)[i] == if LogOf(s)[i] == Corrupt then Invalid else LogOf(s)[i]
  {
    hide Parse;
  }

  /** The RAM state fits what is on flash; keys may be missing from the index. */
  predicate Powered(c: Config, v: Vol, ram: Ram) {
    var log := LogOf(v.At(ram.active));
    && Shaped(c, v)
    && SectorOk(c, v.At(ram.active))
    && v.At(ram.active.Other()) == ErasedSector(c)
    && ram.next == NextIdx(log)
    && ram.inuse == CountLive(log, ram.next)
    && ram.invalid == CountOf(Invalid, log, ram.next)
    && forall k :: k in ram.dict ==>
         k in NewestAt(c, v, ram.active) && ram.dict[k] == EntryFor(c, NewestAt(c, v, ram.active)[k])
  }

  function EntryFor(c: Config, r: Rec): Entry { MakeEntry(c, r.idx, r.body) }

  /** The free slots of the active sector are empty. */
  lemma FreeIsEmpty(c: Config, v: Vol, ram: Ram, m: nat)
    requires c.Ok() && Powered(c, v, ram) && ram.next <= m < c.MaxRecords()
    ensures m < |v.At(ram.active).slots| && Parse(v.At(ram.active).slots[m]) == Empty
  {
    hide Parse, LogOf, NextIdx, NewestAt, CountLive, CountOf;
    ErasedIsEmpty(v.At(ram.active).slots[m]);
  }

  /** The index has every key that is on flash. */
  predicate Exact(c: Config, v: Vol, ram: Ram) {
    ram.dict.Keys == NewestAt(c, v, ram.active).Keys
  }

  /** The scan of a good sector leaves it good, with every corrupt record counted as invalid. */
  lemma ScanResult(c: Config, u: Vol, w: Which)
    requires Shaped(c, u) && SectorOk(c, u.At(w)) && u.At(w.Other()) == ErasedSector(c)
    ensures Powered(c, Exec(u, ScanCmds(u, w)), Scanned(c, w, LogOf(u.At(w))))
    ensures NewestAt(c, Exec(u, ScanCmds(u, w)), w) == NewestAt(c, u, w)
  {
    hide Parse, Marked, MarkedUpTo, Newest;
    var s, log := u.At(w), LogOf(u.At(w));
    var t := Exec(u, ScanCmds(u, w)).At(w);
    ScanMarks(u, w, log, NextIdx(log));
    ScanKeepsHeads(c, u, w);
    MarkedUpToIsMarked(s, t, NextIdx(log));
    MarkedKeeps(c, s, t);
    MarkedCounts(s, t, NextIdx(log), NextIdx(log));
  }

  lemma ScanMoments(c: Config, u: Vol, w: Which, x: Vol)
    requires Shaped(c, u) && SectorOk(c, u.At(w)) && u.At(w.Other()) == ErasedSector(c)
    requires x in Images(u, ScanCmds(u, w))
    ensures Durable(c, x, w) && NewestAt(c, x, w) == NewestAt(c, u, w)
  {
    hide Parse, Marked, MarkedUpTo, Newest;
    ScanMarks(u, w, LogOf(u.At(w)), NextIdx(LogOf(u.At(w))));
    assert MarkedAt(u, w, x);
    MarkedKeeps(c, u.At(w), x.At(w));
    MarkedShape(c, u.At(w), x.At(w));
  }

  /**
   * A load of a durable volume builds exactly the index of its map, and no moment of the load shows
   * another map.
   */
  lemma Boot(c: Config, v: Vol, w: Which)
    requires Durable(c, v, w)
    ensures LoadRam(c, v).active == w
    ensures Powered(c, Exec(v, LoadCmds(c, v)), LoadRam(c, v)) && Exact(c, Exec(v, LoadCmds(c, v)), LoadRam(c, v))
    ensures NewestAt(c, Exec(v, LoadCmds(c, v)), w) == NewestAt(c, v, w)
    ensures LoadRam(c, v).dict == Index(c, NewestAt(c, v, w))
    ensures forall x :: x in Images(v, LoadCmds(c, v)) ==> Durable(c, x, w) && NewestAt(c, x, w) == NewestAt(c, v, w)
  {
    hide Parse, MountCmds, PlanFor, Newest, Powered, ScanCmds, SectorOk, Shape;
    var u := v.With(w.Other(), ErasedSector(c));
    MountDurable(c, v, w);
    EraseIs(c, v, w.Other());
    ExecAppend(v, MountCmds(c, v), ScanCmds(u, w));
    ScanResult(c, u, w);
    forall x | x in Images(v, LoadCmds(c, v))
      ensures Durable(c, x, w) && NewestAt(c, x, w) == NewestAt(c, v, w)
    {
      if x in Images(u, ScanCmds(u, w)) {
        ScanMoments(c, u, w, x);
      }
    }
  }

  lemma MarkedUpToIsMarked(s: Sector, t: Sector, n: nat)
    requires MarkedUpTo(s, t, n)
    ensures Marked(s, t)
  {
  }

  lemma MarkedShape(c: Config, s: Sector, t: Sector)
    requires Shape(c, s) && Marked(s, t)
    ensures Shape(c, t)
  {
  }

  /** Flash after loads that were each cut short after the given number of steps. */
  function AfterCuts(c: Config, v: Vol, cuts: seq<nat>): Vol
    decreases |cuts|
  {
    if cuts == [] then v
    else
      var images := Images(v, LoadCmds(c, v));
      AfterCuts(c, Torn(v, LoadCmds(c, v), if cuts[0] <= |images| then cuts[0] else |images|), cuts[1..])
  }

  lemma NoCuts(c: Config, v: Vol)
    ensures AfterCuts(c, v, []) == v
  {
  }

  /** Recovery may itself fail any number of times: the load that completes builds the same index. */
  lemma {:induction false} RecoveryIsIdempotent(c: Config, v: Vol, w: Which, cuts: seq<nat>)
    requires Durable(c, v, w)
    ensures Durable(c, AfterCuts(c, v, cuts), w)
    ensures NewestAt(c, AfterCuts(c, v, cuts), w) == NewestAt(c, v, w)
    ensures LoadRam(c, AfterCuts(c, v, cuts)).dict == LoadRam(c, v).dict
    decreases |cuts|
  {
    hide Durable, NewestAt, LoadRam, LoadCmds;
    Boot(c, v, w);
    if cuts != [] {
      var images := Images(v, LoadCmds(c, v));
      RecoveryIsIdempotent(c, Torn(v, LoadCmds(c, v), if cuts[0] <= |images| then cuts[0] else |images|), w, cuts[1..]);
      Boot(c, AfterCuts(c, v, cuts), w);
    }
  }

  // ---------------------------------------------------------------- the next free slot

  function NextFree(v: Vol, w: Which): nat { NextIdx(LogOf(v.At(w))) }

  lemma ScanKeepsNext(c: Config, u: Vol, w: Which)
    requires SectorOk(c, u.At(w))
    ensures NextFree(Exec(u, ScanCmds(u, w)), w) == NextFree(u, w)
    ensures forall x :: x in Images(u, ScanCmds(u, w)) ==> NextFree(x, w) == NextFree(u, w)
  {
    hide Parse, Marked, MarkedUpTo, Newest, SectorOk, NextIdx, LogOf;
    var n := NextFree(u, w);
    ScanMarks(u, w, LogOf(u.At(w)), n);
    MarkedUpToIsMarked(u.At(w), Exec(u, ScanCmds(u, w)).At(w), n);
    MarkedKeeps(c, u.At(w), Exec(u, ScanCmds(u, w)).At(w));
    forall x | x in Images(u, ScanCmds(u, w))
      ensures NextFree(x, w) == n
    {
      assert MarkedAt(u, w, x);
      MarkedKeeps(c, u.At(w), x.At(w));
    }
  }

  /** No moment of a load of a durable volume takes or frees a slot. */
  lemma LoadKeepsNext(c: Config, v: Vol, w: Which)
    requires Durable(c, v, w)
    ensures LoadRam(c, v).next == NextFree(v, w)
    ensures NextFree(Exec(v, LoadCmds(c, v)), w) == NextFree(v, w)
    ensures forall x :: x in Images(v, LoadCmds(c, v)) ==> NextFree(x, w) == NextFree(v, w)
  {
    hide Parse, MountCmds, PlanFor, Newest, ScanCmds, SectorOk, Shape, LogOf, NextIdx;
    var u := v.With(w.Other(), ErasedSector(c));
    MountDurable(c, v, w);
    ExecAppend(v, MountCmds(c, v), ScanCmds(u, w));
    ScanKeepsNext(c, u, w);
  }

  /** Nor do loads that are cut short. */
  lemma {:induction false} CutsKeepNext(c: Config, v: Vol, w: Which, cuts: seq<nat>)
    requires Durable(c, v, w)
    ensures NextFree(AfterCuts(c, v, cuts), w) == NextFree(v, w)
    decreases |cuts|
  {
    hide Durable, NewestAt, LoadRam, LoadCmds, NextFree;
    if cuts != [] {
      var images := Images(v, LoadCmds(c, v));
      LoadKeepsNext(c, v, w);
      Boot(c, v, w);
      CutsKeepNext(c, Torn(v, LoadCmds(c, v), if cuts[0] <= |images| then cuts[0] else |images|), w, cuts[1..]);
    }
  }

  /** Only one sector of a volume can hold the map that a load finds. */
  lemma DurableIsUnique(c: Config, v: Vol, w: Which, w': Which)
    requires Durable(c, v, w) && Durable(c, v, w')
    ensures w == w'
  {
    hide Durable, PlanFor;
    MountDurable(c, v, w);
    MountDurable(c, v, w');
  }

  /** No moment of a load loses the map. */
  lemma LoadKeepsStored(c: Config, v: Vol, m: map<Key, seq<byte>>)
    requires Stores(c, v, m)
    ensures forall x :: x in Images(v, LoadCmds(c, v)) ==> Stores(c, x, m)
  {
    hide Durable, NewestAt, Newest, LoadCmds, Images, LogOf;
    var w :| Durable(c, v, w) && ViewAt(c, v, w) == m;
    Boot(c, v, w);
    forall x | x in Images(v, LoadCmds(c, v))
      ensures Stores(c, x, m)
    {
      assert Durable(c, x, w) && ViewAt(c, x, w) == m;
    }
  }

  /** What a volume stores is what a load finds, so it is at most one map. */
  lemma StoresIsLoaded(c: Config, v: Vol, m: map<Key, seq<byte>>)
    requires Stores(c, v, m)
    ensures ViewAt(c, Exec(v, LoadCmds(c, v)), LoadRam(c, v).active) == m
  {
    hide Parse, Newest, LoadCmds, LoadRam;
    var w :| Durable(c, v, w) && ViewAt(c, v, w) == m;
    Boot(c, v, w);
  }
}
