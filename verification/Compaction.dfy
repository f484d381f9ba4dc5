/**
 * Moving the live records to the other sector: the destination stores the same map, and the commit of
 * its header is the only moment at which a load changes its mind about the sector.
 */
module Compaction {
  import opened Cardinality
  import opened Flash
  import opened Records
  import opened Volumes
  import opened Logs
  import opened Protocol
  import opened Recovery
  import opened Durability
  import opened Atomicity

  // ---------------------------------------------------------------- the copies

  /** Slot j of sector w holds the j-th copy; the slots behind the copies are as before. */
  predicate CopiesIn(s: Sector, t: Sector, slots: seq<seq<byte>>, idxs: seq<nat>)
    requires AllReadable(slots, idxs)
  {
    && t.head == s.head && |t.slots| == |s.slots|
    && (forall j :: 0 <= j < |s.slots| ==>
          t.slots[j] == if j < |idxs| then Programmed(s.slots[j], 0, CopyOf(slots[idxs[j]])) else s.slots[j])
  }

  lemma OneMoreCopy(s: Sector, t: Sector, slots: seq<seq<byte>>, idxs: seq<nat>)
    requires AllReadable(slots, idxs) && 0 < |idxs| <= |s.slots|
    requires CopiesIn(s, t, slots, idxs[..|idxs| - 1])
    ensures CopiesIn(s, SlotProgrammed(t, |idxs| - 1, CopyOf(slots[idxs[|idxs| - 1]])), slots, idxs)
  {
    hide Readable, CopyOf;
  }

  lemma LastCopy(slots: seq<seq<byte>>, idxs: seq<nat>, w: Which)
    requires AllReadable(slots, idxs) && 0 < |idxs|
    ensures CopyCmds(slots, idxs, w)
            == CopyCmds(slots, idxs[..|idxs| - 1], w) + [ProgramSlot(w, |idxs| - 1, CopyOf(slots[idxs[|idxs| - 1]]))]
  {
  }

  lemma {:induction false} CopiesLand(u: Vol, w: Which, slots: seq<seq<byte>>, idxs: seq<nat>)
    requires AllReadable(slots, idxs) && |idxs| <= |u.At(w).slots|
    ensures CopiesIn(u.At(w), Exec(u, CopyCmds(slots, idxs, w)).At(w), slots, idxs)
    ensures Exec(u, CopyCmds(slots, idxs, w)).At(w.Other()) == u.At(w.Other())
    decreases |idxs|
  {
    hide Readable, CopyOf;
    if idxs != [] {
      hide CopiesIn, CopyCmds;
      var n := |idxs| - 1;
      var before, last := CopyCmds(slots, idxs[..n], w), ProgramSlot(w, n, CopyOf(slots[idxs[n]]));
      CopiesLand(u, w, slots, idxs[..n]);
      LastCopy(slots, idxs, w);
      ExecAppend(u, before, [last]);
      ExecOne(Exec(u, before), last);
      OneMoreCopy(u.At(w), Exec(u, before).At(w), slots, idxs);
      assert CopyOf(slots[idxs[n]])[..|CopyOf(slots[idxs[n]])|] == CopyOf(slots[idxs[n]]);
    }
  }

  /** Copies into erased slots: the destination's log is the packed log of the source. */
  lemma CopiesRead(c: Config, s: Sector, t: Sector, src: Sector, idxs: seq<nat>)
    requires s.slots == ErasedSector(c).slots && Shape(c, src) && HEAD_SIZE <= c.recordSize
    requires AllReadable(src.slots, idxs) && |idxs| <= c.MaxRecords() && CopiesIn(s, t, src.slots, idxs)
    ensures LogOf(t) == Packed(LogOf(src), idxs, c.MaxRecords())
    ensures forall j :: |idxs| <= j < |t.slots| ==> AllErased(t.slots[j])
    ensures forall j :: 0 <= j < |t.slots| ==> |t.slots[j]| == c.recordSize
  {
    hide Parse, Readable, CopyOf;
    forall j | 0 <= j < c.MaxRecords()
      ensures LogOf(t)[j] == Packed(LogOf(src), idxs, c.MaxRecords())[j]
    {
      if j < |idxs| {
        CopyReads(src.slots[idxs[j]], s.slots[j]);
      } else {
        ErasedIsEmpty(s.slots[j]);
      }
    }
  }

  // ---------------------------------------------------------------- headers of the destination

  /** Three bytes of the INITIALIZING header change nothing on an erased sector. */
  lemma OpeningHead(c: Config, k: nat)
    requires k <= SECTOR_HEAD
    ensures var h := Programmed(Erased(SECTOR_HEAD), 0, HeadBytes(c, SECTOR_INITIALIZING)[..k]);
            && (k < 4 ==> h == Erased(SECTOR_HEAD))
            && (k == SECTOR_HEAD ==> h == HeadBytes(c, SECTOR_INITIALIZING))
  {
    ProgrammedOnErased(Erased(SECTOR_HEAD), 0, HeadBytes(c, SECTOR_INITIALIZING)[..k]);
    var h := Programmed(Erased(SECTOR_HEAD), 0, HeadBytes(c, SECTOR_INITIALIZING)[..k]);
    assert k < 4 ==> HeadBytes(c, SECTOR_INITIALIZING)[..k] == SECTOR_INITIALIZING[..k];
    if k == SECTOR_HEAD {
      assert h[0..SECTOR_HEAD] == h;
    }
  }

  /** From the third byte on the header is the complete VALID header. */
  lemma CommittingHead(c: Config, k: nat)
    requires 3 <= k <= SECTOR_HEAD
    ensures Programmed(HeadBytes(c, SECTOR_INITIALIZING), 0, HeadBytes(c, SECTOR_VALID)[..k])
            == HeadBytes(c, SECTOR_VALID)
  {
    var i, v := HeadBytes(c, SECTOR_INITIALIZING), HeadBytes(c, SECTOR_VALID);
    assert forall j :: 4 <= j < SECTOR_HEAD ==> i[j] == v[j];
    assert i[0] == 0xFF && i[1] == 0xFF && i[2] == 0xFF && i[3] == 0xAA;
    assert v[0] == 0xFF && v[1] == 0xFF && v[2] == 0xAA && v[3] == 0xAA;
    var h := Programmed(i, 0, v[..k]);
    assert h[0] == v[0] && h[1] == v[1] && h[2] == v[2] && h[3] == v[3];
    assert forall j :: 4 <= j < SECTOR_HEAD ==> h[j] == v[j];
  }

  // ---------------------------------------------------------------- what a compaction produces

  /** The store trusts an EMPTY header to mean an erased sector. */
  predicate Blank(c: Config, s: Sector) {
    FlagsOf(s) == FEmpty ==> s == ErasedSector(c)
  }

  predicate AllLive(log: Log, idxs: seq<nat>) {
    forall j :: 0 <= j < |idxs| ==> idxs[j] < |log| && log[idxs[j]].Live?
  }

  /** What a compaction needs: a shaped volume, a trustworthy destination and live source slots that fit. */
  predicate CanCompact(c: Config, v: Vol, dst: Which, idxs: seq<nat>) {
    var src := v.At(dst.Other());
    && c.Ok() && Shaped(c, v) && Blank(c, v.At(dst)) && Sized(c, LogOf(src))
    && AllLive(LogOf(src), idxs) && |idxs| <= c.MaxRecords() && AllReadable(src.slots, idxs)
  }

  lemma CleanedIsErased(c: Config, v: Vol, dst: Which)
    requires Shaped(c, v) && Blank(c, v.At(dst))
    ensures Cleaned(v, dst) == v.With(dst, ErasedSector(c))
  {
    CleanedIs(c, v, dst);
  }

  lemma OpenedIs(c: Config, v: Vol, dst: Which)
    requires Shaped(c, v) && Blank(c, v.At(dst))
    ensures Opened(c, v, dst) == v.With(dst, ErasedSector(c).(head := HeadBytes(c, SECTOR_INITIALIZING)))
  {
    CleanedIsErased(c, v, dst);
    OpeningHead(c, SECTOR_HEAD);
  }

  lemma CopiedIs(c: Config, v: Vol, dst: Which, idxs: seq<nat>)
    requires CanCompact(c, v, dst, idxs)
    ensures var x := Copied(c, v, dst, idxs);
            && x.At(dst.Other()) == v.At(dst.Other()) && x.At(dst).head == HeadBytes(c, SECTOR_INITIALIZING)
            && Shaped(c, x)
            && LogOf(x.At(dst)) == Packed(LogOf(v.At(dst.Other())), idxs, c.MaxRecords())
            && (forall j :: |idxs| <= j < |x.At(dst).slots| ==> AllErased(x.At(dst).slots[j]))
  {
    hide Parse, Readable, HeadBytes, FlagsOf;
    var u := Opened(c, v, dst);
    OpenedIs(c, v, dst);
    var slots := v.At(dst.Other()).slots;
    CopiesLand(u, dst, slots, idxs);
    CopiesRead(c, u.At(dst), Exec(u, CopyCmds(slots, idxs, dst)).At(dst), v.At(dst.Other()), idxs);
  }

  lemma PackedSized(c: Config, log: Log, idxs: seq<nat>, size: nat)
    requires Sized(c, log) && AllLive(log, idxs)
    ensures Sized(c, Packed(log, idxs, size))
  {
  }

  /** The destination is a good sector that holds exactly the chosen records. */
  lemma CompactResult(c: Config, v: Vol, dst: Which, idxs: seq<nat>)
    requires CanCompact(c, v, dst, idxs)
    ensures var x := Committed(c, v, dst, idxs);
            && Shaped(c, x) && SectorOk(c, x.At(dst)) && x.At(dst.Other()) == v.At(dst.Other())
            && LogOf(x.At(dst)) == Packed(LogOf(v.At(dst.Other())), idxs, c.MaxRecords())
            && NextIdx(LogOf(x.At(dst))) == |idxs|
  {
    hide Parse, Readable, HeadBytes, FlagsOf, Copied;
    CopiedIs(c, v, dst, idxs);
    var y, log := Copied(c, v, dst, idxs), LogOf(v.At(dst.Other()));
    CommittingHead(c, SECTOR_HEAD);
    assert HeadBytes(c, SECTOR_VALID)[..SECTOR_HEAD] == HeadBytes(c, SECTOR_VALID);
    var x := Committed(c, v, dst, idxs);
    assert x.At(dst).slots == y.At(dst).slots;
    assert LogOf(x.At(dst)) == LogOf(y.At(dst));
    PackedNext(log, idxs, c.MaxRecords());
    PackedSized(c, log, idxs, c.MaxRecords());
  }

  /**
   * Every moment of a compaction: the source as it was, and beside it a destination that a load would
   * drop, or the finished one. The header turns VALID with its third byte, and then it is complete.
   */
  lemma CompactMoments(c: Config, v: Vol, dst: Which, idxs: seq<nat>, x: Vol)
    requires CanCompact(c, v, dst, idxs) && x in Images(v, CompactCmds(c, v, dst, idxs))
    ensures x == Committed(c, v, dst, idxs)
            || (Shaped(c, x) && x.At(dst.Other()) == v.At(dst.Other())
                && (x.At(dst) == ErasedSector(c) || FlagsOf(x.At(dst)) == FInitializing))
  {
    hide Parse, Readable, HeadBytes, Copied, FlagsOf;
    var open, commit := ProgramHead(dst, HeadBytes(c, SECTOR_INITIALIZING)),
                        ProgramHead(dst, HeadBytes(c, SECTOR_VALID));
    var slots := v.At(dst.Other()).slots;
    CompactStages(c, v, dst, idxs);
    CleanedIs(c, v, dst);
    CleanedIsErased(c, v, dst);
    CopiedIs(c, v, dst, idxs);
    if x in Images(v, EraseUnlessEmpty(v, dst)) {
    } else if x in CmdImages(Cleaned(v, dst), open) {
      OpeningMoment(c, v, dst, x);
    } else if x in Images(Opened(c, v, dst), CopyCmds(slots, idxs, dst)) {
      CopyingMoment(c, v, dst, idxs, x);
    } else {
      CommittingMoment(c, v, dst, idxs, x);
    }
  }

  lemma OpeningMoment(c: Config, v: Vol, dst: Which, x: Vol)
    requires Shaped(c, v) && Blank(c, v.At(dst))
    requires x in CmdImages(Cleaned(v, dst), ProgramHead(dst, HeadBytes(c, SECTOR_INITIALIZING)))
    ensures Shaped(c, x) && x.At(dst.Other()) == v.At(dst.Other())
    ensures x.At(dst) == ErasedSector(c) || FlagsOf(x.At(dst)) == FInitializing
  {
    hide Parse, HeadBytes, FlagsOf;
    var open := ProgramHead(dst, HeadBytes(c, SECTOR_INITIALIZING));
    CleanedIsErased(c, v, dst);
    var k: nat :| k < SECTOR_HEAD && x == Partial(Cleaned(v, dst), open, k + 1);
    OpeningHead(c, k + 1);
    EraseIs(c, v, dst);
    OpenHead(c, ErasedSector(c), k + 1);
    PartialShaped(c, Cleaned(v, dst), open, k + 1);
  }

  lemma InitFlags(c: Config, s: Sector)
    requires s.head == HeadBytes(c, SECTOR_INITIALIZING)
    ensures FlagsOf(s) == FInitializing
  {
    assert s.head[..4] == SECTOR_INITIALIZING;
  }

  lemma CopyingMoment(c: Config, v: Vol, dst: Which, idxs: seq<nat>, x: Vol)
    requires CanCompact(c, v, dst, idxs)
    requires x in Images(Opened(c, v, dst), CopyCmds(v.At(dst.Other()).slots, idxs, dst))
    ensures Shaped(c, x) && x.At(dst.Other()) == v.At(dst.Other()) && FlagsOf(x.At(dst)) == FInitializing
  {
    hide Parse, Readable, HeadBytes, FlagsOf;
    var copies := CopyCmds(v.At(dst.Other()).slots, idxs, dst);
    OpenedIs(c, v, dst);
    SlotCommands(Opened(c, v, dst), copies, dst);
    InitFlags(c, x.At(dst));
    ImagesShaped(c, Opened(c, v, dst), copies);
  }

  lemma CommittingMoment(c: Config, v: Vol, dst: Which, idxs: seq<nat>, x: Vol)
    requires CanCompact(c, v, dst, idxs)
    requires x in CmdImages(Copied(c, v, dst, idxs), ProgramHead(dst, HeadBytes(c, SECTOR_VALID)))
    ensures x == Committed(c, v, dst, idxs)
            || (Shaped(c, x) && x.At(dst.Other()) == v.At(dst.Other()) && FlagsOf(x.At(dst)) == FInitializing)
  {
    hide Parse, Readable, HeadBytes, FlagsOf, Copied;
    var y, commit := Copied(c, v, dst, idxs), ProgramHead(dst, HeadBytes(c, SECTOR_VALID));
    CopiedIs(c, v, dst, idxs);
    var k: nat :| k < SECTOR_HEAD && x == Partial(y, commit, k + 1);
    if k + 1 >= 3 {
      CommittingHead(c, k + 1);
      CommittingHead(c, SECTOR_HEAD);
      assert HeadBytes(c, SECTOR_VALID)[..SECTOR_HEAD] == HeadBytes(c, SECTOR_VALID);
    } else {
      InitFlags(c, y.At(dst));
      CommitHead(c, y.At(dst), k + 1);
      PartialShaped(c, y, commit, k + 1);
    }
  }

  lemma {:induction false} ImagesShaped(c: Config, v: Vol, cmds: seq<Cmd>)
    requires Shaped(c, v)
    ensures forall x :: x in Images(v, cmds) ==> Shaped(c, x)
    decreases |cmds|
  {
    hide Partial, Shaped;
    if cmds != [] {
      forall x | x in CmdImages(v, cmds[0])
        ensures Shaped(c, x)
      {
        var k: nat :| k < cmds[0].Duration() && x == Partial(v, cmds[0], k + 1);
        PartialShaped(c, v, cmds[0], k + 1);
      }
      PartialShaped(c, v, cmds[0], cmds[0].Duration());
      ImagesShaped(c, Apply(v, cmds[0]), cmds[1..]);
    }
  }

  // ---------------------------------------------------------------- replacing a sector

  lemma {:induction false} NothingToMark(w: Which, log: Log, n: nat)
    requires n <= |log| && forall i :: 0 <= i < n ==> !log[i].Corrupt?
    ensures ConstructCmds(w, log, n) == []
  {
    if n > 0 {
      NothingToMark(w, log, n - 1);
    }
  }

  /** After the commit nothing is left but to erase the source: the copies need no marking. */
  lemma ReplaceResult(c: Config, v: Vol, dst: Which, idxs: seq<nat>)
    requires CanCompact(c, v, dst, idxs)
    ensures var x := Committed(c, v, dst, idxs);
            && ScanCmds(x, dst) == []
            && Exec(v, ReplaceCmds(c, v, dst, idxs)) == x.With(dst.Other(), ErasedSector(c))
            && Images(v, ReplaceCmds(c, v, dst, idxs))
               == Images(v, CompactCmds(c, v, dst, idxs)) + [x.With(dst.Other(), ErasedSector(c))]
            && Sole(c, x.With(dst.Other(), ErasedSector(c)), dst)
  {
    hide Parse, Readable, HeadBytes, FlagsOf, CompactCmds, Committed, SectorOk;
    var x := Committed(c, v, dst, idxs);
    CompactResult(c, v, dst, idxs);
    NothingToMark(dst, LogOf(x.At(dst)), NextIdx(LogOf(x.At(dst))));
    ReplaceStages(c, v, dst, idxs);
    EraseIs(c, x, dst.Other());
  }

  // ---------------------------------------------------------------- the two compactors

  lemma ReplacedNewest(c: Config, v: Vol, dst: Which, idxs: seq<nat>)
    requires CanCompact(c, v, dst, idxs)
    ensures NewestAt(c, Exec(v, ReplaceCmds(c, v, dst, idxs)), dst)
            == Newest(c.KeySize(), Packed(LogOf(v.At(dst.Other())), idxs, c.MaxRecords()), |idxs|)
  {
    hide Parse, Readable, ReplaceCmds, Committed, Newest, SectorOk, CanCompact;
    ReplaceResult(c, v, dst, idxs);
    CompactResult(c, v, dst, idxs);
  }

  lemma LiveSlotsCompact(c: Config, v: Vol, src: Which)
    requires c.Ok() && Shaped(c, v) && Blank(c, v.At(src.Other())) && Sized(c, LogOf(v.At(src)))
    ensures CanCompact(c, v, src.Other(), SectorLiveSlots(v.At(src)))
    ensures SectorLiveSlots(v.At(src)) == LiveSlots(LogOf(v.At(src)), NextIdx(LogOf(v.At(src))))
    ensures CountLive(LogOf(v.At(src)), NextIdx(LogOf(v.At(src)))) <= c.MaxRecords()
  {
    hide Parse, Readable;
  }

  /** move_sector keeps the map of its source, whatever the source's header says. */
  lemma MoveKeepsMap(c: Config, v: Vol, src: Which)
    requires c.Ok() && Shaped(c, v) && Blank(c, v.At(src.Other())) && Sized(c, LogOf(v.At(src)))
    ensures ViewAt(c, Exec(v, ReplaceCmds(c, v, src.Other(), SectorLiveSlots(v.At(src)))), src.Other())
            == ViewAt(c, v, src)
  {
    hide Parse, Readable, ReplaceCmds, Newest, SectorLiveSlots, CanCompact, Sized, Blank, Shaped, LogOf, LiveSlots,
         CountLive, Packed, DataMap, NextIdx;
    LiveSlotsCompact(c, v, src);
    ReplacedNewest(c, v, src.Other(), SectorLiveSlots(v.At(src)));
    PackedLiveSlots(c.KeySize(), LogOf(v.At(src)), NextIdx(LogOf(v.At(src))), c.MaxRecords());
  }

  /** The map the store shows to its callers. */
  function Shown(c: Config, v: Vol, ram: Ram): map<Key, seq<byte>> {
    map k | k in ViewAt(c, v, ram.active) && k in ram.dict :: ViewAt(c, v, ram.active)[k]
  }

  lemma {:induction false} CountLiveBound(log: Log, n: nat)
    requires n <= |log|
    ensures CountLive(log, n) <= n
  {
    if n > 0 {
      CountLiveBound(log, n - 1);
    }
  }

  /** The walk over the index visits as many keys as the index has, and they fit the sector. */
  lemma WalkFits(c: Config, v: Vol, ram: Ram, order: seq<Key>)
    requires Powered(c, v, ram) && IsWalk(ram, order)
    ensures |order| == |ram.dict| <= c.MaxRecords()
  {
    hide Parse, Readable, Newest, SectorOk;
    var log := LogOf(v.At(ram.active));
    AsManyAsElements(order);
    assert (set k | k in order) == ram.dict.Keys;
    LiveRecordsAndKeys(c.KeySize(), log, ram.next);
    CountLiveBound(log, ram.next);
    SubsetSize(ram.dict.Keys, Newest(c.KeySize(), log, ram.next).Keys);
  }

  lemma WalkReaches(c: Config, v: Vol, ram: Ram)
    requires Powered(c, v, ram)
    ensures forall k :: k in ram.dict ==>
              && ram.dict[k].idx < |v.At(ram.active).slots| && Readable(v.At(ram.active).slots[ram.dict[k].idx])
              && LiveFor(c.KeySize(), LogOf(v.At(ram.active))[ram.dict[k].idx], k)
  {
    hide Parse, Readable, Powered, KeyOf, LogOf, NewestAt, LiveFor;
    forall k | k in ram.dict
      ensures ram.dict[k].idx < |v.At(ram.active).slots| && Readable(v.At(ram.active).slots[ram.dict[k].idx])
      ensures LiveFor(c.KeySize(), LogOf(v.At(ram.active))[ram.dict[k].idx], k)
    {
      EntryLeads(c, v, ram, k);
    }
  }

  lemma WalkCompacts(c: Config, v: Vol, ram: Ram, order: seq<Key>)
    requires c.Ok() && Powered(c, v, ram) && IsWalk(ram, order)
    ensures Reachable(v, ram)
    ensures CanCompact(c, v, ram.active.Other(), SlotsInOrder(ram, order))
    ensures SlotsOfKeys(c.KeySize(), LogOf(v.At(ram.active)), SlotsInOrder(ram, order), order)
  {
    hide Parse, Readable, SectorOk, KeyOf, FlagsOf, NewestAt, LogOf;
    WalkReaches(c, v, ram);
    WalkFits(c, v, ram, order);
    SoleSized(c, v, ram);
  }

  lemma SoleSized(c: Config, v: Vol, ram: Ram)
    requires Powered(c, v, ram)
    ensures Sized(c, LogOf(v.At(ram.active)))
  {
  }

  // ---------------------------------------------------------------- the swap

  lemma SlotsAreLive(ks: nat, log: Log, idxs: seq<nat>, keys: seq<Key>)
    requires SlotsOfKeys(ks, log, idxs, keys)
    ensures AllLive(log, idxs)
  {
  }

  /** The log that a walk over the index packs: the same keys, the same bodies. */
  lemma PackedIndex(ks: nat, log: Log, ram: Ram, order: seq<Key>, idxs: seq<nat>, size: nat)
    requires IsWalk(ram, order) && idxs == SlotsInOrder(ram, order) && |order| <= size
    requires SlotsOfKeys(ks, log, idxs, order) && AllLive(log, idxs)
    ensures Newest(ks, Packed(log, idxs, size), |order|).Keys == ram.dict.Keys
    ensures forall k :: k in ram.dict ==> ram.dict[k].idx < |log| && log[ram.dict[k].idx].Live?
    ensures forall k :: k in ram.dict ==>
              Newest(ks, Packed(log, idxs, size), |order|)[k].body == log[ram.dict[k].idx].body
  {
    hide Newest, KeyOf, Packed, LiveFor, Distinct;
    PackedByKeys(ks, log, idxs, order, size);
    assert (set k | k in order) == ram.dict.Keys;
    forall k | k in ram.dict
      ensures ram.dict[k].idx < |log| && log[ram.dict[k].idx].Live?
      ensures Newest(ks, Packed(log, idxs, size), |order|)[k].body == log[ram.dict[k].idx].body
    {
      var j :| 0 <= j < |order| && order[j] == k;
      assert idxs[j] == ram.dict[k].idx;
    }
  }

  /** The bodies of the index entries are those of the map. */
  lemma IndexBodies(c: Config, v: Vol, ram: Ram, m: map<Key, Rec>)
    requires Powered(c, v, ram) && m.Keys == ram.dict.Keys
    requires forall k :: k in ram.dict ==>
               ram.dict[k].idx < |v.At(ram.active).slots| && LogOf(v.At(ram.active))[ram.dict[k].idx].Live?
    requires forall k :: k in ram.dict ==> m[k].body == LogOf(v.At(ram.active))[ram.dict[k].idx].body
    ensures DataMap(c.KeySize(), m) == Shown(c, v, ram)
  {
    hide Parse, Readable, KeyOf, DataOf, NewestAt, Powered, LogOf;
    forall k | k in ram.dict
      ensures k in NewestAt(c, v, ram.active) && m[k].body == NewestAt(c, v, ram.active)[k].body
    {
      EntryLeads(c, v, ram, k);
    }
  }

  lemma PackedWalk(c: Config, v: Vol, ram: Ram, order: seq<Key>, idxs: seq<nat>)
    requires c.Ok() && Powered(c, v, ram) && IsWalk(ram, order) && |order| <= c.MaxRecords()
    requires idxs == SlotsInOrder(ram, order)
    requires SlotsOfKeys(c.KeySize(), LogOf(v.At(ram.active)), idxs, order) && AllLive(LogOf(v.At(ram.active)), idxs)
    ensures var p := Packed(LogOf(v.At(ram.active)), idxs, c.MaxRecords());
            && Newest(c.KeySize(), p, |order|).Keys == ram.dict.Keys
            && DataMap(c.KeySize(), Newest(c.KeySize(), p, |order|)) == Shown(c, v, ram)
            && NextIdx(p) == |order| && Distinct(c.KeySize(), p, |order|)
  {
    hide Parse, Newest, KeyOf, SectorOk, NewestAt, Powered, LogOf, Distinct, NextIdx, Packed, SlotsOfKeys, DataMap,
         Shown, IsWalk, LiveFor;
    var log := LogOf(v.At(ram.active));
    PackedNext(log, idxs, c.MaxRecords());
    PackedByKeys(c.KeySize(), log, idxs, order, c.MaxRecords());
    PackedIndex(c.KeySize(), log, ram, order, idxs, c.MaxRecords());
    IndexBodies(c, v, ram, Newest(c.KeySize(), Packed(log, idxs, c.MaxRecords()), |order|));
  }

  /** The RAM state after the swap, and the sector it describes. */
  lemma SwapFinal(c: Config, v: Vol, ram: Ram, order: seq<Key>, idxs: seq<nat>, dst: Which)
    requires Powered(c, v, ram) && IsWalk(ram, order) && Reachable(v, ram)
    requires dst == ram.active.Other() && idxs == SlotsInOrder(ram, order) && CanCompact(c, v, dst, idxs)
    requires AllReadable(v.At(dst.Other()).slots, idxs)
    ensures var z := Committed(c, v, dst, idxs).With(ram.active, ErasedSector(c));
            && Exec(v, SwapCmds(c, v, ram, order)) == z && Sole(c, z, dst) && ScanCmds(z, dst) == []
            && LogOf(z.At(dst)) == Packed(LogOf(v.At(ram.active)), idxs, c.MaxRecords())
            && SwapRam(c, v, ram, order) == Scanned(c, dst, LogOf(z.At(dst)))
  {
    hide Parse, Readable, SectorOk, Shape, ReplaceCmds, Committed, CanCompact, NextIdx, CompactCmds, LogOf, Powered,
         Packed, SlotsInOrder, Scanned;
    CompactResult(c, v, dst, idxs);
    CompactStages(c, v, dst, idxs);
    ReplaceResult(c, v, dst, idxs);
  }

  /** The swap: the other sector takes over with exactly the records of the index, none of them shadowed. */
  lemma SwapResult(c: Config, v: Vol, ram: Ram, order: seq<Key>)
    requires c.Ok() && Powered(c, v, ram) && IsWalk(ram, order) && Reachable(v, ram)
    ensures var v', ram' := Exec(v, SwapCmds(c, v, ram, order)), SwapRam(c, v, ram, order);
            && ram'.active == ram.active.Other() && Powered(c, v', ram') && Exact(c, v', ram')
            && ram'.dict.Keys == ram.dict.Keys && ram'.next == |ram.dict|
            && ViewAt(c, v', ram'.active) == Shown(c, v, ram)
            && NoShadow(c.KeySize(), LogOf(v'.At(ram'.active)))
  {
    var dst, idxs := ram.active.Other(), SlotsInOrder(ram, order);
    hide Parse, Readable, Newest, Sole, Shape, Committed, CanCompact, Distinct, NextIdx, LogOf, Powered, Shown,
         DataMap, Packed, SlotsInOrder, SwapCmds, SwapRam, SlotsOfKeys, AllLive, IsWalk, Reachable;
    WalkFits(c, v, ram, order);
    WalkCompacts(c, v, ram, order);
    CompactsReadable(c, v, dst, idxs);
    SlotsAreLive(c.KeySize(), LogOf(v.At(ram.active)), idxs, order);
    PackedWalk(c, v, ram, order, idxs);
    SwapFinal(c, v, ram, order, idxs, dst);
    ScanOfSole(c, Committed(c, v, dst, idxs).With(ram.active, ErasedSector(c)), dst);
  }

  lemma CompactsReadable(c: Config, v: Vol, dst: Which, idxs: seq<nat>)
    requires CanCompact(c, v, dst, idxs)
    ensures AllReadable(v.At(dst.Other()).slots, idxs)
  {
  }

  /** Scanning a sector without corrupt records writes nothing and gives a fitting RAM state. */
  lemma ScanOfSole(c: Config, x: Vol, w: Which)
    requires Sole(c, x, w) && ScanCmds(x, w) == []
    ensures Powered(c, x, Scanned(c, w, LogOf(x.At(w)))) && Exact(c, x, Scanned(c, w, LogOf(x.At(w))))
  {
    hide Parse, Newest, SectorOk, Shape, ScanCmds, Powered;
    ScanResult(c, x, w);
  }
}
