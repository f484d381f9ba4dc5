/**
 * What a load does about the two headers, for every pair of them: which erases it issues, which sector it takes,
 * and which map it shows.
 */
module Mounts {
  import opened Records
  import opened Volumes
  import opened Logs
  import opened Protocol
  import opened Recovery
  import opened Durability
  import opened Atomicity
  import opened Compaction
  import opened CrashSafety
  import opened Runs

  // ---------------------------------------------------------------- a volume that stores a map

  /** A load of a volume that stores a map erases the other sector, unless the map is in sector two and one is EMPTY. */
  lemma MountExact(c: Config, v: Vol, w: Which)
    requires Durable(c, v, w)
    ensures MountCmds(c, v) == if w == Two && FlagsOf(v.one) == FEmpty then [] else [EraseSector(w.Other())]
  {
    hide Parse, LogOf, SectorOk, FlagsWord, Shape;
    ValidFlags(c, v.At(w));
    EraseIs(c, v, w.Other());
    if w == One && SectorOk(c, v.two) { ValidFlags(c, v.two); }
  }

  /** From its first step on the other sector is erased. */
  lemma LoadErasesOther(c: Config, v: Vol, w: Which, x: Vol)
    requires Durable(c, v, w) && x in Images(v, LoadCmds(c, v))
    ensures x.At(w.Other()) == ErasedSector(c)
  {
    hide Parse, LogOf, NewestAt, MountCmds, ScanCmds, PlanFor, SectorOk, Shape, ErasedSector, FlagsOf, Durable;
    var u := v.With(w.Other(), ErasedSector(c));
    MountDurable(c, v, w);
    ExecAppend(v, MountCmds(c, v), ScanCmds(u, w));
    if x in Images(u, ScanCmds(u, w)) {
      ScanOnlySlots(u, w);
      SlotCommands(u, ScanCmds(u, w), w);
    }
  }

  // ---------------------------------------------------------------- every header pair

  /** No flags that a load could go by: an EMPTY sector, or an unknown word, which is erased first. */
  predicate NoFlags(s: Sector) { FlagsOf(s).FEmpty? || FlagsOf(s).FBad? }

  /** An EMPTY header is taken to mean an erased sector. */
  predicate Trusted(c: Config, v: Vol) { Shaped(c, v) && Blank(c, v.one) && Blank(c, v.two) }

  /** The first VALID sector is used as it is. The other one is erased, unless sector two is used and one is EMPTY. */
  lemma ValidIsUsed(c: Config, v: Vol)
    requires Shaped(c, v)
    ensures FlagsOf(v.one) == FValid ==>
              && LoadRam(c, v).active == One
              && (FlagsOf(v.two) != FBad ==> MountCmds(c, v) == [EraseSector(Two)])
              && (FlagsOf(v.two) == FBad ==> MountCmds(c, v) == [EraseSector(Two), EraseSector(Two)])
    ensures FlagsOf(v.one) != FValid && FlagsOf(v.two) == FValid ==>
              && LoadRam(c, v).active == Two
              && MountCmds(c, v) == if FlagsOf(v.one) == FEmpty then [] else [EraseSector(One)]
  {
    hide Parse, LogOf, FlagsOf, Shape, Newest, CountLive, CountOf, NextIdx, ErasedSector;
  }

  lemma SameScan(v: Vol, x: Vol, w: Which)
    requires x.At(w) == v.At(w)
    ensures ScanCmds(x, w) == ScanCmds(v, w)
  {
  }

  lemma ScannedSector(c: Config, w: Which, log: Log)
    ensures Scanned(c, w, log).active == w
  {
    hide Newest, CountLive, CountOf, NextIdx, Index;
  }

  lemma LoadOf(c: Config, v: Vol)
    ensures Exec(v, LoadCmds(c, v))
            == Exec(Exec(v, MountCmds(c, v)), ScanCmds(Exec(v, MountCmds(c, v)), PlanActive(PlanFor(v))))
  {
    hide MountCmds, ScanCmds, PlanFor;
    var u := Exec(v, MountCmds(c, v));
    ExecAppend(v, MountCmds(c, v), ScanCmds(u, PlanActive(PlanFor(v))));
  }

  lemma BlankView(c: Config, v: Vol, w: Which)
    requires c.Ok() && v.At(w) == ErasedSector(c)
    ensures ViewAt(c, v, w) == map[]
  {
    hide Parse;
    var log := LogOf(v.At(w));
    forall i | 0 <= i < |log|
      ensures log[i] == Empty
    {
      ErasedIsEmpty(v.At(w).slots[i]);
    }
    NextIdxIs(log, 0);
  }

  /** A repair shows the map of the sector that it copies. */
  lemma RepairShows(c: Config, v: Vol, src: Which)
    requires c.Ok() && Trusted(c, v) && PlanFor(v) == Plan.Repair(src) && Sized(c, LogOf(v.At(src)))
    ensures var t := Rebooted(c, v);
            t.ram.active == src.Other() && Faithful(c, t) && MapOf(c, t) == ViewAt(c, v, src)
  {
    hide Parse, Readable, NewestAt, LogOf, SectorOk, Shape, Powered, Exact, ReplaceCmds, Committed, SectorLiveSlots,
         CanCompact, Scanned, ScanCmds, ErasedSector, CompactCmds, Sole, ViewAt, Shown, FlagsOf;
    var x, dst := Exec(v, DropBad(v, One) + DropBad(v, Two)), src.Other();
    DroppedBad(c, v, src);
    var idxs := SectorLiveSlots(x.At(src));
    LiveSlotsCompact(c, x, src);
    ReplaceResult(c, x, dst, idxs);
    MoveKeepsMap(c, x, src);
    SameView(c, v, x, src);
    var z := Exec(x, ReplaceCmds(c, x, dst, idxs));
    ExecAppend(v, DropBad(v, One) + DropBad(v, Two), ReplaceCmds(c, x, dst, idxs));
    SameScan(Committed(c, x, dst, idxs), z, dst);
    LoadOf(c, v);
    ScanOfSole(c, z, dst);
    ScannedSector(c, dst, LogOf(z.At(dst)));
    ExactShows(c, z, Scanned(c, dst, LogOf(z.At(dst))));
  }

  /** Dropping bad headers leaves the source of a repair alone. */
  lemma DroppedBad(c: Config, v: Vol, src: Which)
    requires Trusted(c, v) && PlanFor(v) == Plan.Repair(src)
    ensures var x := Exec(v, DropBad(v, One) + DropBad(v, Two));
            Shaped(c, x) && x.At(src) == v.At(src) && Blank(c, x.At(src.Other()))
  {
    hide FlagsOf, Shape, ErasedSector;
    EraseIs(c, v, One);
    EraseIs(c, v, Two);
    ExecOne(v, EraseSector(One));
    ExecOne(v, EraseSector(Two));
    assert [] + DropBad(v, Two) == DropBad(v, Two) && DropBad(v, One) + [] == DropBad(v, One);
  }

  /**
   * No header is VALID, and one of them at least has flags. The load shows the map of sector two exactly if sector
   * one has no flags, or a copy to it was cut short and sector two is INVALID. Otherwise it shows that of sector one.
   */
  lemma LoadRepairs(c: Config, v: Vol)
    requires c.Ok() && Trusted(c, v) && FlagsOf(v.one) != FValid && FlagsOf(v.two) != FValid
    requires !(NoFlags(v.one) && NoFlags(v.two)) && Sized(c, LogOf(v.one)) && Sized(c, LogOf(v.two))
    ensures var src := if NoFlags(v.one) || (FlagsOf(v.one) == FInitializing && FlagsOf(v.two) == FInvalid)
                       then Two else One;
            var t := Rebooted(c, v);
            t.ram.active == src.Other() && Faithful(c, t) && MapOf(c, t) == ViewAt(c, v, src)
  {
    hide Parse, NewestAt, LogOf, Shape, FlagsOf, Sized, Rebooted, Faithful, ViewAt, Shown;
    var src := if NoFlags(v.one) || (FlagsOf(v.one) == FInitializing && FlagsOf(v.two) == FInvalid) then Two else One;
    assert PlanFor(v) == Plan.Repair(src);
    RepairShows(c, v, src);
  }

  /** Neither header has flags: the load formats sector one and comes up empty. */
  lemma LoadFormatsBlank(c: Config, v: Vol)
    requires c.Ok() && Trusted(c, v) && NoFlags(v.one) && NoFlags(v.two)
    ensures PlanFor(v) == Format && Rebooted(c, v) == Rebooted(c, Blanked(c))
  {
    hide Parse, LogOf, Shape, FlagsOf, Scanned, ScanCmds, ErasedSector, HeadBytes;
    var x := Exec(v, DropBad(v, One) + DropBad(v, Two));
    EraseIs(c, v, One);
    EraseIs(c, v, Two);
    EraseIs(c, v.With(One, ErasedSector(c)), Two);
    ExecOne(v, EraseSector(One));
    ExecOne(v, EraseSector(Two));
    ExecOne(v.With(One, ErasedSector(c)), EraseSector(Two));
    ExecAppend(v, DropBad(v, One), DropBad(v, Two));
    assert [] + DropBad(v, Two) == DropBad(v, Two) && DropBad(v, One) + [] == DropBad(v, One);
    assert x == Blanked(c);
    var format := PlanCmds(c, x, Format);
    assert MountCmds(c, x) == format;
    ExecAppend(v, DropBad(v, One) + DropBad(v, Two), format);
    LoadOf(c, v);
    LoadOf(c, x);
  }
}
