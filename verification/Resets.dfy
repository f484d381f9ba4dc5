/**
 * A reset that power cuts short. A load finds the old map or an empty store, unless the reset has met a volume
 * with a compaction under way in sector two: then it may find a part of the map. If the header of the format is
 * torn behind its flags, the version in it is not that of the volume.
 */
module Resets {
  import opened Flash
  import opened Records
  import opened Volumes
  import opened Logs
  import opened Protocol
  import opened Recovery
  import opened Durability
  import opened Compaction
  import opened CrashSafety
  import opened Runs
  import opened Mounts

  /** nvol3_reset: two erases, and the load of the blank volume. */
  function ResetCmds(c: Config): seq<Cmd> { [EraseSector(One), EraseSector(Two)] + LoadCmds(c, Blanked(c)) }

  /** A blank volume with the first k bytes of the header of a format. */
  function Headed(c: Config, k: nat): Vol
    requires k <= SECTOR_HEAD
  {
    Blanked(c).With(One, WithHead(c, ErasedSector(c), SECTOR_VALID, k))
  }

  /** The load of a blank volume erases once more and writes the header. */
  lemma LoadOfBlank(c: Config)
    requires c.Ok()
    ensures LoadCmds(c, Blanked(c)) == [EraseSector(One)] + [ProgramHead(One, HeadBytes(c, SECTOR_VALID))]
    ensures LoadRam(c, Blanked(c)).active == One
  {
    hide Parse, Newest, SectorOk, NextIdx, HeadBytes, LogOf;
    var v := Blanked(c);
    MountOfBlank(c);
    ScanOfFormatted(c, Exec(v, MountCmds(c, v)));
    assert ErasedSector(c).head[..4] == SECTOR_EMPTY;
  }

  lemma BlankShaped(c: Config)
    ensures Shaped(c, Blanked(c))
  {
  }

  lemma ResetImages(c: Config, v: Vol)
    requires c.Ok() && Shaped(c, v)
    ensures Images(v, ResetCmds(c))
            == [v.With(One, ErasedSector(c)), Blanked(c), Blanked(c)]
               + CmdImages(Blanked(c), ProgramHead(One, HeadBytes(c, SECTOR_VALID)))
  {
    hide Parse, NewestAt, LogOf, HeadBytes, Shape, ErasedSector, LoadCmds, CmdImages, Partial;
    var u, e := v.With(One, ErasedSector(c)), [EraseSector(One)];
    var head := ProgramHead(One, HeadBytes(c, SECTOR_VALID));
    BlankShaped(c);
    LoadOfBlank(c);
    EraseIs(c, v, One);
    EraseIs(c, u, Two);
    EraseIs(c, Blanked(c), One);
    ExecOne(v, EraseSector(One));
    ExecOne(u, EraseSector(Two));
    ExecOne(Blanked(c), EraseSector(One));
    ExecOne(Blanked(c), head);
    ExecAppend(v, e, [EraseSector(Two)]);
    ExecAppend(Blanked(c), e, [head]);
    assert e + [EraseSector(Two)] == [EraseSector(One), EraseSector(Two)];
    ExecAppend(v, [EraseSector(One), EraseSector(Two)], LoadCmds(c, Blanked(c)));
  }

  /** Every moment of a reset: sector one is erased, and then it is a blank volume with a part of the new header. */
  lemma ResetMoments(c: Config, v: Vol, at: nat) returns (k: nat)
    requires c.Ok() && Shaped(c, v) && 0 < at <= |Images(v, ResetCmds(c))|
    ensures at == 1 ==> Torn(v, ResetCmds(c), at) == v.With(One, ErasedSector(c))
    ensures k <= SECTOR_HEAD && (at >= 2 ==> Torn(v, ResetCmds(c), at) == Headed(c, k))
  {
    hide HeadBytes, Shape, ErasedSector, ResetCmds, Images, Programmed, Headed;
    ResetImages(c, v);
    NoHeader(c);
    k := 0;
    if at > 3 {
      k := at - 3;
      HeadedIs(c, k);
    }
  }

  lemma NoHeader(c: Config)
    ensures Headed(c, 0) == Blanked(c)
  {
    hide HeadBytes;
    assert HeadBytes(c, SECTOR_VALID)[..0] == [];
    assert Programmed(ErasedSector(c).head, 0, []) == ErasedSector(c).head;
  }

  // ---------------------------------------------------------------- the load after it

  lemma HeadedFlags(c: Config, k: nat)
    requires k <= SECTOR_HEAD
    ensures |Headed(c, k).one.head| == SECTOR_HEAD
    ensures FlagsOf(Headed(c, k).one) == if k < 3 then FEmpty else if k == 3 then FBad else FValid
    ensures k < 3 ==> Headed(c, k) == Blanked(c)
    ensures 14 <= k ==> Headed(c, k) == Headed(c, SECTOR_HEAD)
  {
    hide HeadBytes, WithHead;
    var h := Headed(c, k).one.head;
    TornHead(c, SECTOR_VALID, k);
    TornHead(c, SECTOR_VALID, SECTOR_HEAD);
    FlagBytes(c);
    VersionBytes(c, SECTOR_VALID);
    HeadOnly(c, k);
    HeadOnly(c, SECTOR_HEAD);
    assert h[..4] == [h[0], h[1], h[2], h[3]];
    if k < 3 {
      assert h == ErasedSector(c).head;
    } else if 14 <= k {
      assert h == Headed(c, SECTOR_HEAD).one.head;
    }
  }

  lemma HeadedVersion(c: Config, k: nat)
    requires c.Ok() && k <= SECTOR_HEAD
    ensures |Headed(c, k).one.head| == SECTOR_HEAD
    ensures VersionOf(Headed(c, k).one) == if k <= 12 then 0 else if k == 13 then c.version % 256 else c.version
  {
    hide WithHead, VersionOf, Config.MaxRecords;
    TornHead(c, SECTOR_VALID, k);
    TornVersion(c, SECTOR_VALID, k);
  }

  lemma FlagBytes(c: Config)
    ensures HeadBytes(c, SECTOR_VALID)[0] == 0xFF && HeadBytes(c, SECTOR_VALID)[1] == 0xFF
    ensures HeadBytes(c, SECTOR_VALID)[2] == 0xAA && HeadBytes(c, SECTOR_VALID)[3] == 0xAA
  {
  }

  lemma HeadOnly(c: Config, k: nat)
    requires k <= SECTOR_HEAD
    ensures Headed(c, k) == Blanked(c).With(One, ErasedSector(c).(head := Headed(c, k).one.head))
  {
    hide HeadBytes;
  }

  lemma NoRecords(c: Config, k: nat)
    requires c.Ok() && k <= SECTOR_HEAD
    ensures NextIdx(LogOf(Headed(c, k).one)) == 0
  {
    hide Parse, HeadBytes;
    var s := Headed(c, k).one;
    forall i | 0 <= i < |s.slots|
      ensures LogOf(s)[i] == Empty
    {
      ErasedIsEmpty(s.slots[i]);
    }
    NextIdxIs(LogOf(s), 0);
  }

  /** The load uses the sector if its flags are complete, */
  lemma LoadUses(c: Config, k: nat)
    requires c.Ok() && 4 <= k <= SECTOR_HEAD
    ensures var t := Rebooted(c, Headed(c, k));
            t.vol == Headed(c, k) && t.ram.active == One && t.ram.next == 0 && t.ram.dict == map[]
    ensures LoadCmds(c, Headed(c, k)) == [EraseSector(Two)]
  {
    hide Parse, HeadBytes, LogOf, NextIdx, Headed, FlagsOf, Shape, ErasedSector, Config.MaxRecords;
    var x := Headed(c, k);
    HeadedFlags(c, k);
    HeadedShape(c, k);
    UseRecovers(c, x, One, true);
    NoRecords(c, k);
    NothingDropped(c, x);
    assert x.With(Two, ErasedSector(c)) == x;
  }

  lemma HeadedShape(c: Config, k: nat)
    requires k <= SECTOR_HEAD
    ensures Shaped(c, Headed(c, k)) && Headed(c, k).two == ErasedSector(c)
  {
    hide HeadBytes;
  }

  lemma NothingDropped(c: Config, x: Vol)
    requires Shaped(c, x) && FlagsOf(x.one) == FValid && x.two == ErasedSector(c)
    ensures MountCmds(c, x) == PlanCmds(c, x, Use(One, true)) && PlanFor(x) == Use(One, true)
  {
    hide Shape, PlanCmds, FlagsWord;
    EraseIs(c, x, Two);
  }

  /** and otherwise formats again. */
  lemma LoadFormats(c: Config, k: nat)
    requires c.Ok() && k < 4
    ensures Rebooted(c, Headed(c, k)) == Rebooted(c, Blanked(c))
    ensures k == 3 ==> LoadCmds(c, Headed(c, k)) == [EraseSector(One)] + LoadCmds(c, Blanked(c))
  {
    hide Parse, HeadBytes, LogOf, NextIdx, FlagsOf, Shape, Scanned, ScanCmds, Headed, ErasedSector;
    var x := Headed(c, k);
    HeadedFlags(c, k);
    if k == 3 {
      HeadedShape(c, k);
      BlankShaped(c);
      EraseIs(c, x, One);
      ExecOne(x, EraseSector(One));
      assert x.With(One, ErasedSector(c)) == Blanked(c);
      var format := PlanCmds(c, Blanked(c), Format);
      assert MountCmds(c, Blanked(c)) == format;
      assert MountCmds(c, x) == [EraseSector(One)] + format;
      ExecAppend(x, [EraseSector(One)], format);
      LoadOf(c, x);
      LoadOf(c, Blanked(c));
    }
  }

  /**
   * The load comes up empty wherever the header was cut, but its version is right exactly if the load has
   * formatted again or the version bytes had been written, as far as they are not zero.
   */
  lemma TornReset(c: Config, k: nat)
    requires c.Ok() && k <= SECTOR_HEAD
    ensures var t := Rebooted(c, Headed(c, k));
            && t.ram.active == One && t.ram.next == 0 && MapOf(c, t) == map[]
            && |t.vol.one.head| == SECTOR_HEAD
            && (VersionOf(t.vol.one) == c.version
                <==> k < 4 || 14 <= k || c.version == 0 || (k == 13 && c.version < 0x100))
            && (k < 4 || 14 <= k ==> Faithful(c, t))
  {
    hide HeadBytes, LogOf, Headed, Shape, ErasedSector, Config.MaxRecords, Powered, Exact, LoadCmds, LoadRam, ViewAt,
         VersionOf, Faithful;
    var t := Rebooted(c, Headed(c, k));
    FullFormat(c);
    FormatIsEmpty(c);
    if k < 4 {
      LoadFormats(c, k);
      LoadOfBlank(c);
      HeadedVersion(c, SECTOR_HEAD);
    } else {
      LoadUses(c, k);
      HeadedVersion(c, k);
      VersionHalves(c.version);
    }
    HeadedFlags(c, k);
    HeadedFlags(c, SECTOR_HEAD);
  }

  /** The complete format, and a load of it. */
  lemma FullFormat(c: Config)
    requires c.Ok()
    ensures Rebooted(c, Blanked(c)).vol == Headed(c, SECTOR_HEAD)
    ensures Faithful(c, Rebooted(c, Headed(c, SECTOR_HEAD)))
  {
    hide Parse, HeadBytes, LogOf, NewestAt, LoadCmds, LoadRam, Shape, ErasedSector, Powered, Exact, Stores, ViewAt;
    var e, head := [EraseSector(One)], ProgramHead(One, HeadBytes(c, SECTOR_VALID));
    BlankShaped(c);
    LoadOfBlank(c);
    ExecAppend(Blanked(c), e, [head]);
    ExecOne(Blanked(c), EraseSector(One));
    EraseIs(c, Blanked(c), One);
    ExecOne(Blanked(c), head);
    FormatIsEmpty(c);
    var t := Rebooted(c, Blanked(c));
    SoundStores(c, t);
    RebootShows(c, t.vol, ViewAt(c, t.vol, t.ram.active), []);
  }

  /** Loads that are cut short leave a header that is cut short, or none. */
  lemma LoadMoments(c: Config, k: nat, x: Vol) returns (n: nat)
    requires c.Ok() && k <= SECTOR_HEAD && x in Images(Headed(c, k), LoadCmds(c, Headed(c, k)))
    ensures n <= SECTOR_HEAD && x == Headed(c, n)
  {
    hide HeadBytes, LogOf, Headed, ErasedSector, LoadCmds, Images, Programmed;
    LoadImages(c, k);
    NoHeader(c);
    var head := ProgramHead(One, HeadBytes(c, SECTOR_VALID));
    if x in CmdImages(Blanked(c), head) {
      var i: nat :| i < SECTOR_HEAD && x == Partial(Blanked(c), head, i + 1);
      HeadedIs(c, i + 1);
      n := i + 1;
    } else {
      n := if k < 4 then 0 else k;
    }
  }

  lemma HeadedIs(c: Config, k: nat)
    requires k <= SECTOR_HEAD
    ensures Headed(c, k) == Partial(Blanked(c), ProgramHead(One, HeadBytes(c, SECTOR_VALID)), k)
  {
    hide HeadBytes, Programmed;
  }

  lemma LoadImages(c: Config, k: nat)
    requires c.Ok() && k <= SECTOR_HEAD
    ensures var x := Headed(c, k);
            forall y :: y in Images(x, LoadCmds(c, x)) ==>
              if k < 4 then y == Blanked(c) || y in CmdImages(Blanked(c), ProgramHead(One, HeadBytes(c, SECTOR_VALID)))
              else y == x
  {
    hide HeadBytes, Headed, Shape, ErasedSector, LoadCmds, Partial, FlagsOf;
    var x, e, head := Headed(c, k), [EraseSector(One)], ProgramHead(One, HeadBytes(c, SECTOR_VALID));
    HeadedFlags(c, k);
    HeadedShape(c, k);
    if k < 4 {
      BlankShaped(c);
      LoadOfBlank(c);
      LoadFormats(c, k);
      EraseIs(c, Blanked(c), One);
      EraseIs(c, x, One);
      ExecOne(Blanked(c), EraseSector(One));
      ExecOne(Blanked(c), head);
      ExecAppend(Blanked(c), e, [head]);
      ExecOne(x, EraseSector(One));
      assert x.With(One, ErasedSector(c)) == Blanked(c);
      ExecAppend(x, e, LoadCmds(c, Blanked(c)));
    } else {
      LoadUses(c, k);
      EraseIs(c, x, Two);
      ExecOne(x, EraseSector(Two));
    }
  }

  /** So loads that are cut short, any number of them, change nothing about what a load finds. */
  lemma {:induction false} CutLoads(c: Config, k: nat, loads: seq<nat>) returns (n: nat)
    requires c.Ok() && k <= SECTOR_HEAD
    ensures n <= SECTOR_HEAD && AfterCuts(c, Headed(c, k), loads) == Headed(c, n)
    decreases |loads|
  {
    hide Headed, LoadCmds, Images;
    if loads == [] {
      n := k;
    } else {
      var v := Headed(c, k);
      var images := Images(v, LoadCmds(c, v));
      var at := if loads[0] <= |images| then loads[0] else |images|;
      n := k;
      if at > 0 {
        n := LoadMoments(c, k, images[at - 1]);
      }
      n := CutLoads(c, n, loads[1..]);
    }
  }

  // ---------------------------------------------------------------- the load after the first erase

  /** Without sector one the load of a volume that stores a map finds what sector two has. */
  lemma SectorTwoIsLoaded(c: Config, v: Vol, w: Which)
    requires c.Ok() && Durable(c, v, w) && (FlagsOf(v.two) == FInitializing ==> Sized(c, LogOf(v.two)))
    ensures var t := Rebooted(c, v.With(One, ErasedSector(c))); MapOf(c, t) == ViewAt(c, v, Two)
  {
    hide Parse, NewestAt, LogOf, SectorOk, Shape, Powered, Exact, ErasedSector, ViewAt, Shown, FlagsOf, LoadCmds,
         LoadRam, Stores;
    var x := v.With(One, ErasedSector(c));
    EraseIs(c, v, One);
    SameView(c, v, x, Two);
    if FlagsOf(v.two) == FInitializing {
      RepairShows(c, x, Two);
    } else if v.two == ErasedSector(c) {
      BlankView(c, v, Two);
      FormatIsEmpty(c);
    } else {
      StoresBy(c, x, Two);
      RebootShows(c, x, ViewAt(c, x, Two), []);
    }
  }

  /** Loads that are cut short do not change it, unless one would have to repair from the repair of another. */
  lemma SectorTwoStays(c: Config, v: Vol, w: Which, loads: seq<nat>)
    requires c.Ok() && Durable(c, v, w) && (w == Two || FlagsOf(v.two) != FInitializing)
    ensures var x := v.With(One, ErasedSector(c));
            MapOf(c, Rebooted(c, AfterCuts(c, x, loads))) == ViewAt(c, v, Two)
  {
    hide Parse, NewestAt, LogOf, SectorOk, Shape, Powered, ErasedSector, ViewAt, Shown, FlagsOf, LoadCmds, LoadRam,
         Stores, AfterCuts, Rebooted, Faithful, Headed;
    var x := v.With(One, ErasedSector(c));
    EraseIs(c, v, One);
    SameView(c, v, x, Two);
    if w == One && v.two == ErasedSector(c) {
      BlankView(c, v, Two);
      NoHeader(c);
      var n := CutLoads(c, 0, loads);
      TornReset(c, n);
    } else {
      StoresBy(c, x, Two);
      RebootShows(c, x, ViewAt(c, x, Two), loads);
    }
  }

  /**
   * What a reset leaves for the load that follows, by the moment at which power fails: the map as it was, what
   * sector two has once sector one is erased, and nothing after that.
   */
  lemma ResetFinds(c: Config, v: Vol, w: Which, at: nat, loads: seq<nat>)
    requires c.Ok() && Durable(c, v, w) && at <= |Images(v, ResetCmds(c))|
    requires at == 1 && w == One && FlagsOf(v.two) == FInitializing ==> loads == [] && Sized(c, LogOf(v.two))
    ensures var t := Rebooted(c, AfterCuts(c, Torn(v, ResetCmds(c), at), loads));
            MapOf(c, t) == if at == 0 then ViewAt(c, v, w) else if at == 1 then ViewAt(c, v, Two) else map[]
  {
    hide Parse, NewestAt, LogOf, SectorOk, Shape, Headed, ResetCmds, Images, Rebooted, Shown, ViewAt, Stores, AfterCuts,
         Faithful, FlagsOf, Sized, ErasedSector;
    if at == 0 {
      StoresBy(c, v, w);
      RebootShows(c, v, ViewAt(c, v, w), loads);
    } else {
      var k := ResetMoments(c, v, at);
      if at >= 2 {
        var n := CutLoads(c, k, loads);
        TornReset(c, n);
      } else if w == One && FlagsOf(v.two) == FInitializing {
        SectorTwoIsLoaded(c, v, w);
        NoCuts(c, v.With(One, ErasedSector(c)));
      } else {
        SectorTwoStays(c, v, w, loads);
      }
    }
  }

  /**
   * Power fails at any moment of a reset, and then of the loads, and sector two holds the map or its header is
   * not INITIALIZING: the store comes up with the map that was on flash before, or empty. If both headers are
   * VALID it may also be the map of sector two, which a swap has made the same.
   */
  lemma ResetIsAtomic(c: Config, v: Vol, w: Which, at: nat, loads: seq<nat>)
    requires c.Ok() && Durable(c, v, w) && at <= |Images(v, ResetCmds(c))|
    requires w == Two || FlagsOf(v.two) != FInitializing
    ensures var m := MapOf(c, Rebooted(c, AfterCuts(c, Torn(v, ResetCmds(c), at), loads)));
            m == ViewAt(c, v, w) || m == map[] || (w == One && FlagsOf(v.two) == FValid && m == ViewAt(c, v, Two))
  {
    hide Parse, NewestAt, LogOf, SectorOk, Shape, ResetCmds, Images, Rebooted, Shown, ViewAt, AfterCuts, FlagsOf,
         ErasedSector;
    ResetFinds(c, v, w, at, loads);
    if w == One {
      if v.two == ErasedSector(c) { BlankView(c, v, Two); } else { ValidFlags(c, v.two); }
    }
  }

  /** A loaded store is such a volume. */
  lemma LoadedResetIsAtomic(c: Config, s: State, at: nat, loads: seq<nat>)
    requires c.Ok() && Sound(c, s) && at <= |Images(s.vol, ResetCmds(c))|
    ensures var m := MapOf(c, Rebooted(c, AfterCuts(c, Torn(s.vol, ResetCmds(c), at), loads)));
            m == ViewAt(c, s.vol, s.ram.active) || m == map[]
  {
    hide Parse, NewestAt, LogOf, SectorOk, Shape, ResetCmds, Images, Rebooted, Shown, ViewAt, AfterCuts, FlagsOf;
    EraseIs(c, s.vol, Two);
    ResetIsAtomic(c, s.vol, s.ram.active, at, loads);
  }

  /**
   * Whatever the headers: a reset that fails after its first erase is atomic exactly if sector two has the same
   * map or none. With sector two INITIALIZING it can have a part of it.
   */
  lemma FirstEraseIsAtomic(c: Config, v: Vol, w: Which)
    requires c.Ok() && Durable(c, v, w) && (FlagsOf(v.two) == FInitializing ==> Sized(c, LogOf(v.two)))
    ensures 1 <= |Images(v, ResetCmds(c))|
    ensures var m := MapOf(c, Rebooted(c, Torn(v, ResetCmds(c), 1)));
            (m == ViewAt(c, v, w) || m == map[]) <==> ViewAt(c, v, Two) == ViewAt(c, v, w) || ViewAt(c, v, Two) == map[]
  {
    hide Parse, NewestAt, LogOf, SectorOk, Shape, ResetCmds, Images, Rebooted, Shown, ViewAt, FlagsOf, Sized,
         CmdImages, ErasedSector;
    ResetImages(c, v);
    var k := ResetMoments(c, v, 1);
    SectorTwoIsLoaded(c, v, w);
  }
}
