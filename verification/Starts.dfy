/**
 * How the users of a volume start it: nvol3_validate looks at flags and version of the headers, and decides
 * between a load and a reset. Where this keeps the map although power has failed, and where it does not.
 */
module Starts {
  import opened ErrorDef
  import opened Flash
  import opened Records
  import opened Volumes
  import opened Logs
  import opened Protocol
  import opened Recovery
  import opened Durability
  import opened Atomicity
  import opened Compaction
  import opened CrashSafety
  import opened Runs
  import opened Shadows
  import opened Mounts
  import opened Resets

  /** Flags that claim a sector for the store. */
  predicate Claims(f: SectorFlags) { f.FInitializing? || f.FValid? || f.FInvalid? }

  /** nvol3_validate: the version of the first sector that is claimed. */
  function Validate(c: Config, v: Vol): Status
    requires Shaped(c, v)
  {
    if Claims(FlagsOf(v.one)) then (if VersionOf(v.one) == c.version then EOK else E_VERSION)
    else if Claims(FlagsOf(v.two)) then (if VersionOf(v.two) == c.version then EOK else E_VERSION)
    else EFAIL
  }

  /** registry_start: load a valid volume, reset any other. */
  function StartCmds(c: Config, v: Vol): seq<Cmd>
    requires Shaped(c, v)
  {
    if Validate(c, v) == EOK then LoadCmds(c, v) else ResetCmds(c)
  }

  function Started(c: Config, v: Vol): State
    requires Shaped(c, v)
  {
    State(Exec(v, StartCmds(c, v)), LoadRam(c, if Validate(c, v) == EOK then v else Blanked(c)))
  }

  /** Flash after starts that were each cut short after the given number of steps. */
  function AfterStarts(c: Config, v: Vol, cuts: seq<nat>): (x: Vol)
    requires Shaped(c, v)
    ensures Shaped(c, x)
    decreases |cuts|
  {
    if cuts == [] then v
    else
      var images := Images(v, StartCmds(c, v));
      ImagesShaped(c, v, StartCmds(c, v));
      AfterStarts(c, Torn(v, StartCmds(c, v), if cuts[0] <= |images| then cuts[0] else |images|), cuts[1..])
  }

  // ---------------------------------------------------------------- one start

  lemma ResetEndsFormatted(c: Config, v: Vol)
    requires c.Ok() && Shaped(c, v)
    ensures State(Exec(v, ResetCmds(c)), LoadRam(c, Blanked(c))) == Rebooted(c, Blanked(c))
  {
    hide LoadCmds, LoadRam, ErasedSector, Shape;
    var u := v.With(One, ErasedSector(c));
    EraseIs(c, v, One);
    EraseIs(c, u, Two);
    ExecOne(v, EraseSector(One));
    ExecOne(u, EraseSector(Two));
    assert [EraseSector(One)] + [EraseSector(Two)] == [EraseSector(One), EraseSector(Two)];
    ExecAppend(v, [EraseSector(One)], [EraseSector(Two)]);
    ExecAppend(v, [EraseSector(One), EraseSector(Two)], LoadCmds(c, Blanked(c)));
  }

  /** A header of 16 bytes whose flag word, low byte first, is INITIALIZING, VALID or INVALID. */
  predicate Claimed(h: seq<byte>) {
    && |h| == 16 && h[3] == 0xAA
    && (h[..3] == [0xFF, 0xFF, 0xFF] || h[..3] == [0xFF, 0xFF, 0xAA] || h[..3] == [0xAA, 0xAA, 0xAA])
  }

  /** The inverted version word of the header, low byte first. */
  predicate HasVersionOf(h: seq<byte>, version: nat)
    requires |h| == 16
  {
    (!h[12]) as nat + 0x100 * ((!h[13]) as nat) == version
  }

  /**
   * The status for any two headers: EFAIL exactly if a load would format the volume, and otherwise the version of
   * the first claimed header decides.
   */
  lemma ValidateMeans(c: Config, v: Vol)
    requires Shaped(c, v)
    ensures Validate(c, v) == EFAIL <==> PlanFor(v) == Format
    ensures Validate(c, v) == EFAIL <==> !Claimed(v.one.head) && !Claimed(v.two.head)
    ensures Claimed(v.one.head) ==>
              Validate(c, v) == if HasVersionOf(v.one.head, c.version) then EOK else E_VERSION
    ensures !Claimed(v.one.head) && Claimed(v.two.head) ==>
              Validate(c, v) == if HasVersionOf(v.two.head, c.version) then EOK else E_VERSION
  {
    ClaimedFlags(v.one);
    ClaimedFlags(v.two);
    hide FlagsOf, Claimed;
  }

  lemma ClaimedFlags(s: Sector)
    requires |s.head| == 16
    ensures Claimed(s.head) <==> Claims(FlagsOf(s))
  {
    var h, f := s.head, s.head[..4];
    assert f == h[..3] + [h[3]] && f[..3] == h[..3];
    assert SECTOR_INITIALIZING[..3] == [0xFF, 0xFF, 0xFF] && SECTOR_VALID[..3] == [0xFF, 0xFF, 0xAA];
    assert SECTOR_INVALID[..3] == [0xAA, 0xAA, 0xAA] && SECTOR_EMPTY[3] == 0xFF;
  }

  /**
   * A volume that stores a map is valid unless a swap out of sector two has been cut short while it wrote the
   * header of sector one.
   */
  lemma ValidateFinds(c: Config, v: Vol, w: Which)
    requires c.Ok() && Durable(c, v, w)
    ensures Validate(c, v)
            == if w == One || FlagsOf(v.one) != FInitializing || VersionOf(v.one) == c.version then EOK else E_VERSION
  {
    hide Parse, LogOf, NewestAt, VersionOf, HeadBytes, FlagsOf;
    ValidFlags(c, v.At(w));
    VersionBytes(c, SECTOR_VALID);
    VersionIs(c, v.At(w));
    EraseIs(c, v, One);
  }

  /** One start that completes: a valid volume keeps its map, any other is empty. */
  lemma StartShows(c: Config, v: Vol, w: Which)
    requires c.Ok() && Durable(c, v, w)
    ensures Faithful(c, Started(c, v))
    ensures MapOf(c, Started(c, v)) == if Validate(c, v) == EOK then ViewAt(c, v, w) else map[]
  {
    hide Parse, LogOf, NewestAt, Durable, Validate, LoadCmds, LoadRam, Faithful, Shown, ViewAt, Stores, ResetCmds,
         Shape, Blanked;
    DurableShaped(c, v, w);
    if Validate(c, v) == EOK {
      StoresBy(c, v, w);
      NoCuts(c, v);
      RebootShows(c, v, ViewAt(c, v, w), []);
    } else {
      ResetEndsFormatted(c, v);
      FormatIsEmpty(c);
    }
  }

  lemma DurableShaped(c: Config, v: Vol, w: Which)
    requires Durable(c, v, w)
    ensures Shaped(c, v)
  {
  }

  // ---------------------------------------------------------------- starts that fail

  /** No moment of the start of a valid volume makes it invalid or loses its map, */
  lemma LoadKeepsValid(c: Config, v: Vol, w: Which, x: Vol)
    requires c.Ok() && Durable(c, v, w) && Validate(c, v) == EOK && x in Images(v, LoadCmds(c, v))
    ensures Durable(c, x, w) && ViewAt(c, x, w) == ViewAt(c, v, w) && Validate(c, x) == EOK
  {
    hide Parse, LogOf, NewestAt, LoadCmds, LoadRam, Durable, VersionOf, Images, FlagsOf, Validate, ErasedSector;
    Boot(c, v, w);
    ValidateFinds(c, x, w);
    if w == Two {
      LoadErasesOther(c, v, w, x);
      DurableShaped(c, v, w);
      EraseIs(c, v, One);
    }
  }

  /** nor do any number of starts that are cut short. */
  lemma {:induction false} StartsKeepMap(c: Config, v: Vol, w: Which, cuts: seq<nat>)
    requires c.Ok() && Durable(c, v, w) && Validate(c, v) == EOK
    ensures Shaped(c, v)
    ensures var x := AfterStarts(c, v, cuts);
            Durable(c, x, w) && ViewAt(c, x, w) == ViewAt(c, v, w) && Validate(c, x) == EOK
    decreases |cuts|
  {
    hide Parse, LogOf, NewestAt, LoadCmds, Durable, Images, Validate, ViewAt, Shape;
    DurableShaped(c, v, w);
    if cuts != [] {
      var images := Images(v, LoadCmds(c, v));
      var at := if cuts[0] <= |images| then cuts[0] else |images|;
      var x := Torn(v, LoadCmds(c, v), at);
      if at > 0 {
        LoadKeepsValid(c, v, w, x);
      }
      StartsKeepMap(c, x, w, cuts[1..]);
    }
  }

  /** Starts of a blank volume, with or without a part of a header, leave such a volume, */
  lemma {:induction false} StartsOfBlank(c: Config, k: nat, cuts: seq<nat>) returns (n: nat)
    requires c.Ok() && k <= SECTOR_HEAD
    ensures Shaped(c, Headed(c, k)) && n <= SECTOR_HEAD && AfterStarts(c, Headed(c, k), cuts) == Headed(c, n)
    decreases |cuts|
  {
    hide Headed, LoadCmds, ResetCmds, Images, Validate, Shape, ErasedSector;
    HeadedShape(c, k);
    n := k;
    if cuts != [] {
      var v := Headed(c, k);
      var cmds := StartCmds(c, v);
      var images := Images(v, cmds);
      var at := if cuts[0] <= |images| then cuts[0] else |images|;
      if at > 0 {
        if Validate(c, v) == EOK {
          n := LoadMoments(c, k, images[at - 1]);
        } else {
          n := ResetMoments(c, v, at);
          if at == 1 {
            n := 0;
            NoHeader(c);
            HeadedBlank(c, k);
          }
        }
      }
      n := StartsOfBlank(c, n, cuts[1..]);
    }
  }

  lemma HeadedBlank(c: Config, k: nat)
    requires k <= SECTOR_HEAD
    ensures Headed(c, k).With(One, ErasedSector(c)) == Blanked(c)
  {
    hide HeadBytes;
  }

  /** and the one that completes comes up empty and with the right version, whatever part of a header there was. */
  lemma StartOfBlank(c: Config, k: nat)
    requires c.Ok() && k <= SECTOR_HEAD
    ensures Shaped(c, Headed(c, k))
    ensures var t := Started(c, Headed(c, k));
            && MapOf(c, t) == map[] && t.ram.active == One && t.ram.next == 0
            && |t.vol.one.head| == SECTOR_HEAD && VersionOf(t.vol.one) == c.version
  {
    hide Headed, LoadCmds, LoadRam, ResetCmds, VersionOf, Shown, Shape, Faithful;
    HeadedShape(c, k);
    HeadedFlags(c, k);
    NoHeader(c);
    EraseIs(c, Headed(c, k), Two);
    TornReset(c, 0);
    if Validate(c, Headed(c, k)) == EOK {
      LoadUses(c, k);
      TornReset(c, k);
    } else {
      ResetEndsFormatted(c, Headed(c, k));
    }
  }

  /**
   * Any number of starts that power cuts short, and one that completes: the map that was on flash or an empty
   * store, and the map if the volume was valid.
   */
  lemma {:induction false} StartsAreAtomic(c: Config, v: Vol, w: Which, cuts: seq<nat>)
    requires c.Ok() && Durable(c, v, w)
    ensures Shaped(c, v)
    ensures var m := MapOf(c, Started(c, AfterStarts(c, v, cuts)));
            (m == ViewAt(c, v, w) || m == map[]) && (Validate(c, v) == EOK ==> m == ViewAt(c, v, w))
    decreases |cuts|
  {
    hide Parse, LogOf, NewestAt, Headed, LoadCmds, LoadRam, ResetCmds, Images, Validate, ViewAt, Shown, Started, Shape,
         ErasedSector, Faithful;
    DurableShaped(c, v, w);
    if Validate(c, v) == EOK {
      StartsKeepMap(c, v, w, cuts);
      StartShows(c, AfterStarts(c, v, cuts), w);
    } else if cuts == [] {
      StartShows(c, v, w);
    } else {
      var images := Images(v, ResetCmds(c));
      var at := if cuts[0] <= |images| then cuts[0] else |images|;
      if at == 0 {
        StartsAreAtomic(c, v, w, cuts[1..]);
      } else {
        var k := ResetMoments(c, v, at);
        if at == 1 {
          InvalidSector(c, v, w);
          StartsAreAtomic(c, v.With(One, ErasedSector(c)), Two, cuts[1..]);
        } else {
          var n := StartsOfBlank(c, k, cuts[1..]);
          StartOfBlank(c, n);
        }
      }
    }
  }

  lemma InvalidSector(c: Config, v: Vol, w: Which)
    requires c.Ok() && Durable(c, v, w) && Validate(c, v) != EOK
    ensures w == Two && Durable(c, v.With(One, ErasedSector(c)), Two)
    ensures ViewAt(c, v.With(One, ErasedSector(c)), Two) == ViewAt(c, v, Two)
  {
    hide Parse, LogOf, NewestAt, Validate, SectorOk, Shape, FlagsOf, VersionOf, ErasedSector;
    ValidateFinds(c, v, w);
    EraseIs(c, v, One);
    SameView(c, v, v.With(One, ErasedSector(c)), Two);
  }

  // ---------------------------------------------------------------- the start after an operation

  /** Flash when a swap into sector dst has written k bytes of the INITIALIZING header. */
  function OpenedUpTo(c: Config, v: Vol, dst: Which, k: nat): Vol
    requires k <= SECTOR_HEAD
  {
    v.With(dst, WithHead(c, ErasedSector(c), SECTOR_INITIALIZING, k))
  }

  /** The version is missing from the header: flags without a version that happens to be zero. */
  predicate Versionless(c: Config, k: nat) { 4 <= k < 14 && c.version != 0 && (k == 13 ==> 0x100 <= c.version) }

  lemma OpenedVersion(c: Config, v: Vol, k: nat)
    requires c.Ok() && k <= SECTOR_HEAD
    ensures var s := OpenedUpTo(c, v, One, k).one;
            && FlagsOf(s) == (if k < 4 then FEmpty else FInitializing) && |s.head| == SECTOR_HEAD
            && (FlagsOf(s) == FInitializing && VersionOf(s) != c.version <==> Versionless(c, k))
  {
    hide HeadBytes, WithHead, VersionOf, FlagsOf, Config.MaxRecords;
    ErasedFlags(c);
    OpenHead(c, ErasedSector(c), k);
    TornHead(c, SECTOR_INITIALIZING, k);
    TornVersion(c, SECTOR_INITIALIZING, k);
    VersionHalves(c.version);
  }

  /** Both headers of a compaction have the version in the same bytes. */
  predicate HasVersion(c: Config, s: Sector) {
    |s.head| == SECTOR_HEAD && s.head[12] == !LowByte(c.version) && s.head[13] == !HighByte(c.version)
  }

  lemma CompactVersions(c: Config, v: Vol, dst: Which, idxs: seq<nat>, x: Vol)
    requires CanCompact(c, v, dst, idxs) && v.At(dst) == ErasedSector(c)
    requires AllReadable(v.At(dst.Other()).slots, idxs) && x in Images(v, CompactCmds(c, v, dst, idxs))
    ensures HasVersion(c, x.At(dst)) || exists k :: 0 <= k <= SECTOR_HEAD && x == OpenedUpTo(c, v, dst, k)
  {
    hide Parse, Readable, HeadBytes, Copied, Opened, FlagsOf, LogOf, CopyCmds, CanCompact, HasVersion, OpenedUpTo,
         Partial, ErasedSector;
    var open, commit := ProgramHead(dst, HeadBytes(c, SECTOR_INITIALIZING)),
                        ProgramHead(dst, HeadBytes(c, SECTOR_VALID));
    CompactStages(c, v, dst, idxs);
    CompactShape(c, v, dst, idxs);
    CleanedIs(c, v, dst);
    ErasedFlags(c);
    if x in CmdImages(v, open) {
      var i: nat :| i < SECTOR_HEAD && x == Partial(v, open, i + 1);
      OpenedIsPartial(c, v, dst, i + 1);
    } else if x in Images(Opened(c, v, dst), CopyCmds(v.At(dst.Other()).slots, idxs, dst)) {
      CopyingVersion(c, v, dst, idxs, x);
    } else {
      var i: nat :| i < SECTOR_HEAD && x == Partial(Copied(c, v, dst, idxs), commit, i + 1);
      CommittingVersion(c, v, dst, idxs, i + 1);
    }
  }

  lemma CompactShape(c: Config, v: Vol, dst: Which, idxs: seq<nat>)
    requires CanCompact(c, v, dst, idxs)
    ensures Shaped(c, v) && Blank(c, v.At(dst))
  {
  }

  lemma CopyingVersion(c: Config, v: Vol, dst: Which, idxs: seq<nat>, x: Vol)
    requires Shaped(c, v) && Blank(c, v.At(dst)) && AllReadable(v.At(dst.Other()).slots, idxs)
    requires x in Images(Opened(c, v, dst), CopyCmds(v.At(dst.Other()).slots, idxs, dst))
    ensures HasVersion(c, x.At(dst))
  {
    hide Parse, Readable, HeadBytes, FlagsOf, CopyCmds, Opened, LowByte, HighByte;
    OpenedIs(c, v, dst);
    VersionBytes(c, SECTOR_INITIALIZING);
    CopiesOnlySlots(v.At(dst.Other()).slots, idxs, dst);
    SlotCommands(Opened(c, v, dst), CopyCmds(v.At(dst.Other()).slots, idxs, dst), dst);
  }

  lemma CommittingVersion(c: Config, v: Vol, dst: Which, idxs: seq<nat>, k: nat)
    requires CanCompact(c, v, dst, idxs) && AllReadable(v.At(dst.Other()).slots, idxs) && k <= SECTOR_HEAD
    ensures HasVersion(c, Partial(Copied(c, v, dst, idxs), ProgramHead(dst, HeadBytes(c, SECTOR_VALID)), k).At(dst))
  {
    hide Parse, Readable, HeadBytes, FlagsOf, LogOf, CopyCmds, Copied, HasVersion;
    CopiedIs(c, v, dst, idxs);
    var y := Copied(c, v, dst, idxs);
    var x := Partial(y, ProgramHead(dst, HeadBytes(c, SECTOR_VALID)), k);
    CommitKeepsVersion(c, x.At(dst), y.At(dst), k);
  }

  lemma OpenedIsPartial(c: Config, v: Vol, dst: Which, k: nat)
    requires v.At(dst) == ErasedSector(c) && k <= SECTOR_HEAD
    ensures Partial(v, ProgramHead(dst, HeadBytes(c, SECTOR_INITIALIZING)), k) == OpenedUpTo(c, v, dst, k)
  {
    hide HeadBytes, Programmed;
  }

  lemma CopiesOnlySlots(slots: seq<seq<byte>>, idxs: seq<nat>, w: Which)
    requires AllReadable(slots, idxs)
    ensures OnlySlots(CopyCmds(slots, idxs, w), w)
  {
  }

  lemma CommitKeepsVersion(c: Config, t: Sector, s: Sector, k: nat)
    requires s.head == HeadBytes(c, SECTOR_INITIALIZING) && k <= SECTOR_HEAD
    requires t.head == Programmed(s.head, 0, HeadBytes(c, SECTOR_VALID)[..k])
    ensures HasVersion(c, t)
  {
    hide HeadBytes, LowByte, HighByte, Programmed;
    VersionBytes(c, SECTOR_INITIALIZING);
    VersionBytes(c, SECTOR_VALID);
    ByteKept(s.head, HeadBytes(c, SECTOR_VALID), k, 12);
    ByteKept(s.head, HeadBytes(c, SECTOR_VALID), k, 13);
  }

  /** Programming a byte with itself keeps it. */
  lemma ByteKept(was: seq<byte>, data: seq<byte>, k: nat, i: nat)
    requires |was| == |data| && i < |was| && k <= |data| && was[i] == data[i]
    ensures Programmed(was, 0, data[..k])[i] == was[i]
  {
    AndSame(was[i]);
  }

  lemma AndSame(b: byte)
    ensures b & b == b
  {
  }

  /** Slot commands on a volume with one good sector leave it valid at every moment. */
  lemma SlotsStayValid(c: Config, v: Vol, w: Which, cmds: seq<Cmd>, x: Vol)
    requires c.Ok() && Sole(c, v, w) && OnlySlots(cmds, w) && (x == v || x in Images(v, cmds)) && Shaped(c, x)
    ensures Validate(c, x) == EOK && FlagsOf(x.one) != FInitializing
  {
    hide Parse, LogOf, HeadBytes, VersionOf;
    SlotCommands(v, cmds, w);
    VersionBytes(c, SECTOR_VALID);
    VersionIs(c, x.At(w));
    ErasedFlags(c);
    assert x.At(w).head[..4] == SECTOR_VALID by { ValidFlags(c, v.At(w)); }
  }

  lemma StoreOnlySlots(c: Config, v: Vol, ram: Ram, body: seq<byte>)
    requires Powered(c, v, ram)
    ensures OnlySlots(Store(c, v, ram, body).cmds, ram.active)
  {
    hide Powered, Accepts, AlreadyStored, RecordBytes, Store, KeyOf;
    StoreIs(c, v, ram, body);
  }

  /** A moment of a swap is invalid only while the header of sector one is being written. */
  lemma SwapInvalid(c: Config, v: Vol, ram: Ram, order: seq<Key>, x: Vol)
    requires c.Ok() && Powered(c, v, ram) && IsWalk(ram, order) && Reachable(v, ram) && Shaped(c, x)
    requires x in Images(v, SwapCmds(c, v, ram, order)) && FlagsOf(x.one) == FInitializing && Validate(c, x) != EOK
    ensures ram.active == Two
    ensures exists k :: 0 <= k <= SECTOR_HEAD && Versionless(c, k) && x == OpenedUpTo(c, v, One, k)
  {
    hide Parse, Readable, NewestAt, LogOf, SectorOk, Shape, SlotsInOrder, CompactCmds, CanCompact, Committed,
         HeadBytes, FlagsOf, VersionOf, Sole, SwapCmds, Shown, ViewAt, Powered, HasVersion, OpenedUpTo, ErasedSector,
         SlotsOfKeys, Reachable, Config.MaxRecords, Config.Ok, LowByte, HighByte;
    var dst, idxs := ram.active.Other(), SlotsInOrder(ram, order);
    WalkCompacts(c, v, ram, order);
    CompactsReadable(c, v, dst, idxs);
    SwapCommit(c, v, ram, order, idxs, dst);
    NextIs(c, v, ram);
    SoleOk(c, v, ram.active);
    var z := Committed(c, v, dst, idxs).With(ram.active, ErasedSector(c));
    if x in Images(v, CompactCmds(c, v, dst, idxs)) {
      CompactMoments(c, v, dst, idxs, x);
      ValidFlags(c, v.At(ram.active));
      SoleErased(c, v, ram.active);
      CompactVersions(c, v, dst, idxs, x);
      if HasVersion(c, x.At(dst)) {
        HasVersionIs(c, x.At(dst));
      } else {
        var k :| 0 <= k <= SECTOR_HEAD && x == OpenedUpTo(c, v, dst, k);
        OpenedVersion(c, v, k);
      }
    } else {
      SlotsStayValid(c, z, dst, [], z);
    }
  }

  lemma SoleErased(c: Config, v: Vol, w: Which)
    requires Sole(c, v, w)
    ensures v.At(w.Other()) == ErasedSector(c)
  {
  }

  lemma HasVersionIs(c: Config, s: Sector)
    requires c.Ok() && HasVersion(c, s)
    ensures |s.head| == SECTOR_HEAD && VersionOf(s) == c.version
  {
    hide VersionOf, LowByte, HighByte;
    VersionIs(c, s);
  }

  lemma OperationInvalid(c: Config, s: State, op: Op, x: Vol)
    requires c.Ok() && Sound(c, s) && CanDo(c, s, op) && x in Images(s.vol, Result(c, s, op).cmds) && Shaped(c, x)
    requires FlagsOf(x.one) == FInitializing && Validate(c, x) != EOK
    ensures s.ram.active == Two
    ensures exists k :: 0 <= k <= SECTOR_HEAD && Versionless(c, k) && x == OpenedUpTo(c, s.vol, One, k)
  {
    hide Powered, Store, NewestAt, LogOf, SwapCmds, SwapRam, Validate, Shape, Sole, OnlySlots, Shown, FlagsOf, IsWalk,
         Reachable, Versionless, OpenedUpTo, Config.Ok, Config.MaxRecords, ViewAt, NoShadow;
    NextIs(c, s.vol, s.ram);
    match op {
      case DeleteOp(key) =>
        DeleteOnlySlots(s.ram, key);
        SlotsStayValid(c, s.vol, s.ram.active, Delete(s.ram, key).cmds, x);
      case SetOp(body, order) =>
        StoreOnlySlots(c, s.vol, s.ram, body);
        if s.ram.next >= c.MaxRecords() {
          var swap, ram := SwapCmds(c, s.vol, s.ram, order), SwapRam(c, s.vol, s.ram, order);
          var u := Exec(s.vol, swap);
          SwapResult(c, s.vol, s.ram, order);
          NextIs(c, u, ram);
          StoreOnlySlots(c, u, ram, body);
          ExecAppend(s.vol, swap, Store(c, u, ram, body).cmds);
          if x in Images(s.vol, swap) {
            SwapInvalid(c, s.vol, s.ram, order, x);
          } else {
            SlotsStayValid(c, u, ram.active, Store(c, u, ram, body).cmds, x);
          }
        } else {
          SlotsStayValid(c, s.vol, s.ram.active, Store(c, s.vol, s.ram, body).cmds, x);
        }
    }
  }

  lemma DeleteOnlySlots(ram: Ram, key: Key)
    ensures OnlySlots(Delete(ram, key).cmds, ram.active)
  {
  }

  /**
   * Power fails at any moment of an operation, and then of any number of starts: the store comes up with a map
   * that the operation allows, except exactly if a swap out of sector two has written the flags of the header of
   * sector one but not its version. Then the volume is reset, although sector two still has the whole map.
   */
  lemma StartAfterFailure(c: Config, s: State, op: Op, x: Vol, cuts: seq<nat>)
    requires c.Ok() && Sound(c, s) && CanDo(c, s, op) && x in Images(s.vol, Result(c, s, op).cmds)
    ensures Shaped(c, x)
    ensures Validate(c, x) != EOK
            <==> s.ram.active == Two
                 && exists k :: 0 <= k <= SECTOR_HEAD && Versionless(c, k) && x == OpenedUpTo(c, s.vol, One, k)
    ensures Validate(c, x) == EOK ==> MayRecover(c, s, op, MapOf(c, Started(c, AfterStarts(c, x, cuts))))
    ensures Validate(c, x) != EOK ==> MapOf(c, Started(c, x)) == map[] && Stores(c, x, OnFlash(c, s))
  {
    hide Powered, Result, NewestAt, LogOf, Validate, Shape, Sole, FlagsOf, Versionless, OpenedUpTo, Config.Ok, ViewAt,
         Images, CanDo, MayRecover, Durable, Started, AfterStarts, Stores, Shown, VersionOf;
    var m := TornStores(c, s, op, x);
    var w := StoresWhere(c, x, m);
    DurableShaped(c, x, w);
    ValidateFinds(c, x, w);
    StartsAreAtomic(c, x, w, cuts);
    if Validate(c, x) != EOK {
      OperationInvalid(c, s, op, x);
      var k :| 0 <= k <= SECTOR_HEAD && Versionless(c, k) && x == OpenedUpTo(c, s.vol, One, k);
      StartShows(c, x, w);
      OpenedStores(c, s, k);
    } else if s.ram.active == Two {
      forall k | 0 <= k <= SECTOR_HEAD && x == OpenedUpTo(c, s.vol, One, k)
        ensures !Versionless(c, k)
      {
        OpenedInvalid(c, s.vol, k);
      }
    }
  }

  lemma StoresWhere(c: Config, x: Vol, m: Map) returns (w: Which)
    requires Stores(c, x, m)
    ensures Durable(c, x, w) && ViewAt(c, x, w) == m
  {
    hide Durable, ViewAt;
    w :| Durable(c, x, w) && ViewAt(c, x, w) == m;
  }

  lemma OpenedInvalid(c: Config, v: Vol, k: nat)
    requires c.Ok() && k <= SECTOR_HEAD && Shaped(c, OpenedUpTo(c, v, One, k))
    ensures Versionless(c, k) ==> Validate(c, OpenedUpTo(c, v, One, k)) != EOK
  {
    hide OpenedUpTo, Versionless, FlagsOf, VersionOf, Shape;
    OpenedVersion(c, v, k);
  }

  /** Sector two still has the map. */
  lemma OpenedStores(c: Config, s: State, k: nat)
    requires c.Ok() && Sound(c, s) && s.ram.active == Two && k <= SECTOR_HEAD && Versionless(c, k)
    ensures Stores(c, OpenedUpTo(c, s.vol, One, k), OnFlash(c, s))
  {
    hide NewestAt, LogOf, FlagsOf, HeadBytes, SectorOk;
    var x := OpenedUpTo(c, s.vol, One, k);
    NextIs(c, s.vol, s.ram);
    OpenedVersion(c, s.vol, k);
    SameView(c, s.vol, x, Two);
    StoresBy(c, x, Two);
  }

  /** Every such moment is met by every swap out of sector two. */
  lemma HeaderIsWritten(c: Config, s: State, body: seq<byte>, order: seq<Key>, k: nat)
    requires c.Ok() && Sound(c, s) && CanDo(c, s, SetOp(body, order)) && s.ram.next >= c.MaxRecords()
    requires s.ram.active == Two && 1 <= k <= SECTOR_HEAD
    ensures OpenedUpTo(c, s.vol, One, k) in Images(s.vol, Result(c, s, SetOp(body, order)).cmds)
  {
    hide Parse, Readable, NewestAt, LogOf, SectorOk, Shape, SlotsInOrder, CompactCmds, CanCompact, Committed,
         HeadBytes, FlagsOf, VersionOf, Sole, Shown, ViewAt, Powered, OpenedUpTo, ErasedSector, Store, Partial,
         CopyCmds, SlotsOfKeys, Config.MaxRecords, Config.Ok, SwapCmds, SwapRam;
    var v, ram, idxs := s.vol, s.ram, SlotsInOrder(s.ram, order);
    var open := ProgramHead(One, HeadBytes(c, SECTOR_INITIALIZING));
    WalkCompacts(c, v, ram, order);
    CompactsReadable(c, v, One, idxs);
    SwapCommit(c, v, ram, order, idxs, One);
    CompactStages(c, v, One, idxs);
    CompactShape(c, v, One, idxs);
    CleanedIs(c, v, One);
    NextIs(c, v, ram);
    SoleErased(c, v, Two);
    ErasedFlags(c);
    OpenedIsPartial(c, v, One, k);
    assert CmdImages(v, open)[k - 1] == Partial(v, open, k);
    var swap, ram' := SwapCmds(c, v, ram, order), SwapRam(c, v, ram, order);
    ExecAppend(v, swap, Store(c, Exec(v, swap), ram', body).cmds);
  }
}
