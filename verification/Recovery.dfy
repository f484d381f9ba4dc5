/** Loading a volume: total on any flash contents, and harmless to interrupt on a volume of the store's own. */
module Recovery {
  import opened Flash
  import opened Records
  import opened Volumes
  import opened Logs
  import opened Protocol

  // ---------------------------------------------------------------- single commands

  lemma PartialShaped(c: Config, v: Vol, cmd: Cmd, k: nat)
    requires Shaped(c, v) && k <= cmd.Duration()
    ensures Shaped(c, Partial(v, cmd, k))
  {
  }

  lemma {:induction false} ExecShaped(c: Config, v: Vol, cmds: seq<Cmd>)
    requires Shaped(c, v)
    ensures Shaped(c, Exec(v, cmds))
    decreases |cmds|
  {
    if cmds != [] {
      PartialShaped(c, v, cmds[0], cmds[0].Duration());
      ExecShaped(c, Apply(v, cmds[0]), cmds[1..]);
    }
  }

  lemma ErasedIs(c: Config, s: Sector)
    requires Shape(c, s)
    ensures ErasedLike(s) == ErasedSector(c)
  {
    assert forall i :: 0 <= i < |s.slots| ==> ErasedLike(s).slots[i] == Erased(c.recordSize);
    assert ErasedLike(s).slots == ErasedSector(c).slots;
  }

  lemma EraseIs(c: Config, v: Vol, w: Which)
    requires Shaped(c, v)
    ensures Apply(v, EraseSector(w)) == v.With(w, ErasedSector(c))
    ensures CmdImages(v, EraseSector(w)) == [v.With(w, ErasedSector(c))]
    ensures Shaped(c, v.With(w, ErasedSector(c))) && FlagsOf(ErasedSector(c)) == FEmpty
  {
    ErasedIs(c, v.At(w));
    assert ErasedSector(c).head[..4] == SECTOR_EMPTY;
  }

  lemma ErasedFlags(c: Config)
    ensures FlagsOf(ErasedSector(c)) == FEmpty
  {
    assert ErasedSector(c).head[..4] == SECTOR_EMPTY;
  }

  predicate OnlySlots(cmds: seq<Cmd>, w: Which) {
    forall i :: 0 <= i < |cmds| ==> cmds[i].ProgramSlot? && cmds[i].w == w
  }

  /** Programming slots of sector w touches neither its header nor the other sector, at any moment. */
  lemma {:induction false} SlotCommands(v: Vol, cmds: seq<Cmd>, w: Which)
    requires OnlySlots(cmds, w)
    ensures Exec(v, cmds).At(w.Other()) == v.At(w.Other()) && Exec(v, cmds).At(w).head == v.At(w).head
    ensures forall x :: x in Images(v, cmds) ==> x.At(w.Other()) == v.At(w.Other()) && x.At(w).head == v.At(w).head
    decreases |cmds|
  {
    if cmds != [] {
      assert OnlySlots(cmds[1..], w);
      SlotCommands(Apply(v, cmds[0]), cmds[1..], w);
    }
  }

  lemma ConstructOnlySlots(w: Which, log: Log, n: nat)
    requires n <= |log|
    ensures OnlySlots(ConstructCmds(w, log, n), w)
  {
  }

  // ---------------------------------------------------------------- headers

  function WithHead(c: Config, s: Sector, flags: seq<byte>, k: nat): Sector
    requires |flags| == 4 && k <= SECTOR_HEAD
  {
    s.(head := Programmed(s.head, 0, HeadBytes(c, flags)[..k]))
  }

  /** How header flags move: only along bit-clearing steps. */
  lemma OpenHead(c: Config, s: Sector, k: nat)
    requires |s.head| == SECTOR_HEAD && k <= SECTOR_HEAD && FlagsOf(s) == FEmpty
    ensures FlagsOf(WithHead(c, s, SECTOR_INITIALIZING, k)) == if k < 4 then FEmpty else FInitializing
  {
    var h, t := s.head[..4], WithHead(c, s, SECTOR_INITIALIZING, k).head;
    assert h == SECTOR_EMPTY && forall i :: 0 <= i < 4 ==> h[i] == s.head[i];
    assert t[..4] == if k < 4 then SECTOR_EMPTY else SECTOR_INITIALIZING;
  }

  /** Making a sector VALID is the programming of the third byte. */
  lemma CommitHead(c: Config, s: Sector, k: nat)
    requires |s.head| == SECTOR_HEAD && k <= SECTOR_HEAD && FlagsOf(s) == FInitializing
    ensures FlagsOf(WithHead(c, s, SECTOR_VALID, k)) == if k < 3 then FInitializing else FValid
  {
    var h, t := s.head[..4], WithHead(c, s, SECTOR_VALID, k).head;
    assert h == SECTOR_INITIALIZING && forall i :: 0 <= i < 4 ==> h[i] == s.head[i];
    assert t[..4] == if k < 3 then SECTOR_INITIALIZING else SECTOR_VALID;
  }

  lemma FormatHead(c: Config, s: Sector)
    requires |s.head| == SECTOR_HEAD && FlagsOf(s) == FEmpty
    ensures FlagsOf(WithHead(c, s, SECTOR_VALID, SECTOR_HEAD)) == FValid
  {
    var h, t := s.head[..4], WithHead(c, s, SECTOR_VALID, SECTOR_HEAD).head;
    assert h == SECTOR_EMPTY && forall i :: 0 <= i < 4 ==> h[i] == s.head[i];
    assert t[..4] == SECTOR_VALID;
  }

  /** The bytes of a header cut short, and the version that they give. */
  lemma TornHead(c: Config, flags: seq<byte>, k: nat)
    requires |flags| == 4 && k <= SECTOR_HEAD
    ensures var h := WithHead(c, ErasedSector(c), flags, k).head;
            && |h| == SECTOR_HEAD
            && forall i :: 0 <= i < SECTOR_HEAD ==> h[i] == if i < k then HeadBytes(c, flags)[i] else 0xFF
  {
    hide HeadBytes;
  }

  lemma TornVersion(c: Config, flags: seq<byte>, k: nat)
    requires c.Ok() && |flags| == 4 && k <= SECTOR_HEAD
    ensures VersionOf(WithHead(c, ErasedSector(c), flags, k))
            == if k <= 12 then 0 else if k == 13 then c.version % 256 else c.version
  {
    hide WithHead, Config.MaxRecords, HeadBytes, LowByte, HighByte, Word;
    TornHead(c, flags, k);
    VersionBytes(c, flags);
    NotNot(LowByte(c.version));
    NotNot(HighByte(c.version));
    HalfWords(c.version);
  }

  /** A version of which both bytes, one or none are missing. */
  lemma HalfWords(n: nat)
    requires n < 0x1_0000
    ensures !(0xFF as byte) == 0 && Word(0, 0) == 0
    ensures Word(LowByte(n), 0) == n % 256 && Word(LowByte(n), HighByte(n)) == n
  {
    WordRoundTrip(n);
  }

  lemma VersionBytes(c: Config, flags: seq<byte>)
    requires |flags| == 4
    ensures HeadBytes(c, flags)[12] == !LowByte(c.version) && HeadBytes(c, flags)[13] == !HighByte(c.version)
    ensures HeadBytes(c, flags)[14] == 0xFF && HeadBytes(c, flags)[15] == 0xFF
  {
  }

  /** A version cut short is the right one exactly if the missing bytes are zero. */
  lemma VersionHalves(n: nat)
    ensures n % 256 == n <==> n < 0x100
  {
  }

  /** A complete header has the version of the volume. */
  lemma VersionIs(c: Config, s: Sector)
    requires c.Ok() && |s.head| == SECTOR_HEAD
    requires s.head[12] == !LowByte(c.version) && s.head[13] == !HighByte(c.version)
    ensures VersionOf(s) == c.version
  {
    hide LowByte, HighByte, Config.MaxRecords;
    NotNot(LowByte(c.version));
    NotNot(HighByte(c.version));
    WordRoundTrip(c.version);
  }

  // ---------------------------------------------------------------- the stages of a compaction

  function EraseUnlessEmpty(v: Vol, w: Which): seq<Cmd> {
    if FlagsOf(v.At(w)) == FEmpty then [] else [EraseSector(w)]
  }

  function Cleaned(v: Vol, dst: Which): Vol { Exec(v, EraseUnlessEmpty(v, dst)) }

  function Opened(c: Config, v: Vol, dst: Which): Vol {
    Apply(Cleaned(v, dst), ProgramHead(dst, HeadBytes(c, SECTOR_INITIALIZING)))
  }

  function Copied(c: Config, v: Vol, dst: Which, idxs: seq<nat>): Vol
    requires AllReadable(v.At(dst.Other()).slots, idxs)
  {
    Exec(Opened(c, v, dst), CopyCmds(v.At(dst.Other()).slots, idxs, dst))
  }

  function Committed(c: Config, v: Vol, dst: Which, idxs: seq<nat>): Vol
    requires AllReadable(v.At(dst.Other()).slots, idxs)
  {
    Apply(Copied(c, v, dst, idxs), ProgramHead(dst, HeadBytes(c, SECTOR_VALID)))
  }

  lemma CompactStages(c: Config, v: Vol, dst: Which, idxs: seq<nat>)
    requires AllReadable(v.At(dst.Other()).slots, idxs)
    ensures Exec(v, CompactCmds(c, v, dst, idxs)) == Committed(c, v, dst, idxs)
    ensures Images(v, CompactCmds(c, v, dst, idxs))
            == Images(v, EraseUnlessEmpty(v, dst))
               + CmdImages(Cleaned(v, dst), ProgramHead(dst, HeadBytes(c, SECTOR_INITIALIZING)))
               + Images(Opened(c, v, dst), CopyCmds(v.At(dst.Other()).slots, idxs, dst))
               + CmdImages(Copied(c, v, dst, idxs), ProgramHead(dst, HeadBytes(c, SECTOR_VALID)))
  {
    var e := EraseUnlessEmpty(v, dst);
    var h := ProgramHead(dst, HeadBytes(c, SECTOR_INITIALIZING));
    var copies := CopyCmds(v.At(dst.Other()).slots, idxs, dst);
    var commit := ProgramHead(dst, HeadBytes(c, SECTOR_VALID));
    ExecAppend(v, e, [h]);
    ExecOne(Cleaned(v, dst), h);
    ExecAppend(v, e + [h], copies);
    ExecAppend(v, e + [h] + copies, [commit]);
    ExecOne(Copied(c, v, dst, idxs), commit);
  }

  lemma CleanedIs(c: Config, v: Vol, dst: Which)
    requires Shaped(c, v)
    ensures Cleaned(v, dst) == if FlagsOf(v.At(dst)) == FEmpty then v else v.With(dst, ErasedSector(c))
    ensures Images(v, EraseUnlessEmpty(v, dst)) == if FlagsOf(v.At(dst)) == FEmpty then [] else [Cleaned(v, dst)]
    ensures FlagsOf(Cleaned(v, dst).At(dst)) == FEmpty
    ensures Shaped(c, Cleaned(v, dst))
  {
    ErasedIs(c, v.At(dst));
    ExecOne(v, EraseSector(dst));
    ExecShaped(c, v, EraseUnlessEmpty(v, dst));
    assert ErasedSector(c).head[..4] == SECTOR_EMPTY;
  }

  /** Whatever the destination held, it ends up VALID, and the source is not touched. */
  lemma CompactFlags(c: Config, v: Vol, dst: Which, idxs: seq<nat>)
    requires Shaped(c, v) && AllReadable(v.At(dst.Other()).slots, idxs)
    ensures Shaped(c, Committed(c, v, dst, idxs))
    ensures FlagsOf(Copied(c, v, dst, idxs).At(dst)) == FInitializing
    ensures FlagsOf(Committed(c, v, dst, idxs).At(dst)) == FValid
    ensures Committed(c, v, dst, idxs).At(dst.Other()) == v.At(dst.Other())
  {
    CleanedIs(c, v, dst);
    var copies := CopyCmds(v.At(dst.Other()).slots, idxs, dst);
    OpenHead(c, Cleaned(v, dst).At(dst), SECTOR_HEAD);
    ExecShaped(c, Opened(c, v, dst), copies);
    SlotCommands(Opened(c, v, dst), copies, dst);
    var h := Copied(c, v, dst, idxs).At(dst).head;
    assert h == Opened(c, v, dst).At(dst).head;
    CommitHead(c, Copied(c, v, dst, idxs).At(dst), SECTOR_HEAD);
  }

  // ---------------------------------------------------------------- total recovery

  /** The scan of sector w, as the last thing a mount or a compaction does. */
  lemma ScanOnlySlots(v: Vol, w: Which)
    ensures OnlySlots(ScanCmds(v, w), w)
  {
    ConstructOnlySlots(w, LogOf(v.At(w)), NextIdx(LogOf(v.At(w))));
  }

  lemma ReplaceStages(c: Config, v: Vol, dst: Which, idxs: seq<nat>)
    requires AllReadable(v.At(dst.Other()).slots, idxs)
    ensures var v1 := Committed(c, v, dst, idxs);
            var v2 := Exec(v1, ScanCmds(v1, dst));
            && Exec(v, ReplaceCmds(c, v, dst, idxs)) == Apply(v2, EraseSector(dst.Other()))
            && Images(v, ReplaceCmds(c, v, dst, idxs))
               == Images(v, CompactCmds(c, v, dst, idxs)) + Images(v1, ScanCmds(v1, dst))
                 + CmdImages(v2, EraseSector(dst.Other()))
  {
    var cmds := CompactCmds(c, v, dst, idxs);
    var v1 := Committed(c, v, dst, idxs);
    var erase := EraseSector(dst.Other());
    CompactStages(c, v, dst, idxs);
    ExecAppend(v, cmds, ScanCmds(v1, dst));
    ExecAppend(v, cmds + ScanCmds(v1, dst), [erase]);
    ExecOne(Exec(v1, ScanCmds(v1, dst)), erase);
  }

  /** A scan keeps the headers and the sector it does not scan. */
  lemma ScanKeepsHeads(c: Config, v: Vol, w: Which)
    requires Shaped(c, v)
    ensures var v' := Exec(v, ScanCmds(v, w));
            && Shaped(c, v') && v'.At(w).head == v.At(w).head && v'.At(w.Other()) == v.At(w.Other())
            && FlagsOf(v'.At(w)) == FlagsOf(v.At(w))
  {
    ScanOnlySlots(v, w);
    SlotCommands(v, ScanCmds(v, w), w);
    ExecShaped(c, v, ScanCmds(v, w));
  }

  lemma ReplaceFlags(c: Config, v: Vol, dst: Which, idxs: seq<nat>)
    requires Shaped(c, v) && AllReadable(v.At(dst.Other()).slots, idxs)
    ensures Shaped(c, Exec(v, ReplaceCmds(c, v, dst, idxs)))
    ensures FlagsOf(Exec(v, ReplaceCmds(c, v, dst, idxs)).At(dst)) == FValid
    ensures Exec(v, ReplaceCmds(c, v, dst, idxs)).At(dst.Other()) == ErasedSector(c)
  {
    hide Parse, Readable;
    CompactFlags(c, v, dst, idxs);
    ReplaceStages(c, v, dst, idxs);
    var v1 := Committed(c, v, dst, idxs);
    ScanKeepsHeads(c, v1, dst);
    EraseIs(c, Exec(v1, ScanCmds(v1, dst)), dst.Other());
  }

  lemma FormatRecovers(c: Config, v: Vol)
    requires Shaped(c, v)
    ensures var v' := Exec(v, PlanCmds(c, v, Format));
            Shaped(c, v') && FlagsOf(v'.one) == FValid && v'.two == v.two
  {
    hide HeadBytes, FlagsWord, Shape;
    var head := ProgramHead(One, HeadBytes(c, SECTOR_VALID));
    EraseIs(c, v, One);
    ExecAppend(v, [EraseSector(One)], [head]);
    ExecOne(v, EraseSector(One));
    ExecOne(Apply(v, EraseSector(One)), head);
    FormatHead(c, ErasedSector(c));
    assert PlanCmds(c, v, Format) == [EraseSector(One)] + [head];
    ExecShaped(c, v, PlanCmds(c, v, Format));
  }

  lemma UseRecovers(c: Config, v: Vol, w: Which, drop: bool)
    requires Shaped(c, v)
    ensures Exec(v, PlanCmds(c, v, Use(w, drop))) == if drop then v.With(w.Other(), ErasedSector(c)) else v
    ensures Shaped(c, Exec(v, PlanCmds(c, v, Use(w, drop)))) && FlagsOf(ErasedSector(c)) == FEmpty
  {
    hide FlagsWord, Shape;
    EraseIs(c, v, w.Other());
    ExecOne(v, EraseSector(w.Other()));
  }

  lemma RepairRecovers(c: Config, v: Vol, src: Which)
    requires Shaped(c, v)
    ensures var v' := Exec(v, PlanCmds(c, v, Plan.Repair(src)));
            Shaped(c, v') && FlagsOf(v'.At(src.Other())) == FValid && FlagsOf(v'.At(src)) == FEmpty
  {
    hide FlagsOf, Shape, ReplaceCmds, LogOf;
    EraseIs(c, v, src);
    ReplaceFlags(c, v, src.Other(), SectorLiveSlots(v.At(src)));
  }

  /** After the headers with unknown flags have been dropped, both headers have one of the four flags. */
  lemma DropBadCleans(c: Config, v: Vol)
    requires Shaped(c, v)
    ensures var v' := Exec(v, DropBad(v, One) + DropBad(v, Two));
            && Shaped(c, v')
            && FlagsOf(v'.one) == CleanFlags(v.one) && FlagsOf(v'.two) == CleanFlags(v.two)
            && (FlagsOf(v.one) != FBad ==> v'.one == v.one)
            && (FlagsOf(v.two) != FBad ==> v'.two == v.two)
            && (FlagsOf(v.one) != FBad && FlagsOf(v.two) != FBad ==> Images(v, DropBad(v, One) + DropBad(v, Two)) == [])
  {
    var a, b := DropBad(v, One), DropBad(v, Two);
    ExecAppend(v, a, b);
    ExecOne(v, EraseSector(One));
    ExecOne(Exec(v, a), EraseSector(Two));
    ExecShaped(c, v, a + b);
    ErasedIs(c, v.one);
    ErasedIs(c, v.two);
    assert ErasedSector(c).head[..4] == SECTOR_EMPTY;
  }

  lemma PlanRecovers(c: Config, v: Vol)
    requires Shaped(c, v) && FlagsOf(v.one) != FBad && FlagsOf(v.two) != FBad
    ensures var p := Choose(FlagsOf(v.one), FlagsOf(v.two));
            var v' := Exec(v, PlanCmds(c, v, p));
            && Shaped(c, v')
            && FlagsOf(v'.At(PlanActive(p))) == FValid && FlagsOf(v'.At(PlanActive(p).Other())) == FEmpty
  {
    hide PlanCmds, FlagsOf, Shape;
    match Choose(FlagsOf(v.one), FlagsOf(v.two))
    case Format => FormatRecovers(c, v);
    case Use(w, drop) => UseRecovers(c, v, w, drop);
    case Repair(src) => RepairRecovers(c, v, src);
  }

  /**
   * Recovery is total: whatever two headers and slots are found, a load ends with exactly one VALID
   * sector, the one the store goes on with, and the other header empty.
   */
  lemma LoadIsTotal(c: Config, v: Vol)
    requires Shaped(c, v)
    ensures var v', w := Exec(v, LoadCmds(c, v)), LoadRam(c, v).active;
            Shaped(c, v') && FlagsOf(v'.At(w)) == FValid && FlagsOf(v'.At(w.Other())) == FEmpty
  {
    hide Parse, Readable, ReplaceCmds, PlanCmds, ScanCmds, FlagsOf;
    var bad := DropBad(v, One) + DropBad(v, Two);
    var p := PlanFor(v);
    DropBadCleans(c, v);
    PlanRecovers(c, Exec(v, bad));
    ExecAppend(v, bad, PlanCmds(c, Exec(v, bad), p));
    ScanKeepsHeads(c, Exec(v, MountCmds(c, v)), PlanActive(p));
    ExecAppend(v, MountCmds(c, v), ScanCmds(Exec(v, MountCmds(c, v)), PlanActive(p)));
  }
}
