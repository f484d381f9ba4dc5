/**
 * AND-only flash behaves like memory that is overwritten: whatever the store programs, it reads back
 * exactly, because it only programs erased bytes or moves flag words along bit-clearing steps.
 */
module ReadBack {
  import opened Flash
  import opened Records
  import opened Volumes
  import opened Logs
  import opened Protocol
  import opened Recovery
  import opened Durability
  import opened Atomicity
  import opened Compaction
  import opened CrashSafety

  /** The bytes of one command can be read back after it. */
  predicate ReadsBack(v: Vol, cmd: Cmd) {
    match cmd
    case ProgramHead(w, data) => |data| <= |v.At(w).head| && Apply(v, cmd).At(w).head[..|data|] == data
    case ProgramSlot(w, i, data) =>
      i < |v.At(w).slots| && |data| <= |v.At(w).slots[i]| && Apply(v, cmd).At(w).slots[i][..|data|] == data
    case EraseSector(_) => true
  }

  predicate AllReadBack(v: Vol, cmds: seq<Cmd>)
    decreases |cmds|
  {
    cmds == [] || (ReadsBack(v, cmds[0]) && AllReadBack(Apply(v, cmds[0]), cmds[1..]))
  }

  lemma {:induction false} ReadBackAppend(v: Vol, a: seq<Cmd>, b: seq<Cmd>)
    ensures AllReadBack(v, a + b) <==> AllReadBack(v, a) && AllReadBack(Exec(v, a), b)
    decreases |a|
  {
    hide ReadsBack, Partial;
    if a == [] {
      assert a + b == b;
    } else {
      assert (a + b)[0] == a[0] && (a + b)[1..] == a[1..] + b;
      ReadBackAppend(Apply(v, a[0]), a[1..], b);
    }
  }

  lemma ReadBackOne(v: Vol, cmd: Cmd)
    ensures AllReadBack(v, [cmd]) <==> ReadsBack(v, cmd)
  {
    hide ReadsBack;
    assert [cmd][1..] == [];
  }

  /** Clearing a flag word always works. */
  lemma ClearReadsBack(v: Vol, w: Which, i: nat)
    requires i < |v.At(w).slots| && HEAD_SIZE <= |v.At(w).slots[i]|
    ensures ReadsBack(v, ProgramSlot(w, i, FLAGS_INVALID))
  {
    var raw := v.At(w).slots[i];
    assert Programmed(raw, 0, FLAGS_INVALID)[..2] == FLAGS_INVALID;
    assert FLAGS_INVALID[..2] == FLAGS_INVALID;
  }

  /** A record goes into an erased slot, and VALID only clears bits of NEW. */
  lemma AppendReadsBack(c: Config, v: Vol, w: Which, n: nat, body: seq<byte>)
    requires n < |v.At(w).slots| && AllErased(v.At(w).slots[n]) && HEAD_SIZE + |body| <= |v.At(w).slots[n]|
    ensures ReadsBack(v, ProgramSlot(w, n, RecordBytes(FLAGS_NEW, body)))
    ensures ReadsBack(Written(v, w, n, body), ProgramSlot(w, n, FLAGS_VALID))
  {
    var raw, data := v.At(w).slots[n], RecordBytes(FLAGS_NEW, body);
    ProgrammedOnErased(raw, 0, data);
    assert data[..|data|] == data && FLAGS_VALID[..2] == FLAGS_VALID;
    var written := Programmed(raw, 0, data);
    assert written[0] == 0xFF && written[1] == 0xAF;
    assert Programmed(written, 0, FLAGS_VALID)[..2] == FLAGS_VALID;
  }

  lemma StoreReadsBack(c: Config, v: Vol, ram: Ram, body: seq<byte>)
    requires c.Ok() && Powered(c, v, ram) && c.KeySize() <= |body|
    requires Accepts(c, ram, body) ==> ram.next < c.MaxRecords()
    ensures AllReadBack(v, Store(c, v, ram, body).cmds)
  {
    StoreIs(c, v, ram, body);
    var key := KeyOf(c.KeySize(), body);
    if Accepts(c, ram, body) && !AlreadyStored(c, v, ram, body) {
      hide Parse, Readable, NewestAt, LogOf, KeyOf, RecordBytes, Store, AlreadyStored;
      var a := AppendCmds(ram, body);
      FreeSlot(c, v, ram);
      AppendReadsBack(c, v, ram.active, ram.next, body);
      StoreImages(v, ram, body, key);
      hide ReadsBack, Powered;
      ReadBackAppend(v, a, RetireCmds(ram, key));
      assert a == [a[0]] + [a[1]];
      ReadBackAppend(v, [a[0]], [a[1]]);
      ExecOne(v, a[0]);
      ReadBackOne(v, a[0]);
      ReadBackOne(Written(v, ram.active, ram.next, body), a[1]);
      if key in ram.dict {
        EntryLeads(c, v, ram, key);
        var u, i := Flipped(v, ram.active, ram.next, body), ram.dict[key].idx;
        SlotKept(c, v, ram, body, i);
        ClearReadsBack(u, ram.active, i);
        ReadBackOne(u, ProgramSlot(ram.active, i, FLAGS_INVALID));
      }
    }
  }

  lemma FreeSlot(c: Config, v: Vol, ram: Ram)
    requires Powered(c, v, ram) && ram.next < c.MaxRecords()
    ensures AllErased(v.At(ram.active).slots[ram.next]) && |v.At(ram.active).slots[ram.next]| == c.recordSize
  {
    hide Parse;
  }

  lemma SlotKept(c: Config, v: Vol, ram: Ram, body: seq<byte>, i: nat)
    requires c.Ok() && Powered(c, v, ram) && i < ram.next
    ensures var u := Flipped(v, ram.active, ram.next, body);
            i < |u.At(ram.active).slots| && HEAD_SIZE <= |u.At(ram.active).slots[i]|
  {
    hide Parse, RecordBytes;
  }

  // ---------------------------------------------------------------- swap

  lemma CopyReadsBack(c: Config, u: Vol, w: Which, slots: seq<seq<byte>>, idxs: seq<nat>, n: nat)
    requires AllReadable(slots, idxs) && n < |idxs| <= |u.At(w).slots|
    requires AllErased(u.At(w).slots[n]) && |slots[idxs[n]]| <= |u.At(w).slots[n]|
    ensures ReadsBack(Exec(u, CopyCmds(slots, idxs[..n], w)), ProgramSlot(w, n, CopyOf(slots[idxs[n]])))
  {
    var data := CopyOf(slots[idxs[n]]);
    assert |data| <= |slots[idxs[n]]|;
    hide Parse, Readable, CopyOf;
    CopiesLand(u, w, slots, idxs[..n]);
    assert data[..|data|] == data;
    ProgrammedOnErased(u.At(w).slots[n], 0, data);
  }

  lemma {:induction false} CopiesReadBack(c: Config, u: Vol, w: Which, slots: seq<seq<byte>>, idxs: seq<nat>)
    requires AllReadable(slots, idxs) && |idxs| <= |u.At(w).slots|
    requires forall j :: 0 <= j < |u.At(w).slots| ==> AllErased(u.At(w).slots[j]) && |u.At(w).slots[j]| == c.recordSize
    requires forall j :: 0 <= j < |slots| ==> |slots[j]| == c.recordSize
    ensures AllReadBack(u, CopyCmds(slots, idxs, w))
    decreases |idxs|
  {
    hide Parse, Readable, CopyOf, ReadsBack;
    if idxs != [] {
      var n := |idxs| - 1;
      var last := ProgramSlot(w, n, CopyOf(slots[idxs[n]]));
      CopiesReadBack(c, u, w, slots, idxs[..n]);
      LastCopy(slots, idxs, w);
      CopyReadsBack(c, u, w, slots, idxs, n);
      ReadBackAppend(u, CopyCmds(slots, idxs[..n], w), [last]);
      ReadBackOne(Exec(u, CopyCmds(slots, idxs[..n], w)), last);
    }
  }

  lemma HeadsReadBack(c: Config, u: Vol, y: Vol, dst: Which)
    requires u.At(dst).head == Erased(SECTOR_HEAD) && y.At(dst).head == HeadBytes(c, SECTOR_INITIALIZING)
    ensures ReadsBack(u, ProgramHead(dst, HeadBytes(c, SECTOR_INITIALIZING)))
    ensures ReadsBack(y, ProgramHead(dst, HeadBytes(c, SECTOR_VALID)))
  {
    OpeningHead(c, SECTOR_HEAD);
    CommittingHead(c, SECTOR_HEAD);
    assert HeadBytes(c, SECTOR_INITIALIZING)[..SECTOR_HEAD] == HeadBytes(c, SECTOR_INITIALIZING);
    assert HeadBytes(c, SECTOR_VALID)[..SECTOR_HEAD] == HeadBytes(c, SECTOR_VALID);
  }

  lemma CompactReadsBack(c: Config, v: Vol, dst: Which, idxs: seq<nat>)
    requires CanCompact(c, v, dst, idxs) && AllReadable(v.At(dst.Other()).slots, idxs)
    ensures AllReadBack(v, CompactCmds(c, v, dst, idxs))
  {
    hide Parse, Readable, HeadBytes, FlagsOf, ReadsBack, Partial, Sized, AllLive, LogOf;
    var slots := v.At(dst.Other()).slots;
    var e, h := EraseUnlessEmpty(v, dst), ProgramHead(dst, HeadBytes(c, SECTOR_INITIALIZING));
    var copies, commit := CopyCmds(slots, idxs, dst), ProgramHead(dst, HeadBytes(c, SECTOR_VALID));
    CleanedIsErased(c, v, dst);
    OpenedIs(c, v, dst);
    CopiedIs(c, v, dst, idxs);
    HeadsReadBack(c, Cleaned(v, dst), Copied(c, v, dst, idxs), dst);
    CopiesReadBack(c, Opened(c, v, dst), dst, slots, idxs);
    ReadBackOne(v, EraseSector(dst));
    ErasesReadBack(v, dst);
    ReadBackAppend(v, e, [h]);
    ReadBackOne(Cleaned(v, dst), h);
    ExecAppend(v, e, [h]);
    ExecOne(Cleaned(v, dst), h);
    ReadBackAppend(v, e + [h], copies);
    ExecAppend(v, e + [h], copies);
    ReadBackAppend(v, e + [h] + copies, [commit]);
    ReadBackOne(Copied(c, v, dst, idxs), commit);
  }

  lemma ErasesReadBack(v: Vol, w: Which)
    ensures AllReadBack(v, EraseUnlessEmpty(v, w)) && ReadsBack(v, EraseSector(w))
  {
    ReadBackOne(v, EraseSector(w));
  }

  lemma ReplaceReadsBack(c: Config, v: Vol, dst: Which, idxs: seq<nat>)
    requires CanCompact(c, v, dst, idxs) && AllReadable(v.At(dst.Other()).slots, idxs)
    ensures AllReadBack(v, ReplaceCmds(c, v, dst, idxs))
  {
    hide Parse, Readable, ReadsBack, Partial, CanCompact, CompactCmds, Committed, Sole, AllReadBack, AllReadable;
    var y, erase := Committed(c, v, dst, idxs), EraseSector(dst.Other());
    CompactReadsBack(c, v, dst, idxs);
    ReplaceResult(c, v, dst, idxs);
    CompactStages(c, v, dst, idxs);
    assert ReplaceCmds(c, v, dst, idxs) == CompactCmds(c, v, dst, idxs) + [erase];
    ReadBackAppend(v, CompactCmds(c, v, dst, idxs), [erase]);
    ErasesReadBack(y, dst.Other());
    ReadBackOne(y, erase);
  }

  lemma SwapReadsBack(c: Config, v: Vol, ram: Ram, order: seq<Key>)
    requires c.Ok() && Powered(c, v, ram) && IsWalk(ram, order) && Reachable(v, ram)
    ensures AllReadBack(v, SwapCmds(c, v, ram, order))
  {
    WalkCompacts(c, v, ram, order);
    CompactsReadable(c, v, ram.active.Other(), SlotsInOrder(ram, order));
    ReplaceReadsBack(c, v, ram.active.Other(), SlotsInOrder(ram, order));
  }

  /** Everything that a set programs, a swap included, reads back as it was programmed. */
  lemma SetReadsBack(c: Config, v: Vol, ram: Ram, order: seq<Key>, body: seq<byte>)
    requires c.Ok() && Powered(c, v, ram) && IsWalk(ram, order) && Reachable(v, ram) && c.KeySize() <= |body|
    ensures AllReadBack(v, Set(c, v, ram, order, body).cmds)
  {
    hide Parse, Readable, NewestAt, KeyOf, Powered, SwapCmds, SwapRam, Store, Reachable, IsWalk, AllReadBack;
    NextBound(c, v, ram);
    if ram.next >= c.MaxRecords() {
      var swap, ram' := SwapCmds(c, v, ram, order), SwapRam(c, v, ram, order);
      SwapResult(c, v, ram, order);
      SameSize(ram.dict, ram'.dict);
      SwapReadsBack(c, v, ram, order);
      StoreReadsBack(c, Exec(v, swap), ram', body);
      ReadBackAppend(v, swap, Store(c, Exec(v, swap), ram', body).cmds);
    } else {
      StoreReadsBack(c, v, ram, body);
    }
  }

  /** So does the mark that a delete programs. */
  lemma DeleteReadsBack(c: Config, v: Vol, ram: Ram, key: Key)
    requires c.Ok() && Powered(c, v, ram)
    ensures AllReadBack(v, Delete(ram, key).cmds)
  {
    hide Parse, Readable, NewestAt, ReadsBack;
    if key in ram.dict {
      EntryLeads(c, v, ram, key);
      ClearReadsBack(v, ram.active, ram.dict[key].idx);
      ReadBackOne(v, ProgramSlot(ram.active, ram.dict[key].idx, FLAGS_INVALID));
    }
  }

  /** So do the marks of a scan: they only clear bits. */
  lemma {:induction false} ScanReadsBack(c: Config, v: Vol, w: Which, log: Log, n: nat)
    requires Shaped(c, v) && HEAD_SIZE <= c.recordSize && n <= |log| == c.MaxRecords()
    ensures AllReadBack(v, ConstructCmds(w, log, n))
  {
    hide ReadsBack, AllReadBack, Config.MaxRecords;
    if n == 0 {
      NothingReadBack(v);
    } else {
      ScanReadsBack(c, v, w, log, n - 1);
      var before := ConstructCmds(w, log, n - 1);
      if log[n - 1].Corrupt? {
        var mark := ProgramSlot(w, n - 1, FLAGS_INVALID);
        ExecShaped(c, v, before);
        ClearReadsBack(Exec(v, before), w, n - 1);
        ReadBackOne(Exec(v, before), mark);
        ReadBackAppend(v, before, [mark]);
      } else {
        assert ConstructCmds(w, log, n) == before;
      }
    }
  }

  lemma NothingReadBack(v: Vol)
    ensures AllReadBack(v, [])
  {
  }

  /** A load of a volume that holds a map reads back all that it programs. */
  lemma LoadReadsBack(c: Config, v: Vol, w: Which)
    requires c.Ok() && Durable(c, v, w)
    ensures AllReadBack(v, LoadCmds(c, v))
  {
    hide Parse, Newest, SectorOk, AllReadBack, ReadsBack, ConstructCmds, Config.MaxRecords, Config.Ok, LogOf, Shape;
    var u := v.With(w.Other(), ErasedSector(c));
    MountDurable(c, v, w);
    EraseIs(c, v, w.Other());
    MountReadsBack(c, v, w);
    ShapedLog(c, u, w);
    ScanReadsBack(c, u, w, LogOf(u.At(w)), NextIdx(LogOf(u.At(w))));
    ReadBackAppend(v, MountCmds(c, v), ScanCmds(u, w));
  }

  lemma ShapedLog(c: Config, v: Vol, w: Which)
    requires c.Ok() && Shaped(c, v)
    ensures |LogOf(v.At(w))| == c.MaxRecords() && HEAD_SIZE <= c.recordSize
  {
  }

  /** The mount of a volume that holds a map erases at most. */
  lemma MountReadsBack(c: Config, v: Vol, w: Which)
    requires Durable(c, v, w)
    ensures AllReadBack(v, MountCmds(c, v))
  {
    hide ReadsBack, Parse, FlagsOf, SectorOk, Shape;
    EraseIs(c, v, w.Other());
    ValidFlags(c, v.At(w));
    if w == One && SectorOk(c, v.two) { ValidFlags(c, v.two); }
    assert MountCmds(c, v) == PlanCmds(c, v, PlanFor(v));
    NothingReadBack(v);
    ErasesReadBack(v, w.Other());
    ReadBackOne(v, EraseSector(w.Other()));
  }

  /** The format of an erased volume reads back. */
  lemma FormatReadsBack(c: Config, v: Vol)
    requires Shaped(c, v)
    ensures AllReadBack(v, PlanCmds(c, v, Format))
  {
    hide AllReadBack, ReadsBack, HeadBytes, Shape;
    var head := ProgramHead(One, HeadBytes(c, SECTOR_VALID));
    var u := Apply(v, EraseSector(One));
    EraseIs(c, v, One);
    ErasesReadBack(v, One);
    ReadBackOne(v, EraseSector(One));
    HeadOnErased(c, u);
    ReadBackOne(u, head);
    ExecOne(v, EraseSector(One));
    ReadBackAppend(v, [EraseSector(One)], [head]);
    assert [EraseSector(One)] + [head] == [EraseSector(One), head];
  }

  lemma HeadOnErased(c: Config, u: Vol)
    requires u.one == ErasedSector(c)
    ensures ReadsBack(u, ProgramHead(One, HeadBytes(c, SECTOR_VALID)))
  {
    hide HeadBytes;
    var data := HeadBytes(c, SECTOR_VALID);
    ProgrammedOnErased(Erased(SECTOR_HEAD), 0, data);
    assert data[..|data|] == data;
    assert Programmed(Erased(SECTOR_HEAD), 0, data)[0..|data|] == data;
  }
}
