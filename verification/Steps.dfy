/**
 * What one more slot, record or word adds to a scan, a compaction or an entry: the small facts that the
 * methods of the store put together.
 */
module Steps {
  import opened ErrorDef
  import opened Flash
  import opened Records
  import opened Volumes
  import opened Logs
  import opened Protocol
  import opened Recovery
  import opened Atomicity
  import opened Durability
  import opened Compaction
  import opened Runs
  import opened Media
  import D = Dictionaries

  // ---------------------------------------------------------------- steps of a scan

  /** What one more slot adds to the scan. */
  lemma ScanNext(c: Config, w: Which, log: Log, n: nat)
    requires n < |log|
    ensures ConstructCmds(w, log, n + 1)
            == ConstructCmds(w, log, n) + (if log[n].Corrupt? then [ProgramSlot(w, n, FLAGS_INVALID)] else [])
    ensures CountLive(log, n + 1) == CountLive(log, n) + if log[n].Live? then 1 else 0
    ensures forall what: Content :: CountOf(what, log, n + 1) == CountOf(what, log, n) + if log[n] == what then 1 else 0
    ensures Index(c, Newest(c.KeySize(), log, n + 1))
            == if log[n].Live? then Inserted(c, Index(c, Newest(c.KeySize(), log, n)), n, log[n].body)
               else Index(c, Newest(c.KeySize(), log, n))
  {
    hide Index, MakeEntry, KeyOf;
    if log[n].Live? { IndexStep(c, Newest(c.KeySize(), log, n), KeyOf(c.KeySize(), log[n].body), n, log[n].body); }
  }

  lemma ScanNothing(c: Config, w: Which, log: Log)
    ensures ConstructCmds(w, log, 0) == [] && CountLive(log, 0) == 0 && Index(c, Newest(c.KeySize(), log, 0)) == map[]
    ensures forall what: Content :: CountOf(what, log, 0) == 0
  {
  }

  lemma IndexStep(c: Config, m: map<Key, Rec>, key: Key, n: nat, body: seq<byte>)
    ensures Index(c, m[key := Rec(n, body)]) == Index(c, m)[key := MakeEntry(c, n, body)]
  {
    hide MakeEntry;
  }

  /** Slot n still reads as it did before the scan has marked corrupt slots below it. */
  lemma NotYetMarked(v: Vol, u: Vol, t: seq<Vol>, t': seq<Vol>, w: Which, n: nat)
    requires n < |v.At(w).slots| && Ran(v, t, ConstructCmds(w, LogOf(v.At(w)), n), u, t')
    ensures |u.At(w).slots| == |v.At(w).slots| && u.At(w).slots[n] == v.At(w).slots[n]
    ensures LogOf(v.At(w))[n] == Parse(v.At(w).slots[n])
  {
    hide Parse, Exec, Images;
    ScanMarks(v, w, LogOf(v.At(w)), n);
  }

  // ---------------------------------------------------------------- steps of a compaction

  /** A compaction into dst up to the copies of the given slots. */
  function CopyUpTo(c: Config, v: Vol, dst: Which, idxs: seq<nat>): seq<Cmd>
    requires AllReadable(v.At(dst.Other()).slots, idxs)
  {
    EraseUnlessEmpty(v, dst) + [ProgramHead(dst, HeadBytes(c, SECTOR_INITIALIZING))]
      + CopyCmds(v.At(dst.Other()).slots, idxs, dst)
  }

  lemma CopyNone(c: Config, v: Vol, dst: Which)
    ensures CopyUpTo(c, v, dst, []) == EraseUnlessEmpty(v, dst) + [ProgramHead(dst, HeadBytes(c, SECTOR_INITIALIZING))]
  {
  }

  lemma CopyNext(c: Config, v: Vol, dst: Which, idxs: seq<nat>, i: nat)
    requires AllReadable(v.At(dst.Other()).slots, idxs)
    requires i < |v.At(dst.Other()).slots| && Readable(v.At(dst.Other()).slots[i])
    ensures AllReadable(v.At(dst.Other()).slots, idxs + [i])
    ensures CopyUpTo(c, v, dst, idxs + [i])
            == CopyUpTo(c, v, dst, idxs) + [ProgramSlot(dst, |idxs|, CopyOf(v.At(dst.Other()).slots[i]))]
  {
    hide Readable, CopyOf, HeadBytes;
    var slots := v.At(dst.Other()).slots;
    LastCopy(slots, idxs + [i], dst);
    assert (idxs + [i])[..|idxs|] == idxs;
  }

  lemma CopyAll(c: Config, v: Vol, dst: Which, idxs: seq<nat>)
    requires AllReadable(v.At(dst.Other()).slots, idxs)
    ensures CopyUpTo(c, v, dst, idxs) + [ProgramHead(dst, HeadBytes(c, SECTOR_VALID))] == CompactCmds(c, v, dst, idxs)
  {
  }

  lemma RanIs(v0: Vol, t0: seq<Vol>, cmds: seq<Cmd>, v: Vol, t: seq<Vol>)
    requires Ran(v0, t0, cmds, v, t)
    ensures v == Exec(v0, cmds) && t == t0 + Images(v0, cmds)
  {
  }

  /** The destination of a swap has only records with a key. */
  lemma CompactedSized(c: Config, v: Vol, ram: Ram, order: seq<Key>, idxs: seq<nat>, dst: Which)
    requires c.Ok() && Powered(c, v, ram) && IsWalk(ram, order) && dst == ram.active.Other()
    requires idxs == SlotsInOrder(ram, order) && AllReadable(v.At(ram.active).slots, idxs)
    ensures Sized(c, LogOf(Exec(v, CompactCmds(c, v, dst, idxs)).At(dst)))
  {
    hide CompactCmds, Powered, LogOf, Parse, Exec, AllReadable, CanCompact, IsWalk, Sized, SlotsInOrder, Committed;
    WalkCompacts(c, v, ram, order);
    CompactResult(c, v, dst, idxs);
    CompactStages(c, v, dst, idxs);
  }

  /** Commands on one sector leave the other one alone. */
  lemma OtherKept(v: Vol, t: seq<Vol>, cmd: Cmd, v': Vol, t': seq<Vol>)
    requires Ran(v, t, [cmd], v', t')
    ensures v'.At(cmd.w.Other()) == v.At(cmd.w.Other())
  {
    hide CmdImages, SlotProgrammed, ErasedLike, Programmed;
    ExecOne(v, cmd);
  }

  lemma LiveSlotsNext(log: Log, n: nat)
    requires n < |log|
    ensures LiveSlots(log, n + 1) == LiveSlots(log, n) + if log[n].Live? then [n] else []
    ensures |LiveSlots(log, n)| <= n
  {
    if !log[n].Live? { assert LiveSlots(log, n) + [] == LiveSlots(log, n); }
  }

  lemma LiveSlotsAll(s: Sector, n: nat)
    requires n <= |LogOf(s)| && n == NextIdx(LogOf(s))
    ensures SectorLiveSlots(s) == LiveSlots(LogOf(s), n)
  {
  }

  lemma NoLiveSlots(log: Log)
    ensures LiveSlots(log, 0) == []
  {
  }

  /** The buffer holds a record with the given body. */
  predicate Holds(c: Config, rec: seq<byte>, body: seq<byte>) {
    && HEAD_SIZE + |body| <= |rec| && |body| <= c.BodyMax()
    && LengthField(rec) == |body| && rec[HEAD_SIZE..HEAD_SIZE + |body|] == body
  }

  function Inserted(c: Config, m: map<Key, Entry>, idx: nat, body: seq<byte>): map<Key, Entry> {
    m[KeyOf(c.KeySize(), body) := MakeEntry(c, idx, body)]
  }

  // ---------------------------------------------------------------- bytes, entries and words

  lemma SoleSizedLog(c: Config, u: Vol, w: Which)
    requires Sole(c, u, w)
    ensures Sized(c, LogOf(u.At(w)))
  {
  }

  lemma PoweredVersion(c: Config, v: Vol, ram: Ram)
    requires c.Ok() && Powered(c, v, ram)
    ensures |v.At(ram.active).head| == SECTOR_HEAD && VersionOf(v.At(ram.active)) == c.version
  {
    hide LogOf, NewestAt, VersionOf, HeadBytes;
    VersionBytes(c, SECTOR_VALID);
    VersionIs(c, v.At(ram.active));
  }

  lemma HasHash(c: Config)
    requires c.Ok()
    ensures 0 < c.hashSize
  {
  }

  lemma SizedSector(c: Config, v: Vol, w: Which)
    requires Durable(c, v, w)
    ensures Sized(c, LogOf(v.At(w))) && v.With(w.Other(), ErasedSector(c)).At(w) == v.At(w)
  {
  }

  lemma RanErase(c: Config, v: Vol, t: seq<Vol>, w: Which, v': Vol, t': seq<Vol>)
    requires Shaped(c, v) && Ran(v, t, [EraseSector(w)], v', t')
    ensures v' == v.With(w, ErasedSector(c)) && Shaped(c, v')
  {
    ExecOne(v, EraseSector(w));
    EraseIs(c, v, w);
  }

  function StatusOf(c: Config, m: Runs.Map, op: Op): Status {
    match op
    case SetOp(body, _) => if HasRoom(c, m, body) then EOK else EFAIL
    case DeleteOp(key) => if key in m then EOK else E_NOTFOUND
  }

  /** If power fails on image x, the store comes up with a map that the operation allows. */
  ghost predicate Recovers(c: Config, s: State, op: Op, x: Vol) {
    exists m :: Stores(c, x, m) && MayRecover(c, s, op, m)
  }

  lemma TornRecovers(c: Config, s: State, op: Op, x: Vol)
    requires c.Ok() && Sound(c, s) && CanDo(c, s, op) && x in Images(s.vol, Result(c, s, op).cmds)
    ensures Recovers(c, s, op, x)
  {
    hide Sound, Stores, MayRecover, Result, Images;
    var m := TornStores(c, s, op, x);
  }

  lemma ReadableFits(raw: seq<byte>)
    requires Readable(raw)
    ensures HEAD_SIZE + LengthField(raw) <= |raw| && |BodyOf(raw)| == LengthField(raw)
  {
  }

  lemma KeyBytes(ks: nat, body: seq<byte>)
    requires ks <= |body|
    ensures KeyOf(ks, body) == body[..ks]
  {
  }

  /** The entries of the nodes from n on still have their slots. */
  predicate SlotsAhead(heap: D.Heap, walk: seq<D.Ptr>, idxs: seq<nat>, n: nat) {
    |walk| == |idxs| && forall j :: n <= j < |idxs| ==> walk[j] in heap && heap[walk[j]].value.idx == idxs[j]
  }

  predicate NoRepeats(walk: seq<D.Ptr>) { forall i, j :: 0 <= i < j < |walk| ==> walk[i] != walk[j] }

  lemma AheadNext(heap: D.Heap, heap': D.Heap, walk: seq<D.Ptr>, idxs: seq<nat>, n: nat)
    requires n < |walk| && NoRepeats(walk) && SlotsAhead(heap, walk, idxs, n) && OthersKept(heap, heap', walk[n])
    ensures SlotsAhead(heap', walk, idxs, n + 1)
  {
  }

  lemma ReadableNone(slots: seq<seq<byte>>)
    ensures AllReadable(slots, [])
  {
  }

  lemma ReadableAt(slots: seq<seq<byte>>, idxs: seq<nat>, n: nat)
    requires AllReadable(slots, idxs) && n < |idxs|
    ensures AllReadable(slots, idxs[..n]) && idxs[n] < |slots| && Readable(slots[idxs[n]])
            && idxs[..n + 1] == idxs[..n] + [idxs[n]]
  {
    hide Readable;
  }

  predicate OthersKept(h: D.Heap, h': D.Heap, m: D.Ptr) {
    forall p :: p in h && p != m ==> p in h' && h'[p] == h[p]
  }

  /** A copy of the used bytes of a slot has its fields and its body. */
  lemma CopiedBytes(rec: seq<byte>, raw: seq<byte>)
    requires Readable(raw) && |raw| <= |rec|
    requires LengthField(rec) == LengthField(raw) && rec[..HEAD_SIZE + LengthField(rec)] == CopyOf(raw)
    ensures ChecksumField(rec) == ChecksumField(raw)
    ensures rec[HEAD_SIZE..HEAD_SIZE + LengthField(rec)] == BodyOf(raw) && |BodyOf(raw)| == LengthField(rec)
    ensures rec[..2] == FLAGS_VALID
  {
    var n := HEAD_SIZE + LengthField(rec);
    assert forall i :: 0 <= i < n ==> rec[i] == rec[..n][i] == raw[..n][i] == raw[i];
    assert rec[..2] == raw[..2];
  }

  /** A buffer with a fresh header. */
  lemma NewRecord(c: Config, rec: seq<byte>, body: seq<byte>)
    requires HEAD_SIZE + |body| <= |rec| && |body| <= c.BodyMax() && |body| < 0x1_0000
    requires rec[..HEAD_SIZE + |body|] == RecordBytes(FLAGS_NEW, body)
    ensures LengthField(rec) == |body| && rec[..2] != FLAGS_INVALID && Holds(c, rec, body)
  {
    var n := HEAD_SIZE + |body|;
    var bytes := RecordBytes(FLAGS_NEW, body);
    assert forall i :: 0 <= i < n ==> rec[i] == rec[..n][i] == bytes[i];
    WordRoundTrip(|body|);
    assert rec[..2][1] == 0xAF;
    assert bytes[HEAD_SIZE..] == body;
  }

  /** Subtraction of 32-bit words. */
  function Minus32(a: nat, b: nat): (n: nat)
    requires a < 0x1_0000 && b < 0x1_0000
    ensures n == if b <= a then a - b else 0x1_0000_0000 + a - b
  {
    (a - b) % 0x1_0000_0000
  }

  /** Subtraction of 16-bit words. */
  function Minus16(a: nat, b: nat): (n: nat)
    requires a < 0x1_0000 && b < 0x1_0000
    ensures n == if b <= a then a - b else 0x1_0000 + a - b
  {
    (a - b) % 0x1_0000
  }

  /** The key and the entry that insert_lookup_table takes from the bytes of a record. */
  lemma EntryBytes(c: Config, rec: seq<byte>, body: seq<byte>, idx: nat)
    requires c.Ok() && Holds(c, rec, body)
    ensures HEAD_SIZE + |body| <= |rec| && LengthField(rec) == |body| && HEAD_SIZE + |body| <= c.recordSize
    ensures c.KeySize() <= |body| ==>
              var ks, n := c.KeySize(), |body| - c.KeySize();
              && rec[HEAD_SIZE..HEAD_SIZE + ks] == KeyOf(ks, body)
              && MakeEntry(c, idx, body)
                 == Entry(idx, n, if n <= c.localSize then rec[HEAD_SIZE + ks..HEAD_SIZE + ks + n] else [])
  {
  }

  lemma InsertedIs(c: Config, m: map<Key, Entry>, x: Entry, idx: nat, body: seq<byte>, key: Key, e: Entry)
    requires key == KeyOf(c.KeySize(), body) && e == MakeEntry(c, idx, body)
    ensures (m - {key})[key := x][key := e] == Inserted(c, m, idx, body)
  {
  }

  lemma BodyLimit(c: Config)
    requires c.Ok()
    ensures c.BodyMax() == c.recordSize - HEAD_SIZE && HEADROOM < c.MaxRecords()
  {
  }

  lemma HasBounds(c: Config)
    requires c.Ok()
    ensures 0 < c.keyWords && HEAD_SIZE + c.KeySize() <= c.recordSize < 0x1_0000 && c.localSize < 0x1_0000
  {
  }
}
