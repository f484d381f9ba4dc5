/** One record slot of a sector: its 8-byte header, its body, and what a torn write leaves behind. */
module Records {
  import opened Flash

  const HEAD_SIZE: nat := 8

  // Record flags, low byte first: every change of state only clears bits.
  const FLAGS_EMPTY: seq<byte> := [0xFF, 0xFF]
  const FLAGS_NEW: seq<byte> := [0xFF, 0xAF]
  const FLAGS_VALID: seq<byte> := [0xAF, 0xAA]
  const FLAGS_INVALID: seq<byte> := [0x00, 0x00]

  /** The byte of value n. */
  function ByteOf(n: nat): (b: byte)
    requires n < 256
    ensures b as nat == n
  {
    if n == 0 then 0 else
    var p := ByteOf(n - 1);
    NextByte(p);
    p + 1
  }

  lemma NextByte(b: byte)
    requires b < 255
    ensures (b + 1) as nat == b as nat + 1
  {
  }

  function LowByte(n: nat): byte { ByteOf(n % 256) }

  function HighByte(n: nat): byte { ByteOf(n / 256 % 256) }

  /** A little-endian 16-bit field. */
  function Word(lo: byte, hi: byte): (n: nat)
    ensures n < 0x1_0000
  {
    lo as nat + 256 * (hi as nat)
  }

  lemma WordRoundTrip(n: nat)
    requires n < 0x1_0000
    ensures Word(LowByte(n), HighByte(n)) == n
  {
    assert n / 256 < 256 && n / 256 % 256 == n / 256;
  }

  lemma NotNot(b: byte)
    ensures !(!b) == b
  {
  }

  function Sum(body: seq<byte>): nat {
    if body == [] then 0 else Sum(body[..|body| - 1]) + body[|body| - 1] as nat
  }

  /** The 16-bit two's complement of the byte sum. */
  function Checksum(body: seq<byte>): (n: nat)
    ensures n < 0x1_0000
    ensures (Sum(body) + n) % 0x1_0000 == 0
  {
    (0x1_0000 - Sum(body) % 0x1_0000) % 0x1_0000
  }

  /** The bytes record_set programs: header and body. */
  function RecordBytes(flags: seq<byte>, body: seq<byte>): (r: seq<byte>)
    requires |flags| == 2
    ensures |r| == HEAD_SIZE + |body|
  {
    flags + [LowByte(|body|), HighByte(|body|), LowByte(Checksum(body)), HighByte(Checksum(body)), 0xFF, 0xFF] + body
  }

  /**
   * What a scan makes of a slot. Unreadable covers torn flag words and impossible lengths, Corrupt a
   * VALID record with a bad checksum.
   */
  datatype Content = Empty | Invalid | Unreadable | Corrupt | Live(body: seq<byte>)

  function LengthField(raw: seq<byte>): nat
    requires HEAD_SIZE <= |raw|
  {
    Word(raw[2], raw[3])
  }

  function ChecksumField(raw: seq<byte>): nat
    requires HEAD_SIZE <= |raw|
  {
    Word(raw[4], raw[5])
  }

  /** The flag and length tests of read_variable_record. */
  predicate Readable(raw: seq<byte>) {
    HEAD_SIZE <= |raw| && raw[..2] == FLAGS_VALID && LengthField(raw) <= |raw| - HEAD_SIZE
  }

  function BodyOf(raw: seq<byte>): seq<byte>
    requires Readable(raw)
  {
    raw[HEAD_SIZE..HEAD_SIZE + LengthField(raw)]
  }

  function Parse(raw: seq<byte>): Content {
    if |raw| < HEAD_SIZE then Unreadable
    else if raw[..2] == FLAGS_EMPTY then Empty
    else if raw[..2] == FLAGS_INVALID then Invalid
    else if !Readable(raw) then Unreadable
    else if ChecksumField(raw) != Checksum(BodyOf(raw)) then Corrupt
    else Live(BodyOf(raw))
  }

  /** The bytes that a compactor copies from a readable slot. */
  function CopyOf(raw: seq<byte>): seq<byte>
    requires Readable(raw)
  {
    raw[..HEAD_SIZE + LengthField(raw)]
  }

  // ---------------------------------------------------------------- what the bytes of a slot mean

  lemma SumOfOne(b: byte)
    ensures Sum([b]) == b as nat && Sum([]) == 0
  {
    assert [b][..0] == [];
  }

  /** The sum of a concatenation is that of its parts. */
  lemma {:induction false} SumAppends(a: seq<byte>, b: seq<byte>)
    ensures Sum(a + b) == Sum(a) + Sum(b)
  {
    if b == [] {
      assert a + b == a;
    } else {
      assert (a + b)[..|a + b| - 1] == a + b[..|b| - 1];
      SumAppends(a, b[..|b| - 1]);
    }
  }

  /** A 16-bit field is stored low byte first. */
  lemma FieldBytes(n: nat)
    requires n < 0x1_0000
    ensures LowByte(n) as nat == n % 256 && LowByte(n) as nat + 256 * (HighByte(n) as nat) == n
  {
    WordRoundTrip(n);
  }

  lemma FirstTwo(raw: seq<byte>, flags: seq<byte>)
    requires 2 <= |raw| && |flags| == 2
    ensures raw[..2] == flags <==> raw[0] == flags[0] && raw[1] == flags[1]
  {
    assert raw[..2] == [raw[0], raw[1]];
  }

  /** What a scan makes of a slot, by its bytes: the flags FFFF are EMPTY, 0000 INVALID and AAAF VALID. */
  lemma SlotMeans(raw: seq<byte>)
    requires 8 <= |raw|
    ensures Parse(raw) == Empty <==> raw[0] == 0xFF && raw[1] == 0xFF
    ensures Parse(raw) == Invalid <==> raw[0] == 0x00 && raw[1] == 0x00
    ensures Readable(raw) <==> raw[0] == 0xAF && raw[1] == 0xAA && 8 + raw[2] as nat + 256 * (raw[3] as nat) <= |raw|
    ensures Parse(raw) == Unreadable <==> Parse(raw) != Empty && Parse(raw) != Invalid && !Readable(raw)
  {
    hide Sum, Checksum, BodyOf, ChecksumField, Word;
    FirstTwo(raw, FLAGS_EMPTY);
    FirstTwo(raw, FLAGS_INVALID);
    FirstTwo(raw, FLAGS_VALID);
    WordIs(raw[2], raw[3]);
  }

  lemma WordIs(lo: byte, hi: byte)
    ensures Word(lo, hi) == lo as nat + 256 * (hi as nat)
  {
  }

  /** The length is in bytes 2 and 3 of a slot, the checksum in bytes 4 and 5. */
  lemma FieldsMean(raw: seq<byte>)
    requires 8 <= |raw|
    ensures LengthField(raw) == raw[2] as nat + 256 * (raw[3] as nat)
    ensures ChecksumField(raw) == raw[4] as nat + 256 * (raw[5] as nat)
  {
  }

  /** The byte sum of a body and its checksum add up to a multiple of 2^16. */
  predicate Balanced(body: seq<byte>, checksum: nat) { (Sum(body) + checksum) % 0x1_0000 == 0 }

  /** A readable slot holds a record exactly if its body and its checksum are balanced. */
  lemma RecordMeans(raw: seq<byte>)
    requires Readable(raw)
    ensures var body := raw[8..8 + LengthField(raw)];
            Parse(raw) == if Balanced(body, ChecksumField(raw)) then Live(body) else Corrupt
  {
    hide Sum, Checksum, Word, Parse, Balanced;
    ReadableParses(raw);
    ChecksumFits(BodyOf(raw), ChecksumField(raw));
  }

  lemma ReadableParses(raw: seq<byte>)
    requires Readable(raw)
    ensures Parse(raw) == if ChecksumField(raw) == Checksum(BodyOf(raw)) then Live(BodyOf(raw)) else Corrupt
  {
    hide Checksum, Word;
  }

  lemma ChecksumFits(body: seq<byte>, field: nat)
    requires field < 0x1_0000
    ensures field == Checksum(body) <==> Balanced(body, field)
  {
    hide Sum;
  }

  predicate AllErased(raw: seq<byte>) {
    forall i :: 0 <= i < |raw| ==> raw[i] == 0xFF
  }

  /**
   * Appending a record, torn after k bytes: the slot is still erased, or it is already taken but not
   * VALID.
   */
  lemma TornAppend(raw: seq<byte>, body: seq<byte>, k: nat)
    requires AllErased(raw) && HEAD_SIZE + |body| <= |raw|
    requires k <= HEAD_SIZE + |body|
    ensures var torn := Programmed(raw, 0, RecordBytes(FLAGS_NEW, body)[..k]);
            if k <= 1 then torn == raw else Parse(torn) == Unreadable
  {
    var data := RecordBytes(FLAGS_NEW, body);
    var torn := Programmed(raw, 0, data[..k]);
    assert data[0] == 0xFF && data[1] == 0xAF;
    if k <= 1 {
      assert torn == raw;
    } else {
      assert torn[0] == 0xFF && torn[1] == 0xAF;
      assert torn[..2][1] == 0xAF;
    }
  }

  /** A VALID header in front of the rest of what was written reads back as the record. */
  lemma RecordReads(raw: seq<byte>, body: seq<byte>)
    requires HEAD_SIZE + |body| <= |raw| && |body| < 0x1_0000
    requires raw[..2] == FLAGS_VALID && raw[2..HEAD_SIZE + |body|] == RecordBytes(FLAGS_NEW, body)[2..]
    ensures Parse(raw) == Live(body)
  {
    hide Sum, Checksum, Word, LowByte, HighByte;
    var tail := raw[2..HEAD_SIZE + |body|];
    assert tail
           == [LowByte(|body|), HighByte(|body|), LowByte(Checksum(body)), HighByte(Checksum(body)), 0xFF, 0xFF] + body;
    assert raw[2] == tail[0] && raw[3] == tail[1] && raw[4] == tail[2] && raw[5] == tail[3];
    WordRoundTrip(|body|);
    WordRoundTrip(Checksum(body));
    assert BodyOf(raw) == tail[6..];
    assert tail[6..] == body;
  }

  /** Flipping a completely written record to VALID, torn after k bytes. */
  lemma CommitRecord(raw: seq<byte>, body: seq<byte>, k: nat)
    requires AllErased(raw) && HEAD_SIZE + |body| <= |raw| && |body| < 0x1_0000
    requires k <= 2
    ensures var written := Programmed(raw, 0, RecordBytes(FLAGS_NEW, body));
            Parse(Programmed(written, 0, FLAGS_VALID[..k])) == if k == 2 then Live(body) else Unreadable
  {
    var data := RecordBytes(FLAGS_NEW, body);
    var written := Programmed(raw, 0, data);
    var torn := Programmed(written, 0, FLAGS_VALID[..k]);
    ProgrammedOnErased(raw, 0, data);
    assert written[..|data|] == data;
    assert data[0] == 0xFF && data[1] == 0xAF;
    assert written[0] == 0xFF && written[1] == 0xAF;
    if k == 2 {
      assert torn[..2] == FLAGS_VALID;
      assert torn[2..|data|] == data[2..];
      RecordReads(torn, body);
    } else {
      assert torn[..2][1] == 0xAF;
    }
  }

  /** Clearing the flags of a readable record, torn after k bytes. */
  lemma ClearFlags(raw: seq<byte>, k: nat)
    requires Readable(raw)
    requires k <= 2
    ensures var torn := Programmed(raw, 0, FLAGS_INVALID[..k]);
            if k == 0 then torn == raw else Parse(torn) == if k == 1 then Unreadable else Invalid
  {
    var torn := Programmed(raw, 0, FLAGS_INVALID[..k]);
    assert raw[..2][0] == raw[0] && raw[..2][1] == raw[1];
    assert raw[0] == 0xAF && raw[1] == 0xAA;
    if k == 0 {
      assert torn == raw;
    } else if k == 1 {
      assert torn[..2][0] == 0x00 && torn[..2][1] == 0xAA;
    } else {
      assert torn[..2] == FLAGS_INVALID;
    }
  }

  /** Only the header and the bytes of the body matter. */
  lemma SamePrefix(raw: seq<byte>, copy: seq<byte>)
    requires Readable(raw) && |copy| == |raw|
    requires copy[..HEAD_SIZE + LengthField(raw)] == CopyOf(raw)
    ensures Readable(copy) && CopyOf(copy) == CopyOf(raw) && BodyOf(copy) == BodyOf(raw)
    ensures Parse(copy) == Parse(raw)
  {
    assert forall i :: 0 <= i < HEAD_SIZE + LengthField(raw) ==> copy[i] == CopyOf(raw)[i] == raw[i];
    assert copy[..2] == raw[..2];
    assert LengthField(copy) == LengthField(raw);
    assert BodyOf(copy) == BodyOf(raw);
  }

  /** A compactor's copy of a readable record into an erased slot reads like the original. */
  lemma CopyReads(raw: seq<byte>, to: seq<byte>)
    requires Readable(raw) && AllErased(to) && |to| == |raw|
    ensures var copy := Programmed(to, 0, CopyOf(raw));
            Readable(copy) && BodyOf(copy) == BodyOf(raw) && Parse(copy) == Parse(raw) && CopyOf(copy) == CopyOf(raw)
  {
    ProgrammedOnErased(to, 0, CopyOf(raw));
    SamePrefix(raw, Programmed(to, 0, CopyOf(raw)));
  }
}
