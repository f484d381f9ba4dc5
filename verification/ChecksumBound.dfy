/**
 * How much a byte sum can protect: a VALID record whose body was only partly programmed, so that every
 * byte still has at least the intended bits, is caught whenever the body has at most 257 bytes.
 */
module ChecksumBound {
  import opened Flash
  import opened Records

  /** Every byte of a still has all the bits of the byte of b: programming b over a would give b. */
  predicate Covers(a: seq<byte>, b: seq<byte>) {
    |a| == |b| && forall i :: 0 <= i < |b| ==> a[i] & b[i] == b[i]
  }

  lemma CoveringByte(a: byte, b: byte)
    requires a & b == b
    ensures b <= a
  {
  }

  lemma ByteGap(a: byte, b: byte)
    requires b <= a
    ensures 0 <= a as int - b as int <= 255
    ensures a as int == b as int ==> a == b
  {
  }

  lemma CoveringEnds(a: seq<byte>, b: seq<byte>)
    requires Covers(a, b) && b != []
    ensures Covers(a[..|b| - 1], b[..|b| - 1])
    ensures 0 <= a[|b| - 1] as int - b[|b| - 1] as int <= 255
    ensures a[|b| - 1] as int == b[|b| - 1] as int ==> a[|b| - 1] == b[|b| - 1]
  {
    CoveringByte(a[|b| - 1], b[|b| - 1]);
    ByteGap(a[|b| - 1], b[|b| - 1]);
  }

  /** The sums differ by at most 255 per byte, and not at all only for equal bodies. */
  lemma {:induction false} SumGap(a: seq<byte>, b: seq<byte>)
    requires Covers(a, b)
    ensures Sum(b) <= Sum(a) <= Sum(b) + 255 * |b|
    ensures Sum(a) == Sum(b) ==> a == b
    decreases |b|
  {
    if b != [] {
      var n := |b| - 1;
      CoveringEnds(a, b);
      assert |a| == |b|;
      hide Covers;
      SumGap(a[..n], b[..n]);
      assert a == a[..n] + [a[n]] && b == b[..n] + [b[n]];
    }
  }

  /** The checksum is determined by the sum modulo 2^16, and determines it. */
  lemma Complement(x: nat, n: nat)
    requires n == (0x1_0000 - x % 0x1_0000) % 0x1_0000
    ensures x % 0x1_0000 == if n == 0 then 0 else 0x1_0000 - n
  {
  }

  /** Two bodies have the same checksum exactly when their sums agree modulo 2^16. */
  lemma SameChecksum(a: seq<byte>, b: seq<byte>)
    ensures Checksum(a) == Checksum(b) <==> Sum(a) % 0x1_0000 == Sum(b) % 0x1_0000
  {
    hide Sum;
    Complement(Sum(a), Checksum(a));
    Complement(Sum(b), Checksum(b));
  }

  lemma CongruentAndClose(x: nat, y: nat)
    requires y <= x <= y + 0xFFFF && x % 0x1_0000 == y % 0x1_0000
    ensures x == y
  {
  }

  /** Up to 257 bytes the checksum accepts the exact body only. */
  lemma ChecksumCatchesTears(a: seq<byte>, b: seq<byte>)
    requires Covers(a, b) && |b| <= 257
    ensures Checksum(a) == Checksum(b) <==> a == b
  {
    SumGap(a, b);
    SameChecksum(a, b);
    if Sum(a) % 0x1_0000 == Sum(b) % 0x1_0000 {
      CongruentAndClose(Sum(a), Sum(b));
    }
  }

  lemma {:induction false} SumOfSame(n: nat, x: byte)
    ensures Sum(seq(n, _ => x)) == n * (x as nat)
  {
    if n > 0 {
      SumOfSame(n - 1, x);
      assert seq(n, _ => x)[..n - 1] == seq(n - 1, _ => x);
      NextMultiple(n, x as nat);
    }
  }

  lemma NextMultiple(n: nat, x: nat)
    requires n > 0
    ensures n * x == (n - 1) * x + x
  {
  }

  lemma {:induction false} SumConcat(a: seq<byte>, b: seq<byte>)
    ensures Sum(a + b) == Sum(a) + Sum(b)
  {
    if b == [] {
      assert a + b == a;
    } else {
      assert (a + b)[..|a + b| - 1] == a + b[..|b| - 1];
      SumConcat(a, b[..|b| - 1]);
    }
  }

  /** An erased body of n bytes, n >= 258, and the intended body whose sum is 2^16 less. */
  function Intended(n: nat): (b: seq<byte>)
    requires 258 <= n
    ensures |b| == n
  {
    seq(257, _ => 0x00) + [0xFE] + seq(n - 258, _ => 0xFF)
  }

  lemma IntendedCovered(n: nat)
    requires 258 <= n
    ensures Covers(Erased(n), Intended(n)) && Erased(n) != Intended(n)
  {
    var a, b := Erased(n), Intended(n);
    forall i | 0 <= i < n
      ensures a[i] & b[i] == b[i]
    {
      AndOnes(b[i]);
    }
    assert a[0] != b[0];
  }

  lemma AndOnes(x: byte)
    ensures 0xFF & x == x
  {
  }

  lemma IntendedSum(n: nat)
    requires 258 <= n
    ensures Sum(Erased(n)) == Sum(Intended(n)) + 0x1_0000
  {
    var zeros, ones: seq<byte> := seq(257, _ => 0x00), seq(n - 258, _ => 0xFF);
    assert Erased(n) == seq(n, _ => 0xFF);
    SumOfSame(n, 0xFF);
    SumOfSame(257, 0x00);
    SumOfSame(n - 258, 0xFF);
    assert Sum([0xFE]) == 0xFE by { assert [0xFE][..0] == []; }
    hide Sum;
    SumConcat(zeros, [0xFE]);
    SumConcat(zeros + [0xFE], ones);
    assert (0xFF as byte) as nat == 255;
  }

  /** From 258 bytes on there is a torn body that the checksum accepts. */
  lemma TearPassesAt(n: nat)
    requires 258 <= n
    ensures Covers(Erased(n), Intended(n)) && Erased(n) != Intended(n)
    ensures Checksum(Erased(n)) == Checksum(Intended(n))
  {
    hide Sum, Checksum, Covers, Erased, Intended;
    IntendedCovered(n);
    IntendedSum(n);
    SameChecksum(Erased(n), Intended(n));
  }

  /** The bound is sharp: a length is safe exactly when it is at most 257. */
  lemma TearsAreCaughtUpTo257(n: nat)
    ensures (forall a, b :: |b| == n && Covers(a, b) && Checksum(a) == Checksum(b) ==> a == b) <==> n <= 257
  {
    if n <= 257 {
      forall a, b | |b| == n && Covers(a, b) && Checksum(a) == Checksum(b)
        ensures a == b
      {
        ChecksumCatchesTears(a, b);
      }
    } else {
      TearPassesAt(n);
    }
  }

  lemma HeaderFields(raw: seq<byte>, body: seq<byte>)
    requires HEAD_SIZE + |body| <= |raw| && |body| < 0x1_0000
    requires raw[..HEAD_SIZE] == RecordBytes(FLAGS_VALID, body)[..HEAD_SIZE]
    ensures raw[..2] == FLAGS_VALID && LengthField(raw) == |body| && ChecksumField(raw) == Checksum(body)
  {
    hide Word, LowByte, HighByte, Checksum;
    var head := raw[..HEAD_SIZE];
    assert head == FLAGS_VALID
           + [LowByte(|body|), HighByte(|body|), LowByte(Checksum(body)), HighByte(Checksum(body)), 0xFF, 0xFF];
    assert forall i :: 0 <= i < HEAD_SIZE ==> raw[i] == head[i];
    WordRoundTrip(|body|);
    WordRoundTrip(Checksum(body));
  }

  /** A VALID record with an intact header and a torn body of at most 257 bytes is never mistaken for another. */
  lemma TornBodyIsCaught(raw: seq<byte>, body: seq<byte>)
    requires |body| <= 257 && HEAD_SIZE + |body| <= |raw|
    requires raw[..HEAD_SIZE] == RecordBytes(FLAGS_VALID, body)[..HEAD_SIZE]
    requires Covers(raw[HEAD_SIZE..HEAD_SIZE + |body|], body)
    ensures Parse(raw) == if raw[HEAD_SIZE..HEAD_SIZE + |body|] == body then Live(body) else Corrupt
  {
    hide Word, LowByte, HighByte, Checksum, Covers, RecordBytes, LengthField, ChecksumField;
    HeaderFields(raw, body);
    ChecksumCatchesTears(BodyOf(raw), body);
  }
}
