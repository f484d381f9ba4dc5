/** AND-only flash: programming can clear bits, only an erase sets them again. */
module Flash {
  import opened ErrorDef

  type byte = bv8

  /** What an erased stretch of n bytes reads as. */
  function Erased(n: nat): (s: seq<byte>)
    ensures |s| == n && forall i :: 0 <= i < n ==> s[i] == 0xFF
  {
    seq(n, _ => 0xFF)
  }

  /** The image s after data has been programmed at offset off; bytes beyond the image are dropped. */
  function Programmed(s: seq<byte>, off: nat, data: seq<byte>): (r: seq<byte>)
    ensures |r| == |s|
    ensures forall i :: 0 <= i < |s| && !(off <= i < off + |data|) ==> r[i] == s[i]
    ensures forall i :: 0 <= i < |s| && off <= i < off + |data| ==> r[i] == s[i] & data[i - off]
  {
    seq(|s|, i requires 0 <= i < |s| => if off <= i < off + |data| then s[i] & data[i - off] else s[i])
  }

  lemma ProgrammedNothing(s: seq<byte>, off: nat)
    ensures Programmed(s, off, []) == s
  {
  }

  lemma ProgrammedNext(was: seq<byte>, before: seq<byte>, off: nat, data: seq<byte>, i: nat)
    requires i < |data| && off + i < |was|
    requires before == Programmed(was, off, data[..i])
    ensures before[off + i := before[off + i] & data[i]] == Programmed(was, off, data[..i + 1])
  {
  }

  /** The images of the memory while data is programmed, one for every byte. */
  function WriteHistory(mem: seq<byte>, addr: nat, data: seq<byte>): (h: seq<seq<byte>>)
    ensures |h| == |data|
  {
    seq(|data|, k requires 0 <= k < |data| => Programmed(mem, addr, data[..k + 1]))
  }

  /** Programming erased bytes stores the data. */
  lemma ProgrammedOnErased(s: seq<byte>, off: nat, data: seq<byte>)
    requires off + |data| <= |s|
    requires forall i :: off <= i < off + |data| ==> s[i] == 0xFF
    ensures Programmed(s, off, data)[off..off + |data|] == data
  {
  }

  /**
   * The RAM emulation of the flash chip (src/drivers/ramdrv.c). The ghost history lists every image
   * the memory has held after a byte was programmed or a range erased: the places where power can go.
   */
  class RamDrv {
    const mem: array<byte>
    ghost var history: seq<seq<byte>>

    constructor (m: array<byte>)
      ensures mem == m && history == []
    {
      mem := m;
      history := [];
    }

    /** Fills [addrStart, addrEnd) with 0xFF, but never the last byte of the memory. */
    method Erase(addrStart: nat, addrEnd: nat) returns (status: Status)
      modifies this, mem
      ensures status == (if addrEnd < addrStart || addrStart >= mem.Length then E_PARM else EOK)
      ensures status == E_PARM ==> mem[..] == old(mem[..]) && history == old(history)
      ensures status == EOK ==>
                forall i :: 0 <= i < mem.Length ==>
                  mem[i] == if addrStart <= i < addrEnd && i < mem.Length - 1 then 0xFF else old(mem[i])
      ensures status == EOK ==> history == old(history) + [mem[..]]
    {
      if addrEnd < addrStart { return E_PARM; }
      if addrStart >= mem.Length { return E_PARM; }
      var end := addrEnd;
      if end >= mem.Length {
        end := mem.Length - 1;
      }
      forall i | addrStart <= i < end {
        mem[i] := 0xFF;
      }
      history := history + [mem[..]];
      return EOK;
    }

    /** Programs data byte by byte, low address first. */
    method Write(addr: nat, data: seq<byte>) returns (status: Status)
      modifies this, mem
      ensures status == (if addr >= mem.Length || addr + |data| >= mem.Length then E_PARM else EOK)
      ensures status == E_PARM ==> mem[..] == old(mem[..]) && history == old(history)
      ensures status == EOK ==> mem[..] == Programmed(old(mem[..]), addr, data)
      ensures status == EOK ==> history == old(history) + WriteHistory(old(mem[..]), addr, data)
    {
      if addr >= mem.Length { return E_PARM; }
      if addr + |data| >= mem.Length { return E_PARM; }
      ghost var was := mem[..];
      ghost var images := WriteHistory(was, addr, data);
      var i := 0;
      while i < |data|
        invariant 0 <= i <= |data|
        invariant mem[..] == Programmed(was, addr, data[..i])
        invariant history == old(history) + images[..i]
      {
        ghost var before := mem[..];
        mem[i + addr] := mem[i + addr] & data[i];
        ProgrammedNext(was, before, addr, data, i);
        assert mem[..] == before[i + addr := before[i + addr] & data[i]];
        history := history + [mem[..]];
        i := i + 1;
      }
      assert data[..i] == data;
      return EOK;
    }

    /** Copies len bytes from address addr to offset at of the caller's buffer. */
    method Read(addr: nat, len: nat, data: array<byte>, at: nat) returns (status: Status)
      requires at + len <= data.Length
      requires data != mem
      modifies data
      ensures status == (if addr >= mem.Length || addr + len >= mem.Length then E_PARM else EOK)
      ensures status == E_PARM ==> data[..] == old(data[..])
      ensures status == EOK ==> data[at..at + len] == mem[addr..addr + len]
      ensures status == EOK ==> data[..at] == old(data[..at]) && data[at + len..] == old(data[at + len..])
    {
      if addr >= mem.Length { return E_PARM; }
      if addr + len >= mem.Length { return E_PARM; }
      forall i | 0 <= i < len {
        data[at + i] := mem[addr + i];
      }
      return EOK;
    }
  }
}
