/**
 * A volume is two sectors of record slots. The store changes it only by programming a sector header,
 * programming a slot or erasing a sector; power can fail after every programmed byte.
 */
module Volumes {
  import opened Flash

  /** The 16-byte sector header and the record slots behind it. */
  datatype Sector = Sector(head: seq<byte>, slots: seq<seq<byte>>)

  datatype Which = One | Two {
    function Other(): Which { if One? then Two else One }
  }

  datatype Vol = Vol(one: Sector, two: Sector) {
    function At(w: Which): Sector { if w.One? then one else two }

    function With(w: Which, s: Sector): (v: Vol)
      ensures v.At(w) == s && v.At(w.Other()) == At(w.Other())
    {
      if w.One? then Vol(s, two) else Vol(one, s)
    }
  }

  // Sector flag words, low byte first.
  const SECTOR_EMPTY: seq<byte> := [0xFF, 0xFF, 0xFF, 0xFF]
  const SECTOR_INITIALIZING: seq<byte> := [0xFF, 0xFF, 0xFF, 0xAA]
  const SECTOR_VALID: seq<byte> := [0xFF, 0xFF, 0xAA, 0xAA]
  const SECTOR_INVALID: seq<byte> := [0xAA, 0xAA, 0xAA, 0xAA]

  datatype SectorFlags = FEmpty | FInitializing | FValid | FInvalid | FBad

  /** The meaning of a flag word. */
  function FlagsWord(word: seq<byte>): SectorFlags {
    if word == SECTOR_EMPTY then FEmpty
    else if word == SECTOR_INITIALIZING then FInitializing
    else if word == SECTOR_VALID then FValid
    else if word == SECTOR_INVALID then FInvalid
    else FBad
  }

  function FlagsOf(s: Sector): SectorFlags { if |s.head| < 4 then FBad else FlagsWord(s.head[..4]) }

  // ---------------------------------------------------------------- flash commands

  datatype Cmd =
    | ProgramHead(w: Which, data: seq<byte>)
    | ProgramSlot(w: Which, slot: nat, data: seq<byte>)
    | EraseSector(w: Which)
  {
    /** The number of steps between which power can fail: one per byte, and one for an erase. */
    function Duration(): nat {
      match this
      case ProgramHead(_, data) => |data|
      case ProgramSlot(_, _, data) => |data|
      case EraseSector(_) => 1
    }
  }

  function ErasedLike(s: Sector): Sector {
    Sector(Erased(|s.head|), seq(|s.slots|, i requires 0 <= i < |s.slots| => Erased(|s.slots[i]|)))
  }

  function SlotProgrammed(s: Sector, i: nat, data: seq<byte>): Sector {
    if i < |s.slots| then s.(slots := s.slots[i := Programmed(s.slots[i], 0, data)]) else s
  }

  /** The volume after the first k steps of a command. */
  function Partial(v: Vol, c: Cmd, k: nat): Vol
    requires k <= c.Duration()
  {
    match c
    case ProgramHead(w, data) => v.With(w, v.At(w).(head := Programmed(v.At(w).head, 0, data[..k])))
    case ProgramSlot(w, i, data) => v.With(w, SlotProgrammed(v.At(w), i, data[..k]))
    case EraseSector(w) => if k == 0 then v else v.With(w, ErasedLike(v.At(w)))
  }

  function Apply(v: Vol, c: Cmd): Vol { Partial(v, c, c.Duration()) }

  function Exec(v: Vol, cmds: seq<Cmd>): Vol
    decreases |cmds|
  {
    if cmds == [] then v else Exec(Apply(v, cmds[0]), cmds[1..])
  }

  function CmdImages(v: Vol, c: Cmd): (s: seq<Vol>)
    ensures |s| == c.Duration()
  {
    seq(c.Duration(), k requires 0 <= k < c.Duration() => Partial(v, c, k + 1))
  }

  /** Every volume that is on flash during a list of commands, in order; the starting one is left out. */
  function Images(v: Vol, cmds: seq<Cmd>): seq<Vol>
    decreases |cmds|
  {
    if cmds == [] then [] else CmdImages(v, cmds[0]) + Images(Apply(v, cmds[0]), cmds[1..])
  }

  /** What is on flash when power fails after n steps. */
  function Torn(v: Vol, cmds: seq<Cmd>, n: nat): Vol
    requires n <= |Images(v, cmds)|
  {
    if n == 0 then v else Images(v, cmds)[n - 1]
  }

  lemma {:induction false} ExecAppend(v: Vol, a: seq<Cmd>, b: seq<Cmd>)
    ensures Exec(v, a + b) == Exec(Exec(v, a), b)
    ensures Images(v, a + b) == Images(v, a) + Images(Exec(v, a), b)
    decreases |a|
  {
    if a == [] {
      assert a + b == b;
    } else {
      assert (a + b)[0] == a[0] && (a + b)[1..] == a[1..] + b;
      ExecAppend(Apply(v, a[0]), a[1..], b);
    }
  }

  lemma ExecOne(v: Vol, c: Cmd)
    ensures Exec(v, [c]) == Apply(v, c)
    ensures Images(v, [c]) == CmdImages(v, c)
  {
    assert [c][1..] == [];
    assert Exec(v, [c]) == Exec(Apply(v, c), []);
  }
}
