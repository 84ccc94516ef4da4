/** Bytes, little-endian fields, and sectors as runs of bytes. */
module Bytes {

  type Byte = x: int | 0 <= x < 256

  function At(s: seq<Byte>, i: nat): Byte { if i < |s| then s[i] else 0 }

  function Le16(s: seq<Byte>, i: nat): nat { At(s, i) + 0x100 * At(s, i + 1) }
  function Le32(s: seq<Byte>, i: nat): nat { Le16(s, i) + 0x1_0000 * Le16(s, i + 2) }

  function Put16(s: seq<Byte>, i: nat, v: nat): (r: seq<Byte>)
    requires i + 1 < |s|
    ensures |r| == |s|
  {
    s[i := v % 0x100][i + 1 := v / 0x100 % 0x100]
  }

  lemma Put16Le16(s: seq<Byte>, i: nat, v: nat)
    requires i + 1 < |s| && v < 0x1_0000
    ensures Le16(Put16(s, i, v), i) == v
    ensures forall j: nat :: j + 1 < i || i + 1 < j ==> Le16(Put16(s, i, v), j) == Le16(s, j)
  {
  }

  const SECTOR := 512

  /** A buffer of whole sectors, as the disk driver fills it. */
  function Flat(sectors: seq<seq<Byte>>): (bytes: seq<Byte>)
    ensures (forall s <- sectors :: |s| == SECTOR) ==> |bytes| == SECTOR * |sectors|
  {
    if sectors == [] then [] else
      assert forall s <- sectors[..|sectors| - 1] :: s in sectors;
      Flat(sectors[..|sectors| - 1]) + sectors[|sectors| - 1]
  }

  lemma {:induction false} FlatAppend(a: seq<seq<Byte>>, s: seq<Byte>)
    ensures Flat(a + [s]) == Flat(a) + s
  {
    assert (a + [s])[..|a + [s]| - 1] == a;
  }
}
