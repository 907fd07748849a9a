/** One flat little-endian memory of bytes, with 32-bit loads and stores. */
module Memory {
  import opened Words

  function Load32(mem: seq<byte>, a: nat): (w: u32)
    requires a + 4 <= |mem|
  {
    var b0: int, b1: int, b2: int, b3: int := mem[a], mem[a + 1], mem[a + 2], mem[a + 3];
    b0 + 0x100 * b1 + 0x1_0000 * b2 + 0x100_0000 * b3
  }

  function Store32(mem: seq<byte>, a: nat, w: u32): (mem': seq<byte>)
    requires a + 4 <= |mem|
    ensures |mem'| == |mem| && Load32(mem', a) == w
    ensures forall i :: 0 <= i < |mem| && !(a <= i < a + 4) ==> mem'[i] == mem[i]
  {
    Recompose(w);
    mem[a := w % 0x100][a + 1 := w / 0x100 % 0x100][a + 2 := w / 0x1_0000 % 0x100][a + 3 := w / 0x100_0000]
  }

  lemma Recompose(w: u32)
    ensures w == w % 0x100 + 0x100 * (w / 0x100 % 0x100) + 0x1_0000 * (w / 0x1_0000 % 0x100) + 0x100_0000 *
      (w / 0x100_0000)
    ensures w / 0x100_0000 < 0x100
  {
  }

  /** Bytes outside [lo, hi) are the same. */
  ghost predicate OnlyIn(m: seq<byte>, m': seq<byte>, lo: nat, hi: nat) {
    |m| == |m'| && forall i :: 0 <= i < |m| && !(lo <= i < hi) ==> m'[i] == m[i]
  }

  /** The two memories agree on [lo, lo + len). */
  ghost predicate SameBytes(m: seq<byte>, m': seq<byte>, lo: nat, len: nat) {
    |m| == |m'| && forall i :: lo <= i < lo + len && i < |m| ==> m'[i] == m[i]
  }
}
