/** Memory the PCD tools read through pointers: every address holds a byte. */
module FlatMemory {
  import opened Bytes

  type Memory = nat -> Byte

  function Read(m: Memory, p: nat, n: nat): (s: seq<Byte>)
    ensures |s| == n && forall i :: 0 <= i < n ==> s[i] == m(p + i)
  {
    seq(n, i requires 0 <= i < n => m(p + i))
  }

  function U16(m: Memory, p: nat): nat {
    UnLe(Read(m, p, 2))
  }

  function U24(m: Memory, p: nat): (v: nat)
    ensures v < 0x100_0000
  {
    UnLeBound(Read(m, p, 3));
    Pow256Values();
    UnLe(Read(m, p, 3))
  }

  function U32(m: Memory, p: nat): Uint32 {
    Field32(Read(m, p, 4), 0)
  }

  function U64(m: Memory, p: nat): UintN {
    Field64(Read(m, p, 8), 0)
  }

  function GuidAt(m: Memory, p: nat): Guid {
    Read(m, p, 16)
  }

  /** Zeros read as 0, for the examples of structures without a length. */
  lemma {:induction false} UnLeZeros(s: seq<Byte>)
    requires forall i :: 0 <= i < |s| ==> s[i] == 0
    ensures UnLe(s) == 0
  {
    if s != [] {
      UnLeZeros(s[1..]);
    }
  }
}
