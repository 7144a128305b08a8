/** Byte strings, little-endian integers and in-place writes, shared by every
    component that reads or writes a packed C structure. */
module Bytes {

  const TWO32: int := 0x1_0000_0000
  const TWO64: int := 0x1_0000_0000_0000_0000

  type Byte = b: int | 0 <= b < 256
  type Uint32 = x: int | 0 <= x < TWO32
  type UintN = x: int | 0 <= x < TWO64  // a 64-bit build: UINTN and UINT64 coincide
  type Guid = g: seq<Byte> | |g| == 16 witness seq(16, _ => 0)

  const ZERO_GUID: Guid := [0, 0, 0, 0, 0, 0, 0, 0, 0, 0, 0, 0, 0, 0, 0, 0]

  function Pow256(n: nat): (p: nat)
    ensures p >= 1
  {
    if n == 0 then 1 else 256 * Pow256(n - 1)
  }

  lemma Pow256Values()
    ensures Pow256(1) == 256
    ensures Pow256(2) == 0x1_0000
    ensures Pow256(3) == 0x100_0000
    ensures Pow256(4) == TWO32
    ensures Pow256(8) == TWO64
  {
    assert Pow256(2) == 256 * Pow256(1);
    assert Pow256(4) == 256 * Pow256(3) && Pow256(3) == 256 * Pow256(2);
    assert Pow256(6) == 256 * Pow256(5) && Pow256(5) == 256 * Pow256(4);
    assert Pow256(8) == 256 * Pow256(7) && Pow256(7) == 256 * Pow256(6);
  }

  /** The n low-order bytes of v, least significant first: a C store of v through an n-byte field. */
  function Le(n: nat, v: nat): (s: seq<Byte>)
    ensures |s| == n
  {
    if n == 0 then [] else [v % 256] + Le(n - 1, v / 256)
  }

  function UnLe(s: seq<Byte>): nat {
    if s == [] then 0 else s[0] + 256 * UnLe(s[1..])
  }

  lemma {:induction false} UnLeLe(n: nat, v: nat)
    requires v < Pow256(n)
    ensures UnLe(Le(n, v)) == v
  {
    if n > 0 {
      UnLeLe(n - 1, v / 256);
      assert Le(n, v)[1..] == Le(n - 1, v / 256);
    }
  }

  lemma {:induction false} UnLeBound(s: seq<Byte>)
    ensures UnLe(s) < Pow256(|s|)
  {
    if s != [] {
      UnLeBound(s[1..]);
    }
  }

  /** A 16-bit little-endian value. */
  function Word(lo: nat, hi: nat): nat {
    lo + 0x100 * hi
  }

  /** The n-byte little-endian field at offset off. */
  function Field(s: seq<Byte>, off: nat, n: nat): (v: nat)
    requires off + n <= |s|
  {
    UnLe(s[off..off + n])
  }

  function Field32(s: seq<Byte>, off: nat): (v: Uint32)
    requires off + 4 <= |s|
  {
    UnLeBound(s[off..off + 4]);
    Pow256Values();
    Field(s, off, 4)
  }

  function Field64(s: seq<Byte>, off: nat): (v: UintN)
    requires off + 8 <= |s|
  {
    UnLeBound(s[off..off + 8]);
    Pow256Values();
    Field(s, off, 8)
  }

  /** s with the bytes b stored at offset off. */
  function Splice<T>(s: seq<T>, off: nat, b: seq<T>): (r: seq<T>)
    requires off + |b| <= |s|
    ensures |r| == |s|
  {
    s[..off] + b + s[off + |b|..]
  }

  /** Two adjacent stores are one store. */
  lemma SpliceAdjacent<T>(s: seq<T>, off: nat, a: seq<T>, b: seq<T>)
    requires off + |a| + |b| <= |s|
    ensures Splice(Splice(s, off, a), off + |a|, b) == Splice(s, off, a + b)
  {
  }

  /** Storing y over a part of an earlier store of the same length. */
  lemma SpliceOver<T>(s: seq<T>, off: nat, a: seq<T>, x: seq<T>, c: seq<T>, y: seq<T>)
    requires off + |a| + |x| + |c| <= |s| && |x| == |y|
    ensures Splice(Splice(s, off, a + x + c), off + |a|, y) == Splice(s, off, a + y + c)
  {
  }

  lemma SpliceSelf<T>(s: seq<T>, off: nat, n: nat)
    requires off + n <= |s|
    ensures Splice(s, off, s[off..off + n]) == s
  {
  }

  /** Storing what is there already. */
  lemma SpliceSame<T>(s: seq<T>, off: nat, b: seq<T>)
    requires off + |b| <= |s| && s[off..off + |b|] == b
    ensures Splice(s, off, b) == s
  {
  }

  /** Stores to disjoint places may be swapped. */
  lemma SpliceCommute<T>(s: seq<T>, p: nat, a: seq<T>, q: nat, b: seq<T>)
    requires p + |a| <= q && q + |b| <= |s|
    ensures Splice(Splice(s, p, a), q, b) == Splice(Splice(s, q, b), p, a)
  {
    var x, y := Splice(Splice(s, p, a), q, b), Splice(Splice(s, q, b), p, a);
    forall i | 0 <= i < |s|
      ensures x[i] == y[i]
    {
    }
  }

  /** A store over all of an earlier one. */
  lemma SpliceCover<T>(s: seq<T>, p: nat, a: seq<T>, q: nat, b: seq<T>)
    requires p <= q && q + |b| <= p + |a| <= |s|
    ensures Splice(Splice(s, q, b), p, a) == Splice(s, p, a)
  {
    var x, y := Splice(Splice(s, q, b), p, a), Splice(s, p, a);
    forall i | 0 <= i < |s|
      ensures x[i] == y[i]
    {
    }
  }

  /** What a store leaves at its own place, and elsewhere. */
  lemma SpliceReads<T>(s: seq<T>, p: nat, a: seq<T>, q: nat, n: nat)
    requires p + |a| <= |s| && q + n <= |s|
    ensures Splice(s, p, a)[p..p + |a|] == a
    ensures p + |a| <= q || q + n <= p ==> Splice(s, p, a)[q..q + n] == s[q..q + n]
  {
  }

  lemma SpliceNothing<T>(s: seq<T>, off: nat)
    requires off <= |s|
    ensures Splice(s, off, []) == s
  {
  }

  lemma SpliceWhole<T>(s: seq<T>, b: seq<T>)
    requires |b| == |s|
    ensures Splice(s, 0, b) == b
  {
  }

  /** One store into a region already known to hold a + x + c. */
  lemma Store<T>(s: seq<T>, off: nat, region: seq<T>, a: seq<T>, x: seq<T>, c: seq<T>, y: seq<T>)
    requires off + |region| <= |s| && region == a + x + c && |x| == |y|
    ensures Splice(Splice(s, off, region), off + |a|, y) == Splice(s, off, a + y + c)
  {
    SpliceOver(s, off, a, x, c, y);
  }

  lemma ConcatAssoc<T>(a: seq<T>, b: seq<T>, c: seq<T>)
    ensures a + b + c == a + (b + c)
  {
  }

  lemma SliceOfSlice<T>(s: seq<T>, lo: nat, hi: nat, a: nat, b: nat)
    requires lo <= hi <= |s| && a <= b <= hi - lo
    ensures s[lo..hi][a..b] == s[lo + a..lo + b]
  {
    var x, y := s[lo..hi][a..b], s[lo + a..lo + b];
    assert |x| == |y|;
    assert forall i :: 0 <= i < |x| ==> x[i] == s[lo..hi][a + i] && y[i] == s[lo + a + i];
  }

  /** after agrees with before outside [lo, hi). */
  ghost predicate SameOutside<T>(before: seq<T>, after: seq<T>, lo: nat, hi: nat) {
    |before| == |after| &&
    forall i :: 0 <= i < |before| && (i < lo || hi <= i) ==> after[i] == before[i]
  }

  lemma SpliceSameOutside<T>(s: seq<T>, off: nat, b: seq<T>, lo: nat, hi: nat)
    requires lo <= off && off + |b| <= hi <= |s|
    ensures SameOutside(s, Splice(s, off, b), lo, hi)
  {
  }

  lemma SameOutsideRefl<T>(s: seq<T>, lo: nat, hi: nat)
    ensures SameOutside(s, s, lo, hi)
  {
  }

  /** A further change confined to part of [lo, hi). */
  lemma SameOutsideStep<T>(a: seq<T>, b: seq<T>, c: seq<T>, lo: nat, hi: nat, lo': nat, hi': nat)
    requires SameOutside(a, b, lo, hi) && SameOutside(b, c, lo', hi') && lo <= lo' && hi' <= hi
    ensures SameOutside(a, c, lo, hi)
  {
  }

  lemma SpliceStep<T>(s: seq<T>, off: nat, b: seq<T>, i: nat)
    requires off + |b| <= |s| && i < |b|
    ensures Splice(s, off, b[..i])[off + i := b[i]] == Splice(s, off, b[..i + 1])
  {
    var t, u := Splice(s, off, b[..i])[off + i := b[i]], Splice(s, off, b[..i + 1]);
    forall k | 0 <= k < |s|
      ensures t[k] == u[k]
    {
    }
  }

  /** CopyMem into a buffer at an offset. */
  method Put<T>(data: array<T>, off: nat, b: seq<T>)
    requires off + |b| <= data.Length
    modifies data
    ensures data[..] == Splice(old(data[..]), off, b)
  {
    hide Splice;
    ghost var before := data[..];
    SpliceNothing(before, off);
    var i := 0;
    while i < |b|
      invariant 0 <= i <= |b|
      invariant data[..] == Splice(before, off, b[..i])
    {
      SpliceStep(before, off, b, i);
      ghost var middle := data[..];
      data[off + i] := b[i];
      assert data[..] == middle[off + i := b[i]];
      i := i + 1;
    }
    assert b[..|b|] == b;
  }

  /** Put into the slice [lo, hi) of a buffer that agreed with before outside that slice. */
  method PutWithin<T>(data: array<T>, off: nat, b: seq<T>, ghost before: seq<T>, ghost lo: nat, ghost hi: nat)
    requires lo <= off && off + |b| <= hi <= data.Length && SameOutside(before, data[..], lo, hi)
    modifies data
    ensures data[..] == Splice(old(data[..]), off, b)
    ensures SameOutside(before, data[..], lo, hi)
  {
    hide Splice, SameOutside;
    ghost var middle := data[..];
    Put(data, off, b);
    SpliceSameOutside(middle, off, b, lo, hi);
    SameOutsideStep(before, middle, data[..], lo, hi, lo, hi);
  }

  lemma Quotient(x: nat, n: nat, q: nat, r: nat)
    requires n > 0 && x == n * q + r && r < n
    ensures x / n == q && x % n == r
  {
    var q', r' := x / n, x % n;
    assert x == n * q' + r';
    if q' > q {
      assert n * q' >= n * (q + 1) by { Monotone(n, q + 1, q'); }
    } else if q' < q {
      assert n * q >= n * (q' + 1) by { Monotone(n, q' + 1, q); }
    }
  }

  lemma Monotone(n: nat, a: nat, b: nat)
    requires a <= b
    ensures n * a <= n * b
  {
  }

  /** ALIGN_VALUE, for the two alignments the dump tools use: the next multiple of 4, or of 8. */
  function AlignUp(v: nat, n: nat): (r: nat)
    requires n == 4 || n == 8
    ensures v <= r < v + n
    ensures n == 4 ==> r % 4 == 0
    ensures n == 8 ==> r % 8 == 0
  {
    if n == 4 then AlignUp4(v) else AlignUp8(v)
  }

  function AlignUp4(v: nat): (r: nat)
    ensures v <= r < v + 4 && r % 4 == 0
  {
    4 * ((v + 3) / 4)
  }

  function AlignUp8(v: nat): (r: nat)
    ensures v <= r < v + 8 && r % 8 == 0
  {
    8 * ((v + 7) / 8)
  }
}
