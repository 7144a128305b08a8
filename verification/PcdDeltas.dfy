/** PCD_DATA_DELTA arrays: single bytes stored over default data, for one SKU or default store. */
module PcdDeltas {
  import opened Bytes
  import opened FlatMemory
  import opened Options

  const DELTA_SIZE := 4

  /** A 24-bit offset and an 8-bit value. */
  datatype Delta = Delta(offset: nat, value: Byte)

  function DeltaAt(m: Memory, p: nat): Delta {
    Delta(U24(m, p), m(p + 3))
  }

  /** The deltas from p up to end; the last may reach past it. */
  function Deltas(m: Memory, p: nat, end: nat): seq<Delta>
    decreases end - p
  {
    if p >= end then [] else [DeltaAt(m, p)] + Deltas(m, p + DELTA_SIZE, end)
  }

  /** Where that loop stops. */
  function DeltasEnd(p: nat, end: nat): (e: nat)
    ensures e >= p && e >= end && (e == p || e < end + DELTA_SIZE)
    decreases end - p
  {
    if p >= end then p else DeltasEnd(p + DELTA_SIZE, end)
  }

  /** The delta lies in the size bytes at data, when offsets count from origin. */
  predicate Hits(d: Delta, origin: nat, data: nat, size: nat) {
    data <= origin + d.offset < data + size
  }

  ghost predicate AnyHits(ds: seq<Delta>, origin: nat, data: nat, size: nat) {
    exists i :: 0 <= i < |ds| && Hits(ds[i], origin, data, size)
  }

  /** The copy of the data at data with the deltas stored over it in order. */
  function Overlay(copy: seq<Byte>, ds: seq<Delta>, origin: nat, data: nat): (r: seq<Byte>)
    ensures |r| == |copy|
  {
    if ds == [] then copy
    else
      var before := Overlay(copy, ds[..|ds| - 1], origin, data);
      var d := ds[|ds| - 1];
      if Hits(d, origin, data, |copy|) then before[origin + d.offset - data := d.value] else before
  }

  /** The value of the last delta for the byte at position p. */
  function LastFor(ds: seq<Delta>, origin: nat, p: nat): Option<Byte> {
    if ds == [] then None
    else if origin + ds[|ds| - 1].offset == p then Some(ds[|ds| - 1].value)
    else LastFor(ds[..|ds| - 1], origin, p)
  }

  /** Last write wins; bytes without a delta keep their default. */
  lemma {:induction false} OverlayByte(copy: seq<Byte>, ds: seq<Delta>, origin: nat, data: nat, i: nat)
    requires i < |copy|
    ensures Overlay(copy, ds, origin, data)[i] ==
            match LastFor(ds, origin, data + i) case None => copy[i] case Some(value) => value
  {
    if ds != [] {
      OverlayByte(copy, ds[..|ds| - 1], origin, data, i);
    }
  }

  /** Without a hit, nothing is overlaid. */
  lemma {:induction false} NoHitsNoOverlay(copy: seq<Byte>, ds: seq<Delta>, origin: nat, data: nat)
    requires !AnyHits(ds, origin, data, |copy|)
    ensures Overlay(copy, ds, origin, data) == copy
  {
    if ds != [] {
      assert !Hits(ds[|ds| - 1], origin, data, |copy|);
      assert !AnyHits(ds[..|ds| - 1], origin, data, |copy|);
      NoHitsNoOverlay(copy, ds[..|ds| - 1], origin, data);
    }
  }

  lemma {:induction false} OverlayAppend(copy: seq<Byte>, a: seq<Delta>, b: seq<Delta>, origin: nat, data: nat)
    ensures Overlay(copy, a + b, origin, data) == Overlay(Overlay(copy, a, origin, data), b, origin, data)
  {
    if b == [] {
      assert a + b == a;
    } else {
      OverlayAppend(copy, a, b[..|b| - 1], origin, data);
      assert (a + b)[..|a + b| - 1] == a + b[..|b| - 1];
    }
  }

  lemma AnyHitsAppend(a: seq<Delta>, b: seq<Delta>, origin: nat, data: nat, size: nat)
    ensures AnyHits(a + b, origin, data, size) <==> AnyHits(a, origin, data, size) || AnyHits(b, origin, data, size)
  {
    forall i | 0 <= i < |b| && Hits(b[i], origin, data, size)
      ensures AnyHits(a + b, origin, data, size)
    {
      assert (a + b)[|a| + i] == b[i];
    }
    forall i | 0 <= i < |a| && Hits(a[i], origin, data, size)
      ensures AnyHits(a + b, origin, data, size)
    {
      assert (a + b)[i] == a[i];
    }
  }

  /** The delta loop of HasSkuData: whether any delta hits, and where the loop stops. */
  method FindDeltas(m: Memory, first: nat, end: nat, origin: nat, data: nat, size: nat) returns (hit: bool, last: nat)
    ensures hit <==> AnyHits(Deltas(m, first, end), origin, data, size)
    ensures last == DeltasEnd(first, end)
  {
    hide DeltaAt;
    last := first;
    hit := false;
    ghost var done: seq<Delta> := [];
    while last < end
      invariant Deltas(m, first, end) == done + Deltas(m, last, end)
      invariant DeltasEnd(first, end) == DeltasEnd(last, end)
      invariant hit <==> AnyHits(done, origin, data, size)
      decreases end - last
    {
      var delta := DeltaAt(m, last);
      if origin + delta.offset >= data && origin + delta.offset < data + size {
        hit := true;
      }
      AnyHitsAppend(done, [delta], origin, data, size);
      assert [delta][0] == delta;
      ConcatAssoc(done, [delta], Deltas(m, last + DELTA_SIZE, end));
      done := done + [delta];
      last := last + DELTA_SIZE;
    }
    assert done + [] == done;
  }

  /** The delta loops: store every hit into the copy, and say whether there was one. The source writes the
      loop out in CopySkuPcdData and in DumpAllSkuData. */
  method ApplyDeltas(m: Memory, first: nat, end: nat, origin: nat, data: nat, copy: array<Byte>)
    returns (hit: bool, last: nat)
    modifies copy
    ensures copy[..] == Overlay(old(copy[..]), Deltas(m, first, end), origin, data)
    ensures hit <==> AnyHits(Deltas(m, first, end), origin, data, copy.Length)
    ensures last == DeltasEnd(first, end)
  {
    last := first;
    hit := false;
    ghost var done: seq<Delta> := [];
    while last < end
      invariant Deltas(m, first, end) == done + Deltas(m, last, end)
      invariant DeltasEnd(first, end) == DeltasEnd(last, end)
      invariant copy[..] == Overlay(old(copy[..]), done, origin, data)
      invariant hit <==> AnyHits(done, origin, data, copy.Length)
      decreases end - last
    {
      var delta := DeltaAt(m, last);
      ghost var before := copy[..];
      if origin + delta.offset >= data && origin + delta.offset < data + copy.Length {
        copy[origin + delta.offset - data] := delta.value;
        hit := true;
      }
      OneDelta(old(copy[..]), done, delta, origin, data);
      assert done + Deltas(m, last, end) == done + [delta] + Deltas(m, last + DELTA_SIZE, end) by {
        ConcatAssoc(done, [delta], Deltas(m, last + DELTA_SIZE, end));
      }
      done := done + [delta];
      last := last + DELTA_SIZE;
    }
    assert done + [] == done;
  }

  lemma OneDelta(copy: seq<Byte>, done: seq<Delta>, d: Delta, origin: nat, data: nat)
    ensures AnyHits(done + [d], origin, data, |copy|) <==>
            AnyHits(done, origin, data, |copy|) || Hits(d, origin, data, |copy|)
    ensures Overlay(copy, done + [d], origin, data) ==
      var before := Overlay(copy, done, origin, data);
      if Hits(d, origin, data, |copy|) then before[origin + d.offset - data := d.value] else before
  {
    AnyHitsAppend(done, [d], origin, data, |copy|);
    assert AnyHits([d], origin, data, |copy|) <==> Hits(d, origin, data, |copy|) by {
      assert [d][0] == d;
    }
    assert (done + [d])[..|done|] == done;
  }
}
