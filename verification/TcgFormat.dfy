/** The crypto-agile TCG event log (TCG PC Client Platform Firmware Profile, sections 10.2.1 and 10.2.2) and the
    pointer arithmetic Tcg2DumpLog.c steps over it with. */
module TcgFormat {
  import opened Bytes
  import opened Options
  import opened Segments

  /** GetHashSizeFromAlgo, and the hash functions behind mHashInfo, kept uninterpreted. */
  datatype Suite = Suite(size: nat -> nat, hash: (nat, seq<Byte>) -> seq<Byte>) {
    ghost predicate Valid() {
      (forall alg :: size(alg) <= DIGEST_BUFFER) &&
      forall alg, data :: |hash(alg, data)| == size(alg)
    }
  }

  const DIGEST_BUFFER := 64  // sizeof(TPMU_HA)

  datatype Digest = Digest(alg: nat, value: seq<Byte>)
  datatype Event = Event(pcr: Uint32, eventType: Uint32, digests: seq<Digest>, data: seq<Byte>)

  ghost predicate WellFormedEvent(suite: Suite, e: Event) {
    && |e.digests| < TWO32 && |e.data| < TWO32
    && forall i :: 0 <= i < |e.digests| ==>
         e.digests[i].alg < 0x1_0000 && |e.digests[i].value| == suite.size(e.digests[i].alg)
  }

  function EncodeDigests(ds: seq<Digest>): seq<Byte> {
    if ds == [] then [] else Le(2, ds[0].alg) + ds[0].value + EncodeDigests(ds[1..])
  }

  function EncodeEvent(e: Event): (b: seq<Byte>)
    ensures |b| >= 16
  {
    Cat(Le(4, e.pcr), Le(4, e.eventType), Le(4, |e.digests|), EncodeDigests(e.digests), Le(4, |e.data|), e.data, [])
  }

  function EncodeEvents(es: seq<Event>): seq<Byte> {
    if es == [] then [] else EncodeEvent(es[0]) + EncodeEvents(es[1..])
  }

  lemma {:induction false} EncodeEventsAppend(a: seq<Event>, b: seq<Event>)
    ensures EncodeEvents(a + b) == EncodeEvents(a) + EncodeEvents(b)
  {
    hide EncodeEvent;
    if a == [] {
      assert a + b == b;
    } else {
      EncodeEventsAppend(a[1..], b);
      assert (a + b)[1..] == a[1..] + b && (a + b)[0] == a[0];
      ConcatAssoc(EncodeEvent(a[0]), EncodeEvents(a[1..]), EncodeEvents(b));
    }
  }

  /** b is found in mem at off. */
  predicate At(mem: seq<Byte>, off: nat, b: seq<Byte>) {
    off + |b| <= |mem| && mem[off..off + |b|] == b
  }

  lemma AtSplit(mem: seq<Byte>, off: nat, a: seq<Byte>, b: seq<Byte>)
    requires At(mem, off, a + b)
    ensures At(mem, off, a) && At(mem, off + |a|, b)
  {
    SliceOfSlice(mem, off, off + |a + b|, 0, |a|);
    SliceOfSlice(mem, off, off + |a + b|, |a|, |a + b|);
    assert (a + b)[0..|a|] == a && (a + b)[|a|..|a + b|] == b;
  }

  lemma At16(mem: seq<Byte>, off: nat, v: nat)
    requires At(mem, off, Le(2, v)) && v < 0x1_0000
    ensures Field(mem, off, 2) == v
  {
    Pow256Values();
    UnLeLe(2, v);
  }

  lemma At32(mem: seq<Byte>, off: nat, v: Uint32)
    requires At(mem, off, Le(4, v))
    ensures Field32(mem, off) == v
  {
    Pow256Values();
    UnLeLe(4, v);
  }

  lemma At64(mem: seq<Byte>, off: nat, v: UintN)
    requires At(mem, off, Le(8, v))
    ensures off + 8 <= |mem| && Field64(mem, off) == v
  {
    Pow256Values();
    UnLeLe(8, v);
  }

  /* ---------- stepping over an event ---------- */

  /** Where the digest list of n digests starting at p ends; None if it runs out of the memory. */
  function SkipDigests(suite: Suite, mem: seq<Byte>, p: nat, n: nat): (end: Option<nat>)
    ensures end.Some? ==> p <= end.value
    decreases n
  {
    if n == 0 then Some(p)
    else if p + 2 > |mem| then None
    else SkipDigests(suite, mem, p + 2 + suite.size(Field(mem, p, 2)), n - 1)
  }

  /** The size GetPcrEvent2Size computes for the event at off; None if a read would leave the memory. */
  function EventSize(suite: Suite, mem: seq<Byte>, off: nat): Option<nat> {
    if off + 12 > |mem| then None
    else
      var end := SkipDigests(suite, mem, off + 12, Field32(mem, off + 8));
      if end.None? || end.value + 4 > |mem| then None
      else Some(end.value + 4 + Field32(mem, end.value) - off)
  }

  /** The offset GetDigestFromPcrEvent2 finds among the n digests at p. */
  function FindDigestAt(suite: Suite, mem: seq<Byte>, p: nat, n: nat, alg: nat): (at: Option<nat>)
    requires SkipDigests(suite, mem, p, n).Some?
    ensures at.Some? ==> p + 2 <= at.value && at.value + suite.size(alg) <= SkipDigests(suite, mem, p, n).value
    decreases n
  {
    if n == 0 then None
    else if Field(mem, p, 2) == alg then Some(p + 2)
    else FindDigestAt(suite, mem, p + 2 + suite.size(Field(mem, p, 2)), n - 1, alg)
  }

  method GetPcrEvent2Size(suite: Suite, mem: seq<Byte>, off: nat) returns (size: nat)
    requires EventSize(suite, mem, off).Some?
    ensures EventSize(suite, mem, off) == Some(size)
  {
    hide Field, Field32;
    var digestCount: nat := Field32(mem, off + 8);
    var hashAlgo := Field16At(mem, off + 12);
    var digestBuffer := off + 14;
    var digestIndex := 0;
    while digestIndex < digestCount
      invariant 0 <= digestIndex <= digestCount && digestBuffer >= off + 14
      invariant SkipDigests(suite, mem, digestBuffer - 2, digestCount - digestIndex)
             == SkipDigests(suite, mem, off + 12, digestCount)
      invariant digestBuffer <= |mem| ==> hashAlgo == Field(mem, digestBuffer - 2, 2)
    {
      var digestSize := suite.size(hashAlgo);
      hashAlgo := Field16At(mem, digestBuffer + digestSize);
      digestBuffer := digestBuffer + digestSize + 2;
      digestIndex := digestIndex + 1;
    }
    digestBuffer := digestBuffer - 2;
    size := digestBuffer + 4 + Field32(mem, digestBuffer) - off;
  }

  /** A two-byte read; past the end of the memory the value is never used. */
  function Field16At(mem: seq<Byte>, off: nat): nat {
    if off + 2 <= |mem| then Field(mem, off, 2) else 0
  }

  method GetDigestFromPcrEvent2(suite: Suite, mem: seq<Byte>, off: nat, hashAlg: nat) returns (at: Option<nat>)
    requires EventSize(suite, mem, off).Some?
    ensures at == FindDigestAt(suite, mem, off + 12, Field32(mem, off + 8), hashAlg)
  {
    hide Field, Field32;
    var digestCount: nat := Field32(mem, off + 8);
    var hashAlgo := Field16At(mem, off + 12);
    var digestBuffer := off + 14;
    var digestIndex := 0;
    while digestIndex < digestCount
      invariant 0 <= digestIndex <= digestCount && digestBuffer >= off + 14
      invariant SkipDigests(suite, mem, digestBuffer - 2, digestCount - digestIndex).Some?
      invariant FindDigestAt(suite, mem, digestBuffer - 2, digestCount - digestIndex, hashAlg)
             == FindDigestAt(suite, mem, off + 12, digestCount, hashAlg)
      invariant digestBuffer <= |mem| ==> hashAlgo == Field(mem, digestBuffer - 2, 2)
    {
      var digestSize := suite.size(hashAlgo);
      if hashAlg == hashAlgo {
        return Some(digestBuffer);
      }
      hashAlgo := Field16At(mem, digestBuffer + digestSize);
      digestBuffer := digestBuffer + digestSize + 2;
      digestIndex := digestIndex + 1;
    }
    return None;
  }

  /* ---------- stepping over encoded events ---------- */

  lemma {:induction false} SkipEncoded(suite: Suite, mem: seq<Byte>, p: nat, ds: seq<Digest>, i: nat)
    requires i <= |ds| && At(mem, p, EncodeDigests(ds[i..]))
    requires forall k :: 0 <= k < |ds| ==> ds[k].alg < 0x1_0000 && |ds[k].value| == suite.size(ds[k].alg)
    ensures SkipDigests(suite, mem, p, |ds| - i) == Some(p + |EncodeDigests(ds[i..])|)
    decreases |ds| - i
  {
    hide Field;
    if i < |ds| {
      var rest := EncodeDigests(ds[i + 1..]);
      assert ds[i..][0] == ds[i] && ds[i..][1..] == ds[i + 1..];
      AtSplit(mem, p, Le(2, ds[i].alg) + ds[i].value, rest);
      AtSplit(mem, p, Le(2, ds[i].alg), ds[i].value);
      At16(mem, p, ds[i].alg);
      SkipEncoded(suite, mem, p + 2 + |ds[i].value|, ds, i + 1);
    }
  }

  /** The first digest of the given algorithm. */
  function FindDigest(ds: seq<Digest>, alg: nat): Option<seq<Byte>> {
    if ds == [] then None
    else if ds[0].alg == alg then Some(ds[0].value)
    else FindDigest(ds[1..], alg)
  }

  /** FindDigest finds the first digest of the algorithm. */
  lemma {:induction false} FirstDigest(ds: seq<Digest>, alg: nat, k: nat)
    requires k < |ds| && ds[k].alg == alg && forall i :: 0 <= i < k ==> ds[i].alg != alg
    ensures FindDigest(ds, alg) == Some(ds[k].value)
  {
    if k > 0 {
      assert ds[0].alg != alg;
      FirstDigest(ds[1..], alg, k - 1);
    }
  }

  lemma {:induction false} FindEncoded(suite: Suite, mem: seq<Byte>, p: nat, ds: seq<Digest>, i: nat, alg: nat)
    requires i <= |ds| && At(mem, p, EncodeDigests(ds[i..]))
    requires forall k :: 0 <= k < |ds| ==> ds[k].alg < 0x1_0000 && |ds[k].value| == suite.size(ds[k].alg)
    ensures SkipDigests(suite, mem, p, |ds| - i).Some?
    ensures
      var at := FindDigestAt(suite, mem, p, |ds| - i, alg);
      match FindDigest(ds[i..], alg)
      case None => at == None
      case Some(d) => at.Some? && |d| == suite.size(alg) && At(mem, at.value, d)
    decreases |ds| - i
  {
    hide Field;
    SkipEncoded(suite, mem, p, ds, i);
    if i < |ds| {
      var rest := EncodeDigests(ds[i + 1..]);
      assert ds[i..][0] == ds[i] && ds[i..][1..] == ds[i + 1..];
      AtSplit(mem, p, Le(2, ds[i].alg) + ds[i].value, rest);
      AtSplit(mem, p, Le(2, ds[i].alg), ds[i].value);
      At16(mem, p, ds[i].alg);
      FindEncoded(suite, mem, p + 2 + |ds[i].value|, ds, i + 1, alg);
    }
  }

  /** The fields of an encoded event are where the tool reads them. */
  lemma EventFields(mem: seq<Byte>, off: nat, e: Event)
    requires At(mem, off, EncodeEvent(e)) && |e.digests| < TWO32 && |e.data| < TWO32
    ensures Field32(mem, off) == e.pcr && Field32(mem, off + 4) == e.eventType
    ensures Field32(mem, off + 8) == |e.digests|
    ensures At(mem, off + 12, EncodeDigests(e.digests))
    ensures At(mem, off + 12 + |EncodeDigests(e.digests)|, Le(4, |e.data|))
    ensures |EncodeEvent(e)| == 16 + |EncodeDigests(e.digests)| + |e.data|
  {
    hide EncodeDigests, Le, Field32, At;
    var a, b, c := Le(4, e.pcr), Le(4, e.eventType), Le(4, |e.digests|);
    var d, n := EncodeDigests(e.digests), Le(4, |e.data|);
    assert EncodeEvent(e) == a + b + c + d + n + e.data by {
      assert forall x: seq<Byte> :: x + [] == x;
    }
    AtSplit(mem, off, a + b + c + d + n, e.data);
    AtSplit(mem, off, a + b + c + d, n);
    AtSplit(mem, off, a + b + c, d);
    AtSplit(mem, off, a + b, c);
    AtSplit(mem, off, a, b);
    At32(mem, off, e.pcr);
    At32(mem, off + 4, e.eventType);
    At32(mem, off + 8, |e.digests|);
  }

  /** GetPcrEvent2Size is the encoded length, for any number of digests including none. */
  lemma EncodedEventSize(suite: Suite, mem: seq<Byte>, off: nat, e: Event)
    requires At(mem, off, EncodeEvent(e)) && WellFormedEvent(suite, e)
    ensures EventSize(suite, mem, off) == Some(|EncodeEvent(e)|)
  {
    hide Field32, EncodeEvent, SkipDigests;
    EventFields(mem, off, e);
    assert e.digests[0..] == e.digests;
    SkipEncoded(suite, mem, off + 12, e.digests, 0);
    At32(mem, off + 12 + |EncodeDigests(e.digests)|, |e.data|);
  }

  lemma EncodedDigest(suite: Suite, mem: seq<Byte>, off: nat, e: Event, alg: nat)
    requires At(mem, off, EncodeEvent(e)) && WellFormedEvent(suite, e)
    ensures EventSize(suite, mem, off).Some? && Field32(mem, off + 8) == |e.digests|
    ensures
      var at := FindDigestAt(suite, mem, off + 12, |e.digests|, alg);
      match FindDigest(e.digests, alg)
      case None => at == None
      case Some(d) => at.Some? && |d| == suite.size(alg) && At(mem, at.value, d)
  {
    hide Field32, EncodeEvent, SkipDigests, FindDigestAt, FindDigest;
    EncodedEventSize(suite, mem, off, e);
    EventFields(mem, off, e);
    assert e.digests[0..] == e.digests;
    FindEncoded(suite, mem, off + 12, e.digests, 0, alg);
  }
}
