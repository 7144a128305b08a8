/** DumpEventLog of Tcg2DumpLog.c for the crypto-agile format: walking the log and the final events table,
    replaying a PCR per algorithm, and saving the log to a file and parsing it back. */
module TcgReplay {
  import opened Bytes
  import opened Options
  import opened TcgFormat

  const EV_NO_ACTION: nat := 3
  const TPM_ALG_SHA1 := 0x0004
  const TPM_ALG_SHA256 := 0x000B
  const PCR_INDEX_ALL: nat := 0xFFFF_FFFF

  /** An algorithm mHashInfo has functions for. */
  predicate Supported(alg: nat) {
    alg == TPM_ALG_SHA1 || alg == TPM_ALG_SHA256
  }

  /* ---------- replay, said over events ---------- */

  /** What one event contributes to a PCR bank: at most one digest. */
  function Measured(e: Event, pcr: nat, alg: nat): seq<seq<Byte>> {
    var d := FindDigest(e.digests, alg);
    if e.pcr == pcr && e.eventType != EV_NO_ACTION && d.Some? then [d.value] else []
  }

  function AllMeasured(es: seq<Event>, pcr: nat, alg: nat): seq<seq<Byte>> {
    if es == [] then [] else Measured(es[0], pcr, alg) + AllMeasured(es[1..], pcr, alg)
  }

  /** TPM extend, or all 0xFF when the tool has no hash function for the bank. */
  function Extend(suite: Suite, alg: nat, current: seq<Byte>, digest: seq<Byte>): seq<Byte> {
    if Supported(alg) then suite.hash(alg, current + digest) else seq(suite.size(alg), _ => 0xFF)
  }

  function Fold(suite: Suite, alg: nat, current: seq<Byte>, digests: seq<seq<Byte>>): (r: seq<Byte>)
    requires |current| == suite.size(alg)
    requires forall d :: |suite.hash(alg, d)| == suite.size(alg)
    ensures |r| == suite.size(alg)
    decreases |digests|
  {
    if digests == [] then current else Fold(suite, alg, Extend(suite, alg, current, digests[0]), digests[1..])
  }

  lemma {:induction false} FoldAppend(suite: Suite, alg: nat, current: seq<Byte>, a: seq<seq<Byte>>, b: seq<seq<Byte>>)
    requires |current| == suite.size(alg)
    requires forall d :: |suite.hash(alg, d)| == suite.size(alg)
    ensures Fold(suite, alg, current, a + b) == Fold(suite, alg, Fold(suite, alg, current, a), b)
    decreases |a|
  {
    if a == [] {
      assert a + b == b;
    } else {
      assert (a + b)[0] == a[0] && (a + b)[1..] == a[1..] + b;
      FoldAppend(suite, alg, Extend(suite, alg, current, a[0]), a[1..], b);
    }
  }

  /** A run of TPM extends: each state is the hash of the one before it followed by the next digest. */
  ghost predicate ExtendRun(suite: Suite, alg: nat, states: seq<seq<Byte>>, digests: seq<seq<Byte>>) {
    && |states| == |digests| + 1
    && forall k :: 0 <= k < |digests| ==> states[k + 1] == suite.hash(alg, states[k] + digests[k])
  }

  /** The replay of SHA-1 and SHA-256 banks ends in the last state of the run. */
  lemma {:induction false} FoldIsExtendRun(suite: Suite, alg: nat, states: seq<seq<Byte>>, digests: seq<seq<Byte>>)
    requires suite.Valid() && (alg == 0x0004 || alg == 0x000B)
    requires ExtendRun(suite, alg, states, digests) && |states[0]| == suite.size(alg)
    ensures Fold(suite, alg, states[0], digests) == states[|digests|]
    decreases |digests|
  {
    if digests != [] {
      assert states[0 + 1] == suite.hash(alg, states[0] + digests[0]);
      forall k | 0 <= k < |digests[1..]|
        ensures states[1..][k + 1] == suite.hash(alg, states[1..][k] + digests[1..][k])
      {
        assert states[(k + 1) + 1] == suite.hash(alg, states[k + 1] + digests[k + 1]);
      }
      FoldIsExtendRun(suite, alg, states[1..], digests[1..]);
    }
  }

  /** A run of extends over the digests leads from zeros to the given value. */
  ghost predicate IsExtendedFromZero(suite: Suite, alg: nat, digests: seq<seq<Byte>>, value: seq<Byte>) {
    exists states :: ExtendRun(suite, alg, states, digests)
      && states[0] == seq(suite.size(alg), _ => 0) && states[|digests|] == value
  }

  /** There is such a run. */
  lemma {:induction false} RunFrom(suite: Suite, alg: nat, start: seq<Byte>, digests: seq<seq<Byte>>)
    returns (states: seq<seq<Byte>>)
    ensures ExtendRun(suite, alg, states, digests) && states[0] == start
    decreases |digests|
  {
    if digests == [] {
      states := [start];
    } else {
      var rest := RunFrom(suite, alg, suite.hash(alg, start + digests[0]), digests[1..]);
      states := [start] + rest;
      forall k | 0 <= k < |digests|
        ensures states[k + 1] == suite.hash(alg, states[k] + digests[k])
      {
        if k > 0 {
          assert rest[(k - 1) + 1] == suite.hash(alg, rest[k - 1] + digests[1..][k - 1]);
        }
      }
    }
  }

  lemma FoldIsExtended(suite: Suite, alg: nat, digests: seq<seq<Byte>>)
    requires suite.Valid() && (alg == 0x0004 || alg == 0x000B)
    ensures IsExtendedFromZero(suite, alg, digests, Fold(suite, alg, seq(suite.size(alg), _ => 0), digests))
  {
    hide Fold, ExtendRun;
    var states := RunFrom(suite, alg, seq(suite.size(alg), _ => 0), digests);
    RunLength(suite, alg, states, digests);
    FoldIsExtendRun(suite, alg, states, digests);
  }

  lemma RunLength(suite: Suite, alg: nat, states: seq<seq<Byte>>, digests: seq<seq<Byte>>)
    requires ExtendRun(suite, alg, states, digests)
    ensures |states| == |digests| + 1
  {
  }

  /** A log of four events, of which one is for another PCR and one is EV_NO_ACTION: the first digest of the algorithm
      in each of the others is extended, from zeros and in log order. */
  lemma TwoExtends(suite: Suite, pcr: Uint32, other: Uint32, alg: nat, x: seq<Byte>, d0: seq<Byte>, d1: seq<Byte>)
    requires suite.Valid() && (alg == 0x0004 || alg == 0x000B) && other != pcr
    ensures
      var zeros := seq(suite.size(alg), _ => 0);
      Fold(suite, alg, zeros, AllMeasured([
        Event(pcr, 8, [Digest(alg + 1, x), Digest(alg, d0), Digest(alg, x)], []),
        Event(other, 8, [Digest(alg, x)], []),
        Event(pcr, 3, [Digest(alg, x)], []),
        Event(pcr, 8, [Digest(alg, d1)], [])], pcr, alg))
      == suite.hash(alg, suite.hash(alg, zeros + d0) + d1)
  {
    var zeros: seq<Byte> := seq(suite.size(alg), _ => 0);
    var e0 := Event(pcr, 8, [Digest(alg + 1, x), Digest(alg, d0), Digest(alg, x)], []);
    var e1, e2 := Event(other, 8, [Digest(alg, x)], []), Event(pcr, 3, [Digest(alg, x)], []);
    var e3 := Event(pcr, 8, [Digest(alg, d1)], []);
    FirstDigest(e0.digests, alg, 1);
    FirstDigest(e3.digests, alg, 0);
    hide FindDigest, Fold;
    FourMeasured(e0, e1, e2, e3, pcr, alg);
    assert AllMeasured([e0, e1, e2, e3], pcr, alg) == [d0, d1];
    var once := suite.hash(alg, zeros + d0);
    FoldIsExtendRun(suite, alg, [zeros, once, suite.hash(alg, once + d1)], [d0, d1]);
  }

  lemma FourMeasured(e0: Event, e1: Event, e2: Event, e3: Event, pcr: nat, alg: nat)
    ensures AllMeasured([e0, e1, e2, e3], pcr, alg) ==
      Measured(e0, pcr, alg) + Measured(e1, pcr, alg) + Measured(e2, pcr, alg) + Measured(e3, pcr, alg)
  {
    hide Measured;
    assert [e0, e1, e2, e3][1..] == [e1, e2, e3];
    assert [e1, e2, e3][1..] == [e2, e3];
    assert [e2, e3][1..] == [e3];
    assert AllMeasured([e3], pcr, alg) == Measured(e3, pcr, alg) + AllMeasured([], pcr, alg);
    assert AllMeasured([e2, e3], pcr, alg) == Measured(e2, pcr, alg) + AllMeasured([e3], pcr, alg);
    assert AllMeasured([e1, e2, e3], pcr, alg) == Measured(e1, pcr, alg) + AllMeasured([e2, e3], pcr, alg);
  }

  /** A bank whose hash is not supported ends as all 0xFF once any event matched. */
  lemma {:induction false} UnsupportedBank(suite: Suite, alg: nat, current: seq<Byte>, digests: seq<seq<Byte>>)
    requires |current| == suite.size(alg)
    requires forall d :: |suite.hash(alg, d)| == suite.size(alg)
    requires !Supported(alg)
    ensures Fold(suite, alg, current, digests)
         == if digests == [] then current else seq(suite.size(alg), _ => 0xFF)
    decreases |digests|
  {
    if digests != [] {
      UnsupportedBank(suite, alg, Extend(suite, alg, current, digests[0]), digests[1..]);
    }
  }

  lemma {:induction false} AllMeasuredAppend(a: seq<Event>, b: seq<Event>, pcr: nat, alg: nat)
    ensures AllMeasured(a + b, pcr, alg) == AllMeasured(a, pcr, alg) + AllMeasured(b, pcr, alg)
  {
    hide Measured;
    if a == [] {
      assert a + b == b;
    } else {
      assert (a + b)[0] == a[0] && (a + b)[1..] == a[1..] + b;
      AllMeasuredAppend(a[1..], b, pcr, alg);
      ConcatAssoc(Measured(a[0], pcr, alg), AllMeasured(a[1..], pcr, alg), AllMeasured(b, pcr, alg));
    }
  }

  /* ---------- the log in memory ---------- */

  const EVENT_HEADER_SIZE := 32    // sizeof(TCG_PCR_EVENT_HDR)
  const SPEC_ID_STRUCT_SIZE := 24  // sizeof(TCG_EfiSpecIDEventStruct)

  /** The first event: a TCG_PCR_EVENT_HDR and the fixed part of the Spec ID structure (56 bytes, not interpreted
      here), then the algorithm table and the vendor information. */
  datatype SpecId = SpecId(fixed: seq<Byte>, algorithms: seq<(nat, nat)>, vendorInfo: seq<Byte>)

  ghost predicate WellFormedSpecId(suite: Suite, h: SpecId) {
    && |h.fixed| == EVENT_HEADER_SIZE + SPEC_ID_STRUCT_SIZE && |h.algorithms| < TWO32 && |h.vendorInfo| < 256
    && forall i :: 0 <= i < |h.algorithms| ==>
         h.algorithms[i].0 < 0x1_0000 && h.algorithms[i].1 == suite.size(h.algorithms[i].0)
  }

  function EncodeAlgorithms(algs: seq<(nat, nat)>): (b: seq<Byte>)
    ensures |b| == 4 * |algs|
  {
    if algs == [] then [] else Le(2, algs[0].0) + Le(2, algs[0].1) + EncodeAlgorithms(algs[1..])
  }

  function EncodeSpecId(h: SpecId): seq<Byte> {
    h.fixed + Le(4, |h.algorithms|) + EncodeAlgorithms(h.algorithms) + [|h.vendorInfo| % 256] + h.vendorInfo
  }

  function EncodeLog(h: SpecId, es: seq<Event>): seq<Byte> {
    EncodeSpecId(h) + EncodeEvents(es)
  }

  /** The final events table: version and count, 8 bytes each, then the events. */
  function EncodeFinal(version: UintN, es: seq<Event>): seq<Byte> {
    Le(8, version) + Le(8, |es|) + EncodeEvents(es)
  }

  ghost predicate WellFormedEvents(suite: Suite, es: seq<Event>) {
    forall i :: 0 <= i < |es| ==> WellFormedEvent(suite, es[i])
  }

  lemma {:induction false} AlgorithmAt(mem: seq<Byte>, p: nat, algs: seq<(nat, nat)>, i: nat)
    requires At(mem, p, EncodeAlgorithms(algs)) && i < |algs|
    requires forall k :: 0 <= k < |algs| ==> algs[k].0 < 0x1_0000 && algs[k].1 < 0x1_0000
    ensures Field(mem, p + 4 * i, 2) == algs[i].0 && Field(mem, p + 4 * i + 2, 2) == algs[i].1
    decreases i
  {
    hide Field;
    var a, rest := Le(2, algs[0].0) + Le(2, algs[0].1), EncodeAlgorithms(algs[1..]);
    AtSplit(mem, p, a, rest);
    if i == 0 {
      AtSplit(mem, p, Le(2, algs[0].0), Le(2, algs[0].1));
      At16(mem, p, algs[0].0);
      At16(mem, p + 2, algs[0].1);
    } else {
      AlgorithmAt(mem, p + 4, algs[1..], i - 1);
    }
  }

  lemma SpecIdFields(suite: Suite, mem: seq<Byte>, h: SpecId)
    requires At(mem, 0, EncodeSpecId(h)) && WellFormedSpecId(suite, h)
    ensures Field32(mem, 56) == |h.algorithms| && At(mem, 60, EncodeAlgorithms(h.algorithms))
    ensures 60 + 4 * |h.algorithms| < |mem| && mem[60 + 4 * |h.algorithms|] == |h.vendorInfo|
  {
    hide Field32, At, EncodeAlgorithms, Le;
    var n := Le(4, |h.algorithms|);
    var algs := EncodeAlgorithms(h.algorithms);
    AtSplit(mem, 0, h.fixed + n + algs + [|h.vendorInfo| % 256], h.vendorInfo);
    AtSplit(mem, 0, h.fixed + n + algs, [|h.vendorInfo| % 256]);
    AtSplit(mem, 0, h.fixed + n, algs);
    AtSplit(mem, 0, h.fixed, n);
    At32(mem, 56, |h.algorithms|);
    AtByte(mem, 60 + 4 * |h.algorithms|, |h.vendorInfo|);
  }

  lemma AtByte(mem: seq<Byte>, off: nat, b: Byte)
    requires At(mem, off, [b])
    ensures off < |mem| && mem[off] == b
  {
    assert mem[off..off + 1][0] == mem[off];
  }

  method GetTcgEfiSpecIdEventStructSize(suite: Suite, mem: seq<Byte>, ghost h: SpecId) returns (size: nat)
    requires At(mem, 0, EncodeSpecId(h)) && WellFormedSpecId(suite, h)
    ensures EVENT_HEADER_SIZE + size == |EncodeSpecId(h)|
  {
    SpecIdFields(suite, mem, h);
    var numberOfAlgorithms: nat := Field32(mem, 56);
    var vendorInfoSize: nat := mem[60 + 4 * numberOfAlgorithms];
    size := SPEC_ID_STRUCT_SIZE + 4 + numberOfAlgorithms * 4 + 1 + vendorInfoSize;
  }

  /** Where event i starts when the events are laid down from base on. */
  function StartOf(base: nat, es: seq<Event>, i: nat): nat
    requires i <= |es|
  {
    base + |EncodeEvents(es[..i])|
  }

  lemma EventAt(mem: seq<Byte>, base: nat, es: seq<Event>, i: nat)
    requires i < |es| && At(mem, base, EncodeEvents(es))
    ensures At(mem, StartOf(base, es, i), EncodeEvent(es[i]))
    ensures StartOf(base, es, i + 1) == StartOf(base, es, i) + |EncodeEvent(es[i])|
  {
    hide EncodeEvent, At;
    assert es == es[..i] + [es[i]] + es[i + 1..];
    EncodeEventsAppend(es[..i] + [es[i]], es[i + 1..]);
    EncodeEventsAppend(es[..i], [es[i]]);
    assert EncodeEvents([es[i]]) == EncodeEvent(es[i]) by {
      assert EncodeEvents([es[i]]) == EncodeEvent(es[i]) + EncodeEvents([]);
    }
    assert es[..i + 1] == es[..i] + [es[i]];
    AtSplit(mem, base, EncodeEvents(es[..i]) + EncodeEvent(es[i]), EncodeEvents(es[i + 1..]));
    AtSplit(mem, base, EncodeEvents(es[..i]), EncodeEvent(es[i]));
  }

  lemma {:induction false} StartsIncrease(base: nat, es: seq<Event>, i: nat, j: nat)
    requires i <= j <= |es|
    ensures StartOf(base, es, i) + 16 * (j - i) <= StartOf(base, es, j)
    decreases j
  {
    hide EncodeEvent;
    if i < j {
      StartsIncrease(base, es, i, j - 1);
      assert es[..j] == es[..j - 1] + [es[j - 1]];
      EncodeEventsAppend(es[..j - 1], [es[j - 1]]);
      assert EncodeEvents([es[j - 1]]) == EncodeEvent(es[j - 1]) + EncodeEvents([]);
    }
  }

  /** A last-entry address that stops the walk exactly after the given events. */
  ghost predicate StopsAfter(base: nat, es: seq<Event>, lastEntry: int) {
    forall i :: 0 <= i <= |es| ==> (StartOf(base, es, i) <= lastEntry <==> i < |es|)
  }

  /** The start of the last event; with no event, the start of the log, as firmware reports it. */
  function LastStart(base: nat, es: seq<Event>): nat {
    if es == [] then 0 else StartOf(base, es, |es| - 1)
  }

  lemma LastStartStops(base: nat, es: seq<Event>)
    requires base > 0
    ensures StopsAfter(base, es, LastStart(base, es))
  {
    forall i | 0 <= i <= |es|
      ensures StartOf(base, es, i) <= LastStart(base, es) <==> i < |es|
    {
      if es != [] {
        StartsIncrease(base, es, i, |es|);
        if i < |es| {
          StartsIncrease(base, es, i, |es| - 1);
        } else {
          StartsIncrease(base, es, |es| - 1, |es|);
        }
      }
    }
  }

  /** The saved file is walked up to its last byte. */
  lemma FileEndStops(base: nat, es: seq<Event>)
    ensures StopsAfter(base, es, base + |EncodeEvents(es)| - 1)
  {
    assert es[..|es|] == es;
    forall i | 0 <= i <= |es|
      ensures StartOf(base, es, i) <= base + |EncodeEvents(es)| - 1 <==> i < |es|
    {
      StartsIncrease(base, es, i, |es|);
    }
  }

  /* ---------- printing walk ---------- */

  /** The events of a PCR (or all), as indices into the log. */
  function Chosen(es: seq<Event>, pcrIndex: nat, n: nat): seq<nat>
    requires n <= |es|
  {
    if n == 0 then []
    else Chosen(es, pcrIndex, n - 1)
         + (if pcrIndex == PCR_INDEX_ALL || pcrIndex == es[n - 1].pcr then [n - 1] else [])
  }

  ghost function Starts(base: nat, es: seq<Event>, indices: seq<nat>): seq<nat>
    requires forall i <- indices :: i <= |es|
  {
    seq(|indices|, k requires 0 <= k < |indices| =>
      assert indices[k] in indices; StartOf(base, es, indices[k]))
  }

  lemma {:induction false} ChosenBound(es: seq<Event>, pcrIndex: nat, n: nat)
    requires n <= |es|
    ensures forall i <- Chosen(es, pcrIndex, n) :: i < n
  {
    if n > 0 {
      ChosenBound(es, pcrIndex, n - 1);
    }
  }

  /** The chosen events are those of the PCR, or all for PCR_INDEX_ALL, in log order. */
  lemma {:induction false} ChosenIff(es: seq<Event>, pcrIndex: nat, n: nat)
    requires n <= |es|
    ensures forall i :: i in Chosen(es, pcrIndex, n) <==>
      0 <= i < n && (pcrIndex == 0xFFFF_FFFF || es[i].pcr == pcrIndex)
    ensures forall j, k :: 0 <= j < k < |Chosen(es, pcrIndex, n)| ==>
      Chosen(es, pcrIndex, n)[j] < Chosen(es, pcrIndex, n)[k]
  {
    if n > 0 {
      ChosenIff(es, pcrIndex, n - 1);
      var before := Chosen(es, pcrIndex, n - 1);
      assert forall k :: 0 <= k < |before| ==> before[k] in before;
    }
  }

  /** The log half of DumpEventLog without -E: DumpEvent2 is called on exactly the chosen events, in order. */
  method PrintLog(suite: Suite, mem: seq<Byte>, lastEntry: int, pcrIndex: nat, ghost h: SpecId, ghost es: seq<Event>)
    returns (printed: seq<nat>)
    requires At(mem, 0, EncodeLog(h, es)) && WellFormedSpecId(suite, h) && WellFormedEvents(suite, es)
    requires StopsAfter(|EncodeSpecId(h)|, es, lastEntry)
    ensures (forall i <- Chosen(es, pcrIndex, |es|) :: i <= |es|) &&
            printed == Starts(|EncodeSpecId(h)|, es, Chosen(es, pcrIndex, |es|))
  {
    hide At, EncodeSpecId, EncodeEvents, EventSize, StopsAfter, Field32, WellFormedEvent;
    AtSplit(mem, 0, EncodeSpecId(h), EncodeEvents(es));
    ghost var base := |EncodeSpecId(h)|;
    var size := GetTcgEfiSpecIdEventStructSize(suite, mem, h);
    var p := EVENT_HEADER_SIZE + size;
    printed := [];
    ghost var i := 0;
    assert es[..0] == [];
    StartZero(base, es);
    StopsAt(base, es, lastEntry, 0);
    while p <= lastEntry
      invariant 0 <= i <= |es| && p == StartOf(base, es, i)
      invariant p <= lastEntry <==> i < |es|
      invariant forall k <- Chosen(es, pcrIndex, i) :: k < i
      invariant printed == Starts(base, es, Chosen(es, pcrIndex, i))
      decreases |es| - i
    {
      EventAt(mem, base, es, i);
      EventFields32(suite, mem, p, es[i]);
      if pcrIndex == PCR_INDEX_ALL || pcrIndex == Field32(mem, p) {
        printed := printed + [p];
      }
      var step := GetPcrEvent2Size(suite, mem, p);
      p := p + step;
      i := i + 1;
      ChosenBound(es, pcrIndex, i);
      StopsAt(base, es, lastEntry, i);
    }
  }

  lemma StartZero(base: nat, es: seq<Event>)
    ensures StartOf(base, es, 0) == base
  {
    assert es[..0] == [];
  }

  lemma StopsAt(base: nat, es: seq<Event>, lastEntry: int, i: nat)
    requires i <= |es| && StopsAfter(base, es, lastEntry)
    ensures StartOf(base, es, i) <= lastEntry <==> i < |es|
  {
  }

  lemma EventFields32(suite: Suite, mem: seq<Byte>, p: nat, e: Event)
    requires At(mem, p, EncodeEvent(e)) && WellFormedEvent(suite, e)
    ensures p + 12 <= |mem| && Field32(mem, p) == e.pcr && Field32(mem, p + 4) == e.eventType
    ensures EventSize(suite, mem, p) == Some(|EncodeEvent(e)|)
  {
    hide Field32, EncodeEvent, SkipDigests;
    EventFields(mem, p, e);
    EncodedEventSize(suite, mem, p, e);
  }

  /* ---------- replay ---------- */

  /** x is the old digest with the event's digest behind it. */
  ghost predicate IsConcat(x: seq<Byte>, current: seq<Byte>, digest: seq<Byte>) {
    && |x| == |current| + |digest|
    && (forall i :: 0 <= i < |current| ==> x[i] == current[i])
    && (forall i :: 0 <= i < |digest| ==> x[|current| + i] == digest[i])
  }

  lemma ConcatOnce(x: seq<Byte>, current: seq<Byte>, digest: seq<Byte>)
    ensures IsConcat(x, current, digest) <==> x == current + digest
  {
    if IsConcat(x, current, digest) {
      forall i | |current| <= i < |x|
        ensures x[i] == (current + digest)[i]
      {
        assert x[|current| + (i - |current|)] == digest[i - |current|];
      }
    }
  }

  method ExtendEvent(suite: Suite, hashAlg: nat, tcgDigest: array<Byte>, newDigest: seq<Byte>)
    requires suite.Valid() && tcgDigest.Length == DIGEST_BUFFER
    modifies tcgDigest
    ensures hashAlg == 0x0004 || hashAlg == 0x000B ==>
      forall x: seq<Byte> :: IsConcat(x, old(tcgDigest[..suite.size(hashAlg)]), newDigest) ==>
        tcgDigest[..suite.size(hashAlg)] == suite.hash(hashAlg, x)
    ensures hashAlg != 0x0004 && hashAlg != 0x000B ==> forall i :: 0 <= i < suite.size(hashAlg) ==> tcgDigest[i] == 0xFF
    ensures tcgDigest[suite.size(hashAlg)..] == old(tcgDigest[suite.size(hashAlg)..])
    ensures tcgDigest[..suite.size(hashAlg)]
         == Extend(suite, hashAlg, old(tcgDigest[..suite.size(hashAlg)]), newDigest)
  {
    hide Splice, IsConcat;
    var digestSize := suite.size(hashAlg);
    ghost var before := tcgDigest[..];
    if !Supported(hashAlg) {
      Put(tcgDigest, 0, seq(digestSize, _ => 0xFF));
      SpliceFront(before, seq(digestSize, _ => 0xFF));
      return;
    }
    forall x: seq<Byte>
      ensures IsConcat(x, before[..digestSize], newDigest) <==> x == before[..digestSize] + newDigest
    {
      ConcatOnce(x, before[..digestSize], newDigest);
    }
    var value := suite.hash(hashAlg, tcgDigest[..digestSize] + newDigest);
    Put(tcgDigest, 0, value);
    SpliceFront(before, value);
  }

  lemma SpliceFront<T>(s: seq<T>, b: seq<T>)
    requires |b| <= |s|
    ensures Splice(s, 0, b)[..|b|] == b && Splice(s, 0, b)[|b|..] == s[|b|..]
  {
  }

  /** The test and extension made for one event, in both replay loops. */
  method ReplayEvent(suite: Suite, mem: seq<Byte>, p: nat, pcrIndex: nat, hashAlg: nat, hashDigest: array<Byte>,
                     ghost e: Event)
    returns (size: nat)
    requires suite.Valid() && hashDigest.Length == DIGEST_BUFFER
    requires At(mem, p, EncodeEvent(e)) && WellFormedEvent(suite, e)
    modifies hashDigest
    ensures size == |EncodeEvent(e)|
    ensures hashDigest[..suite.size(hashAlg)]
         == Fold(suite, hashAlg, old(hashDigest[..suite.size(hashAlg)]), Measured(e, pcrIndex, hashAlg))
  {
    hide At, EncodeEvent, EventSize, FindDigestAt, Field32, FindDigest, WellFormedEvent, Extend;
    EventFields32(suite, mem, p, e);
    EncodedDigest(suite, mem, p, e, hashAlg);
    if pcrIndex == Field32(mem, p) && Field32(mem, p + 4) != EV_NO_ACTION {
      var at := GetDigestFromPcrEvent2(suite, mem, p, hashAlg);
      if at.Some? {
        AtValue(mem, at.value, FindDigest(e.digests, hashAlg).value);
        ExtendEvent(suite, hashAlg, hashDigest, mem[at.value..at.value + suite.size(hashAlg)]);
      }
    }
    size := GetPcrEvent2Size(suite, mem, p);
  }

  lemma AtValue(mem: seq<Byte>, off: nat, b: seq<Byte>)
    requires At(mem, off, b)
    ensures off + |b| <= |mem| && mem[off..off + |b|] == b
  {
  }

  lemma FoldStep(suite: Suite, alg: nat, start: seq<Byte>, es: seq<Event>, i: nat, pcr: nat)
    requires suite.Valid() && |start| == suite.size(alg) && i < |es|
    ensures Fold(suite, alg, start, AllMeasured(es[..i + 1], pcr, alg))
         == Fold(suite, alg, Fold(suite, alg, start, AllMeasured(es[..i], pcr, alg)), Measured(es[i], pcr, alg))
  {
    hide Measured, Fold;
    assert es[..i + 1] == es[..i] + [es[i]];
    AllMeasuredAppend(es[..i], [es[i]], pcr, alg);
    assert AllMeasured([es[i]], pcr, alg) == Measured(es[i], pcr, alg) by {
      assert [es[i]][1..] == [];
      assert AllMeasured([es[i]], pcr, alg) == Measured(es[i], pcr, alg) + AllMeasured([], pcr, alg);
    }
    FoldAppend(suite, alg, start, AllMeasured(es[..i], pcr, alg), Measured(es[i], pcr, alg));
  }

  /** The replay loop over the log, up to lastEntry. */
  method ReplayLog(suite: Suite, mem: seq<Byte>, start: nat, lastEntry: int, pcrIndex: nat, hashAlg: nat,
                   hashDigest: array<Byte>, ghost es: seq<Event>)
    requires suite.Valid() && hashDigest.Length == DIGEST_BUFFER
    requires At(mem, start, EncodeEvents(es)) && WellFormedEvents(suite, es) && StopsAfter(start, es, lastEntry)
    modifies hashDigest
    ensures hashDigest[..suite.size(hashAlg)] ==
      Fold(suite, hashAlg, old(hashDigest[..suite.size(hashAlg)]), AllMeasured(es, pcrIndex, hashAlg))
  {
    hide At, EncodeEvents, EncodeEvent, StopsAfter, WellFormedEvent, Measured, Fold;
    ghost var before := hashDigest[..suite.size(hashAlg)];
    var p := start;
    ghost var i := 0;
    FoldNothing(suite, hashAlg, before, es, pcrIndex);
    StartZero(start, es);
    StopsAt(start, es, lastEntry, 0);
    while p <= lastEntry
      invariant 0 <= i <= |es| && p == StartOf(start, es, i)
      invariant p <= lastEntry <==> i < |es|
      invariant hashDigest[..suite.size(hashAlg)] ==
                Fold(suite, hashAlg, before, AllMeasured(es[..i], pcrIndex, hashAlg))
      decreases |es| - i
    {
      EventAt(mem, start, es, i);
      FoldStep(suite, hashAlg, before, es, i, pcrIndex);
      var size := ReplayEvent(suite, mem, p, pcrIndex, hashAlg, hashDigest, es[i]);
      p := p + size;
      i := i + 1;
      StopsAt(start, es, lastEntry, i);
    }
    assert es[..|es|] == es;
  }

  lemma FoldNothing(suite: Suite, alg: nat, current: seq<Byte>, es: seq<Event>, pcr: nat)
    requires suite.Valid() && |current| == suite.size(alg)
    ensures Fold(suite, alg, current, AllMeasured(es[..0], pcr, alg)) == current
  {
    assert es[..0] == [];
  }

  /** The replay loop over the final events table, which counts events instead. */
  method ReplayFinal(suite: Suite, table: seq<Byte>, pcrIndex: nat, hashAlg: nat, hashDigest: array<Byte>,
                     ghost version: UintN, ghost es: seq<Event>)
    requires suite.Valid() && hashDigest.Length == DIGEST_BUFFER
    requires At(table, 0, EncodeFinal(version, es)) && |es| < TWO64 && WellFormedEvents(suite, es)
    modifies hashDigest
    ensures hashDigest[..suite.size(hashAlg)] ==
      Fold(suite, hashAlg, old(hashDigest[..suite.size(hashAlg)]), AllMeasured(es, pcrIndex, hashAlg))
  {
    hide At, EncodeEvents, EncodeEvent, WellFormedEvent, Measured, Fold, Field64;
    ghost var before := hashDigest[..suite.size(hashAlg)];
    FinalFields(table, version, es);
    var numberOfEvents: nat := Field64(table, 8);
    var p := 16;
    var i := 0;
    FoldNothing(suite, hashAlg, before, es, pcrIndex);
    StartZero(16, es);
    while i < numberOfEvents
      invariant 0 <= i <= |es| && p == StartOf(16, es, i)
      invariant hashDigest[..suite.size(hashAlg)] ==
                Fold(suite, hashAlg, before, AllMeasured(es[..i], pcrIndex, hashAlg))
    {
      EventAt(table, 16, es, i);
      FoldStep(suite, hashAlg, before, es, i, pcrIndex);
      var size := ReplayEvent(suite, table, p, pcrIndex, hashAlg, hashDigest, es[i]);
      p := p + size;
      i := i + 1;
    }
    assert es[..|es|] == es;
  }

  lemma FinalFields(table: seq<Byte>, version: UintN, es: seq<Event>)
    requires At(table, 0, EncodeFinal(version, es)) && |es| < TWO64
    ensures |table| >= 16 && Field64(table, 8) == |es| && At(table, 16, EncodeEvents(es))
  {
    hide EncodeEvents, Field64, Le, At;
    AtSplit(table, 0, Le(8, version) + Le(8, |es|), EncodeEvents(es));
    AtSplit(table, 0, Le(8, version), Le(8, |es|));
    At64(table, 8, |es|);
  }

  /** The calculating half of DumpEventLog: for each algorithm of the log, start from zero, replay the log, then the
      final events table if there is one. Each digest printed is the fold of extend over the measured digests. */
  method CalculateExpected(suite: Suite, mem: seq<Byte>, lastEntry: int, finalMem: Option<seq<Byte>>, pcrIndex: nat,
                           ghost h: SpecId, ghost es: seq<Event>, ghost version: UintN, ghost finals: seq<Event>)
    returns (digests: seq<seq<Byte>>)
    requires suite.Valid()
    requires At(mem, 0, EncodeLog(h, es)) && WellFormedSpecId(suite, h) && WellFormedEvents(suite, es)
    requires StopsAfter(|EncodeSpecId(h)|, es, lastEntry)
    requires finalMem.None? ==> finals == []
    requires finalMem.Some? ==>
      At(finalMem.value, 0, EncodeFinal(version, finals)) && |finals| < TWO64 && WellFormedEvents(suite, finals)
    ensures |digests| == |h.algorithms|
    ensures forall k :: 0 <= k < |digests| ==>
      var alg := h.algorithms[k].0;
      digests[k] == Fold(suite, alg, seq(suite.size(alg), _ => 0), AllMeasured(es + finals, pcrIndex, alg))
    ensures forall k :: 0 <= k < |digests| ==>
      var alg := h.algorithms[k].0;
      alg == 0x0004 || alg == 0x000B ==>
        IsExtendedFromZero(suite, alg, AllMeasured(es + finals, pcrIndex, alg), digests[k])
  {
    hide At, EncodeSpecId, EncodeEvents, EncodeFinal, StopsAfter, Measured, Fold, Field32, Field, AllMeasured,
         WellFormedEvents, IsExtendedFromZero;
    AtSplit(mem, 0, EncodeSpecId(h), EncodeEvents(es));
    SpecIdFields(suite, mem, h);
    var numberOfAlgorithms: nat := Field32(mem, 56);
    digests := [];
    var algoIndex := 0;
    while algoIndex < numberOfAlgorithms
      invariant 0 <= algoIndex <= |h.algorithms| && |digests| == algoIndex
      invariant forall k :: 0 <= k < algoIndex ==>
                  digests[k] == Expected(suite, es + finals, pcrIndex, h.algorithms[k].0)
    {
      AlgorithmAt(mem, 60, h.algorithms, algoIndex);
      var hashAlg := Field(mem, 60 + 4 * algoIndex, 2);
      var digest := CalculateBank(suite, mem, lastEntry, finalMem, pcrIndex, hashAlg, h, es, version, finals);
      digests := digests + [digest];
      algoIndex := algoIndex + 1;
    }
    forall k | 0 <= k < |digests| && (h.algorithms[k].0 == 0x0004 || h.algorithms[k].0 == 0x000B)
      ensures IsExtendedFromZero(suite, h.algorithms[k].0, AllMeasured(es + finals, pcrIndex, h.algorithms[k].0),
                                 digests[k])
    {
      FoldIsExtended(suite, h.algorithms[k].0, AllMeasured(es + finals, pcrIndex, h.algorithms[k].0));
    }
  }

  ghost function Expected(suite: Suite, es: seq<Event>, pcrIndex: nat, alg: nat): seq<Byte>
    requires suite.Valid()
  {
    Fold(suite, alg, seq(suite.size(alg), _ => 0), AllMeasured(es, pcrIndex, alg))
  }

  /** One iteration of the algorithm loop. */
  method CalculateBank(suite: Suite, mem: seq<Byte>, lastEntry: int, finalMem: Option<seq<Byte>>, pcrIndex: nat,
                       hashAlg: nat, ghost h: SpecId, ghost es: seq<Event>, ghost version: UintN,
                       ghost finals: seq<Event>)
    returns (digest: seq<Byte>)
    requires suite.Valid()
    requires At(mem, 0, EncodeLog(h, es)) && WellFormedSpecId(suite, h) && WellFormedEvents(suite, es)
    requires StopsAfter(|EncodeSpecId(h)|, es, lastEntry)
    requires finalMem.None? ==> finals == []
    requires finalMem.Some? ==>
      At(finalMem.value, 0, EncodeFinal(version, finals)) && |finals| < TWO64 && WellFormedEvents(suite, finals)
    ensures digest == Expected(suite, es + finals, pcrIndex, hashAlg)
  {
    hide At, EncodeSpecId, EncodeEvents, EncodeFinal, StopsAfter, Measured, Fold, AllMeasured, WellFormedEvents;
    AtSplit(mem, 0, EncodeSpecId(h), EncodeEvents(es));
    var hashDigest := new Byte[DIGEST_BUFFER](_ => 0);
    ghost var zero := seq(suite.size(hashAlg), _ => 0);
    assert hashDigest[..suite.size(hashAlg)] == zero;
    var size := GetTcgEfiSpecIdEventStructSize(suite, mem, h);
    ReplayLog(suite, mem, EVENT_HEADER_SIZE + size, lastEntry, pcrIndex, hashAlg, hashDigest, es);
    AllMeasuredAppend(es, finals, pcrIndex, hashAlg);
    FoldAppend(suite, hashAlg, zero, AllMeasured(es, pcrIndex, hashAlg), AllMeasured(finals, pcrIndex, hashAlg));
    if finalMem.Some? {
      ReplayFinal(suite, finalMem.value, pcrIndex, hashAlg, hashDigest, version, finals);
    } else {
      assert es + finals == es;
    }
    digest := hashDigest[..suite.size(hashAlg)];
  }

  /* ---------- saving and parsing back ---------- */

  /** The digest field of the first event is all zero, as the profile requires. */
  predicate ZeroDigest(h: SpecId) {
    |h.fixed| == EVENT_HEADER_SIZE + SPEC_ID_STRUCT_SIZE && forall i :: 8 <= i < 28 ==> h.fixed[i] == 0
  }

  /** With no crypto-agile event the last entry is the first event, which has another layout: read as an event with
      no digests it appears to be 16 bytes long. */
  lemma HeaderReadAsEvent(suite: Suite, mem: seq<Byte>, h: SpecId)
    requires At(mem, 0, EncodeSpecId(h)) && ZeroDigest(h)
    ensures EventSize(suite, mem, 0) == Some(16)
  {
    assert EncodeSpecId(h)[..56] == h.fixed;
    forall i | 8 <= i < 28
      ensures mem[i] == 0
    {
      assert mem[0..|EncodeSpecId(h)|][i] == mem[i];
    }
    ZeroField(mem, 8);
    ZeroField(mem, 12);
  }

  lemma ZeroField(mem: seq<Byte>, off: nat)
    requires off + 4 <= |mem| && forall i :: off <= i < off + 4 ==> mem[i] == 0
    ensures Field32(mem, off) == 0
  {
    var b := mem[off..off + 4];
    assert b == [0, 0, 0, 0];
    assert UnLe(b[3..]) == 0;
    assert UnLe(b[2..]) == 0;
    assert UnLe(b[1..]) == 0;
  }

  /** -BIN: the bytes from the start of the log to the end of its last entry. They are the whole log if and only if
      the log has a crypto-agile event; otherwise only the first 16 bytes are saved. */
  method SaveLog(suite: Suite, mem: seq<Byte>, lastEntry: nat, ghost h: SpecId, ghost es: seq<Event>)
    returns (file: seq<Byte>)
    requires At(mem, 0, EncodeLog(h, es)) && WellFormedSpecId(suite, h) && WellFormedEvents(suite, es)
    requires lastEntry == LastStart(|EncodeSpecId(h)|, es)
    requires es == [] ==> ZeroDigest(h)
    ensures file == EncodeLog(h, es) <==> es != []
    ensures es == [] ==> file == mem[..16]
  {
    hide At, EncodeSpecId, EncodeEvents, EncodeEvent, EventSize, WellFormedEvent;
    AtSplit(mem, 0, EncodeSpecId(h), EncodeEvents(es));
    AtValue(mem, 0, EncodeLog(h, es));
    SpecIdNotEmpty(suite, h);
    ghost var n := |es| - 1;
    if lastEntry == 0 {
      FirstStarts(|EncodeSpecId(h)|, es);
      HeaderReadAsEvent(suite, mem, h);
    } else {
      EventAt(mem, |EncodeSpecId(h)|, es, n);
      EventFields32(suite, mem, lastEntry, es[n]);
      assert es[..|es|] == es;
    }
    var lastPcrEventSize := GetPcrEvent2Size(suite, mem, lastEntry);
    var bufferSize := lastEntry + lastPcrEventSize;
    file := mem[..bufferSize];
  }

  /** The shortest log: a first event of zeros for no algorithm, and no other event. Only 16 of its 61 bytes are
      saved. */
  lemma EmptyLogIsCut(suite: Suite)
    ensures
      var h := SpecId(seq(56, _ => 0), [], []);
      && WellFormedSpecId(suite, h) && ZeroDigest(h) && |EncodeLog(h, [])| == 61
      && EventSize(suite, EncodeLog(h, []), LastStart(|EncodeSpecId(h)|, [])) == Some(16)
  {
    var h := SpecId(seq(56, _ => 0), [], []);
    var mem := EncodeLog(h, []);
    hide Le;
    assert mem == EncodeSpecId(h) && mem[0..|mem|] == mem;
    HeaderReadAsEvent(suite, mem, h);
  }

  lemma FirstStarts(base: nat, es: seq<Event>)
    requires base > 0 && LastStart(base, es) == 0
    ensures es == []
  {
  }

  /** -BIN then -PARSE: the file is exactly the log, and parsing it up to its last byte prints the same events, at
      the same offsets, as walking the live log up to the start of its last entry. */
  method SaveAndParse(suite: Suite, mem: seq<Byte>, lastEntry: nat, ghost h: SpecId, ghost es: seq<Event>)
    returns (live: seq<nat>, parsed: seq<nat>)
    requires At(mem, 0, EncodeLog(h, es)) && WellFormedSpecId(suite, h) && WellFormedEvents(suite, es) && es != []
    requires lastEntry == LastStart(|EncodeSpecId(h)|, es)
    ensures live == parsed && |live| == |es|
    ensures forall i :: 0 <= i < |es| ==> live[i] == StartOf(|EncodeSpecId(h)|, es, i)
  {
    hide EncodeSpecId, EncodeEvents, WellFormedEvent, StopsAfter;
    SpecIdNotEmpty(suite, h);
    LastStartStops(|EncodeSpecId(h)|, es);
    live := PrintLog(suite, mem, lastEntry, PCR_INDEX_ALL, h, es);
    var file := SaveLog(suite, mem, lastEntry, h, es);
    assert file[0..|file|] == file;
    FileEndStops(|EncodeSpecId(h)|, es);
    parsed := PrintLog(suite, file, |file| - 1, PCR_INDEX_ALL, h, es);
    AllChosen(es, |es|);
  }

  lemma SpecIdNotEmpty(suite: Suite, h: SpecId)
    requires WellFormedSpecId(suite, h)
    ensures |EncodeSpecId(h)| > 60
  {
  }

  lemma {:induction false} AllChosen(es: seq<Event>, n: nat)
    requires n <= |es|
    ensures |Chosen(es, PCR_INDEX_ALL, n)| == n && forall i :: 0 <= i < n ==> Chosen(es, PCR_INDEX_ALL, n)[i] == i
  {
    if n > 0 {
      AllChosen(es, n - 1);
    }
  }
}
