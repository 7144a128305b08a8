/** The SKU part of a PCD database (PcdDump.c): records of deltas, one per SKU, behind the default data. */
module PcdSku {
  import opened Bytes
  import opened FlatMemory
  import opened PcdDeltas
  import opened Walks

  const SKU_DELTA_SIZE := 20  // SkuId, SkuIdCompared and Length of PCD_DATABASE_SKU_DELTA

  datatype SkuRecord = SkuRecord(skuId: UintN, deltas: seq<Delta>)

  /** The fields of PCD_DATABASE_INIT the walks use, and the bytes behind it. */
  datatype PcdDatabase = PcdDatabase(mem: Memory, length: Uint32, lengthForAllSkus: Uint32) {
    function SkuId(p: nat): UintN { U64(mem, p) }

    function RecordLength(p: nat): Uint32 { U32(mem, p + 16) }

    function Next(p: nat): (next: nat)
      ensures next >= p && next % 8 == 0
      ensures p % 8 == 0 ==> (next == p <==> RecordLength(p) == 0)
    {
      AlignUp(p + RecordLength(p), 8)
    }

    /** Every record the walk from p comes to has a length. */
    predicate Advances(p: nat)
      decreases lengthForAllSkus - p
    {
      p < lengthForAllSkus ==> RecordLength(p) > 0 && Advances(Next(p))
    }

    /** Every record before the first one with a delta in the data has a length. */
    predicate AdvancesToHit(p: nat, data: nat, size: nat)
      decreases lengthForAllSkus - p
    {
      p < lengthForAllSkus && !HitAt(p, data, size) ==> RecordLength(p) > 0 && AdvancesToHit(Next(p), data, size)
    }

    predicate HitAt(p: nat, data: nat, size: nat) {
      var deltas := RecordAt(p).deltas;
      exists i :: 0 <= i < |deltas| && Hits(deltas[i], 0, data, size)
    }

    ghost function Loop(): nat -> nat {
      (p: nat) => Next(p)
    }

    ghost function AtEnd(): nat -> bool {
      (p: nat) => p >= lengthForAllSkus
    }

    ghost function AtEndOrHit(data: nat, size: nat): nat -> bool {
      (p: nat) => p >= lengthForAllSkus || HitAt(p, data, size)
    }

    /** These are the exact conditions for the two kinds of walk to end. */
    lemma {:induction false} AdvancesIff(p: nat)
      requires p % 8 == 0
      ensures Ends(Loop(), AtEnd(), p) <==> Advances(p)
      decreases lengthForAllSkus - p
    {
      hide Next, RecordLength;
      Unfold(Loop(), AtEnd(), p);
      if p < lengthForAllSkus {
        if RecordLength(p) > 0 {
          AdvancesIff(Next(p));
        } else {
          assert Loop()(p) == p;
          StuckNeverEnds(Loop(), AtEnd(), p);
        }
      }
    }

    lemma {:induction false} AdvancesToHitIff(p: nat, data: nat, size: nat)
      requires p % 8 == 0
      ensures Ends(Loop(), AtEndOrHit(data, size), p) <==> AdvancesToHit(p, data, size)
      decreases lengthForAllSkus - p
    {
      hide Next, RecordLength, HitAt;
      Unfold(Loop(), AtEndOrHit(data, size), p);
      if p < lengthForAllSkus && !HitAt(p, data, size) {
        if RecordLength(p) > 0 {
          AdvancesToHitIff(Next(p), data, size);
        } else {
          assert Loop()(p) == p;
          StuckNeverEnds(Loop(), AtEndOrHit(data, size), p);
        }
      }
    }

    function Start(): nat {
      AlignUp(length, 8)
    }

    /** The walk of IsSkuPcd ends. */
    predicate Decides(data: nat, size: nat) {
      lengthForAllSkus > length ==> AdvancesToHit(Start(), data, size)
    }

    /** A record met before the end of the walk has a delta in the data. */
    ghost predicate SomeHit(data: nat, size: nat) {
      lengthForAllSkus > length && HitFrom(Start(), data, size)
    }

    ghost predicate HitFrom(p: nat, data: nat, size: nat) {
      exists n: nat ::
        && (forall i: nat :: i <= n ==> Step<nat>(Loop(), p, i) < lengthForAllSkus)
        && HitAt(Step<nat>(Loop(), p, n), data, size)
    }

    lemma HitFromIff(p: nat, data: nat, size: nat)
      ensures HitFrom(p, data, size) <==>
              p < lengthForAllSkus && (HitAt(p, data, size) || HitFrom(Next(p), data, size))
    {
      hide HitFrom, HitAt, Next;
      if HitFrom(p, data, size) {
        HitHereOrLater(p, data, size);
      }
      if p < lengthForAllSkus && HitAt(p, data, size) {
        HitHere(p, data, size);
      }
      if p < lengthForAllSkus && HitFrom(Next(p), data, size) {
        HitLater(p, data, size);
      }
    }

    lemma HitHere(p: nat, data: nat, size: nat)
      requires p < lengthForAllSkus && HitAt(p, data, size)
      ensures HitFrom(p, data, size)
    {
      hide HitAt, Next;
      assert Step<nat>(Loop(), p, 0) == p;
    }

    lemma HitHereOrLater(p: nat, data: nat, size: nat)
      requires HitFrom(p, data, size)
      ensures p < lengthForAllSkus && (HitAt(p, data, size) || HitFrom(Next(p), data, size))
    {
      hide Next, HitAt;
      var n: nat :|
        && (forall i: nat :: i <= n ==> Step<nat>(Loop(), p, i) < lengthForAllSkus)
        && HitAt(Step<nat>(Loop(), p, n), data, size);
      assert Step<nat>(Loop(), p, 0) == p;
      if n > 0 {
        forall i: nat | i <= n - 1
          ensures Step<nat>(Loop(), Next(p), i) < lengthForAllSkus
        {
          assert Step<nat>(Loop(), p, i + 1) == Step<nat>(Loop(), Next(p), i);
        }
        assert Step<nat>(Loop(), p, n) == Step<nat>(Loop(), Next(p), n - 1);
      }
    }

    lemma HitLater(p: nat, data: nat, size: nat)
      requires p < lengthForAllSkus && HitFrom(Next(p), data, size)
      ensures HitFrom(p, data, size)
    {
      hide Next, HitAt;
      var n: nat :|
        && (forall i: nat :: i <= n ==> Step<nat>(Loop(), Next(p), i) < lengthForAllSkus)
        && HitAt(Step<nat>(Loop(), Next(p), n), data, size);
      forall i: nat | i <= n + 1
        ensures Step<nat>(Loop(), p, i) < lengthForAllSkus
      {
        assert Step<nat>(Loop(), p, 0) == p;
        if i > 0 {
          assert Step<nat>(Loop(), p, i) == Step<nat>(Loop(), Next(p), i - 1);
        }
      }
      assert Step<nat>(Loop(), p, n + 1) == Step<nat>(Loop(), Next(p), n);
    }

    ghost predicate Valid() {
      lengthForAllSkus > length ==> Advances(Start())
    }

    function RecordAt(p: nat): SkuRecord {
      SkuRecord(SkuId(p), Deltas(mem, p + SKU_DELTA_SIZE, p + RecordLength(p)))
    }

    function RecordsFrom(p: nat): seq<SkuRecord>
      requires Advances(p)
      decreases lengthForAllSkus - p
    {
      if p >= lengthForAllSkus then []
      else [RecordAt(p)] + RecordsFrom(Next(p))
    }

    lemma RecordStep(p: nat)
      requires Advances(p)
      ensures p < lengthForAllSkus ==> Next(p) > p && Advances(Next(p))
      ensures p < lengthForAllSkus ==> RecordsFrom(p) == [RecordAt(p)] + RecordsFrom(Next(p))
      ensures p >= lengthForAllSkus ==> RecordsFrom(p) == []
    {
    }

    lemma HitStep(p: nat, data: nat, size: nat)
      requires p % 8 == 0 && p < lengthForAllSkus && AdvancesToHit(p, data, size)
      ensures HitAt(p, data, size) <==>
              AnyHits(Deltas(mem, p + SKU_DELTA_SIZE, p + RecordLength(p)), 0, data, size)
      ensures !HitAt(p, data, size) ==> Next(p) > p && AdvancesToHit(Next(p), data, size)
    {
    }

    /** When every record has a length, the hits are those of the list of all records. */
    lemma {:induction false} HitsAreListed(p: nat, data: nat, size: nat)
      requires Advances(p)
      ensures AdvancesToHit(p, data, size)
      ensures HitFrom(p, data, size) <==> SomeSkuHits(RecordsFrom(p), data, size)
      decreases lengthForAllSkus - p
    {
      hide HitFrom, RecordAt, RecordLength, Next, SomeSkuHits, AnyHits;
      HitFromIff(p, data, size);
      NoRecordsNoHit(data, size);
      if p < lengthForAllSkus {
        RecordStep(p);
        HitsAreListed(Next(p), data, size);
        FirstHits(RecordAt(p), RecordsFrom(Next(p)), data, size);
        assert HitAt(p, data, size) <==> AnyHits(RecordAt(p).deltas, 0, data, size) by {
          SameHits(p, data, size);
        }
      }
    }

    lemma SameHits(p: nat, data: nat, size: nat)
      ensures HitAt(p, data, size) <==> AnyHits(RecordAt(p).deltas, 0, data, size)
    {
    }

    lemma RecordDeltas(p: nat)
      ensures RecordAt(p).skuId == SkuId(p)
      ensures RecordAt(p).deltas == Deltas(mem, p + SKU_DELTA_SIZE, p + RecordLength(p))
    {
    }

    function Records(): seq<SkuRecord>
      requires Valid()
    {
      if lengthForAllSkus <= length then [] else RecordsFrom(Start())
    }
  }

  /** All deltas of one SKU, in walk order. */
  function DeltasOf(records: seq<SkuRecord>, skuId: UintN): seq<Delta> {
    if records == [] then []
    else (if records[0].skuId == skuId then records[0].deltas else []) + DeltasOf(records[1..], skuId)
  }

  ghost predicate SomeSkuHits(records: seq<SkuRecord>, data: nat, size: nat) {
    exists i :: 0 <= i < |records| && AnyHits(records[i].deltas, 0, data, size)
  }

  /** On every database on which the walk ends, with a hit or at the end of the records. */
  method IsSkuPcd(db: PcdDatabase, data: nat, size: nat) returns (found: bool)
    requires db.Decides(data, size)
    ensures found <==> db.SomeHit(data, size)
  {
    hide db.AdvancesToHit, db.RecordAt, db.RecordLength, db.Next, db.HitAt, db.HitFrom, DeltaAt;
    if db.lengthForAllSkus <= db.length {
      return false;
    }
    var offset: nat := AlignUp(db.length, 8);
    while offset < db.lengthForAllSkus
      invariant offset % 8 == 0 && db.AdvancesToHit(offset, data, size)
      invariant db.SomeHit(data, size) <==> db.HitFrom(offset, data, size)
      decreases db.lengthForAllSkus - offset
    {
      db.HitFromIff(offset, data, size);
      db.HitStep(offset, data, size);
      var hit := RecordHits(db.mem, offset + SKU_DELTA_SIZE, offset + db.RecordLength(offset), data, size);
      if hit {
        return true;
      }
      offset := db.Next(offset);
    }
    db.HitFromIff(offset, data, size);
    return false;
  }

  /** The inner loop of IsSkuPcd. */
  method RecordHits(m: Memory, first: nat, end: nat, data: nat, size: nat) returns (found: bool)
    ensures found <==> AnyHits(Deltas(m, first, end), 0, data, size)
  {
    hide DeltaAt;
    var p := first;
    ghost var done: seq<Delta> := [];
    while p < end
      invariant Deltas(m, first, end) == done + Deltas(m, p, end)
      invariant !AnyHits(done, 0, data, size)
      decreases end - p
    {
      var delta := DeltaAt(m, p);
      if delta.offset >= data && delta.offset < data + size {
        assert Deltas(m, first, end)[|done|] == delta;
        return true;
      }
      ConcatAssoc(done, [delta], Deltas(m, p + DELTA_SIZE, end));
      done := done + [delta];
      p := p + DELTA_SIZE;
    }
    assert done + [] == done;
    return false;
  }

  lemma NoRecordsNoHit(data: nat, size: nat)
    ensures !SomeSkuHits([], data, size)
  {
  }

  lemma FirstHits(record: SkuRecord, rest: seq<SkuRecord>, data: nat, size: nat)
    ensures SomeSkuHits([record] + rest, data, size) <==>
            AnyHits(record.deltas, 0, data, size) || SomeSkuHits(rest, data, size)
  {
    var all := [record] + rest;
    assert all[0] == record;
    forall i | 0 <= i < |rest| && AnyHits(rest[i].deltas, 0, data, size)
      ensures SomeSkuHits(all, data, size)
    {
      assert all[i + 1] == rest[i];
    }
    forall i | 0 <= i < |all| && AnyHits(all[i].deltas, 0, data, size)
      ensures AnyHits(record.deltas, 0, data, size) || SomeSkuHits(rest, data, size)
    {
      assert i > 0 ==> all[i] == rest[i - 1];
    }
  }

  /** copy, taken from the default data at data, becomes the data of one SKU. */
  method CopySkuPcdData(db: PcdDatabase, skuId: UintN, data: nat, copy: array<Byte>) returns (result: bool)
    requires db.Valid()
    modifies copy
    ensures copy[..] == Overlay(old(copy[..]), DeltasOf(db.Records(), skuId), 0, data)
    ensures result <==> AnyHits(DeltasOf(db.Records(), skuId), 0, data, copy.Length)
  {
    hide AnyHits, Overlay, DeltasOf, db.Advances, db.RecordsFrom, db.RecordAt, db.RecordLength, db.SkuId, db.Next;
    NoDeltas(copy[..], db.Records(), skuId, data);
    result := false;
    if db.lengthForAllSkus <= db.length {
      return;
    }
    var offset: nat := AlignUp(db.length, 8);
    ghost var done: seq<Delta> := [];
    assert [] + DeltasOf(db.Records(), skuId) == DeltasOf(db.Records(), skuId);
    while offset < db.lengthForAllSkus
      invariant db.Advances(offset)
      invariant DeltasOf(db.Records(), skuId) == done + DeltasOf(db.RecordsFrom(offset), skuId)
      invariant copy[..] == Overlay(old(copy[..]), done, 0, data)
      invariant result <==> AnyHits(done, 0, data, copy.Length)
      decreases db.lengthForAllSkus - offset
    {
      db.RecordStep(offset);
      ghost var record, rest := db.RecordAt(offset), db.RecordsFrom(db.Next(offset));
      db.RecordDeltas(offset);
      DeltasOfFirst(record, rest, skuId);
      if db.SkuId(offset) == skuId {
        var hit, _ := ApplyDeltas(db.mem, offset + SKU_DELTA_SIZE, offset + db.RecordLength(offset), 0, data, copy);
        OverlayAppend(old(copy[..]), done, record.deltas, 0, data);
        AnyHitsAppend(done, record.deltas, 0, data, copy.Length);
        ConcatAssoc(done, record.deltas, DeltasOf(rest, skuId));
        done := done + record.deltas;
        result := result || hit;
      } else {
        assert [] + DeltasOf(rest, skuId) == DeltasOf(rest, skuId);
      }
      offset := db.Next(offset);
    }
    db.RecordStep(offset);
    NoDeltas(copy[..], [], skuId, data);
    assert done + [] == done;
  }

  lemma NoDeltas(copy: seq<Byte>, records: seq<SkuRecord>, skuId: UintN, data: nat)
    ensures records == [] ==> DeltasOf(records, skuId) == []
    ensures Overlay(copy, [], 0, data) == copy && !AnyHits([], 0, data, |copy|)
  {
  }

  lemma DeltasOfFirst(record: SkuRecord, rest: seq<SkuRecord>, skuId: UintN)
    ensures DeltasOf([record] + rest, skuId) ==
            (if record.skuId == skuId then record.deltas else []) + DeltasOf(rest, skuId)
  {
    assert ([record] + rest)[1..] == rest;
  }

  lemma {:induction false} DeltasOfHits(records: seq<SkuRecord>, skuId: UintN, data: nat, size: nat)
    ensures AnyHits(DeltasOf(records, skuId), 0, data, size) <==>
            exists i :: 0 <= i < |records| && records[i].skuId == skuId && AnyHits(records[i].deltas, 0, data, size)
  {
    hide AnyHits;
    if records == [] {
      assert !AnyHits([], 0, data, size) by {
        NoDeltasNoHit(data, size);
      }
    } else {
      var first := if records[0].skuId == skuId then records[0].deltas else [];
      AnyHitsAppend(first, DeltasOf(records[1..], skuId), 0, data, size);
      DeltasOfHits(records[1..], skuId, data, size);
      NoDeltasNoHit(data, size);
      forall i | 0 < i < |records|
        ensures records[i] == records[1..][i - 1]
      {
      }
      if i :| 0 <= i < |records[1..]| && records[1..][i].skuId == skuId
              && AnyHits(records[1..][i].deltas, 0, data, size) {
        assert records[1..][i] == records[i + 1];
      }
    }
  }

  lemma NoDeltasNoHit(data: nat, size: nat)
    ensures !AnyHits([], 0, data, size)
  {
  }

  /** IsSkuPcd says TRUE exactly for the data that some record's SKU changes in CopySkuPcdData. */
  lemma SkuPcdIffSomeCopyChanges(db: PcdDatabase, data: nat, size: nat)
    requires db.Valid()
    ensures db.Decides(data, size)
    ensures db.SomeHit(data, size) <==>
            exists i :: 0 <= i < |db.Records()| && AnyHits(DeltasOf(db.Records(), db.Records()[i].skuId), 0, data, size)
  {
    hide AnyHits, db.HitFrom, db.AdvancesToHit, db.Advances, db.RecordsFrom;
    var records := db.Records();
    NoRecordsNoHit(data, size);
    if db.lengthForAllSkus > db.length {
      db.HitsAreListed(db.Start(), data, size);
    }
    forall i | 0 <= i < |records|
      ensures AnyHits(DeltasOf(records, records[i].skuId), 0, data, size) <==>
        exists j :: 0 <= j < |records| && records[j].skuId == records[i].skuId
                      && AnyHits(records[j].deltas, 0, data, size)
    {
      DeltasOfHits(records, records[i].skuId, data, size);
    }
  }

  /** A record without a length is never left, whatever data is asked for. */
  lemma LengthlessRecordIsNeverLeft(db: PcdDatabase, p: nat, data: nat, size: nat)
    requires p % 8 == 0 && p < db.lengthForAllSkus && db.RecordLength(p) == 0
    ensures !db.Advances(p) && !Ends(db.Loop(), db.AtEnd(), p)
    ensures !db.AdvancesToHit(p, data, size) && !Ends(db.Loop(), db.AtEndOrHit(data, size), p)
  {
    assert db.RecordAt(p).deltas == [];
    hide db.RecordLength, db.RecordAt, db.Next;
    db.AdvancesIff(p);
    db.AdvancesToHitIff(p, data, size);
  }

  /** So neither walk over a record of zeros ends. */
  lemma ZerosAreNeverLeft(data: nat, size: nat)
    ensures
      var db := PcdDatabase(_ => 0, 0, 8);
      !db.Valid() && !db.Decides(data, size)
  {
    ZeroRecord(PcdDatabase(_ => 0, 0, 8), data, size);
  }

  lemma ZeroRecord(db: PcdDatabase, data: nat, size: nat)
    requires db.length == 0 && db.lengthForAllSkus > 0 && forall p: nat :: db.mem(p) == 0
    ensures !db.Valid() && !db.Decides(data, size)
  {
    assert db.RecordLength(0) == 0 by {
      UnLeZeros(Read(db.mem, 16, 4)[0..4]);
    }
    hide db.RecordLength, db.RecordAt, db.Next, db.Advances, db.AdvancesToHit;
    LengthlessRecordIsNeverLeft(db, 0, data, size);
  }
}
