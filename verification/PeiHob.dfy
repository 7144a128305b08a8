/** The byte format of the PEI core dump HOB (PeiCoreDumpComm.h): image records, one PPI database, one memory
    record, their encoding and what the shell application reads at the same offsets. */
module PeiHob {
  import opened Bytes
  import opened Segments
  import opened SmmImages
  import SmmDatabase
  import opened Options

  const IMAGE_SIGNATURE: Uint32 := 0x44494350   // 'P','C','I','D'
  const PPI_SIGNATURE: Uint32 := 0x44504350     // 'P','C','P','D'
  const MEMORY_SIGNATURE: Uint32 := 0x494D4350  // 'P','C','M','I'

  const HEADER_SIZE := 12
  const IMAGE_SIZE := 132
  const PPI_DATABASE_SIZE := 76
  const PPI_SIZE := 40
  const MEMORY_SIZE := 36

  datatype Ppi = Ppi(flags: UintN, guid: Guid, target: UintN, imageRef: UintN)

  const ZERO_PPI := Ppi(0, ZERO_GUID, 0, 0)

  /** counts are the eight list counters, in the order of PEI_CORE_PPI_DATABASE_STRUCTURE. */
  datatype Record =
    | ImageRecord(fileGuid: Guid, name: Name, entryPoint: UintN, imageBase: UintN, imageSize: UintN,
                  realImageBase: UintN)
    | PpiRecord(counts: seq<UintN>, ppis: seq<Ppi>)
    | MemoryRecord(begin: UintN, length: UintN, freeTop: UintN)
  {
    function Signature(): Uint32 {
      match this
      case ImageRecord(_, _, _, _, _, _) => IMAGE_SIGNATURE
      case PpiRecord(_, _) => PPI_SIGNATURE
      case MemoryRecord(_, _, _) => MEMORY_SIGNATURE
    }

    function Size(): nat {
      match this
      case ImageRecord(_, _, _, _, _, _) => IMAGE_SIZE
      case PpiRecord(_, ppis) => PPI_DATABASE_SIZE + PPI_SIZE * |ppis|
      case MemoryRecord(_, _, _) => MEMORY_SIZE
    }

    predicate Valid() {
      && Size() < TWO32
      && (PpiRecord? ==> |counts| == 8 && |ppis| == Total(counts))
    }
  }

  /** How many PPI structures the counters announce. */
  function Total(counts: seq<UintN>): nat
    requires |counts| == 8
  {
    var ppis: nat, callbacks: nat, dispatches: nat := counts[0], counts[3], counts[5];
    ppis + callbacks + dispatches
  }

  function EncodePpi(p: Ppi): (b: seq<Byte>)
    ensures |b| == PPI_SIZE
  {
    Le(8, p.flags) + p.guid + Le(8, p.target) + Le(8, p.imageRef)
  }

  function EncodePpis(ps: seq<Ppi>): (b: seq<Byte>)
    ensures |b| == PPI_SIZE * |ps|
  {
    if ps == [] then [] else EncodePpis(ps[..|ps| - 1]) + EncodePpi(ps[|ps| - 1])
  }

  function EncodeCounts(cs: seq<UintN>): (b: seq<Byte>)
    ensures |b| == 8 * |cs|
  {
    if cs == [] then [] else EncodeCounts(cs[..|cs| - 1]) + Le(8, cs[|cs| - 1])
  }

  function Header(r: Record): (b: seq<Byte>)
    requires r.Valid()
    ensures |b| == HEADER_SIZE
  {
    SmmDatabase.Header(r.Signature(), r.Size())
  }

  function Encode(r: Record): (b: seq<Byte>)
    requires r.Valid()
    ensures |b| == r.Size()
  {
    match r
    case ImageRecord(guid, name, entry, base, size, realBase) =>
      Cat(Header(r), guid, SmmDatabase.NameBytes(name), Le(8, entry), Le(8, base), Le(8, size), Le(8, realBase))
    case PpiRecord(counts, ppis) => Header(r) + EncodeCounts(counts) + EncodePpis(ppis)
    case MemoryRecord(begin, length, freeTop) =>
      Cat(Header(r), Le(8, begin), Le(8, length), Le(8, freeTop), [], [], [])
  }

  ghost predicate AllValid(rs: seq<Record>) {
    forall i :: 0 <= i < |rs| ==> rs[i].Valid()
  }

  ghost function EncodeAll(rs: seq<Record>): seq<Byte>
    requires AllValid(rs)
  {
    if rs == [] then [] else EncodeAll(rs[..|rs| - 1]) + Encode(rs[|rs| - 1])
  }

  lemma EncodeAllSnoc(rs: seq<Record>, r: Record)
    requires AllValid(rs) && r.Valid()
    ensures AllValid(rs + [r]) && EncodeAll(rs + [r]) == EncodeAll(rs) + Encode(r)
  {
    assert (rs + [r])[..|rs|] == rs;
  }

  /* ---------- the application's view ---------- */

  function ParsePpi(s: seq<Byte>, off: nat): Ppi
    requires off + PPI_SIZE <= |s|
  {
    Ppi(Field64(s, off), s[off + 8..off + 24], Field64(s, off + 24), Field64(s, off + 32))
  }

  function ParsePpis(s: seq<Byte>, off: nat, n: nat): (ps: seq<Ppi>)
    requires off + PPI_SIZE * n <= |s|
    ensures |ps| == n
  {
    if n == 0 then [] else ParsePpis(s, off, n - 1) + [ParsePpi(s, off + PPI_SIZE * (n - 1))]
  }

  function ParseCounts(s: seq<Byte>, off: nat, n: nat): (cs: seq<UintN>)
    requires off + 8 * n <= |s|
    ensures |cs| == n
  {
    if n == 0 then [] else ParseCounts(s, off, n - 1) + [Field64(s, off + 8 * (n - 1))]
  }

  predicate WellFormedChunk(chunk: seq<Byte>)
    requires |chunk| >= HEADER_SIZE
  {
    var signature := Field32(chunk, 0);
    && (signature == IMAGE_SIGNATURE ==> |chunk| == IMAGE_SIZE)
    && (signature == PPI_SIGNATURE ==>
        |chunk| >= PPI_DATABASE_SIZE &&
        |chunk| == PPI_DATABASE_SIZE + PPI_SIZE * Total(ParseCounts(chunk, HEADER_SIZE, 8)))
    && (signature == MEMORY_SIGNATURE ==> |chunk| == MEMORY_SIZE)
  }

  /** Stepping by Header.Length never leaves the HOB data and ends exactly at its end. */
  predicate WellFormed(db: seq<Byte>)
    decreases |db|
  {
    db == [] ||
    (|db| >= HEADER_SIZE && HEADER_SIZE <= Field32(db, 4) <= |db| &&
     WellFormedChunk(db[..Field32(db, 4)]) && WellFormed(db[Field32(db, 4)..]))
  }

  function Parse(chunk: seq<Byte>): Option<Record>
    requires |chunk| >= HEADER_SIZE && WellFormedChunk(chunk)
  {
    var signature := Field32(chunk, 0);
    if signature == IMAGE_SIGNATURE then
      Some(ImageRecord(chunk[12..28], SmmDatabase.ParseName(chunk[28..100]), Field64(chunk, 100),
                       Field64(chunk, 108), Field64(chunk, 116), Field64(chunk, 124)))
    else if signature == PPI_SIGNATURE then
      var counts := ParseCounts(chunk, HEADER_SIZE, 8);
      Some(PpiRecord(counts, ParsePpis(chunk, PPI_DATABASE_SIZE, Total(counts))))
    else if signature == MEMORY_SIGNATURE then
      Some(MemoryRecord(Field64(chunk, 12), Field64(chunk, 20), Field64(chunk, 28)))
    else None
  }

  function Walk(db: seq<Byte>): seq<Record>
    requires WellFormed(db)
    decreases |db|
  {
    if db == [] then []
    else
      var r := Parse(db[..Field32(db, 4)]);
      (if r.Some? then [r.value] else []) + Walk(db[Field32(db, 4)..])
  }

  /* ---------- decoding undoes encoding ---------- */

  lemma EncodedHeader(r: Record, post: seq<Byte>)
    requires r.Valid()
    ensures Field32(Encode(r) + post, 0) == r.Signature() && Field32(Encode(r) + post, 4) == r.Size()
    ensures Encode(r)[..HEADER_SIZE] == Header(r)
  {
    hide Field32, Cat, EncodeCounts, EncodePpis, SmmDatabase.Header, SmmDatabase.NameBytes, Le;
    var s := Encode(r);
    assert s[..HEADER_SIZE] == Header(r) by {
      match r
      case ImageRecord(guid, name, entry, base, size, realBase) =>
        Loads(Header(r), guid, SmmDatabase.NameBytes(name), Le(8, entry), Le(8, base), Le(8, size), Le(8, realBase),
              []);
        assert s + [] == s;
      case PpiRecord(counts, ppis) =>
        SliceOfCat(Header(r), EncodeCounts(counts), EncodePpis(ppis));
      case MemoryRecord(begin, length, freeTop) =>
        Loads(Header(r), Le(8, begin), Le(8, length), Le(8, freeTop), [], [], [], []);
        assert s + [] == s;
    }
    var rest := s[HEADER_SIZE..] + post;
    assert s + post == Header(r) + rest;
    SmmDatabase.HeaderFields(Header(r), r.Signature(), r.Size(), rest);
  }

  lemma ParseImage(r: Record)
    requires r.Valid() && r.ImageRecord? && Field32(Encode(r), 0) == IMAGE_SIGNATURE
    ensures WellFormedChunk(Encode(r)) && Parse(Encode(r)) == Some(r)
  {
    hide Cat, Header, Field64, Field32, SmmDatabase.ParseName, SmmDatabase.NameBytes, Le;
    var s := Encode(r);
    assert s + [] == s;
    Loads(Header(r), r.fileGuid, SmmDatabase.NameBytes(r.name), Le(8, r.entryPoint), Le(8, r.imageBase),
          Le(8, r.imageSize), Le(8, r.realImageBase), []);
    SmmDatabase.ParseNameBytes(r.name);
    SmmDatabase.LeField(s, 100, r.entryPoint);
    SmmDatabase.LeField(s, 108, r.imageBase);
    SmmDatabase.LeField(s, 116, r.imageSize);
    SmmDatabase.LeField(s, 124, r.realImageBase);
  }

  lemma ParseMemory(r: Record)
    requires r.Valid() && r.MemoryRecord? && Field32(Encode(r), 0) == MEMORY_SIGNATURE
    ensures WellFormedChunk(Encode(r)) && Parse(Encode(r)) == Some(r)
  {
    hide Cat, Header, Field64, Field32, Le;
    var s := Encode(r);
    assert s + [] == s;
    Loads(Header(r), Le(8, r.begin), Le(8, r.length), Le(8, r.freeTop), [], [], [], []);
    SmmDatabase.LeField(s, 12, r.begin);
    SmmDatabase.LeField(s, 20, r.length);
    SmmDatabase.LeField(s, 28, r.freeTop);
  }

  lemma {:induction false} ParseCountsAt(s: seq<Byte>, off: nat, cs: seq<UintN>)
    requires off + 8 * |cs| <= |s| && s[off..off + 8 * |cs|] == EncodeCounts(cs)
    ensures ParseCounts(s, off, |cs|) == cs
  {
    hide Field64, Le;
    if cs != [] {
      var n := |cs| - 1;
      SliceOfSlice(s, off, off + 8 * |cs|, 0, 8 * n);
      SliceOfSlice(s, off, off + 8 * |cs|, 8 * n, 8 * |cs|);
      assert EncodeCounts(cs)[..8 * n] == EncodeCounts(cs[..n]);
      assert EncodeCounts(cs)[8 * n..] == Le(8, cs[n]);
      ParseCountsAt(s, off, cs[..n]);
      SmmDatabase.LeField(s, off + 8 * n, cs[n]);
    }
  }

  lemma ParsePpiAt(s: seq<Byte>, off: nat, p: Ppi)
    requires off + PPI_SIZE <= |s| && s[off..off + PPI_SIZE] == EncodePpi(p)
    ensures ParsePpi(s, off) == p
  {
    hide Field64, Le, Cat;
    var b := s[off..off + PPI_SIZE];
    assert b == Cat(Le(8, p.flags), p.guid, Le(8, p.target), Le(8, p.imageRef), [], [], []) by { CatFour(p); }
    assert b + [] == b;
    Loads(Le(8, p.flags), p.guid, Le(8, p.target), Le(8, p.imageRef), [], [], [], []);
    SliceOfSlice(s, off, off + PPI_SIZE, 0, 8);
    SliceOfSlice(s, off, off + PPI_SIZE, 8, 24);
    SliceOfSlice(s, off, off + PPI_SIZE, 24, 32);
    SliceOfSlice(s, off, off + PPI_SIZE, 32, 40);
    SmmDatabase.LeField(s, off, p.flags);
    SmmDatabase.LeField(s, off + 24, p.target);
    SmmDatabase.LeField(s, off + 32, p.imageRef);
  }

  lemma CatFour(p: Ppi)
    ensures Cat(Le(8, p.flags), p.guid, Le(8, p.target), Le(8, p.imageRef), [], [], []) == EncodePpi(p)
  {
    hide Le;
  }

  lemma {:induction false} ParsePpisAt(s: seq<Byte>, off: nat, ps: seq<Ppi>)
    requires off + PPI_SIZE * |ps| <= |s| && s[off..off + PPI_SIZE * |ps|] == EncodePpis(ps)
    ensures ParsePpis(s, off, |ps|) == ps
  {
    hide ParsePpi, EncodePpi;
    if ps != [] {
      var n := |ps| - 1;
      SliceOfSlice(s, off, off + PPI_SIZE * |ps|, 0, PPI_SIZE * n);
      SliceOfSlice(s, off, off + PPI_SIZE * |ps|, PPI_SIZE * n, PPI_SIZE * |ps|);
      assert EncodePpis(ps)[..PPI_SIZE * n] == EncodePpis(ps[..n]);
      assert EncodePpis(ps)[PPI_SIZE * n..] == EncodePpi(ps[n]);
      ParsePpisAt(s, off, ps[..n]);
      ParsePpiAt(s, off + PPI_SIZE * n, ps[n]);
    }
  }

  lemma ParsePpiDatabase(r: Record)
    requires r.Valid() && r.PpiRecord? && Field32(Encode(r), 0) == PPI_SIGNATURE
    ensures WellFormedChunk(Encode(r)) && Parse(Encode(r)) == Some(r)
  {
    hide Header, Field64, Field32, ParseCounts, ParsePpis, EncodeCounts, EncodePpis;
    var s := Encode(r);
    SliceOfCat(Header(r), EncodeCounts(r.counts), EncodePpis(r.ppis));
    assert s[76..] == EncodePpis(r.ppis);
    ParseCountsAt(s, HEADER_SIZE, r.counts);
    ParsePpisAt(s, PPI_DATABASE_SIZE, r.ppis);
  }

  lemma ParseEncode(r: Record)
    requires r.Valid()
    ensures WellFormedChunk(Encode(r)) && Parse(Encode(r)) == Some(r)
  {
    hide Encode, WellFormedChunk, Parse;
    EncodedHeader(r, []);
    assert Encode(r) + [] == Encode(r);
    match r
    case ImageRecord(_, _, _, _, _, _) => ParseImage(r);
    case PpiRecord(_, _) => ParsePpiDatabase(r);
    case MemoryRecord(_, _, _) => ParseMemory(r);
  }

  /** What follows a record decides whether the whole is well formed. */
  lemma WellFormedOne(r: Record, tail: seq<Byte>)
    requires r.Valid()
    ensures WellFormed(Encode(r) + tail) <==> WellFormed(tail)
  {
    hide Encode, WellFormedChunk, Parse, Field32;
    var db := Encode(r) + tail;
    EncodedHeader(r, tail);
    assert db[..r.Size()] == Encode(r) && db[r.Size()..] == tail;
    ParseEncode(r);
  }

  lemma {:induction false} WellFormedTail(rs: seq<Record>, tail: seq<Byte>)
    requires AllValid(rs)
    ensures WellFormed(EncodeAll(rs) + tail) <==> WellFormed(tail)
  {
    hide Encode, WellFormed;
    if rs == [] {
      assert EncodeAll(rs) + tail == tail;
    } else {
      var n := |rs| - 1;
      WellFormedOne(rs[n], tail);
      WellFormedTail(rs[..n], Encode(rs[n]) + tail);
      ConcatAssoc(EncodeAll(rs[..n]), Encode(rs[n]), tail);
    }
  }

  lemma WalkOne(r: Record, tail: seq<Byte>)
    requires r.Valid() && WellFormed(tail)
    ensures WellFormed(Encode(r) + tail) && Walk(Encode(r) + tail) == [r] + Walk(tail)
  {
    hide Encode, WellFormedChunk, Parse, Field32;
    var db := Encode(r) + tail;
    EncodedHeader(r, tail);
    assert db[..r.Size()] == Encode(r) && db[r.Size()..] == tail;
    ParseEncode(r);
  }

  /** Walking an encoded HOB recovers its records, each once and in order, and ends at its end. */
  lemma {:induction false} WalkEncoded(rs: seq<Record>, tail: seq<Byte>)
    requires AllValid(rs) && WellFormed(tail)
    ensures WellFormed(EncodeAll(rs) + tail) && Walk(EncodeAll(rs) + tail) == rs + Walk(tail)
  {
    hide Encode, WellFormed, Walk;
    if rs == [] {
      assert EncodeAll(rs) + tail == tail;
    } else {
      var n := |rs| - 1;
      WalkOne(rs[n], tail);
      WalkEncoded(rs[..n], Encode(rs[n]) + tail);
      ConcatAssoc(EncodeAll(rs[..n]), Encode(rs[n]), tail);
      ConcatAssoc(rs[..n], [rs[n]], Walk(tail));
    }
  }
}
