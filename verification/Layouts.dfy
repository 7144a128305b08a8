/** Byte order, and one example of each structure the tools read, byte by byte: an independent statement of the field
    offsets that reading and writing share. */
module Layouts {
  import opened Bytes
  import opened FlatMemory
  import opened Options
  import opened Walks
  import PciTopology
  import opened VtdOwnership
  import VtdUnits
  import PcdDeltas
  import PcdSku
  import opened FirmwareSections
  import FirmwareSearch
  import NvStores
  import TcgFormat

  /* ---------- little-endian integers ---------- */

  /** The first byte is the least significant. With UnLeLe this fixes stores as well. */
  lemma Loads(a: Byte, b: Byte, c: Byte, d: Byte)
    ensures
      var a0: nat, b0: nat, c0: nat, d0: nat := a, b, c, d;
      && UnLe([a, b]) == a0 + 0x100 * b0
      && UnLe([a, b, c]) == a0 + 0x100 * b0 + 0x1_0000 * c0
      && UnLe([a, b, c, d]) == a0 + 0x100 * b0 + 0x1_0000 * c0 + 0x100_0000 * d0
  {
    hide UnLe;
    assert UnLe([]) == 0 by {
      UnLeZeros([]);
    }
    UnLeFirst(b, []);
    UnLeFirst(a, [b] + []);
    UnLeFirst(c, []);
    UnLeFirst(b, [c] + []);
    UnLeFirst(a, [b] + ([c] + []));
    UnLeFirst(d, []);
    UnLeFirst(c, [d] + []);
    UnLeFirst(b, [c] + ([d] + []));
    UnLeFirst(a, [b] + ([c] + ([d] + [])));
    assert [a] + ([b] + []) == [a, b];
    assert [a] + ([b] + ([c] + [])) == [a, b, c];
    assert [a] + ([b] + ([c] + ([d] + []))) == [a, b, c, d];
  }

  lemma UnLeFirst(x: Byte, rest: seq<Byte>)
    ensures UnLe([x] + rest) == (var x0: nat := x; x0 + 256 * UnLe(rest))
  {
    assert ([x] + rest)[1..] == rest;
  }

  lemma Load16(m: Memory, p: nat, a: Byte, b: Byte)
    requires m(p) == a && m(p + 1) == b
    ensures U16(m, p) == (var a0: nat, b0: nat := a, b; a0 + 0x100 * b0)
  {
    assert Read(m, p, 2) == [a, b];
    Loads(a, b, 0, 0);
  }

  lemma Load24(m: Memory, p: nat, a: Byte, b: Byte, c: Byte)
    requires m(p) == a && m(p + 1) == b && m(p + 2) == c
    ensures U24(m, p) == (var a0: nat, b0: nat, c0: nat := a, b, c; a0 + 0x100 * b0 + 0x1_0000 * c0)
  {
    assert Read(m, p, 3) == [a, b, c];
    Loads(a, b, c, 0);
  }

  lemma Load32(m: Memory, p: nat, a: Byte, b: Byte, c: Byte, d: Byte)
    requires m(p) == a && m(p + 1) == b && m(p + 2) == c && m(p + 3) == d
    ensures U32(m, p) ==
      (var a0: nat, b0: nat, c0: nat, d0: nat := a, b, c, d; a0 + 0x100 * b0 + 0x1_0000 * c0 + 0x100_0000 * d0)
  {
    var s := Read(m, p, 4);
    assert s[0..4] == [a, b, c, d];
    Loads(a, b, c, d);
  }

  /** A 64-bit load of a value below 2^32. */
  lemma Load64(m: Memory, p: nat, a: Byte, b: Byte, c: Byte, d: Byte)
    requires m(p) == a && m(p + 1) == b && m(p + 2) == c && m(p + 3) == d
    requires m(p + 4) == m(p + 5) == m(p + 6) == m(p + 7) == 0
    ensures U64(m, p) ==
      (var a0: nat, b0: nat, c0: nat, d0: nat := a, b, c, d; a0 + 0x100 * b0 + 0x1_0000 * c0 + 0x100_0000 * d0)
  {
    var s := Read(m, p, 8);
    assert s[0..8] == [a] + ([b] + ([c] + ([d] + [0, 0, 0, 0])));
    UnLeZeros([0, 0, 0, 0]);
    UnLeFirst(d, [0, 0, 0, 0]);
    UnLeFirst(c, [d] + [0, 0, 0, 0]);
    UnLeFirst(b, [c] + ([d] + [0, 0, 0, 0]));
    UnLeFirst(a, [b] + ([c] + ([d] + [0, 0, 0, 0])));
  }

  /* ---------- firmware ---------- */

  /** A RAW section of 17 bytes, and a section of 0x0100_0011 bytes with the longer header. */
  lemma SectionExample(m: Memory, p: nat)
    requires Read(m, p, 4) == [0x11, 0, 0, 0x19]
    ensures SectionAt(m, p) == Section(p, 17, EFI_SECTION_RAW, 4) && NextSection(m, p) == p + 20
  {
    Bytes4(m, p);
    Load24(m, p, 0x11, 0, 0);
  }

  lemma LongSectionExample(m: Memory, p: nat)
    requires Read(m, p, 4) == [0xFF, 0xFF, 0xFF, 0x02] && Read(m, p + 4, 4) == [0x11, 0, 0, 1]
    ensures SectionAt(m, p) == Section(p, 0x0100_0011, 2, 8) && NextSection(m, p) == p + 0x0100_0014
  {
    Bytes4(m, p);
    Bytes4(m, p + 4);
    Load24(m, p, 0xFF, 0xFF, 0xFF);
    Load32(m, p + 4, 0x11, 0, 0, 1);
  }

  lemma Bytes4(m: Memory, p: nat)
    ensures Read(m, p, 4) == [m(p), m(p + 1), m(p + 2), m(p + 3)]
  {
  }

  /** A file of type 2 and 25 bytes. */
  lemma FileExample(m: Memory, p: nat, fileType: Byte)
    requires Read(m, p + 18, 5) == [2, 0, 0x19, 0, 0]
    ensures FirmwareSearch.FileSize(m, p) == 25 && FirmwareSearch.NextFile(m, p) == p + 32
    ensures FirmwareSearch.Matches(m, p, Read(m, p, 16), fileType) <==> fileType == 0 || fileType == 2
  {
    var s := Read(m, p + 18, 5);
    assert s[0] == m(p + 18) && s[1] == m(p + 19) && s[2] == m(p + 20) && s[3] == m(p + 21) && s[4] == m(p + 22);
    Load24(m, p + 20, 0x19, 0, 0);
  }

  /** A large file: the size is the 32-bit field behind the short header. */
  lemma LargeFileExample(m: Memory, p: nat)
    requires m(p + 19) == 1 && Read(m, p + 24, 4) == [0, 0, 0, 1]
    ensures FirmwareSearch.FileSize(m, p) == 0x100_0000 && FirmwareSearch.NextFile(m, p) == p + 0x100_0000
  {
    Bytes4(m, p + 24);
    Load32(m, p + 24, 0, 0, 0, 1);
  }

  /** A volume of 2MB whose files start behind a header of 0x48 bytes, or behind an extended header of 0x15 bytes at
      0x60. */
  lemma VolumeExample(m: Memory, fv: nat)
    requires Read(m, fv + 32, 4) == [0, 0, 0x20, 0] && Read(m, fv + 36, 4) == [0, 0, 0, 0]
    requires Read(m, fv + 40, 4) == [0x5F, 0x46, 0x56, 0x48] && Read(m, fv + 48, 4) == [0x48, 0, 0, 0]
    ensures FirmwareSearch.IsVolume(m, fv) && FirmwareSearch.FvLength(m, fv) == 0x20_0000
    ensures Read(m, fv + 52, 4) == [0, 0, 0, 0] && fv % 8 == 0 ==> FirmwareSearch.FirstFile(m, fv) == fv + 0x48
    ensures Read(m, fv + 52, 4) == [0x60, 0, 0, 0] && Read(m, fv + 112, 4) == [0x15, 0, 0, 0] ==>
      FirmwareSearch.FirstFile(m, fv) == fv + 0x78
  {
    hide U16, U32, U64;
    Bytes4(m, fv + 32);
    Bytes4(m, fv + 36);
    Bytes4(m, fv + 40);
    Bytes4(m, fv + 48);
    Bytes4(m, fv + 52);
    Bytes4(m, fv + 112);
    Load64(m, fv + 32, 0, 0, 0x20, 0);
    Load32(m, fv + 40, 0x5F, 0x46, 0x56, 0x48);
    Load16(m, fv + 48, 0x48, 0);
    Load16(m, fv + 52, m(fv + 52), m(fv + 53));
    Load32(m, fv + 112, m(fv + 112), m(fv + 113), m(fv + 114), m(fv + 115));
  }

  /** Without the signature the search goes on 4KB further; with it, the volume is searched if it fits, and followed by
      the one behind it. One byte is not looked at. */
  lemma VolumeStepExample(m: Memory, p: nat, end: nat)
    ensures p + 1 == end ==> FirmwareSearch.VisitOf(m, p, end).Leave?
    ensures p + 1 < end && Read(m, p + 40, 4) == [0, 0, 0, 0] ==>
      FirmwareSearch.VisitOf(m, p, end).GoOn? && FirmwareSearch.NextVolume(m, p) == p + 0x1000
    ensures
      && p + 1 < end && Read(m, p + 32, 4) == [0, 0, 0x20, 0] && Read(m, p + 36, 4) == [0, 0, 0, 0]
      && Read(m, p + 40, 4) == [0x5F, 0x46, 0x56, 0x48] ==>
      && (FirmwareSearch.VisitOf(m, p, end).Search? <==> p + 0x20_0000 <= end)
      && (FirmwareSearch.VisitOf(m, p, end).Leave? <==> p + 0x20_0000 > end)
      && FirmwareSearch.NextVolume(m, p) == p + 0x20_0000
  {
    hide U32, U64;
    Bytes4(m, p + 32);
    Bytes4(m, p + 36);
    Bytes4(m, p + 40);
    Load32(m, p + 40, m(p + 40), m(p + 41), m(p + 42), m(p + 43));
    if Read(m, p + 32, 4) == [0, 0, 0x20, 0] && Read(m, p + 36, 4) == [0, 0, 0, 0] {
      Load64(m, p + 32, 0, 0, 0x20, 0);
    }
  }

  /** The files end one byte before the end of the volume, or where 24 bytes, or all that are left, are 0xFF. */
  lemma EndOfFilesExample(m: Memory, p: nat)
    ensures FirmwareSearch.NoMoreFiles(m, p, p + 1)
    ensures FirmwareSearch.NoMoreFiles(m, p, p + 2) <==> m(p) == 0xFF && m(p + 1) == 0xFF
    ensures FirmwareSearch.NoMoreFiles(m, p, p + 100) <==> forall i :: p <= i < p + 24 ==> m(i) == 0xFF
  {
    assert Read(m, p, 2)[0] == m(p) && Read(m, p, 2)[1] == m(p + 1);
    assert forall i :: 0 <= i < 24 ==> Read(m, p, 24)[i] == m(p + i);
    forall i | p <= i < p + 24
      ensures m(i) == Read(m, p, 24)[i - p]
    {
    }
  }

  /** A volume at 0 whose first file has the name asked for, 0x58 bytes and one RAW section of 0x40 bytes. */
  ghost predicate OneDatabase(m: Memory, name: Guid, signature: Guid) {
    && Read(m, 32, 4) == [0, 0, 0x20, 0] && Read(m, 36, 4) == [0, 0, 0, 0]
    && Read(m, 40, 4) == [0x5F, 0x46, 0x56, 0x48] && Read(m, 48, 4) == [0x48, 0, 0, 0] && Read(m, 52, 4) == [0, 0, 0, 0]
    && Read(m, 0x48, 16) == name && Read(m, 0x5A, 5) == [2, 0, 0x58, 0, 0]
    && Read(m, 0x60, 4) == [0x40, 0, 0, 0x19] && Read(m, 0x64, 16) == signature
  }

  /** The database is the data of that section: 0x3C bytes at 0x64. */
  lemma DatabaseExample(m: Memory, name: Guid, signature: Guid)
    requires OneDatabase(m, name, signature)
    ensures FirmwareSearch.IsVolume(m, 0) && FirmwareSearch.IsImagePcdDb(m, 0, name, signature, Some((0x64, 0x3C)))
  {
    VolumeExample(m, 0);
    OneFile(m, name, signature);
    OneSection(m, name, signature);
    hide OneDatabase, FirmwareSearch.FvLength, FirmwareSearch.FirstFile, IsFirstDatabase, FirmwareSearch.FileSize,
      FirmwareSearch.IsVolume, FirmwareSearch.IsFirstFile;
    assert FirmwareSearch.IsFirstInVolume(m, 0, name, 0, Some(0x48));
    assert FirmwareSearch.IsFirstInFile(m, 0x48, signature, Some((0x64, 0x3C)));
  }

  lemma OneFile(m: Memory, name: Guid, signature: Guid)
    requires OneDatabase(m, name, signature)
    ensures FirmwareSearch.IsFirstFile(m, 0x48, 0x20_0000, name, 0, Some(0x48))
    ensures FirmwareSearch.ContentStart(m, 0x48) == 0x60 && FirmwareSearch.ContentSize(m, 0x48) == 0x40
  {
    var s := Read(m, 0x5A, 5);
    assert s[0] == m(0x5A) && s[1] == m(0x5B) && s[2] == m(0x5C) && s[3] == m(0x5D) && s[4] == m(0x5E);
    Load24(m, 0x5C, 0x58, 0, 0);
    assert FirmwareSearch.Matches(m, 0x48, name, 0);
    assert Read(m, 0x48, 24)[18] == m(0x5A);
    assert !FirmwareSearch.NoMoreFiles(m, 0x48, 0x20_0000);
    hide OneDatabase, FirmwareSearch.NoMoreFiles, FirmwareSearch.Matches, FirmwareSearch.FileSize, U24;
    StepNone(FirmwareSearch.FileLoop(m), 0x48);
  }

  lemma OneSection(m: Memory, name: Guid, signature: Guid)
    requires OneDatabase(m, name, signature)
    ensures IsFirstDatabase(m, 0x60, 0xA0, signature, Some((0x64, 0x3C)))
  {
    Bytes4(m, 0x60);
    Load24(m, 0x60, 0x40, 0, 0);
    hide U24;
    assert SectionAt(m, 0x60) == Section(0x60, 0x40, EFI_SECTION_RAW, 4);
    assert DatabaseAt(m, 0x60, signature);
    assert Position(m, 0x60, 0) == 0x60;
    assert IsDatabaseAfter(m, 0x60, 0xA0, signature, Some((0x64, 0x3C)), 0);
  }

  /* ---------- PCD data ---------- */

  lemma DeltaExample(m: Memory, p: nat)
    requires Read(m, p, 4) == [0x10, 2, 0, 0x55]
    ensures PcdDeltas.DeltaAt(m, p) == PcdDeltas.Delta(0x210, 0x55)
  {
    Bytes4(m, p);
    Load24(m, p, 0x10, 2, 0);
  }

  /** A record of SKU 7 with two deltas. */
  lemma SkuRecordExample(db: PcdSku.PcdDatabase, p: nat)
    requires p % 8 == 0 && Read(db.mem, p, 4) == [7, 0, 0, 0] && Read(db.mem, p + 4, 4) == [0, 0, 0, 0]
    requires Read(db.mem, p + 16, 4) == [28, 0, 0, 0]
    requires Read(db.mem, p + 20, 4) == Read(db.mem, p + 24, 4) == [0x10, 2, 0, 0x55]
    ensures db.RecordAt(p) == PcdSku.SkuRecord(7, [PcdDeltas.Delta(0x210, 0x55), PcdDeltas.Delta(0x210, 0x55)])
    ensures db.Next(p) == p + 32
  {
    hide U32, U64, PcdDeltas.Deltas;
    var m := db.mem;
    Bytes4(m, p);
    Bytes4(m, p + 4);
    Bytes4(m, p + 16);
    Load64(m, p, 7, 0, 0, 0);
    Load32(m, p + 16, 28, 0, 0, 0);
    TwoDeltas(m, p + 20);
    assert p == 8 * (p / 8);
    Multiples(0, p / 8 + 4);
  }

  /** A default NV store whose first record header has 1 byte: the variable store is at 24, its variables start at
      52, and a variable there with a name of 4 bytes has its 3 bytes of data at 88, or at 116 in the other format. */
  lemma VariableExample(m: Memory)
    requires Read(m, 20, 4) == [1, 0, 0, 0]
    ensures NvStores.VariableStore(m) == 24 && NvStores.FirstVariable(m) == 52
    ensures Read(m, 60, 4) == [4, 0, 0, 0] && Read(m, 64, 4) == [3, 0, 0, 0] ==>
      NvStores.VariableAt(m, NvStores.NORMAL, 52) == NvStores.Variable(88, 3)
      && NvStores.NextVariable(m, NvStores.NORMAL, 52) == 92
    ensures Read(m, 88, 4) == [4, 0, 0, 0] && Read(m, 92, 4) == [3, 0, 0, 0] ==>
      NvStores.VariableAt(m, NvStores.AUTHENTICATED, 52) == NvStores.Variable(116, 3)
      && NvStores.NextVariable(m, NvStores.AUTHENTICATED, 52) == 120
  {
    hide U32;
    Bytes4(m, 20);
    Bytes4(m, 60);
    Bytes4(m, 64);
    Bytes4(m, 88);
    Bytes4(m, 92);
    Load32(m, 20, 1, 0, 0, 0);
    Load32(m, 60, m(60), m(61), m(62), m(63));
    Load32(m, 64, m(64), m(65), m(66), m(67));
    Load32(m, 88, m(88), m(89), m(90), m(91));
    Load32(m, 92, m(92), m(93), m(94), m(95));
  }

  /** Offsets of deltas count from the variable store: with the store at 24, offset 64 is the first byte of the data at
      88. */
  lemma LineExample(m: Memory)
    requires Read(m, 20, 4) == [1, 0, 0, 0]
    ensures
      var store, v := NvStores.Store(5, 2, [PcdDeltas.Delta(64, 0x55)]), NvStores.Variable(88, 3);
      NvStores.Changes(m, store, v) && NvStores.LineFor(m, store, v) == NvStores.SkuLine([0x55, m(89), m(90)], 5, 2)
  {
    VariableExample(m);
    hide NvStores.VariableStore;
    var d := PcdDeltas.Delta(64, 0x55);
    assert PcdDeltas.Hits([d][0], 24, 88, 3);
    assert Read(m, 88, 3) == [m(88), m(89), m(90)];
    assert [d][..0] == [];
    assert PcdDeltas.Overlay([m(88), m(89), m(90)], [], 24, 88) == [m(88), m(89), m(90)];
    assert PcdDeltas.Overlay([m(88), m(89), m(90)], [d], 24, 88) == [0x55, m(89), m(90)];
  }

  /** A record of 28 bytes for SKU 5 and default store 2, with two deltas behind its header of 16 bytes. */
  lemma StoreExample(m: Memory, p: nat)
    requires p % 8 == 0 && Read(m, p, 4) == [28, 0, 0, 0] && Read(m, p + 4, 4) == [16, 0, 0, 0]
    requires Read(m, p + 8, 4) == [5, 0, 0, 0] && Read(m, p + 12, 4) == [0, 0, 0, 0]
    requires Read(m, p + 16, 4) == [2, 0, 0, 0]
    requires Read(m, p + 20, 4) == Read(m, p + 24, 4) == [0x10, 2, 0, 0x55]
    ensures NvStores.StoreAt(m, p) == NvStores.Store(5, 2, [PcdDeltas.Delta(0x210, 0x55), PcdDeltas.Delta(0x210, 0x55)])
    ensures NvStores.NextStore(m, p) == p + 32
  {
    hide U16, U32, U64, PcdDeltas.Deltas, PcdDeltas.DeltasEnd, NvStores.FirstDelta, AlignUp;
    Bytes4(m, p);
    Bytes4(m, p + 8);
    Bytes4(m, p + 12);
    Bytes4(m, p + 16);
    Load32(m, p, 28, 0, 0, 0);
    Load64(m, p + 8, 5, 0, 0, 0);
    Load16(m, p + 16, 2, 0);
    FirstDeltaExample(m, p);
    TwoDeltas(m, p + 20);
  }

  lemma FirstDeltaExample(m: Memory, p: nat)
    requires p % 8 == 0 && Read(m, p + 4, 4) == [16, 0, 0, 0]
    ensures NvStores.FirstDelta(m, p) == p + 20 && AlignUp(p + 28, 8) == p + 32
  {
    hide U32, AlignUp;
    Bytes4(m, p + 4);
    Load32(m, p + 4, 16, 0, 0, 0);
    assert p == 8 * (p / 8);
    Multiples(2 * (p / 8) + 5, p / 8 + 4);
  }

  lemma Multiples(j: nat, k: nat)
    ensures AlignUp(4 * j, 4) == 4 * j && (k > 0 ==> AlignUp(8 * k - 4, 8) == 8 * k)
  {
  }

  lemma TwoDeltas(m: Memory, p: nat)
    requires Read(m, p, 4) == Read(m, p + 4, 4) == [0x10, 2, 0, 0x55]
    ensures PcdDeltas.Deltas(m, p, p + 8) == [PcdDeltas.Delta(0x210, 0x55), PcdDeltas.Delta(0x210, 0x55)]
    ensures PcdDeltas.DeltasEnd(p, p + 8) == p + 8
  {
    DeltaExample(m, p);
    DeltaExample(m, p + 4);
    hide PcdDeltas.DeltaAt;
    assert PcdDeltas.Deltas(m, p + 8, p + 8) == [];
    assert PcdDeltas.Deltas(m, p + 4, p + 8) == [PcdDeltas.DeltaAt(m, p + 4)];
    assert PcdDeltas.DeltasEnd(p + 8, p + 8) == p + 8;
    assert PcdDeltas.DeltasEnd(p + 4, p + 8) == p + 8;
  }

  /* ---------- DMAR and PCI ---------- */

  /** A DRHD structure behind a table header: INCLUDE_PCI_ALL, segment 0x1234, registers at 0xFED9_0000, a bridge on
      bus 0 and an endpoint behind it. */
  ghost predicate OneDrhd(table: seq<Byte>) {
    && |table| == 82
    && table[48..64] == [0, 0, 34, 0, 1, 0, 0x34, 0x12, 0, 0, 0xD9, 0xFE, 0, 0, 0, 0]
    && table[64..72] == [2, 8, 0, 0, 0, 0, 3, 1]
    && table[72..82] == [1, 10, 0, 0, 0, 0, 3, 1, 2, 4]
  }

  lemma DrhdFields(table: seq<Byte>)
    requires OneDrhd(table)
    ensures VtdUnits.StructureType(table, 48) == 0 && VtdUnits.StructureLength(table, 48) == 34
    ensures Word(table[54], table[55]) == 0x1234 && table[52] == 1
    ensures table[64] == 2 && table[65] == 8 && table[69] == 0 && table[70] == 3 && table[71] == 1
    ensures table[72] == 1 && table[73] == 10 && table[77] == 0
    ensures table[78] == 3 && table[79] == 1 && table[80] == 2 && table[81] == 4
  {
    var a, b, c := table[48..64], table[64..72], table[72..82];
    assert a[0] == table[48] && a[1] == table[49] && a[2] == table[50] && a[3] == table[51];
    assert a[4] == table[52] && a[6] == table[54] && a[7] == table[55];
    assert b[0] == table[64] && b[1] == table[65] && b[5] == table[69] && b[6] == table[70] && b[7] == table[71];
    assert c[0] == table[72] && c[1] == table[73] && c[5] == table[77];
    assert c[6] == table[78] && c[7] == table[79] && c[8] == table[80] && c[9] == table[81];
  }

  lemma DrhdIsWellFormed(table: seq<Byte>)
    requires OneDrhd(table)
    ensures VtdUnits.IsDrhd(table, 48) && VtdUnits.WellFormedTable(table, 48) && VtdUnits.DrhdOffsets(table, 48) == [48]
    ensures VtdUnits.WellFormedScopes(table, 64, 82) && VtdUnits.WellFormedScopes(table, 72, 82)
  {
    DrhdFields(table);
    hide OneDrhd;
    assert VtdUnits.WellFormedScopes(table, 82, 82);
    assert VtdUnits.WellFormedScopes(table, 72, 82);
    assert VtdUnits.WellFormedTable(table, 82);
    assert VtdUnits.DrhdOffsets(table, 82) == [];
  }

  lemma DrhdExample(cfg: PciTopology.Config, table: seq<Byte>)
    requires OneDrhd(table)
    ensures VtdUnits.IsDrhd(table, 48)
    ensures
      var bridge := PciTopology.SourceId(0, 3, 1);
      VtdUnits.DrhdAt(cfg, table, 48) == Drhd(0xFED9_0000, 0x1234, true,
        [Scope(2, bridge), Scope(1, PciTopology.SourceId(cfg(0x1234, bridge, 0x19), 2, 4))])
  {
    DrhdIsWellFormed(table);
    DrhdFields(table);
    RegisterBase(table);
    ScopesExample(cfg, table);
  }

  lemma RegisterBase(table: seq<Byte>)
    requires OneDrhd(table)
    ensures Field64(table, 56) == 0xFED9_0000
  {
    assert table[56..64] == table[48..64][8..16];
    assert table[56..64] == [0] + ([0] + ([0xD9] + ([0xFE] + [0, 0, 0, 0])));
    hide OneDrhd;
    UnLeZeros([0, 0, 0, 0]);
    UnLeFirst(0xFE, [0, 0, 0, 0]);
    UnLeFirst(0xD9, [0xFE] + [0, 0, 0, 0]);
    UnLeFirst(0, [0xD9] + ([0xFE] + [0, 0, 0, 0]));
    UnLeFirst(0, [0] + ([0xD9] + ([0xFE] + [0, 0, 0, 0])));
  }

  lemma ScopesExample(cfg: PciTopology.Config, table: seq<Byte>)
    requires OneDrhd(table)
    ensures VtdUnits.WellFormedScopes(table, 64, 82)
    ensures
      var bridge := PciTopology.SourceId(0, 3, 1);
      VtdUnits.ScopesAt(cfg, 0x1234, table, 64, 82)
        == [Scope(2, bridge), Scope(1, PciTopology.SourceId(cfg(0x1234, bridge, 0x19), 2, 4))]
  {
    DrhdIsWellFormed(table);
    DrhdFields(table);
    hide OneDrhd, VtdUnits.WellFormedScopes, VtdUnits.ScopeAt;
    FirstScope(cfg, table);
    SecondScope(cfg, table);
    assert VtdUnits.ScopesAt(cfg, 0x1234, table, 82, 82) == [];
    assert VtdUnits.ScopesAt(cfg, 0x1234, table, 72, 82) == [VtdUnits.ScopeAt(cfg, 0x1234, table, 72, 82)];
  }

  lemma FirstScope(cfg: PciTopology.Config, table: seq<Byte>)
    requires OneDrhd(table) && VtdUnits.WellFormedScopes(table, 64, 82)
    ensures VtdUnits.ScopeAt(cfg, 0x1234, table, 64, 82) == Scope(2, PciTopology.SourceId(0, 3, 1))
  {
    DrhdFields(table);
    hide OneDrhd, VtdUnits.WellFormedScopes;
    assert VtdUnits.ScopePath(table, 72, 72) == [];
    assert VtdUnits.ScopePath(table, 70, 72) == [(3, 1)];
  }

  lemma SecondScope(cfg: PciTopology.Config, table: seq<Byte>)
    requires OneDrhd(table) && VtdUnits.WellFormedScopes(table, 72, 82)
    ensures VtdUnits.ScopeAt(cfg, 0x1234, table, 72, 82)
         == Scope(1, PciTopology.SourceId(cfg(0x1234, PciTopology.SourceId(0, 3, 1), 0x19), 2, 4))
  {
    DrhdFields(table);
    hide OneDrhd, VtdUnits.WellFormedScopes;
    assert VtdUnits.ScopePath(table, 82, 82) == [];
    assert VtdUnits.ScopePath(table, 80, 82) == [(2, 4)];
    assert VtdUnits.ScopePath(table, 78, 82) == [(3, 1)] + VtdUnits.ScopePath(table, 80, 82);
    TwoHops(cfg, 0x1234, VtdUnits.ScopePath(table, 78, 82));
  }

  lemma TwoHops(cfg: PciTopology.Config, seg: nat, path: seq<(Byte, Byte)>)
    requires |path| == 2 && path[0] == (3, 1) && path[1] == (2, 4)
    ensures FollowPath(cfg, seg, 0, path)
         == PciTopology.SourceId(cfg(seg, PciTopology.SourceId(0, 3, 1), 0x19), 2, 4)
  {
    assert |path[1..]| == 1 && path[1..][0] == (2, 4);
  }

  /** A bridge to bus 2 on bus 0, and on bus 2 a device that says multi-function with a function 5: that function is
      reachable from bus 0, and its registers are recorded for an endpoint. */
  lemma BehindBridgeExample(cfg: PciTopology.Config, seg: nat, bridge: PciTopology.SourceId, fn: PciTopology.SourceId)
    requires bridge == PciTopology.SourceId(0, 1, 0) && fn == PciTopology.SourceId(2, 7, 5)
    requires cfg(seg, bridge, 0) == 0x86 && cfg(seg, bridge, 0x0B) == 6 && cfg(seg, bridge, 0x0A) == 4
    requires cfg(seg, bridge, 0x19) == 2
    requires cfg(seg, PciTopology.SourceId(2, 7, 0), 0x0E) == 0x80
    requires cfg(seg, fn, 0) == 0x86 && cfg(seg, fn, 1) == 0x80 && cfg(seg, fn, 2) == 0x34 && cfg(seg, fn, 3) == 0x12
    requires cfg(seg, fn, 8) == 3 && cfg(seg, fn, 0x2C) == 0x22 && cfg(seg, fn, 0x2D) == 0x11
    requires cfg(seg, fn, 0x2E) == 0x44 && cfg(seg, fn, 0x2F) == 0x33
    ensures PciTopology.Reachable(cfg, seg, 0, fn)
    ensures ReadPciId(cfg, seg, fn, PCI_ENDPOINT) == PciDeviceId(0x8086, 0x1234, 3, 0x1122, 0x3344)
  {
    assert PciTopology.Chain(cfg, seg, 2, [], fn);
    assert [bridge][1..] == [];
    assert PciTopology.Chain(cfg, seg, 0, [bridge], fn);
  }

  /** Vendor and device id of all ones: no function. */
  lemma AbsentExample(cfg: PciTopology.Config, seg: nat, id: PciTopology.SourceId)
    requires cfg(seg, id, 0) == cfg(seg, id, 1) == cfg(seg, id, 2) == cfg(seg, id, 3) == 0xFF
    ensures forall bus :: !PciTopology.Reachable(cfg, seg, bus, id)
  {
    forall bus, path
      ensures !PciTopology.Chain(cfg, seg, bus, path, id)
    {
      ChainEnds(cfg, seg, bus, path, id);
    }
  }

  lemma {:induction false} ChainEnds(cfg: PciTopology.Config, seg: nat, bus: Byte, path: seq<PciTopology.SourceId>,
                                     id: PciTopology.SourceId)
    ensures PciTopology.Chain(cfg, seg, bus, path, id) ==> PciTopology.Probed(cfg, seg, id)
    decreases |path|
  {
    if path != [] {
      ChainEnds(cfg, seg, PciTopology.Secondary(cfg, seg, path[0]), path[1..], id);
    }
  }

  /* ---------- TCG events ---------- */

  /** An event with one digest and one byte of data. */
  lemma EventExample(digest: seq<Byte>)
    ensures TcgFormat.EncodeEvent(TcgFormat.Event(7, 8, [TcgFormat.Digest(0x0B, digest)], [0xAA]))
         == [7, 0, 0, 0] + [8, 0, 0, 0] + [1, 0, 0, 0] + ([0x0B, 0] + digest) + [1, 0, 0, 0] + [0xAA]
  {
    Small(7);
    Small(8);
    Small(1);
    Small(0x0B);
    var ds := [TcgFormat.Digest(0x0B, digest)];
    hide Le;
    assert TcgFormat.EncodeDigests(ds) == [0x0B, 0] + digest by {
      assert TcgFormat.EncodeDigests(ds) == Le(2, 0x0B) + digest + TcgFormat.EncodeDigests([]);
    }
    hide TcgFormat.EncodeDigests;
  }

  lemma Small(v: Byte)
    ensures Le(4, v) == [v, 0, 0, 0] && Le(2, v) == [v, 0]
  {
    LeZero(3);
    LeZero(1);
    hide Le;
    LeFirst(4, v);
    LeFirst(2, v);
  }

  lemma LeFirst(n: nat, v: Byte)
    requires n > 0
    ensures Le(n, v) == [v] + Le(n - 1, 0)
  {
  }

  lemma {:induction false} LeZero(n: nat)
    ensures Le(n, 0) == seq(n, _ => 0)
  {
    if n > 0 {
      LeZero(n - 1);
    }
  }
}
