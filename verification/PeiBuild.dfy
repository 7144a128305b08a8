/** The PEI side of the dump (PeiCoreDump.c, PeiCoreDumpHob.c): counting, the image table, and the three sections
    written in place into a HOB of the counted size. */
module PeiBuild {
  import opened Bytes
  import opened Segments
  import opened Options
  import opened SmmImages
  import opened PeiHob
  import SmmDatabase

  /* ---------- the image table ---------- */

  /** What GetDriverNameString reports of a file: image base (0 if none), name (None for NULL) and GUID. */
  datatype PeimFile = PeimFile(imageBase: UintN, name: Option<seq<Char16>>, guid: Guid)

  /** PEI_CORE_FV_HANDLE: file handles, NULL ones as None. */
  datatype Volume = Volume(peimCount: nat, files: seq<Option<PeimFile>>) {
    predicate Valid() { peimCount <= |files| }
  }

  predicate AllVolumes(fvs: seq<Volume>) {
    forall i :: 0 <= i < |fvs| ==> fvs[i].Valid()
  }

  /** An image table entry as PeiCoreDump.c makes it: size 0, and no entry point. */
  function ImageOf(f: PeimFile): Image {
    Image(f.guid, 0, f.imageBase, 0, f.imageBase, CopyName(if f.name.Some? then f.name.value else []))
  }

  /** The files of a volume up to the first NULL handle. */
  function VolumeImages(files: seq<Option<PeimFile>>, n: nat): (images: seq<Image>)
    requires n <= |files|
    ensures |images| <= n
  {
    if n == 0 || files[0].None? then [] else [ImageOf(files[0].value)] + VolumeImages(files[1..], n - 1)
  }

  function ImagesOf(fvs: seq<Volume>): seq<Image>
    requires AllVolumes(fvs)
  {
    if fvs == [] then []
    else ImagesOf(fvs[..|fvs| - 1]) + VolumeImages(fvs[|fvs| - 1].files, fvs[|fvs| - 1].peimCount)
  }

  function TotalPeims(fvs: seq<Volume>): nat {
    if fvs == [] then 0 else TotalPeims(fvs[..|fvs| - 1]) + fvs[|fvs| - 1].peimCount
  }

  /** There are never more images than PEIMs counted. */
  lemma {:induction false} CapacitySuffices(fvs: seq<Volume>)
    requires AllVolumes(fvs)
    ensures |ImagesOf(fvs)| <= TotalPeims(fvs)
  {
    if fvs != [] {
      CapacitySuffices(fvs[..|fvs| - 1]);
    }
  }

  lemma {:induction false} PrefixCounts(fvs: seq<Volume>, i: nat)
    requires i <= |fvs|
    ensures TotalPeims(fvs[..i]) <= TotalPeims(fvs)
  {
    if i == |fvs| {
      assert fvs[..i] == fvs;
    } else {
      PrefixCounts(fvs[..|fvs| - 1], i);
      assert fvs[..|fvs| - 1][..i] == fvs[..i];
    }
  }

  method CalcTotalPeimCount(fvs: seq<Volume>) returns (total: nat)
    ensures total == TotalPeims(fvs)
  {
    total := 0;
    for fvIndex := 0 to |fvs|
      invariant total == TotalPeims(fvs[..fvIndex])
    {
      assert fvs[..fvIndex + 1][..fvIndex] == fvs[..fvIndex];
      total := total + fvs[fvIndex].peimCount;
    }
    assert fvs[..|fvs|] == fvs;
  }

  /** Every file up to a NULL handle gets an entry: the table is never full when one is added. */
  method DumpImageData(fvs: seq<Volume>) returns (table: ImageTable)
    requires AllVolumes(fvs) && TotalPeims(fvs) < NOT_FOUND
    ensures fresh(table) && fresh(table.imageStruct) && table.Valid()
    ensures table.imageStruct.Length == TotalPeims(fvs) && table.Images() == ImagesOf(fvs)
  {
    hide ImageOf, VolumeImages;
    var total := CalcTotalPeimCount(fvs);
    table := new ImageTable(total, false);
    for fvIndex := 0 to |fvs|
      invariant fresh(table) && fresh(table.imageStruct) && table.Valid()
      invariant !table.keepsEntryPoint && table.imageStruct.Length == total
      invariant table.Images() == ImagesOf(fvs[..fvIndex])
    {
      assert fvs[..fvIndex + 1][..fvIndex] == fvs[..fvIndex];
      PrefixCounts(fvs, fvIndex + 1);
      CapacitySuffices(fvs[..fvIndex]);
      AddVolume(table, fvs[fvIndex]);
    }
    assert fvs[..|fvs|] == fvs;
  }

  /** The inner loop of DumpImageData. */
  method AddVolume(table: ImageTable, fv: Volume)
    requires table.Valid() && !table.keepsEntryPoint && fv.Valid()
    requires |table.Images()| + fv.peimCount <= table.imageStruct.Length
    modifies table`count, table.imageStruct
    ensures table.Valid() && table.imageStruct == old(table.imageStruct)
    ensures table.Images() == old(table.Images()) + VolumeImages(fv.files, fv.peimCount)
  {
    hide CopyName;
    ghost var before := table.Images();
    var peimIndex := 0;
    while peimIndex < fv.peimCount
      invariant 0 <= peimIndex <= fv.peimCount && table.Valid() && table.imageStruct == old(table.imageStruct)
      invariant |table.Images()| == |before| + peimIndex
      invariant table.Images() + VolumeImages(fv.files[peimIndex..], fv.peimCount - peimIndex) ==
                before + VolumeImages(fv.files, fv.peimCount)
    {
      if fv.files[peimIndex].None? {
        break;
      }
      var f := fv.files[peimIndex].value;
      ghost var rest := VolumeImages(fv.files[peimIndex + 1..], fv.peimCount - peimIndex - 1);
      assert fv.files[peimIndex..][1..] == fv.files[peimIndex + 1..];
      ConcatAssoc(table.Images(), [ImageOf(f)], rest);
      table.AddImageStruct(f.imageBase, 0, f.imageBase, 0, if f.name.Some? then f.name.value else [], f.guid);
      peimIndex := peimIndex + 1;
    }
  }

  /** With sizes of 0 no address is ever inside an image: every reference the PEI side records, directly or through a
      function pointer, is not-found. */
  lemma NoAddressIsCovered(fvs: seq<Volume>, env: Env, address: UintN, ppi: Guid)
    requires AllVolumes(fvs) && TotalPeims(fvs) < NOT_FOUND && env.images == ImagesOf(fvs)
    ensures env.Valid() && ImageRef(env.images, address) == NOT_FOUND && env.RefEx(address, ppi) == NOT_FOUND
  {
    CapacitySuffices(fvs);
    SizesAreZero(fvs);
    assert forall a: UintN :: ImageRef(env.images, a) == NOT_FOUND by {
      forall a: UintN
        ensures ImageRef(env.images, a) == NOT_FOUND
      {
        NothingCovers(env.images, a);
      }
    }
  }

  lemma NothingCovers(images: seq<Image>, address: UintN)
    requires |images| < NOT_FOUND && forall image <- images :: image.imageSize == 0
    ensures ImageRef(images, address) == NOT_FOUND
  {
    forall i | 0 <= i < |images|
      ensures !Covers(images[i], address)
    {
      assert images[i] in images;
    }
  }

  lemma {:induction false} SizesAreZero(fvs: seq<Volume>)
    requires AllVolumes(fvs)
    ensures forall image <- ImagesOf(fvs) :: image.imageSize == 0
  {
    if fvs != [] {
      SizesAreZero(fvs[..|fvs| - 1]);
      VolumeSizesAreZero(fvs[|fvs| - 1].files, fvs[|fvs| - 1].peimCount);
    }
  }

  lemma {:induction false} VolumeSizesAreZero(files: seq<Option<PeimFile>>, n: nat)
    requires n <= |files|
    ensures forall image <- VolumeImages(files, n) :: image.imageSize == 0
  {
    if n > 0 && files[0].Some? {
      VolumeSizesAreZero(files[1..], n - 1);
    }
  }

  /* ---------- what the HOB is to say ---------- */

  /** EFI_PEI_PPI_DESCRIPTOR_PPI is 0x10, EFI_PEI_PPI_DESCRIPTOR_NOTIFY_TYPES 0x60. */
  predicate IsPpi(flags: UintN) { (flags / 0x10) % 2 == 1 }

  predicate IsNotify(flags: UintN) { (flags / 0x20) % 4 != 0 }

  /** The descriptor types are bit 4 and bits 5 and 6 of the flags. */
  lemma FlagBits(flags: UintN, low: nat, ppi: nat, notify: nat, high: nat)
    requires flags == low + 0x10 * ppi + 0x20 * notify + 0x80 * high && low < 0x10 && ppi < 2 && notify < 4
    ensures IsPpi(flags) <==> ppi == 1
    ensures IsNotify(flags) <==> notify == 1 || notify == 2 || notify == 3
  {
    assert flags / 0x10 == ppi + 2 * (notify + 4 * high);
    assert flags / 0x20 == notify + 4 * high;
  }

  /** EFI_PEI_PPI_DESCRIPTOR or EFI_PEI_NOTIFY_DESCRIPTOR: flags, GUID, and the interface or callback. */
  datatype Descriptor = Descriptor(flags: UintN, guid: Guid, target: UintN)

  /** PEI_PPI_DATABASE: three pointer lists, NULL as None, and the counters that are only reported. */
  datatype PpiLists = PpiLists(
    ppis: seq<Option<Descriptor>>, ppiMax: UintN, ppiLastDispatched: UintN,
    callbacks: seq<Option<Descriptor>>, callbackMax: UintN,
    dispatches: seq<Option<Descriptor>>, dispatchMax: UintN, dispatchLastDispatched: UintN)
  {
    function All(): seq<Option<Descriptor>> {
      ppis + callbacks + dispatches
    }

    predicate Fits() {
      PPI_DATABASE_SIZE + PPI_SIZE * |All()| < TWO32
    }

    function Counts(): (cs: seq<UintN>)
      requires Fits()
      ensures |cs| == 8 && Total(cs) == |All()|
    {
      [|ppis|, ppiMax, ppiLastDispatched, |callbacks|, callbackMax, |dispatches|, dispatchMax, dispatchLastDispatched]
    }
  }

  datatype MemoryInfo = MemoryInfo(begin: UintN, length: UintN, freeTop: UintN)

  /** The structure recorded for a list entry; a NULL pointer leaves it zeroed. */
  function PpiOf(env: Env, d: Option<Descriptor>): Ppi
    requires env.Valid()
  {
    match d
    case None => ZERO_PPI
    case Some(d) =>
      if IsPpi(d.flags) then Ppi(d.flags, d.guid, d.target, env.RefEx(d.target, d.guid))
      else if IsNotify(d.flags) then Ppi(d.flags, d.guid, d.target, ImageRef(env.images, d.target))
      else ZERO_PPI.(flags := d.flags)
  }

  function PpisOf(env: Env, ds: seq<Option<Descriptor>>): (ps: seq<Ppi>)
    requires env.Valid()
    ensures |ps| == |ds| && forall i :: 0 <= i < |ds| ==> ps[i] == PpiOf(env, ds[i])
  {
    seq(|ds|, i requires 0 <= i < |ds| => PpiOf(env, ds[i]))
  }

  function ImageRecordOf(image: Image): (r: Record)
    ensures r.Valid()
  {
    ImageRecord(image.fileGuid, image.name, image.entryPoint, image.loadedImageBase, image.imageSize, image.imageBase)
  }

  /** The image section always holds total records: unused ones are zero but for their header. */
  function ImageRecords(images: seq<Image>, total: nat): (rs: seq<Record>)
    requires |images| <= total
    ensures |rs| == total && AllValid(rs)
    ensures forall i :: 0 <= i < total ==> rs[i] == ImageRecordOf(if i < |images| then images[i] else ZERO_IMAGE)
  {
    var rs := seq(total, i requires 0 <= i < total => ImageRecordOf(if i < |images| then images[i] else ZERO_IMAGE));
    assert forall i :: 0 <= i < total ==> rs[i] == ImageRecordOf(if i < |images| then images[i] else ZERO_IMAGE);
    rs
  }

  function PpiRecordOf(env: Env, lists: PpiLists): (r: Record)
    requires env.Valid() && lists.Fits()
    ensures r.Valid()
  {
    PpiRecord(lists.Counts(), PpisOf(env, lists.All()))
  }

  function MemoryRecordOf(memory: MemoryInfo): (r: Record)
    ensures r.Valid()
  {
    MemoryRecord(memory.begin, memory.length, memory.freeTop)
  }

  function HobRecords(env: Env, total: nat, lists: PpiLists, memory: MemoryInfo): seq<Record>
    requires env.Valid() && lists.Fits() && |env.images| <= total
  {
    ImageRecords(env.images, total) + [PpiRecordOf(env, lists)] + [MemoryRecordOf(memory)]
  }

  function HobDataSize(total: nat, lists: PpiLists): nat {
    IMAGE_SIZE * total + (PPI_DATABASE_SIZE + PPI_SIZE * |lists.All()|) + MEMORY_SIZE
  }

  lemma Halves(total: nat, k: nat)
    ensures (8 * k + 4 * total) % 8 == if total % 2 == 0 then 0 else 4
    ensures AlignUp(8 * k + 4 * total, 8) == 8 * k + 4 * total + if total % 2 == 0 then 0 else 4
  {
    var h, odd := total / 2, total % 2;
    assert 8 * k + 4 * total == 8 * (k + h) + 4 * odd;
  }

  /** CreateHob rounds lengths up to 8: the reported data size is exact if and only if the PEIM count is even, and 4
      bytes too large otherwise. */
  lemma DataSizeIsAligned(total: nat, lists: PpiLists)
    ensures HobDataSize(total, lists) % 8 == 0 <==> total % 2 == 0
    ensures AlignUp(HobDataSize(total, lists), 8) == HobDataSize(total, lists) + if total % 2 == 0 then 0 else 4
  {
    assert HobDataSize(total, lists) == 8 * (16 * total + 5 * |lists.All()| + 14) + 4 * total;
    Halves(total, 16 * total + 5 * |lists.All()| + 14);
  }

  /* ---------- writing ---------- */

  /** The next field of the structure being written at start: what was written so far grows by b. */
  method PutNext(data: array<Byte>, p: nat, b: seq<Byte>,
                 ghost before: seq<Byte>, ghost start: nat, ghost done: seq<Byte>)
    requires p == start + |done| && p + |b| <= data.Length == |before|
    requires data[..] == Splice(before, start, done)
    modifies data
    ensures data[..] == Splice(before, start, done + b)
  {
    hide Splice;
    Put(data, p, b);
    SpliceAdjacent(before, start, done, b);
  }

  /** A field inside what was zeroed before. */
  method PutOver(data: array<Byte>, p: nat, b: seq<Byte>, ghost before: seq<Byte>, ghost start: nat,
                 ghost done: seq<Byte>, ghost x: seq<Byte>, ghost rest: seq<Byte>)
    requires p == start + |done| && |b| == |x| && start + |done + x + rest| <= data.Length == |before|
    requires data[..] == Splice(before, start, done + x + rest)
    modifies data
    ensures data[..] == Splice(before, start, done + b + rest)
  {
    hide Splice;
    Put(data, p, b);
    SpliceOver(before, start, done, x, rest, b);
  }

  function Zeros(n: nat): (z: seq<Byte>)
    ensures |z| == n && forall i :: 0 <= i < n ==> z[i] == 0
  {
    seq(n, _ => 0)
  }

  lemma {:induction false} LeZero(n: nat)
    ensures Le(n, 0) == Zeros(n)
  {
    if n > 0 {
      LeZero(n - 1);
    }
  }

  lemma {:induction false} NameBytesZero(name: seq<Char16>)
    requires forall i :: 0 <= i < |name| ==> name[i] == 0
    ensures SmmDatabase.NameBytes(name) == Zeros(2 * |name|)
  {
    if name != [] {
      LeZero(2);
      NameBytesZero(name[1..]);
      ZerosAppend(2, 2 * (|name| - 1));
    }
  }

  lemma ZerosAppend(a: nat, b: nat)
    ensures Zeros(a) + Zeros(b) == Zeros(a + b)
  {
  }

  /** A zeroed structure with an image header is the record of an empty table entry. */
  lemma ZeroImageEncoding()
    ensures Encode(ImageRecordOf(ZERO_IMAGE)) == Header(ImageRecordOf(ZERO_IMAGE)) + Zeros(IMAGE_SIZE - HEADER_SIZE)
  {
    hide Header, Le, SmmDatabase.NameBytes, Zeros, Cat;
    var h := Header(ImageRecordOf(ZERO_IMAGE));
    var z := Zeros(8);
    LeZero(8);
    NameBytesZero(ZERO_NAME);
    assert ZERO_GUID == Zeros(16) by { ZerosAre(ZERO_GUID); }
    Tail0(h, Zeros(16), Zeros(72), z, z, z, z);
    ZerosAppend(16, 72);
    ZerosAppend(88, 8);
    ZerosAppend(96, 8);
    ZerosAppend(104, 8);
    ZerosAppend(112, 8);
  }

  lemma ZerosAre(s: seq<Byte>)
    requires forall i :: 0 <= i < |s| ==> s[i] == 0
    ensures s == Zeros(|s|)
  {
  }

  /** One iteration of the first loop of BuildImageDatabaseData. */
  method WriteImage(data: array<Byte>, p: nat, image: Image,
                    ghost before: seq<Byte>, ghost start: nat, ghost done: seq<Byte>)
    requires p == start + |done| && p + IMAGE_SIZE <= data.Length == |before|
    requires data[..] == Splice(before, start, done)
    modifies data
    ensures data[..] == Splice(before, start, done + Encode(ImageRecordOf(image)))
  {
    hide Splice, Le, SmmDatabase.NameBytes;
    ghost var d := done + Le(4, IMAGE_SIGNATURE);
    PutNext(data, p, Le(4, IMAGE_SIGNATURE), before, start, done);
    PutNext(data, p + 4, Le(4, IMAGE_SIZE), before, start, d);
    d := d + Le(4, IMAGE_SIZE);
    PutNext(data, p + 8, Le(4, SmmDatabase.REVISION), before, start, d);
    d := d + Le(4, SmmDatabase.REVISION);
    PutNext(data, p + 12, image.fileGuid, before, start, d);
    d := d + image.fileGuid;
    PutNext(data, p + 28, SmmDatabase.NameBytes(image.name), before, start, d);
    d := d + SmmDatabase.NameBytes(image.name);
    PutNext(data, p + 100, Le(8, image.entryPoint), before, start, d);
    d := d + Le(8, image.entryPoint);
    PutNext(data, p + 108, Le(8, image.loadedImageBase), before, start, d);
    d := d + Le(8, image.loadedImageBase);
    PutNext(data, p + 116, Le(8, image.imageSize), before, start, d);
    d := d + Le(8, image.imageSize);
    PutNext(data, p + 124, Le(8, image.imageBase), before, start, d);
    d := d + Le(8, image.imageBase);
    ImageFields(done, image, d);
  }

  lemma ImageFields(done: seq<Byte>, image: Image, d: seq<Byte>)
    requires d == done + Le(4, IMAGE_SIGNATURE) + Le(4, IMAGE_SIZE) + Le(4, SmmDatabase.REVISION) + image.fileGuid
                  + SmmDatabase.NameBytes(image.name) + Le(8, image.entryPoint) + Le(8, image.loadedImageBase)
                  + Le(8, image.imageSize) + Le(8, image.imageBase)
    ensures d == done + Encode(ImageRecordOf(image))
  {
    hide Le, SmmDatabase.NameBytes;
    var h := Header(ImageRecordOf(image));
    assert done + Le(4, IMAGE_SIGNATURE) + Le(4, IMAGE_SIZE) + Le(4, SmmDatabase.REVISION) == done + h;
    CatShift(done, h, image.fileGuid, SmmDatabase.NameBytes(image.name), Le(8, image.entryPoint),
             Le(8, image.loadedImageBase), Le(8, image.imageSize), Le(8, image.imageBase));
  }

  lemma CatShift<T>(z: seq<T>, a: seq<T>, b: seq<T>, c: seq<T>, d: seq<T>, e: seq<T>, f: seq<T>, g: seq<T>)
    ensures z + a + b + c + d + e + f + g == z + Cat(a, b, c, d, e, f, g)
  {
    ConcatAssoc(z, a, b);
    ConcatAssoc(z, a + b, c);
    ConcatAssoc(z, a + b + c, d);
    ConcatAssoc(z, a + b + c + d, e);
    ConcatAssoc(z, a + b + c + d + e, f);
    ConcatAssoc(z, a + b + c + d + e + f, g);
  }

  /** One iteration of the second loop: zero the structure, then give it a header. */
  method WritePadding(data: array<Byte>, p: nat, ghost before: seq<Byte>, ghost start: nat, ghost done: seq<Byte>)
    requires p == start + |done| && p + IMAGE_SIZE <= data.Length == |before|
    requires data[..] == Splice(before, start, done)
    modifies data
    ensures data[..] == Splice(before, start, done + Encode(ImageRecordOf(ZERO_IMAGE)))
  {
    hide Splice, Le, SmmDatabase.NameBytes, Encode;
    PutNext(data, p, Zeros(IMAGE_SIZE), before, start, done);
    ghost var rest := Zeros(IMAGE_SIZE - HEADER_SIZE);
    assert Zeros(IMAGE_SIZE) == Zeros(HEADER_SIZE) + rest;
    ConcatAssoc(done, Zeros(HEADER_SIZE), rest);
    var header := Header(ImageRecordOf(ZERO_IMAGE));
    PutOver(data, p, header, before, start, done, Zeros(HEADER_SIZE), rest);
    ConcatAssoc(done, header, rest);
    ZeroImageEncoding();
  }

  lemma ImagesStep(images: seq<Image>, total: nat, i: nat)
    requires |images| <= total && i < total
    ensures AllValid(ImageRecords(images, total)[..i + 1])
    ensures EncodeAll(ImageRecords(images, total)[..i + 1]) ==
            EncodeAll(ImageRecords(images, total)[..i])
            + Encode(ImageRecordOf(if i < |images| then images[i] else ZERO_IMAGE))
    ensures |EncodeAll(ImageRecords(images, total)[..i])| == IMAGE_SIZE * i
  {
    hide Encode;
    var rs := ImageRecords(images, total);
    assert rs[..i + 1] == rs[..i] + [rs[i]];
    EncodeAllSnoc(rs[..i], rs[i]);
    ImagesSize(rs[..i]);
  }

  lemma {:induction false} ImagesSize(rs: seq<Record>)
    requires AllValid(rs) && forall r <- rs :: r.ImageRecord?
    ensures |EncodeAll(rs)| == IMAGE_SIZE * |rs|
  {
    hide Encode;
    if rs != [] {
      ImagesSize(rs[..|rs| - 1]);
    }
  }

  /** The image section, at the start of the HOB data. */
  method BuildImageDatabaseData(table: ImageTable, fvs: seq<Volume>, data: array<Byte>)
    requires table.Valid() && table.count <= TotalPeims(fvs) && IMAGE_SIZE * TotalPeims(fvs) <= data.Length
    requires table.imageStruct as object != data
    modifies data
    ensures AllValid(ImageRecords(table.Images(), TotalPeims(fvs)))
    ensures |EncodeAll(ImageRecords(table.Images(), TotalPeims(fvs)))| == IMAGE_SIZE * TotalPeims(fvs)
    ensures data[..] == Splice(old(data[..]), 0, EncodeAll(ImageRecords(table.Images(), TotalPeims(fvs))))
  {
    hide Splice, Encode, EncodeAll, TotalPeims;
    ghost var images, total, before := table.Images(), TotalPeims(fvs), data[..];
    ghost var rs := ImageRecords(images, total);
    assert EncodeAll(rs[..0]) == [] by { NothingEncoded(); }
    assert data[..] == Splice(before, 0, []) by { SpliceNothing(before, 0); }
    var index := 0;
    while index < table.count
      invariant 0 <= index <= table.count
      invariant AllValid(rs[..index]) && |EncodeAll(rs[..index])| == IMAGE_SIZE * index
      invariant data[..] == Splice(before, 0, EncodeAll(rs[..index]))
    {
      WriteImage(data, IMAGE_SIZE * index, table.imageStruct[index], before, 0, EncodeAll(rs[..index]));
      ImagesStep(images, total, index);
      index := index + 1;
    }
    var totalPeimCount := CalcTotalPeimCount(fvs);
    while index < totalPeimCount
      invariant table.count <= index <= total
      invariant AllValid(rs[..index]) && |EncodeAll(rs[..index])| == IMAGE_SIZE * index
      invariant data[..] == Splice(before, 0, EncodeAll(rs[..index]))
    {
      WritePadding(data, IMAGE_SIZE * index, before, 0, EncodeAll(rs[..index]));
      ImagesStep(images, total, index);
      index := index + 1;
    }
    assert rs[..total] == rs;
  }

  lemma NothingEncoded()
    ensures EncodeAll([]) == []
  {
  }

  /* ---------- the PPI database ---------- */

  lemma EncodePpisAppend(a: seq<Ppi>, b: seq<Ppi>)
    ensures EncodePpis(a + b) == EncodePpis(a) + EncodePpis(b)
  {
    hide EncodePpi;
    if b == [] {
      assert a + b == a;
    } else {
      EncodePpisAppend(a, b[..|b| - 1]);
      assert (a + b)[..|a + b| - 1] == a + b[..|b| - 1];
      ConcatAssoc(EncodePpis(a), EncodePpis(b[..|b| - 1]), EncodePpi(b[|b| - 1]));
    }
  }

  lemma ZeroPpiEncoding()
    ensures EncodePpi(ZERO_PPI) == Zeros(PPI_SIZE)
  {
    LeZero(8);
  }

  /** The structure seen around each of its fields. */
  lemma PpiSplits(p: Ppi)
    ensures EncodePpi(p) == [] + Le(8, p.flags) + (p.guid + Le(8, p.target) + Le(8, p.imageRef))
    ensures EncodePpi(p) == Le(8, p.flags) + p.guid + (Le(8, p.target) + Le(8, p.imageRef))
    ensures EncodePpi(p) == (Le(8, p.flags) + p.guid) + Le(8, p.target) + Le(8, p.imageRef)
    ensures EncodePpi(p) == (Le(8, p.flags) + p.guid + Le(8, p.target)) + Le(8, p.imageRef) + []
  {
    hide Le;
  }

  /** Storing one field of a structure turns the encoding of q into that of q'. */
  method SetField(data: array<Byte>, p: nat, b: seq<Byte>, ghost before: seq<Byte>, ghost start: nat,
                  ghost done: seq<Byte>, ghost rest: seq<Byte>, ghost q: Ppi, ghost q': Ppi,
                  ghost a: seq<Byte>, ghost x: seq<Byte>, ghost c: seq<Byte>)
    requires EncodePpi(q) == a + x + c && EncodePpi(q') == a + b + c && |x| == |b|
    requires p == start + |done| + |a| && start + |done| + PPI_SIZE + |rest| <= data.Length == |before|
    requires data[..] == Splice(before, start, done + EncodePpi(q) + rest)
    modifies data
    ensures data[..] == Splice(before, start, done + EncodePpi(q') + rest)
  {
    hide Splice, EncodePpi;
    Regroup(done, a, x, c, rest);
    Regroup(done, a, b, c, rest);
    PutOver(data, p, b, before, start, done + a, x, c + rest);
  }

  lemma Regroup<T>(z: seq<T>, a: seq<T>, b: seq<T>, c: seq<T>, d: seq<T>)
    ensures z + (a + b + c) + d == z + a + b + (c + d)
  {
    ConcatAssoc(z, a, b);
    ConcatAssoc(z, a + b, c);
    ConcatAssoc(z + a + b, c, d);
  }

  /** The fields of one structure, stored over an entry that was zeroed. */
  method WritePpi(data: array<Byte>, p: nat, table: ImageTable, env: Env, d: Descriptor,
                  ghost before: seq<Byte>, ghost start: nat, ghost done: seq<Byte>, ghost rest: seq<Byte>)
    requires table.Valid() && env.Valid() && env.images == table.Images() && table.imageStruct as object != data
    requires p == start + |done| && p + PPI_SIZE + |rest| <= data.Length == |before|
    requires data[..] == Splice(before, start, done + EncodePpi(ZERO_PPI) + rest)
    modifies data
    ensures data[..] == Splice(before, start, done + EncodePpi(PpiOf(env, Some(d))) + rest)
  {
    hide Splice, Le, EncodePpi, env.RefEx;
    ghost var flags := Le(8, d.flags);
    ghost var q := ZERO_PPI.(flags := d.flags);
    PpiSplits(ZERO_PPI);
    PpiSplits(q);
    SetField(data, p, Le(8, d.flags), before, start, done, rest, ZERO_PPI, q,
             [], Le(8, 0), ZERO_GUID + Le(8, 0) + Le(8, 0));
    if IsPpi(d.flags) {
      var ref := table.AddressToImageRefEx(env, d.target, d.guid);
      WriteTarget(data, p, d, ref, before, start, done, rest);
    } else if IsNotify(d.flags) {
      var ref := table.AddressToImageRef(d.target);
      WriteTarget(data, p, d, ref, before, start, done, rest);
    }
  }

  /** The GUID, address and image reference of a structure whose flags are already stored. */
  method WriteTarget(data: array<Byte>, p: nat, d: Descriptor, ref: UintN,
                     ghost before: seq<Byte>, ghost start: nat, ghost done: seq<Byte>, ghost rest: seq<Byte>)
    requires p == start + |done| && p + PPI_SIZE + |rest| <= data.Length == |before|
    requires data[..] == Splice(before, start, done + EncodePpi(ZERO_PPI.(flags := d.flags)) + rest)
    modifies data
    ensures data[..] == Splice(before, start, done + EncodePpi(Ppi(d.flags, d.guid, d.target, ref)) + rest)
  {
    hide Splice, Le, EncodePpi;
    ghost var flags, zero := Le(8, d.flags), Le(8, 0);
    ghost var q0 := ZERO_PPI.(flags := d.flags);
    ghost var q1 := q0.(guid := d.guid);
    ghost var q2 := q1.(target := d.target);
    ghost var q3 := q2.(imageRef := ref);
    PpiSplits(q0);
    PpiSplits(q1);
    PpiSplits(q2);
    PpiSplits(q3);
    SetField(data, p + 8, d.guid, before, start, done, rest, q0, q1, flags, ZERO_GUID, zero + zero);
    SetField(data, p + 24, Le(8, d.target), before, start, done, rest, q1, q2, flags + d.guid, zero, zero);
    SetField(data, p + 32, Le(8, ref), before, start, done, rest, q2, q3, flags + d.guid + Le(8, d.target), zero, []);
  }

  /** One list, written into the zeroed entries at p; entries of NULL pointers stay zero. */
  method BuildPpiData(data: array<Byte>, p: nat, table: ImageTable, env: Env, ds: seq<Option<Descriptor>>,
                      ghost before: seq<Byte>, ghost start: nat, ghost done: seq<Byte>, ghost left: nat)
    requires table.Valid() && env.Valid() && env.images == table.Images() && table.imageStruct as object != data
    requires p == start + |done| && p + PPI_SIZE * (|ds| + left) <= data.Length == |before|
    requires data[..] == Splice(before, start, done + Zeros(PPI_SIZE * (|ds| + left)))
    modifies data
    ensures data[..] == Splice(before, start, done + EncodePpis(PpisOf(env, ds)) + Zeros(PPI_SIZE * left))
  {
    hide Splice, EncodePpi, EncodePpis, Zeros, PpiOf;
    ghost var ps := PpisOf(env, ds);
    NoPpis();
    assert done + EncodePpis(ps[..0]) == done;
    var index := 0;
    while index < |ds|
      invariant 0 <= index <= |ds|
      invariant data[..] == Splice(before, start,
                                   done + EncodePpis(ps[..index]) + Zeros(PPI_SIZE * (|ds| - index + left)))
    {
      ghost var z := Zeros(PPI_SIZE * (|ds| - index - 1 + left));
      ghost var soFar := done + EncodePpis(ps[..index]);
      ZeroPpiEncoding();
      ZerosAppend(PPI_SIZE, PPI_SIZE * (|ds| - index - 1 + left));
      ConcatAssoc(soFar, EncodePpi(ZERO_PPI), z);
      assert ps[index] == PpiOf(env, ds[index]);
      if ds[index].Some? {
        WritePpi(data, p + PPI_SIZE * index, table, env, ds[index].value, before, start, soFar, z);
      } else {
        NullPpi(env);
      }
      PpisStep(ps, index);
      ConcatAssoc(done, EncodePpis(ps[..index]), EncodePpi(ps[index]));
      index := index + 1;
    }
    assert ps[..|ds|] == ps;
  }

  lemma NullPpi(env: Env)
    requires env.Valid()
    ensures PpiOf(env, None) == ZERO_PPI
  {
  }

  lemma NoPpis()
    ensures EncodePpis([]) == []
  {
  }

  lemma PpisStep(ps: seq<Ppi>, i: nat)
    requires i < |ps|
    ensures EncodePpis(ps[..i + 1]) == EncodePpis(ps[..i]) + EncodePpi(ps[i])
  {
    assert ps[..i + 1][..i] == ps[..i];
  }

  lemma CountsStep(cs: seq<UintN>, i: nat)
    requires i < |cs|
    ensures EncodeCounts(cs[..i + 1]) == EncodeCounts(cs[..i]) + Le(8, cs[i])
  {
    assert cs[..i + 1][..i] == cs[..i];
  }

  /** The eight counters of PEI_CORE_PPI_DATABASE_STRUCTURE, which the source stores one by one. */
  method WriteCounts(data: array<Byte>, p: nat, counts: seq<UintN>,
                     ghost before: seq<Byte>, ghost start: nat, ghost done: seq<Byte>)
    requires p == start + |done| && p + 8 * |counts| <= data.Length == |before|
    requires data[..] == Splice(before, start, done)
    modifies data
    ensures data[..] == Splice(before, start, done + EncodeCounts(counts))
  {
    hide Splice, Le, EncodeCounts;
    assert done + EncodeCounts(counts[..0]) == done by { NoCounts(); }
    for i := 0 to |counts|
      invariant data[..] == Splice(before, start, done + EncodeCounts(counts[..i]))
    {
      PutNext(data, p + 8 * i, Le(8, counts[i]), before, start, done + EncodeCounts(counts[..i]));
      CountsStep(counts, i);
      ConcatAssoc(done, EncodeCounts(counts[..i]), Le(8, counts[i]));
    }
    assert counts[..|counts|] == counts;
  }

  lemma NoCounts()
    ensures EncodeCounts([]) == []
  {
  }

  /** Signature, Length and Revision of a record. */
  method WriteHeader(data: array<Byte>, p: nat, signature: Uint32, length: Uint32, ghost before: seq<Byte>)
    requires p + HEADER_SIZE <= data.Length && data[..] == before
    modifies data
    ensures data[..] == Splice(before, p, SmmDatabase.Header(signature, length))
  {
    hide Splice, Le;
    SpliceNothing(before, p);
    PutNext(data, p, Le(4, signature), before, p, []);
    PutNext(data, p + 4, Le(4, length), before, p, [] + Le(4, signature));
    PutNext(data, p + 8, Le(4, SmmDatabase.REVISION), before, p, [] + Le(4, signature) + Le(4, length));
    assert [] + Le(4, signature) == Le(4, signature);
  }

  /** The PPI database section: header, counters, and the three lists one behind the other. */
  method BuildPpiDatabaseData(data: array<Byte>, p: nat, table: ImageTable, env: Env, lists: PpiLists)
    requires table.Valid() && env.Valid() && env.images == table.Images() && table.imageStruct as object != data
    requires lists.Fits() && p + PPI_DATABASE_SIZE + PPI_SIZE * |lists.All()| <= data.Length
    modifies data
    ensures data[..] == Splice(old(data[..]), p, Encode(PpiRecordOf(env, lists)))
  {
    hide Splice, EncodePpis, EncodeCounts, SmmDatabase.Header, Zeros, PpisOf;
    ghost var before := data[..];
    var totalPpiDataCount := |lists.ppis| + |lists.callbacks| + |lists.dispatches|;
    var length := PPI_DATABASE_SIZE + totalPpiDataCount * PPI_SIZE;
    WriteHeader(data, p, PPI_SIGNATURE, length, before);
    ghost var d := SmmDatabase.Header(PPI_SIGNATURE, length);
    WriteCounts(data, p + 12, lists.Counts(), before, p, d);
    d := d + EncodeCounts(lists.Counts());
    PutNext(data, p + 76, Zeros(totalPpiDataCount * PPI_SIZE), before, p, d);
    BuildLists(data, p + 76, table, env, lists, before, p, d);
    PpiRecordEncoding(env, lists);
    ConcatAssoc(SmmDatabase.Header(PPI_SIGNATURE, length), EncodeCounts(lists.Counts()),
                EncodePpis(PpisOf(env, lists.All())));
  }

  lemma PpiRecordEncoding(env: Env, lists: PpiLists)
    requires env.Valid() && lists.Fits()
    ensures Encode(PpiRecordOf(env, lists)) ==
            SmmDatabase.Header(PPI_SIGNATURE, PPI_DATABASE_SIZE + PPI_SIZE * |lists.All()|)
            + EncodeCounts(lists.Counts()) + EncodePpis(PpisOf(env, lists.All()))
  {
    hide SmmDatabase.Header, EncodeCounts, EncodePpis, PpisOf, lists.Counts, lists.All;
  }

  /** The three BuildPpiData calls, with the running Index. */
  method BuildLists(data: array<Byte>, p: nat, table: ImageTable, env: Env, lists: PpiLists,
                    ghost before: seq<Byte>, ghost start: nat, ghost done: seq<Byte>)
    requires table.Valid() && env.Valid() && env.images == table.Images() && table.imageStruct as object != data
    requires p == start + |done| && p + PPI_SIZE * |lists.All()| <= data.Length == |before|
    requires data[..] == Splice(before, start, done + Zeros(PPI_SIZE * |lists.All()|))
    modifies data
    ensures data[..] == Splice(before, start, done + EncodePpis(PpisOf(env, lists.All())))
  {
    hide Splice, EncodePpis, Zeros, PpisOf;
    ghost var d := done;
    var index := 0;
    BuildPpiData(data, p, table, env, lists.ppis, before, start, d, |lists.callbacks| + |lists.dispatches|);
    index := index + |lists.ppis|;
    d := d + EncodePpis(PpisOf(env, lists.ppis));
    BuildPpiData(data, p + PPI_SIZE * index, table, env, lists.callbacks, before, start, d, |lists.dispatches|);
    index := index + |lists.callbacks|;
    d := d + EncodePpis(PpisOf(env, lists.callbacks));
    assert d + Zeros(PPI_SIZE * |lists.dispatches|) == d + Zeros(PPI_SIZE * (|lists.dispatches| + 0));
    BuildPpiData(data, p + PPI_SIZE * index, table, env, lists.dispatches, before, start, d, 0);
    d := d + EncodePpis(PpisOf(env, lists.dispatches));
    ListsJoin(env, lists, done);
    assert d + Zeros(PPI_SIZE * 0) == d;
  }

  lemma ListsJoin(env: Env, lists: PpiLists, done: seq<Byte>)
    requires env.Valid()
    ensures done + EncodePpis(PpisOf(env, lists.ppis)) + EncodePpis(PpisOf(env, lists.callbacks))
            + EncodePpis(PpisOf(env, lists.dispatches)) == done + EncodePpis(PpisOf(env, lists.All()))
  {
    hide EncodePpis, PpiOf;
    var a, b, c := PpisOf(env, lists.ppis), PpisOf(env, lists.callbacks), PpisOf(env, lists.dispatches);
    EncodePpisAppend(a, b);
    EncodePpisAppend(a + b, c);
    assert a + b + c == PpisOf(env, lists.All());
    ConcatAssoc(done, EncodePpis(a), EncodePpis(b));
    ConcatAssoc(done, EncodePpis(a) + EncodePpis(b), EncodePpis(c));
  }

  method BuildMemoryInfoData(data: array<Byte>, p: nat, memory: MemoryInfo)
    requires p + MEMORY_SIZE <= data.Length
    modifies data
    ensures data[..] == Splice(old(data[..]), p, Encode(MemoryRecordOf(memory)))
  {
    hide Splice, Le, SmmDatabase.Header;
    ghost var before := data[..];
    WriteHeader(data, p, MEMORY_SIGNATURE, MEMORY_SIZE, before);
    ghost var d := SmmDatabase.Header(MEMORY_SIGNATURE, MEMORY_SIZE);
    PutNext(data, p + 12, Le(8, memory.begin), before, p, d);
    d := d + Le(8, memory.begin);
    PutNext(data, p + 20, Le(8, memory.length), before, p, d);
    d := d + Le(8, memory.length);
    PutNext(data, p + 28, Le(8, memory.freeTop), before, p, d);
    d := d + Le(8, memory.freeTop);
    assert d + [] + [] + [] == d;
  }

  const HOB_HEADER := 24  // sizeof(EFI_HOB_GUID_TYPE)

  /** The whole HOB: image, PPI and memory sections fill the data up to the rounding of CreateHob, whose result must
      fit the 16-bit length field. */
  method BuildPeiCoreDatabase(fvs: seq<Volume>, table: ImageTable, env: Env, lists: PpiLists, memory: MemoryInfo)
    returns (data: array<Byte>)
    requires table.Valid() && env.Valid() && env.images == table.Images() && table.count <= TotalPeims(fvs)
    requires HOB_HEADER + AlignUp(HobDataSize(TotalPeims(fvs), lists), 8) < 0x1_0000
    ensures fresh(data) && lists.Fits() && AllValid(HobRecords(env, TotalPeims(fvs), lists, memory))
    ensures data.Length == AlignUp(HobDataSize(TotalPeims(fvs), lists), 8)
    ensures data[..HobDataSize(TotalPeims(fvs), lists)] == EncodeAll(HobRecords(env, TotalPeims(fvs), lists, memory))
  {
    hide Splice, Encode, EncodeAll, TotalPeims;
    var totalPpiDataCount := |lists.All()|;
    var totalPeimCount := CalcTotalPeimCount(fvs);
    var imageDatabaseSize := totalPeimCount * IMAGE_SIZE;
    var ppiDatabaseSize := PPI_DATABASE_SIZE + totalPpiDataCount * PPI_SIZE;
    data := new Byte[AlignUp(imageDatabaseSize + ppiDatabaseSize + MEMORY_SIZE, 8)];
    ghost var s0 := data[..];
    BuildImageDatabaseData(table, fvs, data);
    BuildPpiDatabaseData(data, imageDatabaseSize, table, env, lists);
    BuildMemoryInfoData(data, imageDatabaseSize + ppiDatabaseSize, memory);
    ghost var images := EncodeAll(ImageRecords(env.images, totalPeimCount));
    ghost var ppis, mem := Encode(PpiRecordOf(env, lists)), Encode(MemoryRecordOf(memory));
    SpliceAdjacent(s0, 0, images, ppis);
    SpliceAdjacent(s0, 0, images + ppis, mem);
    SpliceReads(s0, 0, images + ppis + mem, 0, 0);
    EncodeAllSnoc(ImageRecords(env.images, totalPeimCount), PpiRecordOf(env, lists));
    EncodeAllSnoc(ImageRecords(env.images, totalPeimCount) + [PpiRecordOf(env, lists)], MemoryRecordOf(memory));
  }
}
