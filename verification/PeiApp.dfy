/** The shell application for the PEI dump (PeiCoreDumpApp.c), and the round trip: what it prints from the HOB is
    what the PEI core's lists held. */
module PeiApp {
  import opened Bytes
  import opened Options
  import opened SmmImages
  import SmmDatabase
  import opened PeiHob
  import opened PeiBuild

  datatype ImageLine = ImageLine(name: seq<Char16>, imageBase: UintN, fileGuid: Guid)

  /** [index] - flags, and for a PPI or notification its GUID and address. */
  datatype PpiLine = PpiLine(index: nat, flags: UintN, target: Option<PpiTarget>)
  datatype PpiTarget = PpiTarget(notify: bool, guid: Guid, address: UintN, name: Option<seq<Char16>>)

  datatype PpiDump = PpiDump(counts: seq<UintN>, ppis: seq<PpiLine>, callbacks: seq<PpiLine>, dispatches: seq<PpiLine>)

  /* ---------- what is printed of the records ---------- */

  function ImageLines(rs: seq<Record>): seq<ImageLine> {
    if rs == [] then []
    else
      (if rs[0].ImageRecord? && rs[0].fileGuid != ZERO_GUID
       then [ImageLine(CString(rs[0].name), rs[0].imageBase, rs[0].fileGuid)] else [])
      + ImageLines(rs[1..])
  }

  /** The lines of one list: entries without flags are skipped, the others keep their position. */
  function PpiLines(ps: seq<Ppi>, n: nat): seq<PpiLine>
    requires n <= |ps|
  {
    if n == 0 then []
    else
      PpiLines(ps, n - 1) + (if ps[n - 1].flags == 0 then [] else [LineOf(ps[n - 1], n - 1)])
  }

  /** No name: the application never gives its own image table any capacity. */
  function LineOf(p: Ppi, index: nat): PpiLine {
    PpiLine(index, p.flags,
            if IsPpi(p.flags) then Some(PpiTarget(false, p.guid, p.target, None))
            else if IsNotify(p.flags) then Some(PpiTarget(true, p.guid, p.target, None))
            else None)
  }

  function PpiDumpOf(r: Record): PpiDump
    requires r.PpiRecord? && r.Valid()
  {
    var a: nat := r.counts[0];
    var b: nat := a + r.counts[3];
    PpiDump(r.counts, PpiLines(r.ppis[..a], a), PpiLines(r.ppis[a..b], r.counts[3]), PpiLines(r.ppis[b..], r.counts[5]))
  }

  /** The first record of a kind is the one printed. */
  function FirstPpi(rs: seq<Record>): Option<Record> {
    if rs == [] then None else if rs[0].PpiRecord? then Some(rs[0]) else FirstPpi(rs[1..])
  }

  function FirstMemory(rs: seq<Record>): Option<Record> {
    if rs == [] then None else if rs[0].MemoryRecord? then Some(rs[0]) else FirstMemory(rs[1..])
  }

  /* ---------- the walks ---------- */

  /** One step of every walk. */
  lemma WalkStep(rest: seq<Byte>)
    requires rest != [] && WellFormed(rest)
    ensures |rest| >= HEADER_SIZE && HEADER_SIZE <= Field32(rest, 4) <= |rest|
    ensures
      var chunk, next := rest[..Field32(rest, 4)], rest[Field32(rest, 4)..];
      && WellFormed(next) && WellFormedChunk(chunk) && Field32(chunk, 0) == Field32(rest, 0)
      && Walk(rest) == (if Parse(chunk).Some? then [Parse(chunk).value] else []) + Walk(next)
  {
    hide WellFormedChunk, Parse, Field32;
    var n := Field32(rest, 4);
    assert Field32(rest[..n], 0) == Field32(rest, 0) by { HeaderInFront(rest, n); }
  }

  lemma HeaderInFront(s: seq<Byte>, n: nat)
    requires 4 <= n <= |s|
    ensures Field32(s[..n], 0) == Field32(s, 0)
  {
    assert s[..n][0..4] == s[0..4];
  }

  lemma ParseKind(chunk: seq<Byte>)
    requires |chunk| >= HEADER_SIZE && WellFormedChunk(chunk)
    ensures var r := Parse(chunk);
      && (Field32(chunk, 0) == IMAGE_SIGNATURE <==> r.Some? && r.value.ImageRecord?)
      && (Field32(chunk, 0) == PPI_SIGNATURE <==> r.Some? && r.value.PpiRecord?)
      && (Field32(chunk, 0) == MEMORY_SIGNATURE <==> r.Some? && r.value.MemoryRecord?)
      && (r.Some? && |chunk| < TWO32 ==> r.value.Valid())
  {
    hide Field32, Field64, ParsePpis, ParseCounts, SmmDatabase.ParseName;
  }

  method DumpPeiLoadedImage(db: seq<Byte>) returns (lines: seq<ImageLine>)
    requires WellFormed(db)
    ensures lines == ImageLines(Walk(db))
  {
    hide Walk, WellFormed, WellFormedChunk, Parse, Field32;
    lines := [];
    var rest := db;
    assert [] + ImageLines(Walk(db)) == ImageLines(Walk(db));
    while rest != []
      invariant WellFormed(rest) && ImageLines(Walk(db)) == lines + ImageLines(Walk(rest))
      decreases |rest|
    {
      WalkStep(rest);
      var chunk, next := rest[..Field32(rest, 4)], rest[Field32(rest, 4)..];
      ParseKind(chunk);
      FirstImageLine(Parse(chunk), Walk(next));
      if Field32(chunk, 0) == IMAGE_SIGNATURE {
        var r := Parse(chunk).value;
        if r.fileGuid != ZERO_GUID {
          var line := ImageLine(CString(r.name), r.imageBase, r.fileGuid);
          ConcatAssoc(lines, [line], ImageLines(Walk(next)));
          lines := lines + [line];
        }
      }
      rest := next;
    }
    WalkNothing();
    assert lines + [] == lines;
  }

  lemma FirstImageLine(r: Option<Record>, rest: seq<Record>)
    ensures ImageLines((if r.Some? then [r.value] else []) + rest) ==
      if r.Some? && r.value.ImageRecord? && r.value.fileGuid != ZERO_GUID
      then [ImageLine(CString(r.value.name), r.value.imageBase, r.value.fileGuid)] + ImageLines(rest)
      else ImageLines(rest)
  {
    if r.None? {
      assert [] + rest == rest;
    } else {
      assert ([r.value] + rest)[1..] == rest;
      assert [] + ImageLines(rest) == ImageLines(rest);
    }
  }

  lemma WalkNothing()
    ensures Walk([]) == [] && ImageLines([]) == []
  {
  }

  /** The image table the application declares and never fills: its capacity is 0. */
  method DumpPpiPtrsOnPpiDatabaseStruct(table: ImageTable, ps: seq<Ppi>) returns (lines: seq<PpiLine>)
    requires table.Valid() && table.imageStruct.Length == 0
    ensures lines == PpiLines(ps, |ps|)
  {
    lines := [];
    var index := 0;
    while index < |ps|
      invariant 0 <= index <= |ps| && lines == PpiLines(ps, index)
    {
      var p := ps[index];
      if p.flags != 0 {
        var target := None;
        if IsPpi(p.flags) || IsNotify(p.flags) {
          var name := None;
          if p.target != 0 {
            var found := table.GetImageRefName(p.imageRef);
            if found != UNKNOWN_NAME {
              name := Some(found);
            }
          }
          target := Some(PpiTarget(!IsPpi(p.flags), p.guid, p.target, name));
        }
        lines := lines + [PpiLine(index, p.flags, target)];
      }
      index := index + 1;
    }
  }

  /** The flat array behind the counters, split at the running Index. */
  method DumpPpiOnPpiDatabaseStruct(table: ImageTable, chunk: seq<Byte>) returns (dump: PpiDump)
    requires table.Valid() && table.imageStruct.Length == 0
    requires HEADER_SIZE <= |chunk| < TWO32 && WellFormedChunk(chunk) && Field32(chunk, 0) == PPI_SIGNATURE
    ensures Parse(chunk).Some? && Parse(chunk).value.PpiRecord? && Parse(chunk).value.Valid()
    ensures dump == PpiDumpOf(Parse(chunk).value)
  {
    hide PpiLines, ParsePpi, Field64, Field32;
    ParseKind(chunk);
    var counts := ParseCounts(chunk, HEADER_SIZE, 8);
    var ppis := ParsePpis(chunk, PPI_DATABASE_SIZE, Total(counts));
    var index: nat := 0;
    var first := DumpPpiPtrsOnPpiDatabaseStruct(table, ppis[index..index + counts[0]]);
    index := index + counts[0];
    var second := DumpPpiPtrsOnPpiDatabaseStruct(table, ppis[index..index + counts[3]]);
    index := index + counts[3];
    var third := DumpPpiPtrsOnPpiDatabaseStruct(table, ppis[index..index + counts[5]]);
    assert ppis[0..counts[0]] == ppis[..counts[0]];
    assert ppis[index..index + counts[5]] == ppis[index..];
    dump := PpiDump(counts, first, second, third);
  }

  method DumpPpiDatabase(table: ImageTable, db: seq<Byte>) returns (dump: Option<PpiDump>)
    requires WellFormed(db) && table.Valid() && table.imageStruct.Length == 0
    ensures FirstPpi(Walk(db)).None? ==> dump == None
    ensures FirstPpi(Walk(db)).Some? ==>
      var r := FirstPpi(Walk(db)).value;
      r.PpiRecord? && r.Valid() && dump == Some(PpiDumpOf(r))
  {
    hide Walk, WellFormed, WellFormedChunk, Parse, Field32, PpiDumpOf;
    var rest := db;
    while rest != []
      invariant WellFormed(rest) && FirstPpi(Walk(db)) == FirstPpi(Walk(rest))
      decreases |rest|
    {
      WalkStep(rest);
      var chunk, next := rest[..Field32(rest, 4)], rest[Field32(rest, 4)..];
      ParseKind(chunk);
      FirstRecord(Parse(chunk), Walk(next));
      if Field32(chunk, 0) == PPI_SIGNATURE {
        var d := DumpPpiOnPpiDatabaseStruct(table, chunk);
        return Some(d);
      }
      rest := next;
    }
    WalkNothing();
    return None;
  }

  lemma FirstRecord(r: Option<Record>, rest: seq<Record>)
    ensures FirstPpi((if r.Some? then [r.value] else []) + rest) ==
            if r.Some? && r.value.PpiRecord? then r else FirstPpi(rest)
    ensures FirstMemory((if r.Some? then [r.value] else []) + rest) ==
            if r.Some? && r.value.MemoryRecord? then r else FirstMemory(rest)
  {
    if r.None? {
      assert [] + rest == rest;
    } else {
      assert ([r.value] + rest)[1..] == rest;
    }
  }

  method DumpMemoryInfo(db: seq<Byte>) returns (info: Option<Record>)
    requires WellFormed(db)
    ensures info == FirstMemory(Walk(db))
  {
    hide Walk, WellFormed, WellFormedChunk, Parse, Field32;
    var rest := db;
    while rest != []
      invariant WellFormed(rest) && FirstMemory(Walk(db)) == FirstMemory(Walk(rest))
      decreases |rest|
    {
      WalkStep(rest);
      var chunk, next := rest[..Field32(rest, 4)], rest[Field32(rest, 4)..];
      ParseKind(chunk);
      FirstRecord(Parse(chunk), Walk(next));
      if Field32(chunk, 0) == MEMORY_SIGNATURE {
        return Parse(chunk);
      }
      rest := next;
    }
    WalkNothing();
    return None;
  }

  /* ---------- the round trip ---------- */

  /** The images worth a line, said of the PEI core's table. */
  function SeenImages(images: seq<Image>): seq<ImageLine> {
    if images == [] then []
    else
      (if images[0].fileGuid != ZERO_GUID
       then [ImageLine(CString(images[0].name), images[0].loadedImageBase, images[0].fileGuid)] else [])
      + SeenImages(images[1..])
  }

  /** A list entry worth a line: a non-NULL pointer to a descriptor with flags, at its original position. */
  function SeenEntries(ds: seq<Option<Descriptor>>, n: nat): seq<PpiLine>
    requires n <= |ds|
  {
    if n == 0 then []
    else
      SeenEntries(ds, n - 1)
      + (if ds[n - 1].None? || ds[n - 1].value.flags == 0 then [] else [Seen(ds[n - 1].value, n - 1)])
  }

  function Seen(d: Descriptor, index: nat): PpiLine {
    PpiLine(index, d.flags,
            if IsPpi(d.flags) || IsNotify(d.flags)
            then Some(PpiTarget(!IsPpi(d.flags), d.guid, d.target, None)) else None)
  }

  lemma {:induction false} EntriesAreSeen(env: Env, ds: seq<Option<Descriptor>>, n: nat)
    requires env.Valid() && n <= |ds|
    ensures PpiLines(PpisOf(env, ds), n) == SeenEntries(ds, n)
  {
    hide env.RefEx, ImageRef;
    if n > 0 {
      EntriesAreSeen(env, ds, n - 1);
    }
  }

  lemma {:induction false} ImagesAreSeen(images: seq<Image>, total: nat, more: seq<Record>)
    requires |images| <= total
    ensures ImageLines(ImageRecords(images, total) + more) == SeenImages(images) + ImageLines(more)
    decreases total
  {
    hide CString, ImageLines;
    var rs := ImageRecords(images, total);
    if total == 0 {
      assert rs + more == more;
      assert [] + ImageLines(more) == ImageLines(more);
    } else {
      var rest := ImagesTail(images, total, more);
      ImagesAreSeen(rest, total - 1, more);
      FirstImageLine(Some(rs[0]), ImageRecords(rest, total - 1) + more);
      if images != [] {
        FirstSeen(images, ImageLines(more));
      }
    }
  }

  /** The image section behind its first record. */
  lemma ImagesTail(images: seq<Image>, total: nat, more: seq<Record>) returns (rest: seq<Image>)
    requires |images| <= total && total > 0
    ensures rest == if images == [] then [] else images[1..]
    ensures
      var rs := ImageRecords(images, total);
      && rs[0] == ImageRecordOf(if images == [] then ZERO_IMAGE else images[0])
      && rs + more == [rs[0]] + (ImageRecords(rest, total - 1) + more)
  {
    rest := if images == [] then [] else images[1..];
    var rs := ImageRecords(images, total);
    assert rs[1..] == ImageRecords(rest, total - 1);
    assert rs == [rs[0]] + rs[1..];
    ConcatAssoc([rs[0]], rs[1..], more);
  }

  lemma FirstSeen(images: seq<Image>, more: seq<ImageLine>)
    requires images != []
    ensures SeenImages(images) + more ==
      if images[0].fileGuid != ZERO_GUID
      then [ImageLine(CString(images[0].name), images[0].loadedImageBase, images[0].fileGuid)]
           + (SeenImages(images[1..]) + more)
      else SeenImages(images[1..]) + more
  {
    hide CString;
    var first := if images[0].fileGuid != ZERO_GUID
      then [ImageLine(CString(images[0].name), images[0].loadedImageBase, images[0].fileGuid)] else [];
    assert SeenImages(images) == first + SeenImages(images[1..]);
    hide SeenImages;
    ConcatAssoc(first, SeenImages(images[1..]), more);
    assert [] + (SeenImages(images[1..]) + more) == SeenImages(images[1..]) + more;
  }

  /** Three lists laid end to end come apart again at their counts. */
  lemma ListsComeApart(env: Env, lists: PpiLists)
    requires env.Valid() && lists.Fits()
    ensures PpiDumpOf(PpiRecordOf(env, lists)) ==
      PpiDump(lists.Counts(), SeenEntries(lists.ppis, |lists.ppis|),
                   SeenEntries(lists.callbacks, |lists.callbacks|),
              SeenEntries(lists.dispatches, |lists.dispatches|))
  {
    hide PpiOf, PpiLines, SeenEntries;
    var all := PpisOf(env, lists.All());
    var a := |lists.ppis|;
    var b := a + |lists.callbacks|;
    assert all[..a] == PpisOf(env, lists.ppis);
    assert all[a..b] == PpisOf(env, lists.callbacks);
    assert all[b..] == PpisOf(env, lists.dispatches);
    EntriesAreSeen(env, lists.ppis, |lists.ppis|);
    EntriesAreSeen(env, lists.callbacks, |lists.callbacks|);
    EntriesAreSeen(env, lists.dispatches, |lists.dispatches|);
  }

  lemma {:induction false} NoSectionAmongImages(images: seq<Image>, total: nat, more: seq<Record>)
    requires |images| <= total
    ensures FirstPpi(ImageRecords(images, total) + more) == FirstPpi(more)
    ensures FirstMemory(ImageRecords(images, total) + more) == FirstMemory(more)
    decreases total
  {
    var rs := ImageRecords(images, total);
    if total == 0 {
      assert rs + more == more;
    } else {
      var rest := ImagesTail(images, total, more);
      NoSectionAmongImages(rest, total - 1, more);
      FirstRecord(Some(rs[0]), ImageRecords(rest, total - 1) + more);
    }
  }

  datatype Output = Output(images: seq<ImageLine>, ppis: Option<PpiDump>, memory: Option<Record>)

  /** The three sections and the rounding of the HOB can be walked to their end if and only if the PEIM count is even:
      with an odd count the image walk takes the 4 bytes of rounding for another header. */
  lemma HobWalksIffEven(env: Env, total: nat, lists: PpiLists, memory: MemoryInfo, data: seq<Byte>)
    requires env.Valid() && lists.Fits() && |env.images| <= total
    requires AllValid(HobRecords(env, total, lists, memory))
    requires |data| == AlignUp(HobDataSize(total, lists), 8)
    requires data[..HobDataSize(total, lists)] == EncodeAll(HobRecords(env, total, lists, memory))
    ensures WellFormed(data) <==> total % 2 == 0
  {
    hide EncodeAll, AllValid;
    var tail := data[HobDataSize(total, lists)..];
    DataSizeIsAligned(total, lists);
    assert data == data[..HobDataSize(total, lists)] + tail;
    WellFormedTail(HobRecords(env, total, lists, memory), tail);
  }

  /** From the PEI core's lists to the shell, for an even number of PEIMs: every image with a GUID once and in order,
      every list entry with
      flags at its original position in its own list, and the memory record. */
  method DumpPeiCore(fvs: seq<Volume>, env0: Env, lists: PpiLists, memory: MemoryInfo) returns (out: Output)
    requires AllVolumes(fvs) && HOB_HEADER + AlignUp(HobDataSize(TotalPeims(fvs), lists), 8) < 0x1_0000
    requires TotalPeims(fvs) % 2 == 0
    ensures lists.Fits() && out == Output(
      SeenImages(ImagesOf(fvs)),
      Some(PpiDump(lists.Counts(), SeenEntries(lists.ppis, |lists.ppis|),
                   SeenEntries(lists.callbacks, |lists.callbacks|),
                   SeenEntries(lists.dispatches, |lists.dispatches|))),
      Some(MemoryRecordOf(memory)))
  {
    hide EncodeAll, WellFormed, Walk, ImagesOf, TotalPeims, SeenImages, SeenEntries, PpiDumpOf, PpiRecordOf;
    CapacitySuffices(fvs);
    var table := DumpImageData(fvs);
    var env := Env(table.imageStruct[..table.count], env0.memory, env0.funcs);
    var data := BuildPeiCoreDatabase(fvs, table, env, lists, memory);
    var db := data[..];
    ghost var records := HobRecords(env, TotalPeims(fvs), lists, memory);
    HobWalks(env, TotalPeims(fvs), lists, memory);
    DataSizeIsAligned(TotalPeims(fvs), lists);
    assert db == data[..HobDataSize(TotalPeims(fvs), lists)];
    var own := new ImageTable(0, false);
    var images := DumpPeiLoadedImage(db);
    var ppis := DumpPpiDatabase(own, db);
    var info := DumpMemoryInfo(db);
    out := Output(images, ppis, info);
  }

  /** What the three walks find in a HOB. */
  lemma HobWalks(env: Env, total: nat, lists: PpiLists, memory: MemoryInfo)
    requires env.Valid() && lists.Fits() && |env.images| <= total
    ensures
      var records := HobRecords(env, total, lists, memory);
      && AllValid(records) && WellFormed(EncodeAll(records)) && Walk(EncodeAll(records)) == records
      && ImageLines(records) == SeenImages(env.images)
      && FirstPpi(records) == Some(PpiRecordOf(env, lists)) && FirstMemory(records) == Some(MemoryRecordOf(memory))
      && PpiDumpOf(PpiRecordOf(env, lists)) ==
           PpiDump(lists.Counts(), SeenEntries(lists.ppis, |lists.ppis|),
                   SeenEntries(lists.callbacks, |lists.callbacks|),
                   SeenEntries(lists.dispatches, |lists.dispatches|))
  {
    hide WellFormed, Walk, EncodeAll, PpiDumpOf, SeenEntries, SeenImages;
    var p, m := PpiRecordOf(env, lists), MemoryRecordOf(memory);
    var images, records := ImageRecords(env.images, total), HobRecords(env, total, lists, memory);
    assert WellFormed([]) && Walk([]) == [] by { NothingIsWellFormed(); }
    WalkEncoded(records, []);
    assert EncodeAll(records) + [] == EncodeAll(records) && records + [] == records;
    ConcatAssoc(images, [p], [m]);
    ImagesAreSeen(env.images, total, [p] + [m]);
    NoSectionAmongImages(env.images, total, [p] + [m]);
    assert ([p] + [m])[1..] == [m] && [m][1..] == [] && [m] + [] == [m];
    FirstImageLine(Some(p), [m]);
    FirstImageLine(Some(m), []);
    WalkNothing();
    assert SeenImages(env.images) + [] == SeenImages(env.images);
    ListsComeApart(env, lists);
  }

  lemma NothingIsWellFormed()
    ensures WellFormed([]) && Walk([]) == []
  {
  }
}
