/** The SMM side of the dump (SmmCoreDumpHandler.c): measure the core's lists, then write
    the tagged, length-prefixed records in place, one slice of the buffer per section. */
module SmmWriter {
  import opened Bytes
  import opened Segments
  import opened SmmImages
  import opened SmmDatabase

  datatype ProtocolInterface = ProtocolInterface(protocol: Guid, iface: UintN)
  datatype Handle = Handle(address: UintN, protocols: seq<ProtocolInterface>)
  datatype ProtocolEntry = ProtocolEntry(protocolId: Guid, interfaces: seq<ProtocolInterface>, notifies: seq<UintN>)
  datatype SmiHandler = SmiHandler(address: UintN, handler: UintN)
  datatype SmiEntry = SmiEntry(handlerType: Guid, handlers: seq<SmiHandler>)

  /** The linked lists of the SMM core, the blob the child dump library supplies, and gEfiCallerIdGuid. */
  datatype CoreLists = CoreLists(
    handles: seq<Handle>,
    protocols: seq<ProtocolEntry>,
    smiEntries: seq<SmiEntry>,
    rootHandlers: seq<SmiHandler>,
    child: seq<Byte>,
    callerId: Guid)

  /* ---------- the records the lists stand for ---------- */

  function ProtocolCells(env: Env, ps: seq<ProtocolInterface>): (cells: seq<Cell>)
    requires env.Valid()
    ensures |cells| == |ps| && AllOf(ProtocolKind, cells)
  {
    seq(|ps|, i requires 0 <= i < |ps| =>
      ProtocolCell(ps[i].protocol, ps[i].iface, env.RefEx(ps[i].iface, ps[i].protocol)))
  }

  function InterfaceCells(env: Env, ps: seq<ProtocolInterface>): (cells: seq<Cell>)
    requires env.Valid()
    ensures |cells| == |ps| && AllOf(AddressKind, cells)
  {
    seq(|ps|, i requires 0 <= i < |ps| => AddressCell(ps[i].iface, env.RefEx(ps[i].iface, ps[i].protocol)))
  }

  function NotifyCells(env: Env, ns: seq<UintN>): (cells: seq<Cell>)
    requires env.Valid()
    ensures |cells| == |ns| && AllOf(AddressKind, cells)
  {
    seq(|ns|, i requires 0 <= i < |ns| => AddressCell(ns[i], ImageRef(env.images, ns[i])))
  }

  function HandlerCells(env: Env, hs: seq<SmiHandler>): (cells: seq<Cell>)
    requires env.Valid()
    ensures |cells| == |hs| && AllOf(HandlerKind, cells)
  {
    seq(|hs|, i requires 0 <= i < |hs| =>
      HandlerCell(hs[i].address, hs[i].handler, ImageRef(env.images, hs[i].handler)))
  }

  function ImageRecordOf(image: Image): (r: Record)
    ensures r.Valid()
  {
    ImageRecord(image.fileGuid, image.name, image.entryPoint, image.loadedImageBase, image.imageSize,
                image.imageBase)
  }

  function HandleRecordOf(env: Env, h: Handle): Record
    requires env.Valid()
  {
    HandleRecord(h.address, ProtocolCells(env, h.protocols))
  }

  function ProtocolRecordOf(env: Env, e: ProtocolEntry): Record
    requires env.Valid()
  {
    ProtocolRecord(e.protocolId, InterfaceCells(env, e.interfaces), NotifyCells(env, e.notifies))
  }

  /** reserved is whatever the three bytes held before the record was written. */
  function SmiRecordOf(env: Env, e: SmiEntry, reserved: seq<Byte>): Record
    requires env.Valid()
  {
    SmiRecord(0, reserved, e.handlerType, HandlerCells(env, e.handlers))
  }

  function RootRecordOf(env: Env, hs: seq<SmiHandler>, reserved: seq<Byte>): Record
    requires env.Valid()
  {
    SmiRecord(1, reserved, ZERO_GUID, HandlerCells(env, hs))
  }

  function ImageRecords(images: seq<Image>): (rs: seq<Record>)
    ensures |rs| == |images|
  {
    seq(|images|, i requires 0 <= i < |images| => ImageRecordOf(images[i]))
  }

  function HandleRecords(env: Env, handles: seq<Handle>): (rs: seq<Record>)
    requires env.Valid()
    ensures |rs| == |handles|
  {
    seq(|handles|, i requires 0 <= i < |handles| => HandleRecordOf(env, handles[i]))
  }

  function ProtocolRecords(env: Env, entries: seq<ProtocolEntry>): (rs: seq<Record>)
    requires env.Valid()
    ensures |rs| == |entries|
  {
    seq(|entries|, i requires 0 <= i < |entries| => ProtocolRecordOf(env, entries[i]))
  }

  /** Entries before the first one carrying the caller-id GUID. */
  function BeforeCallerId(entries: seq<ProtocolEntry>, callerId: Guid): (r: seq<ProtocolEntry>)
    ensures |r| <= |entries| && r == entries[..|r|]
    ensures forall i :: 0 <= i < |r| ==> entries[i].protocolId != callerId
    ensures |r| < |entries| ==> entries[|r|].protocolId == callerId
  {
    if entries == [] || entries[0].protocolId == callerId then []
    else [entries[0]] + BeforeCallerId(entries[1..], callerId)
  }

  function SmiSize(entries: seq<SmiEntry>): nat {
    if entries == [] then 0
    else SmiSize(entries[..|entries| - 1]) + SMI_SIZE + 24 * |entries[|entries| - 1].handlers|
  }

  /** The SMI records, their reserved bytes being those of buf where each record is laid down. */
  function SmiRecordsOver(env: Env, entries: seq<SmiEntry>, buf: seq<Byte>, off: nat): (rs: seq<Record>)
    requires env.Valid() && off + SmiSize(entries) <= |buf|
    ensures |rs| == |entries|
  {
    if entries == [] then []
    else
      var init, e := entries[..|entries| - 1], entries[|entries| - 1];
      var p := off + SmiSize(init);
      SmiRecordsOver(env, init, buf, off) + [SmiRecordOf(env, e, buf[p + 13..p + 16])]
  }

  lemma {:induction false} SmiRecordsSize(env: Env, entries: seq<SmiEntry>, buf: seq<Byte>, off: nat)
    requires env.Valid() && off + SmiSize(entries) <= |buf| && SmiSize(entries) < TWO32
    ensures AllValid(SmiRecordsOver(env, entries, buf, off))
    ensures |EncodeAll(SmiRecordsOver(env, entries, buf, off))| == SmiSize(entries)
  {
    hide Encode, EncodeAll;
    EmptyEncodes();
    if entries != [] {
      var init, e := entries[..|entries| - 1], entries[|entries| - 1];
      var p := off + SmiSize(init);
      SmiRecordsSize(env, init, buf, off);
      EncodeAllSnoc(SmiRecordsOver(env, init, buf, off), SmiRecordOf(env, e, buf[p + 13..p + 16]));
    }
  }

  /** A prefix of a record list occupies a prefix of the bytes. */
  lemma EncodePrefix(rs: seq<Record>, i: nat)
    requires AllValid(rs) && i < |rs|
    ensures AllValid(rs[..i]) && AllValid(rs[..i + 1])
    ensures EncodeAll(rs[..i + 1]) == EncodeAll(rs[..i]) + Encode(rs[i])
    ensures |EncodeAll(rs[..i + 1])| <= |EncodeAll(rs)|
  {
    hide Encode, EncodeAll;
    assert rs[..i + 1] == rs[..i] + [rs[i]];
    EncodeAllSnoc(rs[..i], rs[i]);
    assert rs == rs[..i + 1] + rs[i + 1..];
    EncodeAllAppend(rs[..i + 1], rs[i + 1..]);
  }

  /* ---------- first pass: sizes ---------- */

  lemma HandleSizes(env: Env, handles: seq<Handle>, i: nat)
    requires env.Valid() && i < |handles| && AllValid(HandleRecords(env, handles))
    ensures AllValid(HandleRecords(env, handles)[..i]) && AllValid(HandleRecords(env, handles)[..i + 1])
    ensures |EncodeAll(HandleRecords(env, handles)[..i + 1])|
         == |EncodeAll(HandleRecords(env, handles)[..i])| + HANDLE_SIZE + 32 * |handles[i].protocols|
  {
    EncodePrefix(HandleRecords(env, handles), i);
  }

  method GetSmmHandlerDatabaseSize(env: Env, handles: seq<Handle>) returns (size: nat)
    requires env.Valid() && AllValid(HandleRecords(env, handles))
    ensures size == |EncodeAll(HandleRecords(env, handles))|
  {
    ghost var rs := HandleRecords(env, handles);
    size := 0;
    for i := 0 to |handles|
      invariant AllValid(rs[..i]) && size == |EncodeAll(rs[..i])|
    {
      HandleSizes(env, handles, i);
      size := size + HANDLE_SIZE;
      for k := 0 to |handles[i].protocols|
        invariant size == |EncodeAll(rs[..i])| + HANDLE_SIZE + 32 * k
      {
        size := size + CellSize(ProtocolKind);
      }
    }
    assert rs[..|rs|] == rs;
  }

  lemma ProtocolSizes(env: Env, entries: seq<ProtocolEntry>, i: nat)
    requires env.Valid() && i < |entries| && AllValid(ProtocolRecords(env, entries))
    ensures AllValid(ProtocolRecords(env, entries)[..i]) && AllValid(ProtocolRecords(env, entries)[..i + 1])
    ensures |EncodeAll(ProtocolRecords(env, entries)[..i + 1])|
         == |EncodeAll(ProtocolRecords(env, entries)[..i])| + PROTOCOL_SIZE
            + 16 * |entries[i].interfaces| + 16 * |entries[i].notifies|
  {
    EncodePrefix(ProtocolRecords(env, entries), i);
  }

  method GetSmmProtocolDatabaseSize(env: Env, entries: seq<ProtocolEntry>, callerId: Guid) returns (size: nat)
    requires env.Valid() && AllValid(ProtocolRecords(env, BeforeCallerId(entries, callerId)))
    ensures size == |EncodeAll(ProtocolRecords(env, BeforeCallerId(entries, callerId)))|
  {
    ghost var live := BeforeCallerId(entries, callerId);
    ghost var rs := ProtocolRecords(env, live);
    size := 0;
    var i := 0;
    while i < |entries|
      invariant 0 <= i <= |live|
      invariant AllValid(rs[..i]) && size == |EncodeAll(rs[..i])|
    {
      if entries[i].protocolId == callerId {
        break;
      }
      ProtocolSizes(env, live, i);
      size := size + PROTOCOL_SIZE;
      for k := 0 to |entries[i].interfaces|
        invariant size == |EncodeAll(rs[..i])| + PROTOCOL_SIZE + 16 * k
      {
        size := size + CellSize(AddressKind);
      }
      for k := 0 to |entries[i].notifies|
        invariant size == |EncodeAll(rs[..i])| + PROTOCOL_SIZE + 16 * |entries[i].interfaces| + 16 * k
      {
        size := size + CellSize(AddressKind);
      }
      i := i + 1;
    }
    assert rs[..|rs|] == rs;
  }

  method GetSmmSmiDatabaseSize(entries: seq<SmiEntry>) returns (size: nat)
    ensures size == SmiSize(entries)
    ensures forall env: Env, buf: seq<Byte>, off: nat | env.Valid() && off + size <= |buf| && size < TWO32 ::
      AllValid(SmiRecordsOver(env, entries, buf, off)) && |EncodeAll(SmiRecordsOver(env, entries, buf, off))| == size
  {
    size := 0;
    for i := 0 to |entries|
      invariant size == SmiSize(entries[..i])
    {
      assert entries[..i + 1][..i] == entries[..i];
      size := size + SMI_SIZE;
      for k := 0 to |entries[i].handlers|
        invariant size == SmiSize(entries[..i]) + SMI_SIZE + 24 * k
      {
        size := size + CellSize(HandlerKind);
      }
    }
    assert entries[..|entries|] == entries;
    forall env: Env, buf: seq<Byte>, off: nat | env.Valid() && off + size <= |buf| && size < TWO32
      ensures AllValid(SmiRecordsOver(env, entries, buf, off))
      ensures |EncodeAll(SmiRecordsOver(env, entries, buf, off))| == size
    {
      SmiRecordsSize(env, entries, buf, off);
    }
  }

  method GetSmmRootSmiDatabaseSize(handlers: seq<SmiHandler>) returns (size: nat)
    ensures size == SMI_SIZE + 24 * |handlers|
  {
    size := SMI_SIZE;
    for k := 0 to |handlers|
      invariant size == SMI_SIZE + 24 * k
    {
      size := size + CellSize(HandlerKind);
    }
  }

  /* ---------- second pass: bytes ---------- */

  /** The loop shared by GetSmmProtocolInterfacesDataOnHandle, GetSmmProtocolInterfacesDataOnProtocolEntry,
      GetSmmProtocolNotifyDataOnProtocolEntry and GetSmmSmiHandlerDataOnSmiEntry, which differ only in the
      structure they fill. It never writes outside [off, off + maxSize). */
  method WriteCells(kind: CellKind, cells: seq<Cell>, data: array<Byte>, off: nat, maxSize: nat)
    returns (size: nat)
    requires AllOf(kind, cells) && off + maxSize <= data.Length
    modifies data
    ensures SameOutside(old(data[..]), data[..], off, off + maxSize)
    ensures size == if CellsSize(kind, |cells|) <= maxSize then CellsSize(kind, |cells|) else 0
    ensures |EncodeCells(Fitting(kind, cells, maxSize))| <= maxSize
    ensures data[..] == Splice(old(data[..]), off, EncodeCells(Fitting(kind, cells, maxSize)))
  {
    hide EncodeCell, EncodeCells, Splice, SameOutside;
    ghost var before := data[..];
    EmptyCells(before, off);
    SameOutsideRefl(before, off, off + maxSize);
    size := 0;
    var i := 0;
    while i < |cells|
      invariant 0 <= i <= |cells| && size == CellsSize(kind, i) <= maxSize
      invariant |EncodeCells(cells[..i])| == size
      invariant data[..] == Splice(before, off, EncodeCells(cells[..i]))
      invariant SameOutside(before, data[..], off, off + maxSize)
    {
      if size >= maxSize || CellSize(kind) > maxSize - size {
        FittingIs(kind, cells, maxSize, i);
        return 0;
      }
      assert cells[i] in cells;
      assert cells[..i + 1] == cells[..i] + [cells[i]];
      EncodeCellsSnoc(cells[..i], cells[i]);
      SpliceAdjacent(before, off, EncodeCells(cells[..i]), EncodeCell(cells[i]));
      SpliceSameOutside(before, off, EncodeCells(cells[..i + 1]), off, off + maxSize);
      Put(data, off + size, EncodeCell(cells[i]));
      size := size + CellSize(kind);
      i := i + 1;
    }
    assert cells[..|cells|] == cells;
  }

  /** The structures that fit whole into maxSize bytes, one behind the other. */
  function Fitting(kind: CellKind, cells: seq<Cell>, maxSize: nat): (fit: seq<Cell>)
    ensures fit <= cells && CellsSize(kind, |fit|) <= maxSize
  {
    if CellsSize(kind, |cells|) <= maxSize then cells else cells[..maxSize / CellSize(kind)]
  }

  lemma FittingIs(kind: CellKind, cells: seq<Cell>, maxSize: nat, i: nat)
    requires i < |cells| && CellsSize(kind, i) <= maxSize < CellsSize(kind, i) + CellSize(kind)
    ensures Fitting(kind, cells, maxSize) == cells[..i]
  {
  }

  /** The structures counted in the record: all of them, or none if they do not fit. */
  function Counted(kind: CellKind, cells: seq<Cell>, maxSize: nat): (kept: seq<Cell>)
    ensures CellsSize(kind, |kept|) <= maxSize && (kept == cells || kept == [])
  {
    if CellsSize(kind, |cells|) <= maxSize then cells else []
  }

  lemma EmptyCells(s: seq<Byte>, off: nat)
    requires off <= |s|
    ensures EncodeCells([]) == [] && Splice(s, off, []) == s
  {
  }

  method GetSmmImageDatabaseData(images: seq<Image>, data: array<Byte>, off: nat, expectedSize: nat)
    returns (size: nat)
    requires off + expectedSize <= data.Length
    modifies data
    ensures AllValid(ImageRecords(images))
    ensures SameOutside(old(data[..]), data[..], off, off + expectedSize)
    ensures size == if expectedSize / IMAGE_SIZE == |images| then IMAGE_SIZE * |images| else 0
    ensures expectedSize == IMAGE_SIZE * |images| ==>
      |EncodeAll(ImageRecords(images))| == expectedSize &&
      data[..] == Splice(old(data[..]), off, EncodeAll(ImageRecords(images)))
    ensures expectedSize / IMAGE_SIZE != |images| ==> data[..] == old(data[..])
  {
    hide Encode, EncodeAll, SameOutside, Splice;
    ghost var before := data[..];
    ghost var rs := ImageRecords(images);
    SameOutsideRefl(before, off, off + expectedSize);
    SpliceNothing(before, off);
    if expectedSize / IMAGE_SIZE != |images| {
      return 0;
    }
    var i := 0;
    assert |EncodeAll(rs[..0])| == 0 by { EmptyEncodes(); }
    while i < |images|
      invariant 0 <= i <= |images| && AllValid(rs[..i])
      invariant |EncodeAll(rs[..i])| == IMAGE_SIZE * i
      invariant data[..] == Splice(before, off, EncodeAll(rs[..i]))
    {
      EncodePrefix(rs, i);
      SpliceAdjacent(before, off, EncodeAll(rs[..i]), Encode(rs[i]));
      Put(data, off + IMAGE_SIZE * i, Encode(ImageRecordOf(images[i])));
      i := i + 1;
    }
    assert rs[..|rs|] == rs;
    SpliceSameOutside(before, off, EncodeAll(rs), off, off + expectedSize);
    size := IMAGE_SIZE * |images|;
  }

  lemma EmptyEncodes()
    ensures AllValid([]) && EncodeAll([]) == []
  {
  }

  /** Overwriting the Length field of a record's header. */
  lemma PatchLength(s: seq<Byte>, p: nat, signature: Uint32, l: Uint32, l': Uint32, b: seq<Byte>, c: seq<Byte>,
                    d: seq<Byte>, e: seq<Byte>, f: seq<Byte>, g: seq<Byte>)
    requires p + |Cat(Header(signature, l), b, c, d, e, f, g)| <= |s|
    ensures Splice(Splice(s, p, Cat(Header(signature, l), b, c, d, e, f, g)), p + 4, Le(4, l'))
         == Splice(s, p, Cat(Header(signature, l'), b, c, d, e, f, g))
  {
    hide Le, Cat, Splice;
    var rest := b + c + d + e + f + g;
    Tail0(Header(signature, l), b, c, d, e, f, g);
    Tail0(Header(signature, l'), b, c, d, e, f, g);
    ConcatAssoc(Le(4, signature) + Le(4, l), Le(4, REVISION), rest);
    ConcatAssoc(Le(4, signature) + Le(4, l'), Le(4, REVISION), rest);
    SpliceOver(s, p, Le(4, signature), Le(4, l), Le(4, REVISION) + rest, Le(4, l'));
  }

  /** The stores made for one handle, in the order they are made: header with a provisional length,
      handle, cells, count, and finally the patched length. */
  lemma HandleStores(s: seq<Byte>, p: nat, r: Record)
    requires r.Valid() && r.HandleRecord? && p + r.Size() <= |s|
    requires |EncodeCells(r.protocols)| == CellsSize(ProtocolKind, |r.protocols|)
    ensures
      var s1 := Splice(s, p, Header(HANDLE_SIGNATURE, HANDLE_SIZE));
      var s2 := Splice(s1, p + 12, Le(8, r.handle));
      var s3 := Splice(s2, p + 28, EncodeCells(r.protocols));
      var s4 := Splice(s3, p + 20, Le(8, |r.protocols|));
      Splice(s4, p + 4, Le(4, r.Size())) == Splice(s, p, Encode(r))
  {
    hide Splice, EncodeCells, Le, Cat;
    var cells, n, handle := EncodeCells(r.protocols), Le(8, |r.protocols|), Le(8, r.handle);
    var h := Header(HANDLE_SIGNATURE, HANDLE_SIZE);
    var end := p + r.Size();
    Cut(s, p, p + 12, p + 20, p + 28, end, end, end);
    var o1, o2, o3, o := s[p + 12..p + 20], s[p + 20..p + 28], s[p + 28..end], s[end..end];
    Store0(s, p, s[p..p + 12], o1, o2, o3, o, o, [], h);
    Store1(s, p, h, o1, o2, o3, o, o, [], handle);
    Store3(s, p, h, handle, o2, o3, o, o, [], cells);
    Store2(s, p, h, handle, o2, cells, o, o, [], n);
    PatchLength(s, p, HANDLE_SIGNATURE, HANDLE_SIZE, r.Size(), handle, n, cells, o, o, []);
  }

  /** Append the cells of one list to the record at p, whose length so far is given: the cells go after the
      record, their count into the 64-bit field at p + countOff, and the new length into the header. */
  method WriteCounted(kind: CellKind, cells: seq<Cell>, data: array<Byte>, p: nat, length: Uint32, countOff: nat,
                      maxSize: nat, ghost before: seq<Byte>)
    returns (newLength: Uint32)
    requires AllOf(kind, cells) && 8 <= countOff && countOff + 8 <= length <= maxSize < TWO32
    requires p + maxSize <= data.Length && SameOutside(before, data[..], p, p + maxSize)
    modifies data
    ensures SameOutside(before, data[..], p, p + maxSize)
    ensures newLength == length + CellsSize(kind, |Counted(kind, cells, maxSize - length)|)
    ensures |EncodeCells(Fitting(kind, cells, maxSize - length))| <= maxSize - length
    ensures data[..] ==
      Splice(Splice(Splice(old(data[..]), p + length, EncodeCells(Fitting(kind, cells, maxSize - length))),
                    p + countOff, Le(8, |Counted(kind, cells, maxSize - length)|)), p + 4, Le(4, newLength))
  {
    hide EncodeCells, Le, Splice, SameOutside, Fitting;
    ghost var s0 := data[..];
    var written := WriteCells(kind, cells, data, p + length, maxSize - length);
    SameOutsideStep(before, s0, data[..], p, p + maxSize, p + length, p + maxSize);
    var count := written / CellSize(kind);
    CellCount(kind, if length + CellsSize(kind, |cells|) <= maxSize then |cells| else 0);
    PutWithin(data, p + countOff, Le(8, count), before, p, p + maxSize);
    newLength := (length + count * CellSize(kind) % TWO32) % TWO32;
    PutWithin(data, p + 4, Le(4, newLength), before, p, p + maxSize);
  }

  lemma CellCount(kind: CellKind, n: nat)
    ensures CellsSize(kind, n) / CellSize(kind) == n && n * CellSize(kind) == CellsSize(kind, n)
  {
  }

  /** The structures announced by the record are in place already, or there are none. */
  lemma StoredAlready(s: seq<Byte>, off: nat, kept: seq<Cell>, fit: seq<Cell>)
    requires off + |EncodeCells(fit)| <= |s| && s[off..off + |EncodeCells(fit)|] == EncodeCells(fit)
    requires kept == fit || kept == []
    ensures off + |EncodeCells(kept)| <= |s| && Splice(s, off, EncodeCells(kept)) == s
  {
    hide EncodeCells, Splice;
    EmptyCells(s, off);
    SpliceSame(s, off, EncodeCells(fit));
  }

  /** The same stores when the structures behind the record may not all fit: those that do are written, but the
      record announces them only if all do. */
  lemma HandleStoresFitting(s: seq<Byte>, p: nat, r: Record, fit: seq<Cell>)
    requires r.Valid() && r.HandleRecord? && (r.protocols == fit || r.protocols == [])
    requires p + r.Size() <= |s| && p + HANDLE_SIZE + |EncodeCells(fit)| <= |s|
    ensures
      var s1 := Splice(s, p, Header(HANDLE_SIGNATURE, HANDLE_SIZE));
      var s2 := Splice(s1, p + 12, Le(8, r.handle));
      var s3 := Splice(s2, p + 28, EncodeCells(fit));
      var s4 := Splice(s3, p + 20, Le(8, |r.protocols|));
      Splice(s4, p + 4, Le(4, r.Size())) == Splice(Splice(s, p + 28, EncodeCells(fit)), p, Encode(r))
  {
    hide Splice, EncodeCells, Le, Header, Encode;
    var x, h, a := EncodeCells(fit), Header(HANDLE_SIGNATURE, HANDLE_SIZE), Le(8, r.handle);
    var t := Splice(s, p + 28, x);
    EncodeCellsSize(ProtocolKind, r.protocols);
    HandleStores(t, p, r);
    var s1 := Splice(s, p, h);
    SpliceCommute(s, p, h, p + 28, x);
    SpliceCommute(s1, p + 12, a, p + 28, x);
    var s3 := Splice(Splice(s1, p + 12, a), p + 28, x);
    SpliceReads(Splice(s1, p + 12, a), p + 28, x, 0, 0);
    StoredAlready(s3, p + 28, r.protocols, fit);
  }

  /** Structures b and b' were stored at q and q', and then record r at p over whatever was there. */
  ghost predicate Wrote(before: seq<Byte>, after: seq<Byte>, q: nat, b: seq<Byte>, q': nat, b': seq<Byte>,
                        p: nat, r: Record)
  {
    && q + |b| <= |before| && q' + |b'| <= |before| && r.Valid() && p + r.Size() <= |before|
    && after == Splice(Splice(Splice(before, q, b), q', b'), p, Encode(r))
  }

  /** The loop body of GetSmmHandlerDatabaseData. */
  method WriteHandle(env: Env, h: Handle, data: array<Byte>, p: nat, maxSize: nat) returns (length: nat)
    requires env.Valid() && HandleRecordOf(env, h).Valid()
    requires HANDLE_SIZE <= maxSize < TWO32 && p + maxSize <= data.Length
    modifies data
    ensures SameOutside(old(data[..]), data[..], p, p + maxSize)
    ensures HANDLE_SIZE <= length <= maxSize
    ensures var r := HandleRecordOf(env, h); r.Size() <= maxSize ==>
      length == r.Size() && data[..] == Splice(old(data[..]), p, Encode(r))
    ensures
      var room, cells := maxSize - HANDLE_SIZE, ProtocolCells(env, h.protocols);
      var r := HandleRecord(h.address, Counted(ProtocolKind, cells, room));
      && length == r.Size()
      && Wrote(old(data[..]), data[..], p + HANDLE_SIZE, EncodeCells(Fitting(ProtocolKind, cells, room)), p, [], p, r)
  {
    hide Encode, EncodeCells, Header, Le, Splice, SameOutside, Fitting;
    ghost var s0 := data[..];
    ghost var room, cells := maxSize - HANDLE_SIZE, ProtocolCells(env, h.protocols);
    ghost var kept := HandleRecord(h.address, Counted(ProtocolKind, cells, room));
    SameOutsideRefl(s0, p, p + maxSize);
    PutWithin(data, p, Header(HANDLE_SIGNATURE, HANDLE_SIZE), s0, p, p + maxSize);
    PutWithin(data, p + 12, Le(8, h.address), s0, p, p + maxSize);
    length := WriteCounted(ProtocolKind, ProtocolCells(env, h.protocols), data, p, HANDLE_SIZE, 20, maxSize, s0);
    AllFit(ProtocolKind, cells, room);
    HandleStoresFitting(s0, p, kept, Fitting(ProtocolKind, cells, room));
    SpliceNothing(Splice(s0, p + HANDLE_SIZE, EncodeCells(Fitting(ProtocolKind, cells, room))), p);
    ghost var r := HandleRecordOf(env, h);
    if r.Size() <= maxSize {
      EncodeCellsSize(ProtocolKind, cells);
      SpliceCover(s0, p, Encode(r), p + HANDLE_SIZE, EncodeCells(cells));
    }
  }

  /** If all structures fit, all are counted; if not, none is. */
  lemma AllFit(kind: CellKind, cells: seq<Cell>, maxSize: nat)
    ensures CellsSize(kind, |cells|) <= maxSize ==>
      Fitting(kind, cells, maxSize) == cells && Counted(kind, cells, maxSize) == cells
    ensures Counted(kind, cells, maxSize) == Fitting(kind, cells, maxSize) || Counted(kind, cells, maxSize) == []
  {
  }

  method GetSmmHandlerDatabaseData(env: Env, handles: seq<Handle>, data: array<Byte>, off: nat, expectedSize: nat)
    returns (size: nat)
    requires env.Valid() && AllValid(HandleRecords(env, handles))
    requires expectedSize < TWO32 && off + expectedSize <= data.Length
    modifies data
    ensures SameOutside(old(data[..]), data[..], off, off + expectedSize)
    ensures size == 0 || size == expectedSize
    ensures expectedSize == |EncodeAll(HandleRecords(env, handles))| ==>
      size == expectedSize && data[..] == Splice(old(data[..]), off, EncodeAll(HandleRecords(env, handles)))
  {
    hide Encode, EncodeAll, SameOutside, Splice, Wrote, Counted, Fitting, EncodeCells, CellsSize;
    ghost var before := data[..];
    ghost var rs := HandleRecords(env, handles);
    ghost var exact := expectedSize == |EncodeAll(rs)|;
    EmptyEncodes();
    SameOutsideRefl(before, off, off + expectedSize);
    SpliceNothing(before, off);
    size := 0;
    var p := off;
    var i := 0;
    while i < |handles|
      invariant 0 <= i <= |handles| && p == off + size && size <= expectedSize && AllValid(rs[..i])
      invariant SameOutside(before, data[..], off, off + expectedSize)
      invariant exact ==> size == |EncodeAll(rs[..i])| && data[..] == Splice(before, off, EncodeAll(rs[..i]))
    {
      EncodePrefix(rs, i);
      if size >= expectedSize {
        return 0;
      }
      if HANDLE_SIZE > expectedSize - size {
        return 0;
      }
      if exact {
        SpliceAdjacent(before, off, EncodeAll(rs[..i]), Encode(rs[i]));
      }
      ghost var middle := data[..];
      var length := WriteHandle(env, handles[i], data, p, expectedSize - size);
      SameOutsideStep(before, middle, data[..], off, off + expectedSize, p, p + (expectedSize - size));
      size := size + length;
      p := p + length;
      i := i + 1;
    }
    assert rs[..|rs|] == rs;
    if size != expectedSize {
      return 0;
    }
  }

  /** The stores made for one protocol entry; Length is patched twice. */
  lemma ProtocolStores(s: seq<Byte>, p: nat, r: Record)
    requires r.Valid() && r.ProtocolRecord? && p + r.Size() <= |s|
    requires |EncodeCells(r.interfaces)| == CellsSize(AddressKind, |r.interfaces|)
    requires |EncodeCells(r.notifies)| == CellsSize(AddressKind, |r.notifies|)
    ensures
      var l := PROTOCOL_SIZE + CellsSize(AddressKind, |r.interfaces|);
      var s1 := Splice(s, p, Header(PROTOCOL_SIGNATURE, PROTOCOL_SIZE));
      var s2 := Splice(s1, p + 12, r.guid);
      var s3 := Splice(s2, p + PROTOCOL_SIZE, EncodeCells(r.interfaces));
      var s4 := Splice(s3, p + 28, Le(8, |r.interfaces|));
      var s5 := Splice(s4, p + 4, Le(4, l));
      var s6 := Splice(s5, p + l, EncodeCells(r.notifies));
      var s7 := Splice(s6, p + 36, Le(8, |r.notifies|));
      Splice(s7, p + 4, Le(4, r.Size())) == Splice(s, p, Encode(r))
  {
    hide Splice, EncodeCells, Le, Cat;
    var ci, cn := EncodeCells(r.interfaces), EncodeCells(r.notifies);
    var ni, nn := Le(8, |r.interfaces|), Le(8, |r.notifies|);
    var h := Header(PROTOCOL_SIGNATURE, PROTOCOL_SIZE);
    var l := PROTOCOL_SIZE + CellsSize(AddressKind, |r.interfaces|);
    var h' := Header(PROTOCOL_SIGNATURE, l);
    var m, end := p + l, p + r.Size();
    Cut(s, p, p + 12, p + 28, p + 36, p + 44, m, end);
    var o1, o2, o3, o4, o5 := s[p + 12..p + 28], s[p + 28..p + 36], s[p + 36..p + 44], s[p + 44..m], s[m..end];
    Store0(s, p, s[p..p + 12], o1, o2, o3, o4, o5, [], h);
    Store1(s, p, h, o1, o2, o3, o4, o5, [], r.guid);
    Store4(s, p, h, r.guid, o2, o3, o4, o5, [], ci);
    Store2(s, p, h, r.guid, o2, o3, ci, o5, [], ni);
    PatchLength(s, p, PROTOCOL_SIGNATURE, PROTOCOL_SIZE, l, r.guid, ni, o3, ci, o5, []);
    Store5(s, p, h', r.guid, ni, o3, ci, o5, [], cn);
    Store3(s, p, h', r.guid, ni, o3, ci, cn, [], nn);
    PatchLength(s, p, PROTOCOL_SIGNATURE, l, r.Size(), r.guid, ni, nn, ci, cn, []);
  }

  /** As HandleStoresFitting, for two lists: the second starts where the announced part of the first ends. */
  lemma ProtocolStoresFitting(s: seq<Byte>, p: nat, r: Record, fit: seq<Cell>, fit': seq<Cell>)
    requires r.Valid() && r.ProtocolRecord? && p + r.Size() <= |s|
    requires (r.interfaces == fit || r.interfaces == []) && (r.notifies == fit' || r.notifies == [])
    requires p + PROTOCOL_SIZE + |EncodeCells(fit)| <= |s|
    requires p + PROTOCOL_SIZE + CellsSize(AddressKind, |r.interfaces|) + |EncodeCells(fit')| <= |s|
    ensures
      var l := PROTOCOL_SIZE + CellsSize(AddressKind, |r.interfaces|);
      var s1 := Splice(s, p, Header(PROTOCOL_SIGNATURE, PROTOCOL_SIZE));
      var s2 := Splice(s1, p + 12, r.guid);
      var s3 := Splice(s2, p + PROTOCOL_SIZE, EncodeCells(fit));
      var s4 := Splice(s3, p + 28, Le(8, |r.interfaces|));
      var s5 := Splice(s4, p + 4, Le(4, l));
      var s6 := Splice(s5, p + l, EncodeCells(fit'));
      var s7 := Splice(s6, p + 36, Le(8, |r.notifies|));
      Splice(s7, p + 4, Le(4, r.Size())) ==
      Splice(Splice(Splice(s, p + PROTOCOL_SIZE, EncodeCells(fit)), p + l, EncodeCells(fit')), p, Encode(r))
  {
    hide Splice, EncodeCells, Le, Header, Encode;
    var l := PROTOCOL_SIZE + CellsSize(AddressKind, |r.interfaces|);
    var h, i, l4 := Header(PROTOCOL_SIGNATURE, PROTOCOL_SIZE), Le(8, |r.interfaces|), Le(4, l);
    var x, y := EncodeCells(fit), EncodeCells(fit');
    var u := Splice(s, p + PROTOCOL_SIZE, x);
    var t := Splice(u, p + l, y);
    EncodeCellsSize(AddressKind, r.interfaces);
    EncodeCellsSize(AddressKind, r.notifies);
    ProtocolStores(t, p, r);
    SpliceCommute(s, p, h, p + PROTOCOL_SIZE, x);
    SpliceCommute(Splice(s, p, h), p + 12, r.guid, p + PROTOCOL_SIZE, x);
    var u1 := Splice(u, p, h);
    var u2 := Splice(u1, p + 12, r.guid);
    var u3 := Splice(u2, p + 28, i);
    SpliceCommute(u, p, h, p + l, y);
    SpliceCommute(u1, p + 12, r.guid, p + l, y);
    SpliceCommute(u2, p + 28, i, p + l, y);
    SpliceCommute(u3, p + 4, l4, p + l, y);
    var t1 := Splice(t, p, h);
    var t2 := Splice(t1, p + 12, r.guid);
    var t4 := Splice(t2, p + 28, i);
    var t5 := Splice(t4, p + 4, l4);
    InterfacesStored(s, p, h, r.guid, r.interfaces, fit, l, y);
    assert t5 == Splice(Splice(u3, p + 4, l4), p + l, y);
    SpliceReads(Splice(u3, p + 4, l4), p + l, y, 0, 0);
    StoredAlready(t5, p + l, r.notifies, fit');
  }

  /** The interface structures survive the notify structures and the header, or none is announced. */
  lemma InterfacesStored(s: seq<Byte>, p: nat, h: seq<Byte>, guid: Guid, kept: seq<Cell>, fit: seq<Cell>, l: nat,
                         y: seq<Byte>)
    requires (kept == fit || kept == []) && |h| == HEADER_SIZE && AllOf(AddressKind, kept)
    requires l == PROTOCOL_SIZE + CellsSize(AddressKind, |kept|)
    requires p + PROTOCOL_SIZE + |EncodeCells(fit)| <= |s| && p + l + |y| <= |s|
    ensures
      var t := Splice(Splice(s, p + PROTOCOL_SIZE, EncodeCells(fit)), p + l, y);
      var t2 := Splice(Splice(t, p, h), p + 12, guid);
      |EncodeCells(kept)| == l - PROTOCOL_SIZE && Splice(t2, p + PROTOCOL_SIZE, EncodeCells(kept)) == t2
  {
    hide Splice, EncodeCells;
    var x := EncodeCells(fit);
    var u := Splice(s, p + PROTOCOL_SIZE, x);
    var t := Splice(u, p + l, y);
    var t1 := Splice(t, p, h);
    var t2 := Splice(t1, p + 12, guid);
    EncodeCellsSize(AddressKind, kept);
    if kept == fit {
      SpliceReads(s, p + PROTOCOL_SIZE, x, 0, 0);
      SpliceReads(u, p + l, y, p + PROTOCOL_SIZE, |x|);
      SpliceReads(t, p, h, p + PROTOCOL_SIZE, |x|);
      SpliceReads(t1, p + 12, guid, p + PROTOCOL_SIZE, |x|);
      SpliceSame(t2, p + PROTOCOL_SIZE, x);
    } else {
      EmptyCells(t2, p + PROTOCOL_SIZE);
    }
  }

  /** The loop body of GetSmmProtocolDatabaseData. */
  method WriteProtocol(env: Env, e: ProtocolEntry, data: array<Byte>, p: nat, maxSize: nat) returns (length: nat)
    requires env.Valid() && ProtocolRecordOf(env, e).Valid()
    requires PROTOCOL_SIZE <= maxSize < TWO32 && p + maxSize <= data.Length
    modifies data
    ensures SameOutside(old(data[..]), data[..], p, p + maxSize)
    ensures PROTOCOL_SIZE <= length <= maxSize
    ensures var r := ProtocolRecordOf(env, e); r.Size() <= maxSize ==>
      length == r.Size() && data[..] == Splice(old(data[..]), p, Encode(r))
    ensures
      var cells, cells' := InterfaceCells(env, e.interfaces), NotifyCells(env, e.notifies);
      var room := maxSize - PROTOCOL_SIZE;
      var kept := Counted(AddressKind, cells, room);
      var room' := room - CellsSize(AddressKind, |kept|);
      var r := ProtocolRecord(e.protocolId, kept, Counted(AddressKind, cells', room'));
      && length == r.Size()
      && Wrote(old(data[..]), data[..], p + PROTOCOL_SIZE, EncodeCells(Fitting(AddressKind, cells, room)),
               p + maxSize - room', EncodeCells(Fitting(AddressKind, cells', room')), p, r)
  {
    hide Encode, EncodeCells, Header, Le, Splice, SameOutside, Fitting;
    ghost var s0 := data[..];
    ghost var cells, cells' := InterfaceCells(env, e.interfaces), NotifyCells(env, e.notifies);
    ghost var room := maxSize - PROTOCOL_SIZE;
    ghost var room' := room - CellsSize(AddressKind, |Counted(AddressKind, cells, room)|);
    ghost var kept := ProtocolRecord(e.protocolId, Counted(AddressKind, cells, room),
                                     Counted(AddressKind, cells', room'));
    SameOutsideRefl(s0, p, p + maxSize);
    PutWithin(data, p, Header(PROTOCOL_SIGNATURE, PROTOCOL_SIZE), s0, p, p + maxSize);
    PutWithin(data, p + 12, e.protocolId, s0, p, p + maxSize);
    length := WriteCounted(AddressKind, InterfaceCells(env, e.interfaces), data, p, PROTOCOL_SIZE, 28, maxSize, s0);
    length := WriteCounted(AddressKind, NotifyCells(env, e.notifies), data, p, length, 36, maxSize, s0);
    AllFit(AddressKind, cells, room);
    AllFit(AddressKind, cells', room');
    ProtocolStoresFitting(s0, p, kept, Fitting(AddressKind, cells, room), Fitting(AddressKind, cells', room'));
    ghost var r := ProtocolRecordOf(env, e);
    if r.Size() <= maxSize {
      EncodeCellsSize(AddressKind, cells);
      EncodeCellsSize(AddressKind, cells');
      var u := Splice(s0, p + PROTOCOL_SIZE, EncodeCells(cells));
      SpliceCover(u, p, Encode(r), p + maxSize - room', EncodeCells(cells'));
      SpliceCover(s0, p, Encode(r), p + PROTOCOL_SIZE, EncodeCells(cells));
    }
  }

  method GetSmmProtocolDatabaseData(env: Env, entries: seq<ProtocolEntry>, callerId: Guid, data: array<Byte>,
                                    off: nat, expectedSize: nat)
    returns (size: nat)
    requires env.Valid() && AllValid(ProtocolRecords(env, BeforeCallerId(entries, callerId)))
    requires expectedSize < TWO32 && off + expectedSize <= data.Length
    modifies data
    ensures SameOutside(old(data[..]), data[..], off, off + expectedSize)
    ensures size == 0 || size == expectedSize
    ensures var bytes := EncodeAll(ProtocolRecords(env, BeforeCallerId(entries, callerId)));
      expectedSize == |bytes| ==> size == expectedSize && data[..] == Splice(old(data[..]), off, bytes)
  {
    hide Encode, EncodeAll, SameOutside, Splice, Wrote, Counted, Fitting, EncodeCells, CellsSize;
    ghost var before := data[..];
    ghost var live := BeforeCallerId(entries, callerId);
    ghost var rs := ProtocolRecords(env, live);
    ghost var exact := expectedSize == |EncodeAll(rs)|;
    EmptyEncodes();
    SameOutsideRefl(before, off, off + expectedSize);
    SpliceNothing(before, off);
    size := 0;
    var p := off;
    var i := 0;
    while i < |entries|
      invariant 0 <= i <= |live| && p == off + size && size <= expectedSize && AllValid(rs[..i])
      invariant SameOutside(before, data[..], off, off + expectedSize)
      invariant exact ==> size == |EncodeAll(rs[..i])| && data[..] == Splice(before, off, EncodeAll(rs[..i]))
    {
      if entries[i].protocolId == callerId {
        break;
      }
      EncodePrefix(rs, i);
      if size >= expectedSize {
        return 0;
      }
      if PROTOCOL_SIZE > expectedSize - size {
        return 0;
      }
      if exact {
        SpliceAdjacent(before, off, EncodeAll(rs[..i]), Encode(rs[i]));
      }
      ghost var middle := data[..];
      var length := WriteProtocol(env, entries[i], data, p, expectedSize - size);
      SameOutsideStep(before, middle, data[..], off, off + expectedSize, p, p + (expectedSize - size));
      size := size + length;
      p := p + length;
      i := i + 1;
    }
    assert rs[..|rs|] == rs;
    if size != expectedSize {
      return 0;
    }
  }

  /** The stores made for one SMI entry. Reserved is never written, so it keeps its old bytes. */
  lemma SmiStores(s: seq<Byte>, p: nat, r: Record)
    requires r.Valid() && r.SmiRecord? && p + r.Size() <= |s| && r.reserved == s[p + 13..p + 16]
    requires |EncodeCells(r.handlers)| == CellsSize(HandlerKind, |r.handlers|)
    ensures
      var s1 := Splice(s, p, Header(SMI_SIGNATURE, SMI_SIZE));
      var s2 := Splice(s1, p + 12, [r.isRootHandler]);
      var s3 := Splice(s2, p + 16, r.handlerType);
      var s4 := Splice(s3, p + SMI_SIZE, EncodeCells(r.handlers));
      var s5 := Splice(s4, p + 32, Le(8, |r.handlers|));
      Splice(s5, p + 4, Le(4, r.Size())) == Splice(s, p, Encode(r))
  {
    hide Splice, EncodeCells, Le, Cat;
    var cells, n := EncodeCells(r.handlers), Le(8, |r.handlers|);
    var h := Header(SMI_SIGNATURE, SMI_SIZE);
    var end := p + r.Size();
    Cut(s, p, p + 12, p + 13, p + 16, p + 32, p + 40, end);
    var o1, o3, o4, o5 := s[p + 12..p + 13], s[p + 16..p + 32], s[p + 32..p + 40], s[p + 40..end];
    Store0(s, p, s[p..p + 12], o1, r.reserved, o3, o4, o5, [], h);
    Store1(s, p, h, o1, r.reserved, o3, o4, o5, [], [r.isRootHandler]);
    Store3(s, p, h, [r.isRootHandler], r.reserved, o3, o4, o5, [], r.handlerType);
    Store5(s, p, h, [r.isRootHandler], r.reserved, r.handlerType, o4, o5, [], cells);
    Store4(s, p, h, [r.isRootHandler], r.reserved, r.handlerType, o4, cells, [], n);
    PatchLength(s, p, SMI_SIGNATURE, SMI_SIZE, r.Size(), [r.isRootHandler], r.reserved, r.handlerType, n, cells, []);
  }

  /** As HandleStoresFitting, for the handlers of an SMI entry. */
  lemma SmiStoresFitting(s: seq<Byte>, p: nat, r: Record, fit: seq<Cell>)
    requires r.Valid() && r.SmiRecord? && (r.handlers == fit || r.handlers == [])
    requires p + r.Size() <= |s| && p + SMI_SIZE + |EncodeCells(fit)| <= |s| && r.reserved == s[p + 13..p + 16]
    ensures
      var s1 := Splice(s, p, Header(SMI_SIGNATURE, SMI_SIZE));
      var s2 := Splice(s1, p + 12, [r.isRootHandler]);
      var s3 := Splice(s2, p + 16, r.handlerType);
      var s4 := Splice(s3, p + SMI_SIZE, EncodeCells(fit));
      var s5 := Splice(s4, p + 32, Le(8, |r.handlers|));
      Splice(s5, p + 4, Le(4, r.Size())) == Splice(Splice(s, p + SMI_SIZE, EncodeCells(fit)), p, Encode(r))
  {
    hide Splice, EncodeCells, Le, Header, Encode;
    var x, h := EncodeCells(fit), Header(SMI_SIGNATURE, SMI_SIZE);
    var t := Splice(s, p + SMI_SIZE, x);
    EncodeCellsSize(HandlerKind, r.handlers);
    SpliceReads(s, p + SMI_SIZE, x, p + 13, 3);
    SmiStores(t, p, r);
    var s1 := Splice(s, p, h);
    var s2 := Splice(s1, p + 12, [r.isRootHandler]);
    var s3 := Splice(s2, p + 16, r.handlerType);
    SpliceCommute(s, p, h, p + SMI_SIZE, x);
    SpliceCommute(s1, p + 12, [r.isRootHandler], p + SMI_SIZE, x);
    SpliceCommute(s2, p + 16, r.handlerType, p + SMI_SIZE, x);
    SpliceReads(s3, p + SMI_SIZE, x, 0, 0);
    StoredAlready(Splice(s3, p + SMI_SIZE, x), p + SMI_SIZE, r.handlers, fit);
  }

  /** The loop body of GetSmmSmiDatabaseData. */
  method WriteSmi(env: Env, e: SmiEntry, data: array<Byte>, p: nat, maxSize: nat) returns (length: nat)
    requires env.Valid() && SMI_SIZE <= maxSize < TWO32 && p + maxSize <= data.Length
    modifies data
    ensures SameOutside(old(data[..]), data[..], p, p + maxSize)
    ensures SMI_SIZE <= length <= maxSize
    ensures var r := SmiRecordOf(env, e, old(data[p + 13..p + 16])); r.Size() <= maxSize ==>
      r.Valid() && length == r.Size() && data[..] == Splice(old(data[..]), p, Encode(r))
    ensures
      var room, cells := maxSize - SMI_SIZE, HandlerCells(env, e.handlers);
      var r := SmiRecord(0, old(data[p + 13..p + 16]), e.handlerType, Counted(HandlerKind, cells, room));
      && length == r.Size()
      && Wrote(old(data[..]), data[..], p + SMI_SIZE, EncodeCells(Fitting(HandlerKind, cells, room)), p, [], p, r)
  {
    hide Encode, EncodeCells, Header, Le, Splice, SameOutside, Fitting;
    ghost var s0 := data[..];
    ghost var room, cells := maxSize - SMI_SIZE, HandlerCells(env, e.handlers);
    ghost var kept := SmiRecord(0, s0[p + 13..p + 16], e.handlerType, Counted(HandlerKind, cells, room));
    SameOutsideRefl(s0, p, p + maxSize);
    PutWithin(data, p, Header(SMI_SIGNATURE, SMI_SIZE), s0, p, p + maxSize);
    PutWithin(data, p + 12, [0], s0, p, p + maxSize);
    PutWithin(data, p + 16, e.handlerType, s0, p, p + maxSize);
    length := WriteCounted(HandlerKind, HandlerCells(env, e.handlers), data, p, SMI_SIZE, 32, maxSize, s0);
    AllFit(HandlerKind, cells, room);
    SmiStoresFitting(s0, p, kept, Fitting(HandlerKind, cells, room));
    SpliceNothing(Splice(s0, p + SMI_SIZE, EncodeCells(Fitting(HandlerKind, cells, room))), p);
    ghost var r := SmiRecordOf(env, e, s0[p + 13..p + 16]);
    if r.Size() <= maxSize {
      EncodeCellsSize(HandlerKind, cells);
      SpliceCover(s0, p, Encode(r), p + SMI_SIZE, EncodeCells(cells));
    }
  }

  method GetSmmSmiDatabaseData(env: Env, entries: seq<SmiEntry>, data: array<Byte>, off: nat, expectedSize: nat)
    returns (size: nat)
    requires env.Valid() && expectedSize < TWO32 && off + expectedSize <= data.Length
    modifies data
    ensures SameOutside(old(data[..]), data[..], off, off + expectedSize)
    ensures size == 0 || size == expectedSize
    ensures expectedSize == SmiSize(entries) ==>
      var rs := SmiRecordsOver(env, entries, old(data[..]), off);
      AllValid(rs) && |EncodeAll(rs)| == size == expectedSize &&
      data[..] == Splice(old(data[..]), off, EncodeAll(rs))
  {
    hide Encode, EncodeAll, SameOutside, Splice, SmiRecordsOver, SmiPrefixWritten, Wrote, Counted, Fitting, EncodeCells;
    ghost var before := data[..];
    ghost var exact := expectedSize == SmiSize(entries);
    SameOutsideRefl(before, off, off + expectedSize);
    SmiPrefixStart(env, before, off);
    assert entries[..0] == [];
    size := 0;
    var p := off;
    var i := 0;
    while i < |entries|
      invariant 0 <= i <= |entries| && p == off + size && size <= expectedSize
      invariant SameOutside(before, data[..], off, off + expectedSize)
      invariant exact ==> size == SmiSize(entries[..i]) && SmiPrefixWritten(env, entries[..i], before, off, data[..])
    {
      SmiSizePrefix(entries, i);
      if size >= expectedSize {
        return 0;
      }
      if SMI_SIZE > expectedSize - size {
        return 0;
      }
      ghost var middle := data[..];
      var length := WriteSmi(env, entries[i], data, p, expectedSize - size);
      SameOutsideStep(before, middle, data[..], off, off + expectedSize, p, p + (expectedSize - size));
      if exact {
        SmiPrefixStep(env, entries, i, before, off, middle);
      }
      size := size + length;
      p := p + length;
      i := i + 1;
    }
    assert entries[..|entries|] == entries;
    if exact {
      SmiPrefixAll(env, entries, before, off, data[..]);
    }
    if expectedSize != size {
      return 0;
    }
  }

  lemma {:induction false} SmiSizePrefix(entries: seq<SmiEntry>, i: nat)
    requires i < |entries|
    ensures SmiSize(entries[..i + 1]) == SmiSize(entries[..i]) + SMI_SIZE + 24 * |entries[i].handlers|
    ensures SmiSize(entries[..i + 1]) <= SmiSize(entries)
    decreases |entries|
  {
    assert entries[..i + 1][..i] == entries[..i];
    if i + 1 < |entries| {
      var init := entries[..|entries| - 1];
      SmiSizePrefix(init, i);
      assert init[..i + 1] == entries[..i + 1] && init[..i] == entries[..i];
    } else {
      assert entries[..i + 1] == entries;
    }
  }

  ghost predicate SmiPrefixWritten(env: Env, done: seq<SmiEntry>, before: seq<Byte>, off: nat, now: seq<Byte>)
    requires env.Valid()
  {
    off + SmiSize(done) <= |before| && SmiSize(done) < TWO32 &&
    var rs := SmiRecordsOver(env, done, before, off);
    AllValid(rs) && |EncodeAll(rs)| == SmiSize(done) && now == Splice(before, off, EncodeAll(rs))
  }

  lemma SmiPrefixStart(env: Env, before: seq<Byte>, off: nat)
    requires env.Valid() && off <= |before|
    ensures SmiPrefixWritten(env, [], before, off, before)
  {
  }

  lemma SmiPrefixAll(env: Env, entries: seq<SmiEntry>, before: seq<Byte>, off: nat, now: seq<Byte>)
    requires env.Valid() && SmiPrefixWritten(env, entries, before, off, now)
    ensures off + SmiSize(entries) <= |before|
    ensures
      var rs := SmiRecordsOver(env, entries, before, off);
      AllValid(rs) && |EncodeAll(rs)| == SmiSize(entries) && now == Splice(before, off, EncodeAll(rs))
  {
  }

  lemma SmiPrefixStep(env: Env, entries: seq<SmiEntry>, i: nat, before: seq<Byte>, off: nat, middle: seq<Byte>)
    requires env.Valid() && i < |entries|
    requires off + SmiSize(entries[..i + 1]) <= |before| && SmiSize(entries[..i + 1]) < TWO32
    requires SmiSize(entries[..i + 1]) == SmiSize(entries[..i]) + SMI_SIZE + 24 * |entries[i].handlers|
    requires SmiPrefixWritten(env, entries[..i], before, off, middle)
    ensures
      var p := off + SmiSize(entries[..i]);
      var r := SmiRecordOf(env, entries[i], middle[p + 13..p + 16]);
      r.Valid() && r.Size() == SMI_SIZE + 24 * |entries[i].handlers| &&
      SmiPrefixWritten(env, entries[..i + 1], before, off, Splice(middle, p, Encode(r)))
  {
    hide Encode, EncodeAll;
    var p := off + SmiSize(entries[..i]);
    var rs := SmiRecordsOver(env, entries[..i], before, off);
    var r := SmiRecordOf(env, entries[i], middle[p + 13..p + 16]);
    assert middle[p + 13..p + 16] == before[p + 13..p + 16];
    assert entries[..i + 1][..i] == entries[..i];
    assert SmiRecordsOver(env, entries[..i + 1], before, off) == rs + [r];
    EncodeAllSnoc(rs, r);
    SpliceAdjacent(before, off, EncodeAll(rs), Encode(r));
  }

  /** One handler appended to the root record: its cell, the count and the length are stored in place. */
  lemma RootStores(s: seq<Byte>, p: nat, r: Record, c: Cell, r': Record)
    requires r.SmiRecord? && r.Valid() && r' == r.(handlers := r.handlers + [c]) && r'.Valid()
    requires p + r'.Size() <= |s|
    ensures
      var s1 := Splice(Splice(s, p, Encode(r)), p + r.Size(), EncodeCell(c));
      var s2 := Splice(s1, p + 32, Le(8, |r'.handlers|));
      Splice(s2, p + 4, Le(4, r'.Size())) == Splice(s, p, Encode(r'))
  {
    hide Splice, EncodeCells, EncodeCell, Le, Cat;
    EncodeCellsSnoc(r.handlers, c);
    EncodeCellsSize(HandlerKind, r.handlers);
    assert r'.handlers[|r.handlers|] in r'.handlers;
    var n, n' := Le(8, |r.handlers|), Le(8, |r'.handlers|);
    var cells, cell := EncodeCells(r.handlers), EncodeCell(c);
    var h := Header(SMI_SIGNATURE, r.Size());
    SpliceAdjacent(s, p, Encode(r), cell);
    CatExtend(h, [r.isRootHandler], r.reserved, r.handlerType, n, cells, cell);
    Store4(s, p, h, [r.isRootHandler], r.reserved, r.handlerType, n, cells + cell, [], n');
    PatchLength(s, p, SMI_SIGNATURE, r.Size(), r'.Size(), [r.isRootHandler], r.reserved, r.handlerType, n',
                cells + cell, []);
  }

  /** The header of the root record is written without a size check, so the slice must hold at least that. */
  method GetSmmRootSmiDatabaseData(env: Env, handlers: seq<SmiHandler>, data: array<Byte>, off: nat,
                                   expectedSize: nat)
    returns (size: nat)
    requires env.Valid() && SMI_SIZE <= expectedSize < TWO32 && off + expectedSize <= data.Length
    modifies data
    ensures SameOutside(old(data[..]), data[..], off, off + expectedSize)
    ensures size == 0 || size == expectedSize
    ensures expectedSize == SMI_SIZE + 24 * |handlers| ==>
      var r := RootRecordOf(env, handlers, old(data[off + 13..off + 16]));
      r.Valid() && size == expectedSize && data[..] == Splice(old(data[..]), off, Encode(r))
  {
    hide Encode, EncodeCell, EncodeCells, Header, Le, Splice, SameOutside;
    ghost var s0 := data[..];
    ghost var reserved := s0[off + 13..off + 16];
    Put(data, off, Header(SMI_SIGNATURE, SMI_SIZE));
    ghost var s1 := data[..];
    Put(data, off + 12, [1]);
    ghost var s2 := data[..];
    Put(data, off + 16, ZERO_GUID);
    ghost var s3 := data[..];
    Put(data, off + 32, Le(8, 0));
    var count, length := 0, SMI_SIZE;
    size := SMI_SIZE;
    RootHeaderStores(s0, off, RootRecordOf(env, [], reserved));
    ghost var r := RootRecordOf(env, [], reserved);
    SpliceSameOutside(s0, off, Encode(r), off, off + expectedSize);
    var i := 0;
    while i < |handlers|
      invariant 0 <= i <= |handlers| && count == i && size == SMI_SIZE + 24 * i <= expectedSize
      invariant length == size && r == RootRecordOf(env, handlers[..i], reserved) && r.Valid() && r.Size() == size
      invariant data[..] == Splice(s0, off, Encode(r))
      invariant SameOutside(s0, data[..], off, off + expectedSize)
    {
      if size >= expectedSize {
        return 0;
      }
      if CellSize(HandlerKind) > expectedSize - size {
        return 0;
      }
      var cell := HandlerCell(handlers[i].address, handlers[i].handler, ImageRef(env.images, handlers[i].handler));
      ghost var r' := RootRecordOf(env, handlers[..i + 1], reserved);
      assert handlers[..i + 1][..i] == handlers[..i];
      assert r'.handlers == r.handlers + [cell];
      RootStores(s0, off, r, cell, r');
      Put(data, off + size, EncodeCell(cell));
      count := count + 1;
      Put(data, off + 32, Le(8, count));
      length := (length + CellSize(HandlerKind)) % TWO32;
      Put(data, off + 4, Le(4, length));
      r := r';
      SpliceSameOutside(s0, off, Encode(r), off, off + expectedSize);
      size := size + CellSize(HandlerKind);
      i := i + 1;
    }
    assert handlers[..|handlers|] == handlers;
    if expectedSize != size {
      return 0;
    }
  }

  lemma RootHeaderStores(s: seq<Byte>, p: nat, r: Record)
    requires r.SmiRecord? && r.Valid() && r.handlers == [] && r.handlerType == ZERO_GUID && r.isRootHandler == 1
    requires p + SMI_SIZE <= |s| && r.reserved == s[p + 13..p + 16]
    ensures
      var s1 := Splice(s, p, Header(SMI_SIGNATURE, SMI_SIZE));
      var s2 := Splice(s1, p + 12, [1]);
      var s3 := Splice(s2, p + 16, ZERO_GUID);
      Splice(s3, p + 32, Le(8, 0)) == Splice(s, p, Encode(r))
  {
    hide Splice, Le, Cat;
    var h, n := Header(SMI_SIGNATURE, SMI_SIZE), Le(8, 0);
    Cut(s, p, p + 12, p + 13, p + 16, p + 32, p + 40, p + 40);
    var o1, o3, o4, o := s[p + 12..p + 13], s[p + 16..p + 32], s[p + 32..p + 40], s[p + 40..p + 40];
    Store0(s, p, s[p..p + 12], o1, r.reserved, o3, o4, o, [], h);
    Store1(s, p, h, o1, r.reserved, o3, o4, o, [], [1]);
    Store3(s, p, h, [1], r.reserved, o3, o4, o, [], ZERO_GUID);
    Store4(s, p, h, [1], r.reserved, ZERO_GUID, o4, o, [], n);
  }
}
