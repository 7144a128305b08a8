/** The byte format of the SMM core database (SmmCoreDumpComm.h): records, their encoding, and the
    decoding the shell application performs at the offsets of the same packed structures. */
module SmmDatabase {
  import opened Bytes
  import opened Segments
  import opened SmmImages

  const IMAGE_SIGNATURE: Uint32 := 0x44494353     // 'S','C','I','D'
  const HANDLE_SIGNATURE: Uint32 := 0x44484353    // 'S','C','H','D'
  const PROTOCOL_SIGNATURE: Uint32 := 0x44504353  // 'S','C','P','D'
  const SMI_SIGNATURE: Uint32 := 0x44534353       // 'S','C','S','D'
  const REVISION: Uint32 := 1

  const HEADER_SIZE := 12
  const IMAGE_SIZE := 132
  const HANDLE_SIZE := 28
  const PROTOCOL_SIZE := 44
  const SMI_SIZE := 40

  /** The fixed-size structures that follow a handle, protocol or SMI record.
      AddressCell serves the interface and the notify structure, which have the same layout. */
  datatype CellKind = ProtocolKind | AddressKind | HandlerKind

  datatype Cell =
    | ProtocolCell(guid: Guid, iface: UintN, imageRef: UintN)
    | AddressCell(address: UintN, imageRef: UintN)
    | HandlerCell(smiHandle: UintN, handler: UintN, imageRef: UintN)
  {
    function Kind(): CellKind {
      match this
      case ProtocolCell(_, _, _) => ProtocolKind
      case AddressCell(_, _) => AddressKind
      case HandlerCell(_, _, _) => HandlerKind
    }
  }

  predicate AllOf(kind: CellKind, cells: seq<Cell>) {
    forall c <- cells :: c.Kind() == kind
  }

  function CellSize(kind: CellKind): nat {
    match kind
    case ProtocolKind => 32
    case AddressKind => 16
    case HandlerKind => 24
  }

  /** CellSize(kind) * n, kept linear. */
  function CellsSize(kind: CellKind, n: nat): nat {
    match kind
    case ProtocolKind => 32 * n
    case AddressKind => 16 * n
    case HandlerKind => 24 * n
  }

  function EncodeCell(c: Cell): (b: seq<Byte>)
    ensures |b| == CellSize(c.Kind())
  {
    match c
    case ProtocolCell(guid, iface, ref) => guid + Le(8, iface) + Le(8, ref)
    case AddressCell(address, ref) => Le(8, address) + Le(8, ref)
    case HandlerCell(handle, handler, ref) => Le(8, handle) + Le(8, handler) + Le(8, ref)
  }

  function EncodeCells(cells: seq<Cell>): seq<Byte> {
    if cells == [] then [] else EncodeCell(cells[0]) + EncodeCells(cells[1..])
  }

  lemma {:induction false} EncodeCellsSize(kind: CellKind, cells: seq<Cell>)
    requires AllOf(kind, cells)
    ensures |EncodeCells(cells)| == CellsSize(kind, |cells|)
  {
    if cells != [] {
      EncodeCellsSize(kind, cells[1..]);
    }
  }

  lemma {:induction false} EncodeCellsAppend(a: seq<Cell>, b: seq<Cell>)
    ensures EncodeCells(a + b) == EncodeCells(a) + EncodeCells(b)
  {
    hide EncodeCell;
    if a == [] {
      assert a + b == b;
    } else {
      EncodeCellsAppend(a[1..], b);
      assert (a + b)[1..] == a[1..] + b && (a + b)[0] == a[0];
      ConcatAssoc(EncodeCell(a[0]), EncodeCells(a[1..]), EncodeCells(b));
    }
  }

  lemma EncodeCellsSnoc(a: seq<Cell>, c: Cell)
    ensures EncodeCells(a + [c]) == EncodeCells(a) + EncodeCell(c)
  {
    EncodeCellsAppend(a, [c]);
    assert EncodeCells([c]) == EncodeCell(c) + EncodeCells([]);
  }

  /** The structure the application reads at db + off. */
  function ParseCell(kind: CellKind, db: seq<Byte>, off: nat): (c: Cell)
    requires off + CellSize(kind) <= |db|
  {
    match kind
    case ProtocolKind => ProtocolCell(db[off..off + 16], Field64(db, off + 16), Field64(db, off + 24))
    case AddressKind => AddressCell(Field64(db, off), Field64(db, off + 8))
    case HandlerKind => HandlerCell(Field64(db, off), Field64(db, off + 8), Field64(db, off + 16))
  }

  function ParseCells(kind: CellKind, db: seq<Byte>, off: nat, n: nat): (cells: seq<Cell>)
    requires off + CellsSize(kind, n) <= |db|
    ensures |cells| == n
    decreases n
  {
    if n == 0 then [] else [ParseCell(kind, db, off)] + ParseCells(kind, db, off + CellSize(kind), n - 1)
  }

  lemma Field32At(pre: seq<Byte>, v: Uint32, post: seq<Byte>)
    ensures Field32(pre + Le(4, v) + post, |pre|) == v
  {
    var s := pre + Le(4, v) + post;
    assert s[|pre|..|pre| + 4] == Le(4, v);
    Pow256Values();
    UnLeLe(4, v);
  }

  /** A field read inside a slice is the field read at the absolute offset. */
  lemma FieldInSlice(db: seq<Byte>, lo: nat, hi: nat, off: nat, n: nat)
    requires lo <= hi <= |db| && lo + off + n <= hi
    ensures Field(db[lo..hi], off, n) == Field(db, lo + off, n)
    ensures db[lo..hi][off..off + n] == db[lo + off..lo + off + n]
  {
    SliceOfSlice(db, lo, hi, off, off + n);
  }

  /** Three adjacent fields inside a buffer. */
  lemma ThreeFields(db: seq<Byte>, off: nat, a: seq<Byte>, b: seq<Byte>, c: seq<Byte>)
    requires off + |a + b + c| <= |db| && db[off..off + |a + b + c|] == a + b + c
    ensures db[off..off + |a|] == a
    ensures db[off + |a|..off + |a| + |b|] == b
    ensures db[off + |a| + |b|..off + |a| + |b| + |c|] == c
  {
    var end := off + |a + b + c|;
    SliceOfSlice(db, off, end, 0, |a|);
    SliceOfSlice(db, off, end, |a|, |a| + |b|);
    SliceOfSlice(db, off, end, |a| + |b|, |a| + |b| + |c|);
    SliceOfCat(a, b, c);
    assert (a + b + c)[0..|a|] == a;
    assert (a + b + c)[|a| + |b|..|a| + |b| + |c|] == c;
  }

  lemma ParseCellAt(db: seq<Byte>, off: nat, c: Cell)
    requires off + CellSize(c.Kind()) <= |db| && db[off..off + CellSize(c.Kind())] == EncodeCell(c)
    ensures ParseCell(c.Kind(), db, off) == c
  {
    hide Field64, Le;
    match c
    case ProtocolCell(guid, iface, ref) =>
      ThreeFields(db, off, guid, Le(8, iface), Le(8, ref));
      LeField(db, off + 16, iface);
      LeField(db, off + 24, ref);
    case AddressCell(address, ref) =>
      assert Le(8, address) + Le(8, ref) + [] == Le(8, address) + Le(8, ref);
      ThreeFields(db, off, Le(8, address), Le(8, ref), []);
      LeField(db, off, address);
      LeField(db, off + 8, ref);
    case HandlerCell(handle, handler, ref) =>
      ThreeFields(db, off, Le(8, handle), Le(8, handler), Le(8, ref));
      LeField(db, off, handle);
      LeField(db, off + 8, handler);
      LeField(db, off + 16, ref);
  }

  lemma {:induction false} ParseCellsAt(kind: CellKind, db: seq<Byte>, off: nat, cells: seq<Cell>)
    requires AllOf(kind, cells)
    requires off + |EncodeCells(cells)| <= |db| && db[off..off + |EncodeCells(cells)|] == EncodeCells(cells)
    ensures |EncodeCells(cells)| == CellsSize(kind, |cells|)
    ensures ParseCells(kind, db, off, |cells|) == cells
    decreases |cells|
  {
    hide ParseCell, EncodeCell;
    EncodeCellsSize(kind, cells);
    if cells != [] {
      var c, rest := cells[0], cells[1..];
      var k, end := CellSize(kind), off + |EncodeCells(cells)|;
      EncodeCellsSize(kind, rest);
      SliceOfSlice(db, off, end, 0, k);
      SliceOfSlice(db, off, end, k, end - off);
      assert EncodeCells(cells)[..k] == EncodeCell(c) && EncodeCells(cells)[k..] == EncodeCells(rest);
      ParseCellAt(db, off, c);
      ParseCellsAt(kind, db, off + k, rest);
    }
  }

  function NameBytes(name: seq<Char16>): (b: seq<Byte>)
    ensures |b| == 2 * |name|
  {
    if name == [] then [] else Le(2, name[0]) + NameBytes(name[1..])
  }

  function ParseName(b: seq<Byte>): (name: seq<Char16>)
    requires |b| % 2 == 0
    ensures 2 * |name| == |b|
  {
    if b == [] then []
    else
      UnLeBound(b[..2]);
      Pow256Values();
      [UnLe(b[..2])] + ParseName(b[2..])
  }

  lemma {:induction false} ParseNameBytes(name: seq<Char16>)
    ensures ParseName(NameBytes(name)) == name
  {
    if name != [] {
      var b := NameBytes(name);
      assert b[..2] == Le(2, name[0]) && b[2..] == NameBytes(name[1..]);
      Pow256Values();
      UnLeLe(2, name[0]);
      ParseNameBytes(name[1..]);
    }
  }

  /** One record of the database. The three Reserved bytes of an SMI record are never written by the
      SMM side, so they are part of the record's value rather than a constant. */
  datatype Record =
    | ImageRecord(fileGuid: Guid, name: Name, entryPoint: UintN, imageBase: UintN, imageSize: UintN,
                  realImageBase: UintN)
    | HandleRecord(handle: UintN, protocols: seq<Cell>)
    | ProtocolRecord(guid: Guid, interfaces: seq<Cell>, notifies: seq<Cell>)
    | SmiRecord(isRootHandler: Byte, reserved: seq<Byte>, handlerType: Guid, handlers: seq<Cell>)
  {
    function Signature(): Uint32 {
      match this
      case ImageRecord(_, _, _, _, _, _) => IMAGE_SIGNATURE
      case HandleRecord(_, _) => HANDLE_SIGNATURE
      case ProtocolRecord(_, _, _) => PROTOCOL_SIGNATURE
      case SmiRecord(_, _, _, _) => SMI_SIGNATURE
    }

    function Size(): nat {
      match this
      case ImageRecord(_, _, _, _, _, _) => IMAGE_SIZE
      case HandleRecord(_, protocols) => HANDLE_SIZE + CellsSize(ProtocolKind, |protocols|)
      case ProtocolRecord(_, interfaces, notifies) =>
        PROTOCOL_SIZE + CellsSize(AddressKind, |interfaces|) + CellsSize(AddressKind, |notifies|)
      case SmiRecord(_, _, _, handlers) => SMI_SIZE + CellsSize(HandlerKind, |handlers|)
    }

    /** The cells have the structure the record calls for and the 32-bit Length can hold the size. */
    predicate Valid() {
      && Size() < TWO32
      && match this
         case ImageRecord(_, _, _, _, _, _) => true
         case HandleRecord(_, protocols) => AllOf(ProtocolKind, protocols)
         case ProtocolRecord(_, interfaces, notifies) =>
           AllOf(AddressKind, interfaces) && AllOf(AddressKind, notifies)
         case SmiRecord(_, reserved, _, handlers) => |reserved| == 3 && AllOf(HandlerKind, handlers)
    }
  }

  function Header(signature: Uint32, length: Uint32): (b: seq<Byte>)
    ensures |b| == HEADER_SIZE
  {
    Le(4, signature) + Le(4, length) + Le(4, REVISION)
  }

  function Encode(r: Record): (b: seq<Byte>)
    requires r.Valid()
    ensures |b| == r.Size()
  {
    var h := Header(r.Signature(), r.Size());
    match r
    case ImageRecord(guid, name, entry, base, size, realBase) =>
      Cat(h, guid, NameBytes(name), Le(8, entry), Le(8, base), Le(8, size), Le(8, realBase))
    case HandleRecord(handle, protocols) =>
      EncodeCellsSize(ProtocolKind, protocols);
      Cat(h, Le(8, handle), Le(8, |protocols|), EncodeCells(protocols), [], [], [])
    case ProtocolRecord(guid, interfaces, notifies) =>
      EncodeCellsSize(AddressKind, interfaces);
      EncodeCellsSize(AddressKind, notifies);
      Cat(h, guid, Le(8, |interfaces|), Le(8, |notifies|), EncodeCells(interfaces), EncodeCells(notifies), [])
    case SmiRecord(isRoot, reserved, handlerType, handlers) =>
      EncodeCellsSize(HandlerKind, handlers);
      Cat(h, [isRoot], reserved, handlerType, Le(8, |handlers|), EncodeCells(handlers), [])
  }

  ghost predicate AllValid(rs: seq<Record>) {
    forall i :: 0 <= i < |rs| ==> rs[i].Valid()
  }

  ghost function EncodeAll(rs: seq<Record>): seq<Byte>
    requires AllValid(rs)
  {
    if rs == [] then [] else Encode(rs[0]) + EncodeAll(rs[1..])
  }

  lemma {:induction false} EncodeAllAppend(a: seq<Record>, b: seq<Record>)
    requires AllValid(a) && AllValid(b)
    ensures AllValid(a + b) && EncodeAll(a + b) == EncodeAll(a) + EncodeAll(b)
  {
    hide Encode;
    if a == [] {
      assert a + b == b;
    } else {
      EncodeAllAppend(a[1..], b);
      assert (a + b)[1..] == a[1..] + b && (a + b)[0] == a[0];
      ConcatAssoc(Encode(a[0]), EncodeAll(a[1..]), EncodeAll(b));
    }
  }

  lemma EncodeAllSnoc(a: seq<Record>, r: Record)
    requires AllValid(a) && r.Valid()
    ensures AllValid(a + [r]) && EncodeAll(a + [r]) == EncodeAll(a) + Encode(r)
  {
    EncodeAllAppend(a, [r]);
    assert EncodeAll([r]) == Encode(r) + EncodeAll([]);
  }

  /* ---------- the application's view ---------- */

  function RecordSignature(chunk: seq<Byte>): Uint32
    requires |chunk| >= HEADER_SIZE
  {
    Field32(chunk, 0)
  }

  function RecordLength(chunk: seq<Byte>): Uint32
    requires |chunk| >= HEADER_SIZE
  {
    Field32(chunk, 4)
  }

  /** A chunk the walkers may treat as a record of the given signature: the counts it holds
      agree with its length, so every structure the walkers index lies inside it. */
  predicate WellFormedChunk(chunk: seq<Byte>)
    requires |chunk| >= HEADER_SIZE
  {
    var signature := RecordSignature(chunk);
    && (signature == IMAGE_SIGNATURE ==> |chunk| == IMAGE_SIZE)
    && (signature == HANDLE_SIGNATURE ==>
        |chunk| >= HANDLE_SIZE && |chunk| == HANDLE_SIZE + CellsSize(ProtocolKind, Field64(chunk, 20)))
    && (signature == PROTOCOL_SIGNATURE ==>
        |chunk| >= PROTOCOL_SIZE &&
        |chunk| == PROTOCOL_SIZE + CellsSize(AddressKind, Field64(chunk, 28))
                   + CellsSize(AddressKind, Field64(chunk, 36)))
    && (signature == SMI_SIGNATURE ==>
        |chunk| >= SMI_SIZE && |chunk| == SMI_SIZE + CellsSize(HandlerKind, Field64(chunk, 32)))
  }

  /** Walking by Header.Length never reads outside the database and ends exactly at its end. */
  predicate WellFormed(db: seq<Byte>)
    decreases |db|
  {
    db == [] ||
    (|db| >= HEADER_SIZE && HEADER_SIZE <= RecordLength(db) <= |db| &&
     WellFormedChunk(db[..RecordLength(db)]) && WellFormed(db[RecordLength(db)..]))
  }

  predicate IsKnown(signature: Uint32) {
    signature in {IMAGE_SIGNATURE, HANDLE_SIGNATURE, PROTOCOL_SIGNATURE, SMI_SIGNATURE}
  }

  function Parse(chunk: seq<Byte>): (r: Record)
    requires |chunk| >= HEADER_SIZE && WellFormedChunk(chunk) && IsKnown(RecordSignature(chunk))
  {
    var signature := RecordSignature(chunk);
    if signature == IMAGE_SIGNATURE then
      ImageRecord(chunk[12..28], ParseName(chunk[28..100]), Field64(chunk, 100), Field64(chunk, 108),
                  Field64(chunk, 116), Field64(chunk, 124))
    else if signature == HANDLE_SIGNATURE then
      HandleRecord(Field64(chunk, 12), ParseCells(ProtocolKind, chunk, HANDLE_SIZE, Field64(chunk, 20)))
    else if signature == PROTOCOL_SIGNATURE then
      var interfaces := Field64(chunk, 28);
      ProtocolRecord(chunk[12..28],
                     ParseCells(AddressKind, chunk, PROTOCOL_SIZE, interfaces),
                     ParseCells(AddressKind, chunk, PROTOCOL_SIZE + CellsSize(AddressKind, interfaces),
                                Field64(chunk, 36)))
    else
      SmiRecord(chunk[12], chunk[13..16], chunk[16..32],
                ParseCells(HandlerKind, chunk, SMI_SIZE, Field64(chunk, 32)))
  }

  /** The records a walk over the database meets, foreign ones skipped. */
  function Walk(db: seq<Byte>): seq<Record>
    requires WellFormed(db)
    decreases |db|
  {
    if db == [] then []
    else
      var chunk, rest := db[..RecordLength(db)], db[RecordLength(db)..];
      (if IsKnown(RecordSignature(db)) then
         FieldInSlice(db, 0, RecordLength(db), 0, 4);
         [Parse(chunk)]
       else []) + Walk(rest)
  }

  /* ---------- decoding undoes encoding ---------- */

  lemma LeField(db: seq<Byte>, off: nat, v: UintN)
    requires off + 8 <= |db| && db[off..off + 8] == Le(8, v)
    ensures Field64(db, off) == v
  {
    Pow256Values();
    UnLeLe(8, v);
  }

  lemma HeaderFields(h: seq<Byte>, signature: Uint32, length: Uint32, rest: seq<Byte>)
    requires h == Header(signature, length)
    ensures Field32(h + rest, 0) == signature && Field32(h + rest, 4) == length
  {
    hide Field32, Le;
    Field32At([], signature, Le(4, length) + Le(4, REVISION) + rest);
    assert [] + Le(4, signature) + (Le(4, length) + Le(4, REVISION) + rest) == h + rest;
    Field32At(Le(4, signature), length, Le(4, REVISION) + rest);
    assert Le(4, signature) + Le(4, length) + (Le(4, REVISION) + rest) == h + rest;
  }

  lemma EncodedHeader(r: Record, post: seq<Byte>)
    requires r.Valid()
    ensures RecordSignature(Encode(r) + post) == r.Signature()
    ensures RecordLength(Encode(r) + post) == r.Size()
  {
    hide Field32, Header;
    var s := Encode(r) + post;
    var h := Header(r.Signature(), r.Size());
    assert s[..12] == h by {
      hide Cat, EncodeCells, NameBytes, Le;
      match r
      case ImageRecord(guid, name, entry, base, size, realBase) =>
        Loads(h, guid, NameBytes(name), Le(8, entry), Le(8, base), Le(8, size), Le(8, realBase), post);
      case HandleRecord(handle, protocols) =>
        Loads(h, Le(8, handle), Le(8, |protocols|), EncodeCells(protocols), [], [], [], post);
      case ProtocolRecord(guid, interfaces, notifies) =>
        Loads(h, guid, Le(8, |interfaces|), Le(8, |notifies|), EncodeCells(interfaces), EncodeCells(notifies), [],
              post);
      case SmiRecord(isRoot, reserved, handlerType, handlers) =>
        Loads(h, [isRoot], reserved, handlerType, Le(8, |handlers|), EncodeCells(handlers), [], post);
    }
    HeaderFields(h, r.Signature(), r.Size(), s[12..]);
    assert s == h + s[12..];
  }

  lemma ParseImage(r: Record)
    requires r.Valid() && r.ImageRecord?
    ensures RecordSignature(Encode(r)) == r.Signature()
    ensures WellFormedChunk(Encode(r)) && Parse(Encode(r)) == r
  {
    hide Cat, Header, Field64, Field32, ParseName, NameBytes, Le;
    var s := Encode(r);
    EncodedHeader(r, []);
    assert s + [] == s;
    Loads(Header(r.Signature(), r.Size()), r.fileGuid, NameBytes(r.name), Le(8, r.entryPoint), Le(8, r.imageBase),
          Le(8, r.imageSize), Le(8, r.realImageBase), []);
    ParseNameBytes(r.name);
    LeField(s, 100, r.entryPoint);
    LeField(s, 108, r.imageBase);
    LeField(s, 116, r.imageSize);
    LeField(s, 124, r.realImageBase);
  }

  lemma ParseHandle(r: Record)
    requires r.Valid() && r.HandleRecord?
    ensures RecordSignature(Encode(r)) == r.Signature()
    ensures WellFormedChunk(Encode(r)) && Parse(Encode(r)) == r
  {
    hide Cat, Header, Field64, Field32, EncodeCells, ParseCells, Le;
    var s := Encode(r);
    EncodedHeader(r, []);
    assert s + [] == s;
    Loads(Header(r.Signature(), r.Size()), Le(8, r.handle), Le(8, |r.protocols|), EncodeCells(r.protocols),
          [], [], [], []);
    LeField(s, 12, r.handle);
    LeField(s, 20, |r.protocols|);
    ParseCellsAt(ProtocolKind, s, HANDLE_SIZE, r.protocols);
  }

  lemma ParseProtocol(r: Record)
    requires r.Valid() && r.ProtocolRecord?
    ensures RecordSignature(Encode(r)) == r.Signature()
    ensures WellFormedChunk(Encode(r)) && Parse(Encode(r)) == r
  {
    hide Cat, Header, Field64, Field32, EncodeCells, ParseCells, Le;
    var s := Encode(r);
    EncodedHeader(r, []);
    assert s + [] == s;
    EncodeCellsSize(AddressKind, r.interfaces);
    Loads(Header(r.Signature(), r.Size()), r.guid, Le(8, |r.interfaces|), Le(8, |r.notifies|),
          EncodeCells(r.interfaces), EncodeCells(r.notifies), [], []);
    LeField(s, 28, |r.interfaces|);
    LeField(s, 36, |r.notifies|);
    ParseCellsAt(AddressKind, s, PROTOCOL_SIZE, r.interfaces);
    ParseCellsAt(AddressKind, s, PROTOCOL_SIZE + CellsSize(AddressKind, |r.interfaces|), r.notifies);
  }

  lemma ParseSmi(r: Record)
    requires r.Valid() && r.SmiRecord?
    ensures RecordSignature(Encode(r)) == r.Signature()
    ensures WellFormedChunk(Encode(r)) && Parse(Encode(r)) == r
  {
    hide Cat, Header, Field64, Field32, EncodeCells, ParseCells, Le;
    var s := Encode(r);
    EncodedHeader(r, []);
    assert s + [] == s;
    Loads(Header(r.Signature(), r.Size()), [r.isRootHandler], r.reserved, r.handlerType, Le(8, |r.handlers|),
          EncodeCells(r.handlers), [], []);
    assert s[12] == s[12..13][0];
    LeField(s, 32, |r.handlers|);
    ParseCellsAt(HandlerKind, s, SMI_SIZE, r.handlers);
  }

  lemma ParseEncode(r: Record)
    requires r.Valid()
    ensures IsKnown(RecordSignature(Encode(r)))
    ensures WellFormedChunk(Encode(r)) && Parse(Encode(r)) == r
  {
    EncodedHeader(r, []);
    assert Encode(r) + [] == Encode(r);
    match r
    case ImageRecord(_, _, _, _, _, _) => ParseImage(r);
    case HandleRecord(_, _) => ParseHandle(r);
    case ProtocolRecord(_, _, _) => ParseProtocol(r);
    case SmiRecord(_, _, _, _) => ParseSmi(r);
  }

  lemma WalkOne(r: Record, tail: seq<Byte>)
    requires r.Valid() && WellFormed(tail)
    ensures WellFormed(Encode(r) + tail) && Walk(Encode(r) + tail) == [r] + Walk(tail)
  {
    hide Encode, WellFormedChunk, Parse, Field32;
    var db := Encode(r) + tail;
    EncodedHeader(r, tail);
    assert db[..r.Size()] == Encode(r) && db[r.Size()..] == tail;
    ParseEncode(r);
  }

  /** Walking an encoded database recovers its records, each once and in order, whatever
      well-formed database follows, and ends exactly where that one ends. */
  lemma {:induction false} WalkEncoded(rs: seq<Record>, tail: seq<Byte>)
    requires AllValid(rs) && WellFormed(tail)
    ensures WellFormed(EncodeAll(rs) + tail) && Walk(EncodeAll(rs) + tail) == rs + Walk(tail)
  {
    hide Encode, WellFormed, Walk;
    if rs == [] {
      assert EncodeAll(rs) + tail == tail;
      assert [] + Walk(tail) == Walk(tail);
    } else {
      WalkEncoded(rs[1..], tail);
      WalkOne(rs[0], EncodeAll(rs[1..]) + tail);
      ConcatAssoc(Encode(rs[0]), EncodeAll(rs[1..]), tail);
      ConcatAssoc([rs[0]], rs[1..], Walk(tail));
      assert [rs[0]] + rs[1..] == rs;
    }
  }
}
