/** The shell application (SmmCoreDumpApp.c): it rebuilds the image table from the transferred
    database and prints each kind of record by walking the database from its start. */
module SmmApp {
  import opened Bytes
  import opened Options
  import opened SmmImages
  import opened SmmDatabase

  /** The kinds of record the application looks for, one walk each. */
  datatype Section = Images | Handles | Protocols | SmiEntries | RootSmi {
    predicate Selects(r: Record) {
      match this
      case Images => r.ImageRecord?
      case Handles => r.HandleRecord?
      case Protocols => r.ProtocolRecord?
      case SmiEntries => r.SmiRecord? && r.isRootHandler == 0
      case RootSmi => r.SmiRecord? && r.isRootHandler != 0
    }
  }

  function Select(section: Section, rs: seq<Record>): (selected: seq<Record>)
    ensures forall r <- selected :: section.Selects(r)
  {
    if rs == [] then []
    else (if section.Selects(rs[0]) then [rs[0]] else []) + Select(section, rs[1..])
  }

  lemma {:induction false} SelectAppend(section: Section, a: seq<Record>, b: seq<Record>)
    ensures Select(section, a + b) == Select(section, a) + Select(section, b)
  {
    if a == [] {
      assert a + b == b;
    } else {
      SelectAppend(section, a[1..], b);
      assert (a + b)[1..] == a[1..] + b && (a + b)[0] == a[0];
      var head := if section.Selects(a[0]) then [a[0]] else [];
      ConcatAssoc(head, Select(section, a[1..]), Select(section, b));
    }
  }

  lemma {:induction false} SelectAll(section: Section, rs: seq<Record>)
    requires forall r <- rs :: section.Selects(r)
    ensures Select(section, rs) == rs
  {
    if rs != [] {
      assert rs[0] in rs;
      SelectAll(section, rs[1..]);
    }
  }

  lemma {:induction false} SelectNone(section: Section, rs: seq<Record>)
    requires forall r <- rs :: !section.Selects(r)
    ensures Select(section, rs) == []
  {
    if rs != [] {
      assert rs[0] in rs;
      SelectNone(section, rs[1..]);
    }
  }

  /** A printed structure: its fields, and the image name in brackets where one is printed. */
  datatype Shown = Shown(cell: Cell, name: Option<seq<Char16>>)

  function Address(c: Cell): UintN {
    match c
    case ProtocolCell(_, iface, _) => iface
    case AddressCell(address, _) => address
    case HandlerCell(_, handler, _) => handler
  }

  function NameToPrint(address: UintN, name: seq<Char16>): Option<seq<Char16>> {
    if address != 0 && name != UNKNOWN_NAME then Some(name) else None
  }

  function ShowCells(images: seq<Image>, cells: seq<Cell>): (shown: seq<Shown>)
    ensures |shown| == |cells|
  {
    seq(|cells|, i requires 0 <= i < |cells| =>
      Shown(cells[i], NameToPrint(Address(cells[i]), RefName(images, cells[i].imageRef))))
  }

  datatype Printed =
    | PrintedHandle(handle: UintN, protocols: seq<Shown>)
    | PrintedProtocol(guid: Guid, interfaces: seq<Shown>, notifies: seq<Shown>)
    | PrintedSmi(handlerType: Guid, handlers: seq<Shown>)
    | PrintedRoot(handlers: seq<Shown>)

  function Print(images: seq<Image>, r: Record): Printed
    requires !r.ImageRecord?
  {
    match r
    case HandleRecord(handle, protocols) => PrintedHandle(handle, ShowCells(images, protocols))
    case ProtocolRecord(guid, interfaces, notifies) =>
      PrintedProtocol(guid, ShowCells(images, interfaces), ShowCells(images, notifies))
    case SmiRecord(isRoot, _, handlerType, handlers) =>
      if isRoot == 0 then PrintedSmi(handlerType, ShowCells(images, handlers))
      else PrintedRoot(ShowCells(images, handlers))
  }

  function PrintAll(images: seq<Image>, rs: seq<Record>): (out: seq<Printed>)
    requires forall r <- rs :: !r.ImageRecord?
    ensures |out| == |rs|
    ensures forall i :: 0 <= i < |rs| ==> out[i] == Print(images, rs[i])
  {
    if rs == [] then []
    else
      assert rs[0] in rs;
      [Print(images, rs[0])] + PrintAll(images, rs[1..])
  }

  /** The entry AddImageStruct makes from an image record; the entry point is not kept. */
  function TableEntry(r: Record): Image
    requires r.ImageRecord?
  {
    Image(r.fileGuid, 0, r.realImageBase, r.imageSize, r.imageBase, CopyName(r.name))
  }

  function TableEntries(rs: seq<Record>): (images: seq<Image>)
    requires forall r <- rs :: r.ImageRecord?
    ensures |images| == |rs|
    ensures forall i :: 0 <= i < |rs| ==> images[i] == TableEntry(rs[i])
  {
    if rs == [] then []
    else
      assert rs[0] in rs;
      [TableEntry(rs[0])] + TableEntries(rs[1..])
  }

  /** One step of every walk: the record under the pointer and what lies behind it. */
  lemma WalkStep(section: Section, rest: seq<Byte>)
    requires rest != [] && WellFormed(rest)
    ensures |rest| >= HEADER_SIZE && HEADER_SIZE <= RecordLength(rest) <= |rest|
    ensures
      var chunk, next := rest[..RecordLength(rest)], rest[RecordLength(rest)..];
      && WellFormed(next) && WellFormedChunk(chunk) && RecordSignature(chunk) == RecordSignature(rest)
      && Select(section, Walk(rest)) ==
           (if IsKnown(RecordSignature(chunk)) && section.Selects(Parse(chunk)) then [Parse(chunk)] else [])
           + Select(section, Walk(next))
  {
    hide WellFormedChunk, Parse, Field32;
    FieldInSlice(rest, 0, RecordLength(rest), 0, 4);
    assert Field32(rest[..RecordLength(rest)], 0) == Field32(rest, 0) by { FieldPrefix(rest, RecordLength(rest)); }
    var chunk, next := rest[..RecordLength(rest)], rest[RecordLength(rest)..];
    if IsKnown(RecordSignature(rest)) {
      assert Walk(rest) == [Parse(chunk)] + Walk(next);
      SelectAppend(section, [Parse(chunk)], Walk(next));
      assert [Parse(chunk)][1..] == [];
    } else {
      assert Walk(rest) == [] + Walk(next) == Walk(next);
    }
  }

  lemma FieldPrefix(s: seq<Byte>, n: nat)
    requires 4 <= n <= |s|
    ensures Field32(s[..n], 0) == Field32(s, 0)
  {
    assert s[..n][0..4] == s[0..4];
  }

  /** The index loop that prints the structures behind a record. */
  method ShowCellsAt(table: ImageTable, kind: CellKind, chunk: seq<Byte>, off: nat, count: nat)
    returns (shown: seq<Shown>)
    requires table.Valid() && table.count == table.imageStruct.Length
    requires off + CellsSize(kind, count) <= |chunk|
    ensures shown == ShowCells(table.Images(), ParseCells(kind, chunk, off, count))
  {
    hide ParseCell, ParseCells, ShowCells, RefName, table.Valid;
    NoCellsShown(table.Images());
    shown := [];
    ghost var cells := ParseCells(kind, chunk, off, count);
    var index := 0;
    while index < count
      invariant 0 <= index <= count
      invariant shown == ShowCells(table.Images(), cells[..index])
    {
      CellsStep(kind, index, count);
      ParseCellsIndex(kind, chunk, off, count, index);
      var cell := ParseCell(kind, chunk, off + CellsSize(kind, index));
      var name := table.GetImageRefName(cell.imageRef);
      ShowStep(table.Images(), cells, index);
      shown := shown + [Shown(cell, NameToPrint(Address(cell), name))];
      index := index + 1;
    }
    assert cells[..count] == cells;
  }

  lemma NoCellsShown(images: seq<Image>)
    ensures ShowCells(images, []) == []
  {
  }

  lemma ShowStep(images: seq<Image>, cells: seq<Cell>, i: nat)
    requires i < |cells|
    ensures ShowCells(images, cells[..i + 1]) == ShowCells(images, cells[..i])
      + [Shown(cells[i], NameToPrint(Address(cells[i]), RefName(images, cells[i].imageRef)))]
  {
    hide RefName, NameToPrint;
  }

  lemma CellsStep(kind: CellKind, index: nat, count: nat)
    requires index < count
    ensures CellsSize(kind, index) + CellSize(kind) <= CellsSize(kind, count)
  {
  }

  lemma {:induction false} ParseCellsIndex(kind: CellKind, db: seq<Byte>, off: nat, n: nat, i: nat)
    requires i < n && off + CellsSize(kind, n) <= |db|
    ensures off + CellsSize(kind, i) + CellSize(kind) <= |db|
    ensures ParseCells(kind, db, off, n)[i] == ParseCell(kind, db, off + CellsSize(kind, i))
    decreases n
  {
    hide ParseCell;
    if i > 0 {
      ParseCellsIndex(kind, db, off + CellSize(kind), n - 1, i - 1);
    }
  }

  /** What one of the Dump*Database functions prints for a record it selected. */
  method PrintRecord(table: ImageTable, chunk: seq<Byte>) returns (printed: Printed)
    requires table.Valid() && table.count == table.imageStruct.Length
    requires |chunk| >= HEADER_SIZE && WellFormedChunk(chunk) && IsKnown(RecordSignature(chunk))
    requires RecordSignature(chunk) != IMAGE_SIGNATURE
    ensures printed == Print(table.Images(), Parse(chunk))
  {
    hide ShowCells, ParseCells, Field64;
    var signature := RecordSignature(chunk);
    if signature == HANDLE_SIGNATURE {
      var protocols := ShowCellsAt(table, ProtocolKind, chunk, HANDLE_SIZE, Field64(chunk, 20));
      printed := PrintedHandle(Field64(chunk, 12), protocols);
    } else if signature == PROTOCOL_SIGNATURE {
      var count: nat := Field64(chunk, 28);
      var interfaces := ShowCellsAt(table, AddressKind, chunk, PROTOCOL_SIZE, count);
      var notifies := ShowCellsAt(table, AddressKind, chunk, PROTOCOL_SIZE + CellsSize(AddressKind, count),
                                  Field64(chunk, 36));
      printed := PrintedProtocol(chunk[12..28], interfaces, notifies);
    } else {
      var handlers := ShowCellsAt(table, HandlerKind, chunk, SMI_SIZE, Field64(chunk, 32));
      if chunk[12] == 0 {
        printed := PrintedSmi(chunk[16..32], handlers);
      } else {
        printed := PrintedRoot(handlers);
      }
    }
  }

  /** The test each walk makes on a record header (and, for SMI records, on IsRootHandler). */
  predicate Matches(section: Section, chunk: seq<Byte>)
    requires |chunk| >= HEADER_SIZE && WellFormedChunk(chunk)
  {
    match section
    case Images => RecordSignature(chunk) == IMAGE_SIGNATURE
    case Handles => RecordSignature(chunk) == HANDLE_SIGNATURE
    case Protocols => RecordSignature(chunk) == PROTOCOL_SIGNATURE
    case SmiEntries => RecordSignature(chunk) == SMI_SIGNATURE && chunk[12] == 0
    case RootSmi => RecordSignature(chunk) == SMI_SIGNATURE && chunk[12] != 0
  }

  lemma MatchesSelects(section: Section, chunk: seq<Byte>)
    requires |chunk| >= HEADER_SIZE && WellFormedChunk(chunk)
    ensures Matches(section, chunk) <==> IsKnown(RecordSignature(chunk)) && section.Selects(Parse(chunk))
  {
    hide ParseCells, Field64, Field32, ParseName;
  }

  /** DumpHandleDatabase, DumpProtocolDatabase, DumpSmiHandler and DumpRootSmiHandler: the same walk with a
      different test. rest is the memory the record pointer points at, up to the end of the database. */
  method DumpSection(section: Section, table: ImageTable, db: seq<Byte>) returns (out: seq<Printed>)
    requires section != Images && WellFormed(db)
    requires table.Valid() && table.count == table.imageStruct.Length
    ensures out == PrintAll(table.Images(), Select(section, Walk(db)))
  {
    hide Walk, WellFormed, WellFormedChunk, Select, Print, Parse, Field32;
    out := [];
    var rest := db;
    ghost var done: seq<Record> := [];
    while rest != []
      invariant WellFormed(rest) && forall r <- done :: section.Selects(r)
      invariant done + Select(section, Walk(rest)) == Select(section, Walk(db))
      invariant out == PrintAll(table.Images(), done)
      decreases |rest|
    {
      WalkStep(section, rest);
      var chunk := rest[..RecordLength(rest)];
      MatchesSelects(section, chunk);
      rest := rest[RecordLength(rest)..];
      if Matches(section, chunk) {
        var printed := PrintRecord(table, chunk);
        out := out + [printed];
        done := done + [Parse(chunk)];
      }
    }
    EmptySelect(section);
  }

  lemma EmptySelect(section: Section)
    ensures Walk([]) == [] && Select(section, []) == []
  {
  }

  /** The first walk of DumpSmmLoadedImage: how many images there are. */
  method CountImages(db: seq<Byte>) returns (countMax: nat)
    requires WellFormed(db)
    ensures countMax == |Select(Images, Walk(db))| && countMax <= |db|
  {
    hide Walk, WellFormed, WellFormedChunk, Select, Parse, Field32;
    countMax := 0;
    var rest := db;
    while rest != []
      invariant WellFormed(rest) && countMax + |Select(Images, Walk(rest))| == |Select(Images, Walk(db))|
      invariant countMax + |rest| <= |db|
      decreases |rest|
    {
      WalkStep(Images, rest);
      var chunk := rest[..RecordLength(rest)];
      MatchesSelects(Images, chunk);
      rest := rest[RecordLength(rest)..];
      if Matches(Images, chunk) {
        countMax := countMax + 1;
      }
    }
    EmptySelect(Images);
  }

  /** DumpSmmLoadedImage: one walk counts the image records, a second one copies them into a table
      of exactly that capacity. */
  method DumpSmmLoadedImage(db: seq<Byte>) returns (table: ImageTable)
    requires WellFormed(db) && |db| < NOT_FOUND
    ensures fresh(table) && fresh(table.imageStruct) && table.Valid() && table.count == table.imageStruct.Length
    ensures table.Images() == TableEntries(Select(Images, Walk(db)))
  {
    hide Walk, WellFormed, WellFormedChunk, Select, Parse, Field32;
    var countMax := CountImages(db);
    ghost var all := Select(Images, Walk(db));
    table := new ImageTable(countMax, false);
    var rest := db;
    ghost var done: seq<Record> := [];
    while rest != []
      invariant WellFormed(rest) && done + Select(Images, Walk(rest)) == all
      invariant forall r <- done :: r.ImageRecord?
      invariant fresh(table) && fresh(table.imageStruct) && table.Valid()
      invariant table.imageStruct.Length == countMax && !table.keepsEntryPoint
      invariant table.Images() == TableEntries(done)
      decreases |rest|
    {
      WalkStep(Images, rest);
      var chunk := rest[..RecordLength(rest)];
      MatchesSelects(Images, chunk);
      rest := rest[RecordLength(rest)..];
      if Matches(Images, chunk) {
        var image := Parse(chunk);
        assert |table.Images()| == |done|;
        table.AddImageStruct(image.realImageBase, image.imageSize, image.imageBase, image.entryPoint,
                             image.name, image.fileGuid);
        done := done + [image];
      }
    }
    EmptySelect(Images);
  }
}
