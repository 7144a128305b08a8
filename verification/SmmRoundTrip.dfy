/** The whole chain of the SMM dump: the shell application prints, for every section, exactly what
    the SMM core's lists hold, with the image names the SMM side would have found itself. */
module SmmRoundTrip {
  import opened Bytes
  import opened Options
  import opened SmmImages
  import opened SmmDatabase
  import opened SmmWriter
  import opened SmmDump
  import opened SmmApp

  /* ---------- what the lists hold, said without any encoding ---------- */

  /** The SMM side's name of an interface, but unknown where the reference cannot carry it. */
  function VisibleName(env: Env, p: ProtocolInterface): seq<Char16> {
    if env.Misnamed(p.iface, p.protocol) then UNKNOWN_NAME else env.NameEx(p.iface, p.protocol)
  }

  /** The name printed is that of the image referred to, unless there is none, it is "???" or the address is NULL. */
  ghost predicate NamedByRef(env: Env, shown: Shown) {
    var ref := shown.cell.imageRef;
    if Address(shown.cell) != 0 && ref < |env.images| && CString(env.images[ref].name) != UNKNOWN_NAME
    then shown.name == Some(CString(env.images[ref].name))
    else shown.name == None
  }

  function SeenOnHandle(env: Env, p: ProtocolInterface): (shown: Shown)
    requires env.Valid()
    ensures env.LeadsTo(p.iface, p.protocol, shown.cell.imageRef) && NamedByRef(env, shown)
  {
    env.RefExLeads(p.iface, p.protocol);
    NameIsVisible(env, p);
    Shown(ProtocolCell(p.protocol, p.iface, env.RefEx(p.iface, p.protocol)), NameToPrint(p.iface, VisibleName(env, p)))
  }

  function SeenInterface(env: Env, p: ProtocolInterface): (shown: Shown)
    requires env.Valid()
    ensures env.LeadsTo(p.iface, p.protocol, shown.cell.imageRef) && NamedByRef(env, shown)
  {
    env.RefExLeads(p.iface, p.protocol);
    NameIsVisible(env, p);
    Shown(AddressCell(p.iface, env.RefEx(p.iface, p.protocol)), NameToPrint(p.iface, VisibleName(env, p)))
  }

  function SeenNotify(env: Env, notify: UintN): (shown: Shown)
    requires env.Valid()
    ensures FirstHolder(env.images, notify, shown.cell.imageRef) && NamedByRef(env, shown)
  {
    RefIsFirstHolder(env.images, notify);
    RefNameAgrees(env.images, notify);
    Shown(AddressCell(notify, ImageRef(env.images, notify)),
          NameToPrint(notify, ImageName(env.images, notify)))
  }

  function SeenHandler(env: Env, h: SmiHandler): (shown: Shown)
    requires env.Valid()
    ensures FirstHolder(env.images, h.handler, shown.cell.imageRef) && NamedByRef(env, shown)
  {
    RefIsFirstHolder(env.images, h.handler);
    RefNameAgrees(env.images, h.handler);
    Shown(HandlerCell(h.address, h.handler, ImageRef(env.images, h.handler)),
          NameToPrint(h.handler, ImageName(env.images, h.handler)))
  }

  ghost predicate IsHandle(env: Env, h: Handle, out: Printed)
    requires env.Valid()
  {
    out.PrintedHandle? && out.handle == h.address && |out.protocols| == |h.protocols| &&
    forall i :: 0 <= i < |h.protocols| ==> out.protocols[i] == SeenOnHandle(env, h.protocols[i])
  }

  ghost predicate IsProtocol(env: Env, e: ProtocolEntry, out: Printed)
    requires env.Valid()
  {
    out.PrintedProtocol? && out.guid == e.protocolId &&
    |out.interfaces| == |e.interfaces| && |out.notifies| == |e.notifies| &&
    (forall i :: 0 <= i < |e.interfaces| ==> out.interfaces[i] == SeenInterface(env, e.interfaces[i])) &&
    (forall i :: 0 <= i < |e.notifies| ==> out.notifies[i] == SeenNotify(env, e.notifies[i]))
  }

  ghost predicate AreHandlers(env: Env, hs: seq<SmiHandler>, out: seq<Shown>)
    requires env.Valid()
  {
    |out| == |hs| && forall i :: 0 <= i < |hs| ==> out[i] == SeenHandler(env, hs[i])
  }

  /** Names are as AddImageStruct stores them. */
  ghost predicate NamesStored(env: Env) {
    forall image <- env.images :: CopyName(image.name) == image.name
  }

  /** The child blob is empty, or records of signatures the application does not look for. */
  ghost predicate ForeignChild(lists: CoreLists) {
    WellFormed(lists.child) && Walk(lists.child) == []
  }

  /* ---------- reserved bytes do not matter ---------- */

  lemma {:induction false} SelectContents(section: Section, rs: seq<Record>)
    ensures Select(section, Contents(rs)) == Contents(Select(section, rs))
  {
    if rs != [] {
      SelectContents(section, rs[1..]);
      assert Contents(rs)[1..] == Contents(rs[1..]);
      var head := if section.Selects(rs[0]) then [rs[0]] else [];
      ContentsAppend(head, Select(section, rs[1..]));
      assert section.Selects(Content(rs[0])) == section.Selects(rs[0]);
    }
  }

  lemma PrintContents(section: Section, images: seq<Image>, rs: seq<Record>)
    requires section != Images
    ensures PrintAll(images, Select(section, rs)) == PrintAll(images, Select(section, Contents(rs)))
  {
    hide Select, Contents;
    SelectContents(section, rs);
    var a, b := Select(section, rs), Select(section, Contents(rs));
    forall i | 0 <= i < |a|
      ensures !a[i].ImageRecord? && !b[i].ImageRecord? && Print(images, a[i]) == Print(images, b[i])
    {
      assert a[i] in a && b[i] in b && b[i] == Content(a[i]);
    }
  }

  /** Each section of the expected records is selected by its own walk and by no other. */
  lemma SelectExpected(section: Section, env: Env, lists: CoreLists)
    requires env.Valid()
    ensures Select(section, ExpectedRecords(env, lists)) ==
      match section
      case Images => ImageRecords(env.images)
      case Handles => HandleRecords(env, lists.handles)
      case Protocols => ProtocolRecords(env, BeforeCallerId(lists.protocols, lists.callerId))
      case SmiEntries => SmiRecords(env, lists.smiEntries)
      case RootSmi => [RootRecordOf(env, lists.rootHandlers, [0, 0, 0])]
  {
    hide Select, ImageRecords, HandleRecords, ProtocolRecords, SmiRecords, ImageRecordOf, RootRecordOf;
    KindsOfRecords(env, lists);
    var a, b := ImageRecords(env.images), HandleRecords(env, lists.handles);
    var c := ProtocolRecords(env, BeforeCallerId(lists.protocols, lists.callerId));
    var d, e := SmiRecords(env, lists.smiEntries), [RootRecordOf(env, lists.rootHandlers, [0, 0, 0])];
    SelectAppend(section, a + b + c + d, e);
    SelectAppend(section, a + b + c, d);
    SelectAppend(section, a + b, c);
    SelectAppend(section, a, b);
    SelectUniform(section, a);
    SelectUniform(section, b);
    SelectUniform(section, c);
    SelectUniform(section, d);
    SelectUniform(section, e);
  }

  lemma KindsOfRecords(env: Env, lists: CoreLists)
    requires env.Valid()
    ensures forall r <- ImageRecords(env.images) :: r.ImageRecord?
    ensures forall r <- HandleRecords(env, lists.handles) :: r.HandleRecord?
    ensures forall r <- ProtocolRecords(env, BeforeCallerId(lists.protocols, lists.callerId)) :: r.ProtocolRecord?
    ensures forall r <- SmiRecords(env, lists.smiEntries) :: r.SmiRecord? && r.isRootHandler == 0
    ensures RootRecordOf(env, lists.rootHandlers, [0, 0, 0]).SmiRecord?
    ensures RootRecordOf(env, lists.rootHandlers, [0, 0, 0]).isRootHandler == 1
  {
    hide ProtocolCells, InterfaceCells, NotifyCells, HandlerCells;
  }

  lemma SelectUniform(section: Section, rs: seq<Record>)
    ensures (forall r <- rs :: section.Selects(r)) ==> Select(section, rs) == rs
    ensures (forall r <- rs :: !section.Selects(r)) ==> Select(section, rs) == []
  {
    if forall r <- rs :: section.Selects(r) {
      SelectAll(section, rs);
    }
    if forall r <- rs :: !section.Selects(r) {
      SelectNone(section, rs);
    }
  }

  /** Every walk over a database, whichever records it looks for, prints the expected records of that
      section, each once and in order, and stops exactly at the end of the database. */
  lemma WalksRecoverSections(section: Section, env: Env, lists: CoreLists, records: seq<Record>, db: seq<Byte>,
                             images: seq<Image>)
    requires env.Valid() && IsDatabase(env, lists, records, db) && ForeignChild(lists) && section != Images
    ensures WellFormed(db)
    ensures PrintAll(images, Select(section, Walk(db)))
         == PrintAll(images, Select(section, ExpectedRecords(env, lists)))
  {
    hide Select, Contents, ExpectedRecords, EncodeAll;
    WalkEncoded(records, lists.child);
    assert records + [] == records;
    PrintContents(section, images, records);
  }

  /** The application's image table is the SMM side's, without the entry points. */
  lemma WalkRecoversImages(env: Env, lists: CoreLists, records: seq<Record>, db: seq<Byte>)
    requires env.Valid() && IsDatabase(env, lists, records, db) && ForeignChild(lists) && NamesStored(env)
    ensures WellFormed(db)
    ensures TableEntries(Select(Images, Walk(db))) == Transmitted(env.images)
  {
    hide Select, Contents, ExpectedRecords, EncodeAll;
    WalkEncoded(records, lists.child);
    assert records + [] == records;
    SelectContents(Images, records);
    SelectExpected(Images, env, lists);
    var selected := Select(Images, records);
    forall i | 0 <= i < |selected|
      ensures TableEntry(selected[i]) == Transmitted(env.images)[i]
    {
      assert selected[i] in selected;
      assert Contents(selected)[i] == Content(selected[i]) == selected[i] == ImageRecordOf(env.images[i]);
      assert env.images[i] in env.images;
    }
  }

  /* ---------- printed names are the SMM side's names ---------- */

  lemma NameIsVisible(env: Env, p: ProtocolInterface)
    requires env.Valid()
    ensures RefName(Transmitted(env.images), env.RefEx(p.iface, p.protocol)) == VisibleName(env, p)
  {
    RefNameExAgrees(env, p.iface, p.protocol);
  }

  /** With no image called "???", every name shown is the SMM side's own. */
  lemma AllNamesVisible(env: Env, p: ProtocolInterface)
    requires forall image <- env.images :: CString(image.name) != UNKNOWN_NAME
    ensures VisibleName(env, p) == env.NameEx(p.iface, p.protocol)
  {
    var i := FirstCovering(env.images, p.iface, 0);
    assert i < |env.images| ==> env.images[i] in env.images;
  }

  lemma HandleIsSeen(env: Env, h: Handle)
    requires env.Valid()
    ensures IsHandle(env, h, Print(Transmitted(env.images), HandleRecordOf(env, h)))
  {
    forall i | 0 <= i < |h.protocols|
      ensures RefName(Transmitted(env.images), env.RefEx(h.protocols[i].iface, h.protocols[i].protocol))
           == VisibleName(env, h.protocols[i])
    {
      NameIsVisible(env, h.protocols[i]);
    }
  }

  lemma ProtocolIsSeen(env: Env, e: ProtocolEntry)
    requires env.Valid()
    ensures IsProtocol(env, e, Print(Transmitted(env.images), ProtocolRecordOf(env, e)))
  {
    forall i | 0 <= i < |e.interfaces|
      ensures RefName(Transmitted(env.images), env.RefEx(e.interfaces[i].iface, e.interfaces[i].protocol))
           == VisibleName(env, e.interfaces[i])
    {
      NameIsVisible(env, e.interfaces[i]);
    }
    forall i | 0 <= i < |e.notifies|
      ensures RefName(Transmitted(env.images), ImageRef(env.images, e.notifies[i]))
           == ImageName(env.images, e.notifies[i])
    {
      RefNameAgrees(env.images, e.notifies[i]);
    }
  }

  lemma HandlersAreSeen(env: Env, hs: seq<SmiHandler>)
    requires env.Valid()
    ensures AreHandlers(env, hs, ShowCells(Transmitted(env.images), HandlerCells(env, hs)))
  {
    forall i | 0 <= i < |hs|
      ensures RefName(Transmitted(env.images), ImageRef(env.images, hs[i].handler))
           == ImageName(env.images, hs[i].handler)
    {
      RefNameAgrees(env.images, hs[i].handler);
    }
  }

  /* ---------- the chain ---------- */

  /** Everything the application prints. */
  datatype Output = Output(
    images: seq<Image>,
    handles: seq<Printed>,
    protocols: seq<Printed>,
    smiEntries: seq<Printed>,
    rootSmi: seq<Printed>)

  /** The output says what the lists hold: the image table, every handle with its protocols, every protocol
      entry before the first caller-id entry with its interfaces and notifies, every SMI entry and the root
      handlers, each once and in order. */
  ghost predicate Describes(env: Env, lists: CoreLists, out: Output)
    requires env.Valid()
  {
    var live := BeforeCallerId(lists.protocols, lists.callerId);
    && out.images == Transmitted(env.images)
    && |out.handles| == |lists.handles|
    && (forall i :: 0 <= i < |lists.handles| ==> IsHandle(env, lists.handles[i], out.handles[i]))
    && |out.protocols| == |live|
    && (forall i :: 0 <= i < |live| ==> IsProtocol(env, live[i], out.protocols[i]))
    && |out.smiEntries| == |lists.smiEntries|
    && (forall i :: 0 <= i < |lists.smiEntries| ==>
          out.smiEntries[i].PrintedSmi? && out.smiEntries[i].handlerType == lists.smiEntries[i].handlerType &&
          AreHandlers(env, lists.smiEntries[i].handlers, out.smiEntries[i].handlers))
    && |out.rootSmi| == 1
    && out.rootSmi[0].PrintedRoot? && AreHandlers(env, lists.rootHandlers, out.rootSmi[0].handlers)
  }

  /** A root handler in an image that stands at 0x7F00_0000 but whose loaded image record says 0x6000_0000: its record
      refers to that image and shows its name. */
  lemma RootHandlerSeen(env: Env, lists: CoreLists, out: Output, name: Name, address: UintN, handler: UintN)
    requires env.Valid() && Describes(env, lists, out) && CString(name) != UNKNOWN_NAME
    requires env.images == [Image(ZERO_GUID, 0, 0x7F00_0000, 0x1_0000, 0x6000_0000, name)]
    requires lists.rootHandlers == [SmiHandler(address, handler)]
    ensures out.rootSmi == [PrintedRoot([
      if 0x7F00_0000 <= handler <= 0x7F00_FFFF
      then Shown(HandlerCell(address, handler, 0), Some(CString(name)))
      else Shown(HandlerCell(address, handler, NOT_FOUND), None)])]
  {
    hide ImageRef, ImageName, FirstHolder;
    ImageBaseDecides(name, handler);
    assert out.rootSmi[0].handlers == [SeenHandler(env, SmiHandler(address, handler))];
    assert out.rootSmi == [PrintedRoot([SeenHandler(env, SmiHandler(address, handler))])];
  }

  lemma ExpectedIsDescribed(env: Env, lists: CoreLists)
    requires env.Valid()
    ensures
      var images := Transmitted(env.images);
      var expected := ExpectedRecords(env, lists);
      Describes(env, lists, Output(images,
        PrintAll(images, Select(Handles, expected)), PrintAll(images, Select(Protocols, expected)),
        PrintAll(images, Select(SmiEntries, expected)), PrintAll(images, Select(RootSmi, expected))))
  {
    hide Select, ExpectedRecords, ShowCells, HandlerCells, IsHandle, IsProtocol, AreHandlers;
    SelectExpected(Handles, env, lists);
    SelectExpected(Protocols, env, lists);
    SelectExpected(SmiEntries, env, lists);
    SelectExpected(RootSmi, env, lists);
    var live := BeforeCallerId(lists.protocols, lists.callerId);
    forall i | 0 <= i < |lists.handles|
      ensures IsHandle(env, lists.handles[i], Print(Transmitted(env.images), HandleRecords(env, lists.handles)[i]))
    {
      HandleIsSeen(env, lists.handles[i]);
    }
    forall i | 0 <= i < |live|
      ensures IsProtocol(env, live[i], Print(Transmitted(env.images), ProtocolRecords(env, live)[i]))
    {
      ProtocolIsSeen(env, live[i]);
    }
    forall i | 0 <= i < |lists.smiEntries|
      ensures AreHandlers(env, lists.smiEntries[i].handlers,
        ShowCells(Transmitted(env.images), HandlerCells(env, lists.smiEntries[i].handlers)))
    {
      HandlersAreSeen(env, lists.smiEntries[i].handlers);
    }
    HandlersAreSeen(env, lists.rootHandlers);
  }

  /** The application's five dumps over a transferred database. */
  method DumpDatabase(db: seq<Byte>, ghost env: Env, ghost lists: CoreLists, ghost records: seq<Record>)
    returns (out: Output)
    requires env.Valid() && NamesStored(env) && ForeignChild(lists)
    requires IsDatabase(env, lists, records, db) && |db| < NOT_FOUND
    ensures Describes(env, lists, out)
  {
    hide Select, ExpectedRecords, Describes, IsDatabase, Walk, WellFormed;
    WalkRecoversImages(env, lists, records, db);
    var table := DumpSmmLoadedImage(db);
    ghost var images := Transmitted(env.images);
    WalksRecoverSections(Handles, env, lists, records, db, images);
    WalksRecoverSections(Protocols, env, lists, records, db, images);
    WalksRecoverSections(SmiEntries, env, lists, records, db, images);
    WalksRecoverSections(RootSmi, env, lists, records, db, images);
    var handles := DumpSection(Handles, table, db);
    var protocols := DumpSection(Protocols, table, db);
    var smiEntries := DumpSection(SmiEntries, table, db);
    var rootSmi := DumpSection(RootSmi, table, db);
    ExpectedIsDescribed(env, lists);
    out := Output(table.imageStruct[..table.count], handles, protocols, smiEntries, rootSmi);
  }

  /** Build on the SMM side, transfer in chunks, dump in the shell. */
  method DumpSmmCore(env: Env, lists: CoreLists, bufferValid: nat -> bool, dumpBuffer: array<Byte>, chunk: nat)
    returns (out: Option<Output>)
    requires Fits(env, lists) && DatabaseSize(env, lists) < NOT_FOUND
    requires NamesStored(env) && ForeignChild(lists)
    requires 0 < chunk < TWO64 && chunk <= dumpBuffer.Length
    modifies dumpBuffer
    ensures out.Some? ==> Describes(env, lists, out.value)
    ensures (forall size: nat :: 0 < size <= chunk ==> bufferValid(size)) ==> out.Some?
  {
    hide Describes, IsDatabase, EncodeAll, Select, Walk;
    var server := new SmmServer(env, lists, bufferValid);
    ghost var records := server.BuildSmmCoreDatabase();
    var message := new Message(dumpBuffer);
    ghost var rounds;
    var database: array?<Byte>;
    database, rounds := GetSmmCoreDatabase(server, message, chunk);
    if database == null {
      return None;
    }
    var output := DumpDatabase(database[..], env, lists, records);
    out := Some(output);
  }
}
