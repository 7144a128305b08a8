/** The SMM driver as a whole (SmmCoreDumpHandler.c): it measures and writes its database once,
    then serves the bytes to the shell application through an offset/size request handler. */
module SmmDump {
  import opened Bytes
  import opened SmmImages
  import opened SmmDatabase
  import opened SmmWriter

  /** The content of a record that anyone reads: Reserved is left out. */
  function Content(r: Record): Record {
    if r.SmiRecord? then r.(reserved := [0, 0, 0]) else r
  }

  function Contents(rs: seq<Record>): (cs: seq<Record>)
    ensures |cs| == |rs|
    ensures forall i :: 0 <= i < |rs| ==> cs[i] == Content(rs[i])
  {
    if rs == [] then [] else [Content(rs[0])] + Contents(rs[1..])
  }

  lemma {:induction false} ContentsAppend(a: seq<Record>, b: seq<Record>)
    ensures Contents(a + b) == Contents(a) + Contents(b)
  {
  }

  function SmiRecords(env: Env, entries: seq<SmiEntry>): (rs: seq<Record>)
    requires env.Valid()
    ensures |rs| == |entries|
  {
    seq(|entries|, i requires 0 <= i < |entries| => SmiRecordOf(env, entries[i], [0, 0, 0]))
  }

  /** What the database is to say, section by section. */
  function ExpectedRecords(env: Env, lists: CoreLists): seq<Record>
    requires env.Valid()
  {
    ImageRecords(env.images)
    + HandleRecords(env, lists.handles)
    + ProtocolRecords(env, BeforeCallerId(lists.protocols, lists.callerId))
    + SmiRecords(env, lists.smiEntries)
    + [RootRecordOf(env, lists.rootHandlers, [0, 0, 0])]
  }

  /** Every record length and every section size fits the 32-bit Length field. */
  ghost predicate Fits(env: Env, lists: CoreLists) {
    && env.Valid()
    && AllValid(HandleRecords(env, lists.handles))
    && AllValid(ProtocolRecords(env, BeforeCallerId(lists.protocols, lists.callerId)))
    && |EncodeAll(HandleRecords(env, lists.handles))| < TWO32
    && |EncodeAll(ProtocolRecords(env, BeforeCallerId(lists.protocols, lists.callerId)))| < TWO32
    && SmiSize(lists.smiEntries) < TWO32
    && SMI_SIZE + 24 * |lists.rootHandlers| < TWO32
  }

  ghost function DatabaseSize(env: Env, lists: CoreLists): nat
    requires Fits(env, lists)
  {
    IMAGE_SIZE * |env.images|
    + |EncodeAll(HandleRecords(env, lists.handles))|
    + |EncodeAll(ProtocolRecords(env, BeforeCallerId(lists.protocols, lists.callerId)))|
    + SmiSize(lists.smiEntries)
    + (SMI_SIZE + 24 * |lists.rootHandlers|)
    + |lists.child|
  }

  /** db is a database of the given lists: their records in order, then the child blob. */
  ghost predicate IsDatabase(env: Env, lists: CoreLists, records: seq<Record>, db: seq<Byte>)
    requires env.Valid()
  {
    AllValid(records) && Contents(records) == ExpectedRecords(env, lists) && db == EncodeAll(records) + lists.child
  }

  lemma {:induction false} SmiContents(env: Env, entries: seq<SmiEntry>, buf: seq<Byte>, off: nat)
    requires env.Valid() && off + SmiSize(entries) <= |buf|
    ensures Contents(SmiRecordsOver(env, entries, buf, off)) == SmiRecords(env, entries)
  {
    if entries != [] {
      var n := |entries| - 1;
      SmiContents(env, entries[..n], buf, off);
      var p := off + SmiSize(entries[..n]);
      var r := SmiRecordOf(env, entries[n], buf[p + 13..p + 16]);
      ContentsAppend(SmiRecordsOver(env, entries[..n], buf, off), [r]);
      assert SmiRecords(env, entries) == SmiRecords(env, entries[..n]) + [Content(r)];
    }
  }

  lemma ContentsUnchanged(rs: seq<Record>)
    requires forall r <- rs :: !r.SmiRecord?
    ensures Contents(rs) == rs
  {
    forall i | 0 <= i < |rs|
      ensures Contents(rs)[i] == rs[i]
    {
      assert rs[i] in rs;
    }
  }

  /** Five sections laid end to end, followed by the child blob, make a database. */
  lemma SectionsMakeDatabase(env: Env, lists: CoreLists, smi: seq<Record>, root: Record)
    returns (records: seq<Record>)
    requires Fits(env, lists) && AllValid(ImageRecords(env.images)) && AllValid(smi) && root.Valid()
    requires Contents(smi) == SmiRecords(env, lists.smiEntries)
    requires Content(root) == RootRecordOf(env, lists.rootHandlers, [0, 0, 0])
    ensures IsDatabase(env, lists, records,
      EncodeAll(ImageRecords(env.images)) + EncodeAll(HandleRecords(env, lists.handles))
      + EncodeAll(ProtocolRecords(env, BeforeCallerId(lists.protocols, lists.callerId)))
      + EncodeAll(smi) + Encode(root) + lists.child)
  {
    hide Encode, EncodeAll, Contents;
    var images, handles := ImageRecords(env.images), HandleRecords(env, lists.handles);
    var protocols := ProtocolRecords(env, BeforeCallerId(lists.protocols, lists.callerId));
    records := images + handles + protocols + smi + [root];
    EncodeAllAppend(images, handles);
    EncodeAllAppend(images + handles, protocols);
    EncodeAllAppend(images + handles + protocols, smi);
    EncodeAllSnoc(images + handles + protocols + smi, root);
    ContentsAppend(images, handles);
    ContentsAppend(images + handles, protocols);
    ContentsAppend(images + handles + protocols, smi);
    ContentsAppend(images + handles + protocols + smi, [root]);
    ContentsUnchanged(images);
    ContentsUnchanged(handles);
    ContentsUnchanged(protocols);
    assert Contents([root]) == [Content(root)];
  }

  const STATUS_SUCCESS: UintN := 0
  const STATUS_PENDING: UintN := TWO64 - 1               // (UINT64)-1
  const STATUS_ACCESS_DENIED: UintN := 0x8000_0000_0000_000F

  const COMMAND_GET_INFO := 1
  const COMMAND_GET_DATA_BY_OFFSET := 2
  const HEADER_BYTES := 16    // sizeof(SMM_CORE_DUMP_PARAMETER_HEADER)
  const GET_INFO_BYTES := 24  // sizeof(SMM_CORE_DUMP_PARAMETER_GET_INFO)
  const GET_DATA_BYTES := 40  // sizeof(SMM_CORE_DUMP_PARAMETER_GET_DATA_BY_OFFSET)

  /** The communication message both sides update, and the data buffer it points to. */
  class Message {
    var command: nat
    var returnStatus: UintN
    var dumpSize: UintN
    var dumpOffset: UintN
    const dumpBuffer: array<Byte>

    constructor (dumpBuffer: array<Byte>)
      ensures this.dumpBuffer == dumpBuffer
    {
      this.dumpBuffer := dumpBuffer;
    }
  }

  class SmmServer {
    const env: Env
    const lists: CoreLists
    /** SmmIsBufferOutsideSmmValid on the data buffer, for a given size. */
    const bufferValid: nat -> bool

    var imageSize: nat
    var handlerSize: nat
    var protocolSize: nat
    var smiSize: nat
    var rootSmiSize: nat
    var childSize: nat
    var database: array?<Byte>
    var databaseSize: nat
    var recording: bool

    constructor (env: Env, lists: CoreLists, bufferValid: nat -> bool)
      ensures this.env == env && this.lists == lists && this.bufferValid == bufferValid && database == null
    {
      this.env, this.lists, this.bufferValid := env, lists, bufferValid;
      database, databaseSize, recording := null, 0, false;
      imageSize, handlerSize, protocolSize, smiSize, rootSmiSize, childSize := 0, 0, 0, 0, 0, 0;
    }

    /** The six section sizes are those of the current lists. */
    ghost predicate Measured()
      reads this
    {
      && Fits(env, lists)
      && imageSize == IMAGE_SIZE * |env.images|
      && handlerSize == |EncodeAll(HandleRecords(env, lists.handles))|
      && protocolSize == |EncodeAll(ProtocolRecords(env, BeforeCallerId(lists.protocols, lists.callerId)))|
      && smiSize == SmiSize(lists.smiEntries)
      && rootSmiSize == SMI_SIZE + 24 * |lists.rootHandlers|
      && childSize == |lists.child|
    }

    method GetSmmCoreDatabaseSize() returns (size: nat)
      requires Fits(env, lists)
      modifies this`imageSize, this`handlerSize, this`protocolSize, this`smiSize, this`rootSmiSize, this`childSize
      ensures Measured() && size == DatabaseSize(env, lists)
    {
      imageSize := IMAGE_SIZE * |env.images|;
      handlerSize := GetSmmHandlerDatabaseSize(env, lists.handles);
      protocolSize := GetSmmProtocolDatabaseSize(env, lists.protocols, lists.callerId);
      smiSize := GetSmmSmiDatabaseSize(lists.smiEntries);
      rootSmiSize := GetSmmRootSmiDatabaseSize(lists.rootHandlers);
      childSize := |lists.child|;
      size := imageSize + handlerSize + protocolSize + smiSize + rootSmiSize + childSize;
    }

    /** Two-pass agreement: on a buffer of the measured size, no section reports a mismatch
        and the buffer ends up holding exactly the database of the lists. */
    method GetSmmCoreDatabaseData(data: array<Byte>) returns (ok: bool, ghost records: seq<Record>)
      requires Measured() && data.Length == DatabaseSize(env, lists)
      modifies data
      ensures ok && IsDatabase(env, lists, records, data[..])
    {
      hide Encode, EncodeAll, Splice, SameOutside, SmiRecordsOver, Contents, SmiSize, BeforeCallerId, HandleRecords,
        ProtocolRecords, SmiRecords, IsDatabase;
      ghost var s0 := data[..];
      ghost var e1 := EncodeAll(ImageRecords(env.images));
      var size := GetSmmImageDatabaseData(env.images, data, 0, imageSize);
      if size != imageSize {
        return false, [];
      }
      var off := imageSize;
      size := GetSmmHandlerDatabaseData(env, lists.handles, data, off, handlerSize);
      if size != handlerSize {
        return false, [];
      }
      ghost var e2 := EncodeAll(HandleRecords(env, lists.handles));
      SpliceAdjacent(s0, 0, e1, e2);
      off := off + handlerSize;
      size := GetSmmProtocolDatabaseData(env, lists.protocols, lists.callerId, data, off, protocolSize);
      if size != protocolSize {
        return false, [];
      }
      ghost var e3 := EncodeAll(ProtocolRecords(env, BeforeCallerId(lists.protocols, lists.callerId)));
      SpliceAdjacent(s0, 0, e1 + e2, e3);
      off := off + protocolSize;
      ghost var smi := SmiRecordsOver(env, lists.smiEntries, data[..], off);
      SmiContents(env, lists.smiEntries, data[..], off);
      size := GetSmmSmiDatabaseData(env, lists.smiEntries, data, off, smiSize);
      if size != smiSize {
        return false, [];
      }
      SpliceAdjacent(s0, 0, e1 + e2 + e3, EncodeAll(smi));
      off := off + smiSize;
      ghost var root := RootRecordOf(env, lists.rootHandlers, data[off + 13..off + 16]);
      size := GetSmmRootSmiDatabaseData(env, lists.rootHandlers, data, off, rootSmiSize);
      if size != rootSmiSize {
        return false, [];
      }
      SpliceAdjacent(s0, 0, e1 + e2 + e3 + EncodeAll(smi), Encode(root));
      ghost var e5 := e1 + e2 + e3 + EncodeAll(smi) + Encode(root);
      if childSize != 0 {
        Put(data, off + rootSmiSize, lists.child);
        SpliceAdjacent(s0, 0, e5, lists.child);
      }
      assert e5 + lists.child == if childSize == 0 then e5 else e5 + lists.child;
      SpliceWhole(s0, e5 + lists.child);
      records := SectionsMakeDatabase(env, lists, smi, root);
      ok := true;
    }

    /** After the build the server holds a database of its lists. */
    ghost predicate Serving(records: seq<Record>)
      reads this, if database != null then {database} else {}
    {
      database != null && databaseSize == database.Length && env.Valid() &&
      IsDatabase(env, lists, records, database[..])
    }

    method BuildSmmCoreDatabase() returns (ghost records: seq<Record>)
      requires Fits(env, lists)
      modifies this
      ensures Serving(records) && fresh(database) && databaseSize == DatabaseSize(env, lists)
      ensures recording == old(recording)
    {
      hide EncodeAll, Contents, ExpectedRecords, SmiSize;
      databaseSize := GetSmmCoreDatabaseSize();
      var data := new Byte[databaseSize];
      database := data;
      var ok;
      ok, records := GetSmmCoreDatabaseData(data);
      if !ok {
        assert false;  // FreePool and a null database in the source; the two passes agree, so this is dead
      }
    }

    /** Copies at most size bytes from offset; clamped to the end of the database. */
    method SmmCoreDumpCopyData(dumpBuffer: array<Byte>, dumpSize: UintN, dumpOffset: UintN)
      returns (newSize: UintN, newOffset: UintN)
      requires database != null && database.Length == databaseSize < TWO64 && dumpBuffer != database
      requires dumpSize <= dumpBuffer.Length
      modifies dumpBuffer
      ensures dumpOffset >= databaseSize ==>
        newSize == dumpSize && newOffset == databaseSize && dumpBuffer[..] == old(dumpBuffer[..])
      ensures dumpOffset < databaseSize ==>
        && newSize == (if databaseSize - dumpOffset < dumpSize then databaseSize - dumpOffset else dumpSize)
        && newOffset == dumpOffset + newSize
        && dumpBuffer[..] == Splice(old(dumpBuffer[..]), 0, database[dumpOffset..newOffset])
    {
      newSize, newOffset := dumpSize, dumpOffset;
      if dumpOffset >= databaseSize {
        newOffset := databaseSize;
        return;
      }
      if databaseSize - dumpOffset < dumpSize {
        newSize := databaseSize - dumpOffset;
      }
      Put(dumpBuffer, 0, database[dumpOffset..dumpOffset + newSize]);
      newOffset := dumpOffset + newSize;
    }

    /** The SMI dispatch function. Nothing is answered while there is no database, or when the
        message size is not that of its command. */
    method SmmCoreDumpHandler(m: Message, commSize: nat)
      requires database != null ==> database.Length == databaseSize < TWO64 && m.dumpBuffer != database
      requires m.dumpSize <= m.dumpBuffer.Length
      modifies m, m.dumpBuffer, this`recording
      ensures recording == old(recording) && m.command == old(m.command)
      ensures database == null || commSize < HEADER_BYTES ==>
        unchanged(m) && m.dumpBuffer[..] == old(m.dumpBuffer[..])
      ensures
        database != null && commSize >= HEADER_BYTES &&
        !(m.command == COMMAND_GET_INFO && commSize == GET_INFO_BYTES) &&
        !(m.command == COMMAND_GET_DATA_BY_OFFSET && commSize == GET_DATA_BYTES) ==>
          && m.returnStatus == STATUS_PENDING && m.dumpSize == old(m.dumpSize) && m.dumpOffset == old(m.dumpOffset)
          && m.dumpBuffer[..] == old(m.dumpBuffer[..])
      ensures database != null && m.command == COMMAND_GET_INFO && commSize == GET_INFO_BYTES ==>
        m.returnStatus == STATUS_SUCCESS && m.dumpSize == databaseSize && m.dumpOffset == old(m.dumpOffset) &&
        m.dumpBuffer[..] == old(m.dumpBuffer[..])
      ensures database != null && m.command == COMMAND_GET_DATA_BY_OFFSET && commSize == GET_DATA_BYTES ==>
        if !bufferValid(old(m.dumpSize)) then
          m.returnStatus == STATUS_ACCESS_DENIED && m.dumpSize == old(m.dumpSize)
        else
          && m.returnStatus == STATUS_SUCCESS
          && (old(m.dumpOffset) < databaseSize ==>
              && m.dumpSize == (if databaseSize - old(m.dumpOffset) < old(m.dumpSize)
                                then databaseSize - old(m.dumpOffset) else old(m.dumpSize))
              && m.dumpOffset == old(m.dumpOffset) + m.dumpSize
              && m.dumpBuffer[..] == Splice(old(m.dumpBuffer[..]), 0, database[old(m.dumpOffset)..m.dumpOffset]))
          && (old(m.dumpOffset) >= databaseSize ==>
              m.dumpSize == old(m.dumpSize) && m.dumpOffset == databaseSize &&
              m.dumpBuffer[..] == old(m.dumpBuffer[..]))
    {
      if database == null || commSize < HEADER_BYTES {
        return;
      }
      m.returnStatus := STATUS_PENDING;
      if m.command == COMMAND_GET_INFO {
        if commSize != GET_INFO_BYTES {
          return;
        }
        SmmCoreDumpHandlerGetInfo(m);
      } else if m.command == COMMAND_GET_DATA_BY_OFFSET {
        if commSize != GET_DATA_BYTES {
          return;
        }
        SmmCoreDumpHandlerGetDataByOffset(m);
      }
    }

    method SmmCoreDumpHandlerGetInfo(m: Message)
      requires databaseSize < TWO64
      modifies m, this`recording
      ensures recording == old(recording) && m.command == old(m.command) && m.dumpOffset == old(m.dumpOffset)
      ensures m.returnStatus == STATUS_SUCCESS && m.dumpSize == databaseSize
    {
      var saved := recording;
      recording := false;
      m.dumpSize := databaseSize;
      m.returnStatus := STATUS_SUCCESS;
      recording := saved;
    }

    method SmmCoreDumpHandlerGetDataByOffset(m: Message)
      requires database != null && database.Length == databaseSize < TWO64 && m.dumpBuffer != database
      requires m.dumpSize <= m.dumpBuffer.Length
      modifies m, m.dumpBuffer, this`recording
      ensures recording == old(recording) && m.command == old(m.command)
      ensures !bufferValid(old(m.dumpSize)) ==>
        m.returnStatus == STATUS_ACCESS_DENIED && m.dumpSize == old(m.dumpSize) &&
        m.dumpOffset == old(m.dumpOffset) && m.dumpBuffer[..] == old(m.dumpBuffer[..])
      ensures bufferValid(old(m.dumpSize)) ==>
        && m.returnStatus == STATUS_SUCCESS
        && (old(m.dumpOffset) < databaseSize ==>
            && m.dumpSize == (if databaseSize - old(m.dumpOffset) < old(m.dumpSize)
                              then databaseSize - old(m.dumpOffset) else old(m.dumpSize))
            && m.dumpOffset == old(m.dumpOffset) + m.dumpSize
            && m.dumpBuffer[..] == Splice(old(m.dumpBuffer[..]), 0, database[old(m.dumpOffset)..m.dumpOffset]))
        && (old(m.dumpOffset) >= databaseSize ==>
            m.dumpSize == old(m.dumpSize) && m.dumpOffset == databaseSize &&
            m.dumpBuffer[..] == old(m.dumpBuffer[..]))
    {
      var saved := recording;
      recording := false;
      if !bufferValid(m.dumpSize) {
        m.returnStatus := STATUS_ACCESS_DENIED;
      } else {
        m.dumpSize, m.dumpOffset := SmmCoreDumpCopyData(m.dumpBuffer, m.dumpSize, m.dumpOffset);
        m.returnStatus := STATUS_SUCCESS;
      }
      recording := saved;
    }
  }

  lemma SplicePrefix<T>(s: seq<T>, b: seq<T>)
    requires |b| <= |s|
    ensures Splice(s, 0, b)[..|b|] == b
  {
  }

  /** One round of the client's loop: the client's prefix of the database grows by one chunk, and the
      size the server reports back is the size asked for, so its clamp never triggers. */
  method TransferRound(server: SmmServer, m: Message, data: array<Byte>, chunk: nat) returns (ok: bool)
    requires 0 < chunk < TWO64 && chunk <= m.dumpBuffer.Length && m.command == COMMAND_GET_DATA_BY_OFFSET
    requires server.database != null && server.database.Length == server.databaseSize == data.Length < TWO64
    requires m.dumpBuffer != server.database && data != m.dumpBuffer && data != server.database
    requires m.dumpOffset < data.Length && data[..m.dumpOffset] == server.database[..m.dumpOffset]
    modifies m, m.dumpBuffer, data, server`recording
    ensures server.recording == old(server.recording) && m.command == COMMAND_GET_DATA_BY_OFFSET
    ensures !ok ==> exists size: nat :: 0 < size <= chunk && !server.bufferValid(size)
    ensures ok ==>
      && m.dumpSize == (if chunk <= data.Length - old(m.dumpOffset) then chunk else data.Length - old(m.dumpOffset))
      && m.dumpOffset == old(m.dumpOffset) + m.dumpSize
      && data[..m.dumpOffset] == server.database[..m.dumpOffset]
  {
    hide Splice;
    var offset := m.dumpOffset;
    if chunk <= data.Length - m.dumpOffset {
      m.dumpSize := chunk;
    } else {
      m.dumpSize := data.Length - m.dumpOffset;
    }
    ghost var asked := m.dumpSize;
    ghost var buffer := m.dumpBuffer[..];
    server.SmmCoreDumpHandler(m, GET_DATA_BYTES);
    if m.returnStatus != STATUS_SUCCESS {
      assert !server.bufferValid(asked);
      return false;
    }
    SplicePrefix(buffer, server.database[offset..m.dumpOffset]);
    CopyChunk(data, offset, m.dumpBuffer[..m.dumpSize], server.database[..]);
    assert server.database[..][..m.dumpOffset] == server.database[..m.dumpOffset];
    ok := true;
  }

  /** The client half, GetSmmCoreDatabase in SmmCoreDumpApp.c: ask for the size, then pull the bytes
      in chunks of at most chunk bytes. With a server database it returns null only if a request was refused. */
  method GetSmmCoreDatabase(server: SmmServer, m: Message, chunk: nat)
    returns (result: array?<Byte>, ghost rounds: nat)
    requires 0 < chunk < TWO64 && chunk <= m.dumpBuffer.Length
    requires server.database != null ==>
      server.database.Length == server.databaseSize < TWO64 && m.dumpBuffer != server.database
    modifies m, m.dumpBuffer, server`recording
    ensures server.recording == old(server.recording)
    ensures server.database == null ==> result == null
    ensures server.database != null && result == null ==>
      exists size: nat :: 0 < size <= chunk && !server.bufferValid(size)
    ensures result != null ==>
      && fresh(result) && server.database != null
      && result[..] == server.database[..]
      && rounds == (server.databaseSize + chunk - 1) / chunk
  {
    rounds := 0;
    m.command := COMMAND_GET_INFO;
    m.returnStatus := STATUS_PENDING;
    m.dumpSize := 0;
    server.SmmCoreDumpHandler(m, GET_INFO_BYTES);
    if m.returnStatus != STATUS_SUCCESS {
      return null, rounds;
    }
    var size: nat := m.dumpSize;
    var data := new Byte[size](_ => 0);
    m.command := COMMAND_GET_DATA_BY_OFFSET;
    m.returnStatus := STATUS_PENDING;
    m.dumpOffset := 0;
    ZeroRounds(chunk);
    while m.dumpOffset < size
      invariant server.recording == old(server.recording) && m.command == COMMAND_GET_DATA_BY_OFFSET
      invariant server.database != null && size == server.databaseSize && m.dumpOffset <= size
      invariant data[..m.dumpOffset] == server.database[..m.dumpOffset]
      invariant RoundsDone(size, chunk, rounds, m.dumpOffset)
      decreases size - m.dumpOffset
    {
      RoundCount(size, chunk, rounds, m.dumpOffset);
      var ok := TransferRound(server, m, data, chunk);
      if !ok {
        return null, rounds;
      }
      rounds := rounds + 1;
    }
    result := data;
  }

  ghost predicate RoundsDone(size: nat, chunk: nat, rounds: nat, offset: nat)
    requires chunk > 0
  {
    if offset < size then offset == chunk * rounds else rounds == (size + chunk - 1) / chunk
  }

  /** The client's CopyMem: a prefix already equal to the server's grows by one chunk. */
  method CopyChunk(data: array<Byte>, offset: nat, bytes: seq<Byte>, ghost db: seq<Byte>)
    requires |db| == data.Length && offset + |bytes| <= data.Length
    requires data[..offset] == db[..offset] && bytes == db[offset..offset + |bytes|]
    modifies data
    ensures data[..offset + |bytes|] == db[..offset + |bytes|]
  {
    Put(data, offset, bytes);
    assert data[..offset + |bytes|] == db[..offset] + bytes;
  }

  lemma RoundCount(size: nat, chunk: nat, rounds: nat, offset: nat)
    requires chunk > 0 && offset < size && RoundsDone(size, chunk, rounds, offset)
    ensures RoundsDone(size, chunk, rounds + 1, offset + if chunk <= size - offset then chunk else size - offset)
  {
    var asked := if chunk <= size - offset then chunk else size - offset;
    if offset + asked == size {
      Quotient(size + chunk - 1, chunk, rounds + 1, asked - 1);
    }
  }

  lemma ZeroRounds(chunk: nat)
    requires chunk > 0
    ensures (0 + chunk - 1) / chunk == 0
  {
    Quotient(chunk - 1, chunk, 0, chunk - 1);
  }
}
