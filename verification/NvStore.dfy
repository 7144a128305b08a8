/** The default NV variable store (PcdDump.c): a variable store with default values, then one record of deltas per
    set of SKUs and default stores. Four functions walk it, each with its own pointer arithmetic. */
module NvStores {
  import opened Bytes
  import opened FlatMemory
  import opened Options
  import opened PcdDeltas

  const NSDB: nat := 0x4244534E
  const NV_HEADER := 16              // PCD_NV_STORE_DEFAULT_BUFFER_HEADER: Signature, Length, MaxLength, reserved
  const VARIABLE_STORE_HEADER := 28

  /** gEfiVariableGuid and gEfiAuthenticatedVariableGuid */
  const VARIABLE_GUID: Guid :=
    [0x16, 0x36, 0xCF, 0xDD, 0x75, 0x32, 0x64, 0x41, 0x98, 0xB6, 0xFE, 0x85, 0x70, 0x7F, 0xFE, 0x7D]
  const AUTH_VARIABLE_GUID: Guid :=
    [0x78, 0x2C, 0xF3, 0xAA, 0x7B, 0x94, 0x9A, 0x43, 0xA1, 0x80, 0x2E, 0x14, 0x4E, 0xC3, 0x77, 0x92]

  /** The two variable header formats: their length, and where NameSize is; DataSize follows it. */
  datatype Format = Format(headerSize: nat, nameSizeAt: nat)

  const NORMAL := Format(32, 8)
  const AUTHENTICATED := Format(60, 36)

  datatype Variable = Variable(data: nat, size: Uint32)

  datatype Store = Store(skuId: UintN, defaultId: nat, deltas: seq<Delta>)

  /** A line DumpAllSkuData prints. */
  datatype SkuLine = SkuLine(data: seq<Byte>, skuId: UintN, defaultId: nat)

  /* ---------- layout ---------- */

  function StoreLength(m: Memory): Uint32 { U32(m, 4) }

  /** The first PCD_DEFAULT_DATA: DataSize, HeaderSize. */
  function DefaultDataSize(m: Memory): Uint32 { U32(m, NV_HEADER) }

  function VariableStore(m: Memory): nat {
    AlignUp(NV_HEADER + U32(m, NV_HEADER + 4), 8)
  }

  function StoreFormat(m: Memory): Option<Format> {
    var guid := GuidAt(m, VariableStore(m));
    if guid == VARIABLE_GUID then Some(NORMAL)
    else if guid == AUTH_VARIABLE_GUID then Some(AUTHENTICATED)
    else None
  }

  function FirstVariable(m: Memory): nat {
    AlignUp(VariableStore(m) + VARIABLE_STORE_HEADER, 4)
  }

  function VariableAt(m: Memory, format: Format, p: nat): Variable {
    Variable(p + format.headerSize + U32(m, p + format.nameSizeAt), U32(m, p + format.nameSizeAt + 4))
  }

  function NextVariable(m: Memory, format: Format, p: nat): nat {
    AlignUp(VariableAt(m, format, p).data + VariableAt(m, format, p).size, 4)
  }

  function Variables(m: Memory, format: Format, p: nat, end: nat): seq<Variable>
    requires format.headerSize > 0
    decreases end - p
  {
    if p >= end then [] else [VariableAt(m, format, p)] + Variables(m, format, NextVariable(m, format, p), end)
  }

  function VariablesEnd(m: Memory, format: Format, p: nat, end: nat): nat
    requires format.headerSize > 0
    decreases end - p
  {
    if p >= end then p else VariablesEnd(m, format, NextVariable(m, format, p), end)
  }

  /** Where the variables end and the records of deltas start. */
  function StoresStart(m: Memory): nat {
    AlignUp(match StoreFormat(m)
            case None => FirstVariable(m)
            case Some(format) => VariablesEnd(m, format, FirstVariable(m), DefaultDataSize(m)), 8)
  }

  /** The first delta of the record at p, behind its header and PCD_DEFAULT_INFO array. */
  function FirstDelta(m: Memory, p: nat): nat {
    AlignUp(p + 4 + U32(m, p + 4), 4)
  }

  function StoreAt(m: Memory, p: nat): Store {
    Store(U64(m, p + 8), U16(m, p + 16), Deltas(m, FirstDelta(m, p), p + U32(m, p)))
  }

  function NextStore(m: Memory, p: nat): (n: nat)
    ensures n > p
  {
    AlignUp(DeltasEnd(FirstDelta(m, p), p + U32(m, p)), 8)
  }

  function Stores(m: Memory, p: nat, end: nat): seq<Store>
    decreases end - p
  {
    if p >= end then [] else [StoreAt(m, p)] + Stores(m, NextStore(m, p), end)
  }

  /** The records every walk is about. */
  function AllStores(m: Memory): seq<Store> {
    if U32(m, 0) == NSDB then Stores(m, StoresStart(m), StoreLength(m)) else []
  }

  ghost predicate Changes(m: Memory, store: Store, v: Variable) {
    AnyHits(store.deltas, VariableStore(m), v.data, v.size)
  }

  /** A default store with a value of its own for some byte of the data. */
  ghost predicate SomeStoreChanges(m: Memory, stores: seq<Store>, v: Variable) {
    exists i :: 0 <= i < |stores| && Changes(m, stores[i], v)
  }

  function LineFor(m: Memory, store: Store, v: Variable): SkuLine {
    SkuLine(Overlay(Read(m, v.data, v.size), store.deltas, VariableStore(m), v.data), store.skuId, store.defaultId)
  }

  ghost function LinesFor(m: Memory, stores: seq<Store>, v: Variable): seq<SkuLine> {
    if stores == [] then []
    else (if Changes(m, stores[0], v) then [LineFor(m, stores[0], v)] else []) + LinesFor(m, stores[1..], v)
  }

  lemma LinesForFirst(m: Memory, store: Store, rest: seq<Store>, v: Variable)
    ensures LinesFor(m, [store] + rest, v) ==
            (if Changes(m, store, v) then [LineFor(m, store, v)] else []) + LinesFor(m, rest, v)
  {
    assert ([store] + rest)[1..] == rest;
  }

  /** HasSkuData is TRUE if and only if DumpAllSkuData has a record to show. */
  lemma {:induction false} HasSkuDataIffLines(m: Memory, stores: seq<Store>, v: Variable)
    ensures SomeStoreChanges(m, stores, v) <==> LinesFor(m, stores, v) != []
  {
    hide Changes;
    if stores != [] {
      HasSkuDataIffLines(m, stores[1..], v);
      SomeStoreFirst(m, stores[0], stores[1..], v);
      assert [stores[0]] + stores[1..] == stores;
    }
  }

  lemma SomeStoreFirst(m: Memory, store: Store, rest: seq<Store>, v: Variable)
    ensures SomeStoreChanges(m, [store] + rest, v) <==> Changes(m, store, v) || SomeStoreChanges(m, rest, v)
  {
    hide Changes;
    var all := [store] + rest;
    assert all[0] == store;
    forall i | 0 <= i < |rest|
      ensures all[i + 1] == rest[i]
    {
    }
    forall i | 0 < i < |all|
      ensures all[i] == rest[i - 1]
    {
    }
  }

  /* ---------- the walks ---------- */

  /** The first multiple of 8 at or behind the end of the first record's header, as its HeaderSize gives it; None
      (NULL) if and only if the signature is wrong. */
  method GetVariableStoreHeaderFromNvStore(m: Memory) returns (header: Option<nat>)
    ensures header.None? <==> U32(m, 0) != NSDB
    ensures header.Some? ==> header.value % 8 == 0
    ensures header.Some? ==> 0 <= header.value - (NV_HEADER + U32(m, NV_HEADER + 4)) < 8
  {
    if U32(m, 0) != NSDB {
      return None;
    }
    var offset: nat := NV_HEADER;
    offset := offset + U32(m, NV_HEADER + 4);
    offset := AlignUp(offset, 8);
    return Some(offset);
  }

  /** There is only one such position. */
  lemma VariableStoreIs(m: Memory, header: nat)
    requires header % 8 == 0 && 0 <= header - (NV_HEADER + U32(m, NV_HEADER + 4)) < 8
    ensures header == VariableStore(m)
  {
    OneMultiple(NV_HEADER + U32(m, NV_HEADER + 4), header, VariableStore(m));
  }

  lemma OneMultiple(from: nat, a: nat, b: nat)
    requires from <= a < from + 8 && from <= b < from + 8 && a % 8 == 0 && b % 8 == 0
    ensures a == b
  {
  }

  method GetSkuDataFromNvStore(m: Memory) returns (skuData: Option<nat>)
    ensures skuData ==
      if U32(m, 0) == NSDB && StoresStart(m) < StoreLength(m) then Some(StoresStart(m)) else None
  {
    hide VariablesEnd, StoreFormat;
    var header := GetVariableStoreHeaderFromNvStore(m);
    if header.None? {
      return None;
    }
    VariableStoreIs(m, header.value);
    var offset: nat := AlignUp(header.value + VARIABLE_STORE_HEADER, 4);
    var format := StoreFormat(m);
    if format.Some? {
      FormatIsValid(m);
      offset := SkipVariables(m, format.value, offset, DefaultDataSize(m));
    }
    offset := AlignUp(offset, 8);
    if offset < StoreLength(m) {
      return Some(offset);
    }
    return None;
  }

  /** The two variable loops of GetSkuDataFromNvStore, which differ only in the header format. */
  method SkipVariables(m: Memory, format: Format, first: nat, end: nat) returns (offset: nat)
    requires format.headerSize > 0
    ensures offset == VariablesEnd(m, format, first, end)
  {
    hide VariablesEnd, Variables;
    offset := first;
    while offset < end
      invariant VariablesEnd(m, format, first, end) == VariablesEnd(m, format, offset, end)
      decreases end - offset
    {
      VariablesStep(m, format, offset, end);
      var variable := offset;
      offset := offset + format.headerSize;
      offset := offset + U32(m, variable + format.nameSizeAt);
      offset := offset + U32(m, variable + format.nameSizeAt + 4);
      offset := AlignUp(offset, 4);
    }
    VariablesStep(m, format, offset, end);
  }

  lemma VariablesStep(m: Memory, format: Format, p: nat, end: nat)
    requires format.headerSize > 0
    ensures p < end ==> NextVariable(m, format, p) > p
    ensures p < end ==>
      Variables(m, format, p, end) == [VariableAt(m, format, p)] + Variables(m, format, NextVariable(m, format, p), end)
    ensures p < end ==> VariablesEnd(m, format, p, end) == VariablesEnd(m, format, NextVariable(m, format, p), end)
    ensures p >= end ==> Variables(m, format, p, end) == [] && VariablesEnd(m, format, p, end) == p
  {
  }

  lemma StoresStep(m: Memory, p: nat, end: nat)
    ensures p < end ==> Stores(m, p, end) == [StoreAt(m, p)] + Stores(m, NextStore(m, p), end)
    ensures p >= end ==> Stores(m, p, end) == []
  {
  }

  /** What DumpAllSkuData does with the record at p: overlay its deltas on a copy of the data. */
  method OverlayStore(m: Memory, p: nat, origin: nat, v: Variable) returns (line: SkuLine, hit: bool, next: nat)
    requires origin == VariableStore(m)
    ensures hit <==> Changes(m, StoreAt(m, p), v)
    ensures line == LineFor(m, StoreAt(m, p), v) && next == NextStore(m, p)
  {
    hide Overlay, Deltas, DeltasEnd, AnyHits;
    var data := Read(m, v.data, v.size);
    var tempData := new Byte[v.size](i requires 0 <= i < v.size => data[i]);
    assert tempData[..] == data;
    var offset := AlignUp(p + 4 + U32(m, p + 4), 4);
    var last: nat;
    hit, last := ApplyDeltas(m, offset, p + U32(m, p), origin, v.data, tempData);
    line := SkuLine(tempData[..], U64(m, p + 8), U16(m, p + 16));
    next := AlignUp(last, 8);
  }

  /** What HasSkuData does with the record at p. */
  method ScanStore(m: Memory, p: nat, origin: nat, v: Variable) returns (hit: bool, next: nat)
    requires origin == VariableStore(m)
    ensures hit <==> Changes(m, StoreAt(m, p), v)
    ensures next == NextStore(m, p)
  {
    hide Deltas, DeltasEnd, AnyHits;
    var offset := AlignUp(p + 4 + U32(m, p + 4), 4);
    var last: nat;
    hit, last := FindDeltas(m, offset, p + U32(m, p), origin, v.data, v.size);
    next := AlignUp(last, 8);
  }

  method HasSkuData(m: Memory, v: Variable) returns (result: bool)
    ensures result <==> SomeStoreChanges(m, AllStores(m), v)
  {
    hide Stores, StoreAt, Changes, StoresStart, VariableStore, NextStore, SomeStoreChanges;
    NoStores(m, v);
    var start := GetSkuDataFromNvStore(m);
    StoresStep(m, StoresStart(m), StoreLength(m));
    if start.None? {
      return false;
    }
    var header := GetVariableStoreHeaderFromNvStore(m);
    VariableStoreIs(m, header.value);
    result := false;
    var offset := start.value;
    while offset < StoreLength(m)
      invariant SomeStoreChanges(m, AllStores(m), v) <==>
                result || SomeStoreChanges(m, Stores(m, offset, StoreLength(m)), v)
      decreases StoreLength(m) - offset
    {
      StoresStep(m, offset, StoreLength(m));
      SomeStoreFirst(m, StoreAt(m, offset), Stores(m, NextStore(m, offset), StoreLength(m)), v);
      var hit, next := ScanStore(m, offset, header.value, v);
      if hit {
        result := true;
      }
      offset := next;
    }
    StoresStep(m, offset, StoreLength(m));
  }

  lemma NoStores(m: Memory, v: Variable)
    ensures !SomeStoreChanges(m, [], v) && LinesFor(m, [], v) == []
  {
  }

  method DumpAllSkuData(m: Memory, v: Variable) returns (lines: seq<SkuLine>)
    ensures lines == LinesFor(m, AllStores(m), v)
  {
    hide Stores, StoreAt, Changes, StoresStart, VariableStore, NextStore, LinesFor, LineFor;
    NoStores(m, v);
    lines := [];
    var start := GetSkuDataFromNvStore(m);
    StoresStep(m, StoresStart(m), StoreLength(m));
    if start.None? {
      return;
    }
    var header := GetVariableStoreHeaderFromNvStore(m);
    VariableStoreIs(m, header.value);
    var offset := start.value;
    assert [] + LinesFor(m, AllStores(m), v) == LinesFor(m, AllStores(m), v);
    while offset < StoreLength(m)
      invariant LinesFor(m, AllStores(m), v) == lines + LinesFor(m, Stores(m, offset, StoreLength(m)), v)
      decreases StoreLength(m) - offset
    {
      ghost var rest := Stores(m, NextStore(m, offset), StoreLength(m));
      StoresStep(m, offset, StoreLength(m));
      LinesForFirst(m, StoreAt(m, offset), rest, v);
      var line, hit, next := OverlayStore(m, offset, header.value, v);
      if hit {
        ConcatAssoc(lines, [line], LinesFor(m, rest, v));
        lines := lines + [line];
      } else {
        assert [] + LinesFor(m, rest, v) == LinesFor(m, rest, v);
      }
      offset := next;
    }
    StoresStep(m, offset, StoreLength(m));
    assert lines + [] == lines;
  }

  /** What DumpNvStore prints of a variable: its data, the Default mark, and the lines of other stores. */
  datatype VariableLine = VariableLine(data: seq<Byte>, hasDelta: bool, skuLines: seq<SkuLine>)

  ghost function VariableLineFor(m: Memory, v: Variable): VariableLine {
    VariableLine(Read(m, v.data, v.size), SomeStoreChanges(m, AllStores(m), v), LinesFor(m, AllStores(m), v))
  }

  ghost function VariableLines(m: Memory, vs: seq<Variable>): (lines: seq<VariableLine>)
    ensures |lines| == |vs| && forall i :: 0 <= i < |vs| ==> lines[i] == VariableLineFor(m, vs[i])
  {
    if vs == [] then [] else [VariableLineFor(m, vs[0])] + VariableLines(m, vs[1..])
  }

  /** The variables of the store, as DumpNvStore lists them. */
  function AllVariables(m: Memory): seq<Variable> {
    match StoreFormat(m)
    case None => []
    case Some(format) => Variables(m, format, FirstVariable(m), DefaultDataSize(m))
  }

  /** The dump shows every variable with exactly the lines of the stores that change it, then every store: its
      own walk ends where the SKU walks begin. */
  method DumpNvStore(m: Memory) returns (variables: seq<VariableLine>, stores: seq<Store>)
    ensures U32(m, 0) != NSDB ==> variables == [] && stores == []
    ensures U32(m, 0) == NSDB ==> variables == VariableLines(m, AllVariables(m)) && stores == AllStores(m)
  {
    hide Variables, VariablesEnd, VariableAt, NextVariable, Stores, VariableLines, StoreFormat;
    variables, stores := [], [];
    if U32(m, 0) != NSDB {
      return;
    }
    var offset: nat := NV_HEADER;
    offset := AlignUp(offset + U32(m, NV_HEADER + 4), 8);
    offset := AlignUp(offset + VARIABLE_STORE_HEADER, 4);
    NoVariables(m);
    var format := StoreFormat(m);
    if format.Some? {
      FormatIsValid(m);
      variables, offset := DumpVariables(m, format.value, offset, DefaultDataSize(m));
    }
    offset := AlignUp(offset, 8);
    stores := DumpStores(m, offset, StoreLength(m));
  }

  lemma FormatIsValid(m: Memory)
    requires StoreFormat(m).Some?
    ensures StoreFormat(m).value.headerSize > 0
  {
  }

  lemma NoVariables(m: Memory)
    ensures VariableLines(m, []) == []
  {
  }

  /** The two variable loops of DumpNvStore, which differ only in the header format. */
  method DumpVariables(m: Memory, format: Format, first: nat, end: nat) returns (lines: seq<VariableLine>, offset: nat)
    requires format.headerSize > 0
    ensures lines == VariableLines(m, Variables(m, format, first, end))
    ensures offset == VariablesEnd(m, format, first, end)
  {
    hide Variables, VariablesEnd, AllStores, SomeStoreChanges, LinesFor, VariableLineFor;
    offset := first;
    lines := [];
    ghost var done: seq<Variable> := [];
    while offset < end
      invariant Variables(m, format, first, end) == done + Variables(m, format, offset, end)
      invariant VariablesEnd(m, format, first, end) == VariablesEnd(m, format, offset, end)
      invariant |lines| == |done| && forall i :: 0 <= i < |done| ==> lines[i] == VariableLineFor(m, done[i])
      decreases end - offset
    {
      VariablesStep(m, format, offset, end);
      ghost var v, rest := VariableAt(m, format, offset), Variables(m, format, NextVariable(m, format, offset), end);
      var line, next := DumpVariable(m, format, offset);
      lines := lines + [line];
      ConcatAssoc(done, [v], rest);
      done := done + [v];
      offset := next;
    }
    VariablesStep(m, format, offset, end);
    assert done + [] == done;
    assert lines == VariableLines(m, done);
  }

  method DumpVariable(m: Memory, format: Format, p: nat) returns (line: VariableLine, next: nat)
    ensures line == VariableLineFor(m, VariableAt(m, format, p)) && next == NextVariable(m, format, p)
  {
    hide AllStores, SomeStoreChanges, LinesFor;
    var offset := p + format.headerSize;
    offset := offset + U32(m, p + format.nameSizeAt);
    var v := Variable(offset, U32(m, p + format.nameSizeAt + 4));
    var hasDelta := HasSkuData(m, v);
    HasSkuDataIffLines(m, AllStores(m), v);
    var skuLines: seq<SkuLine> := [];
    if hasDelta {
      skuLines := DumpAllSkuData(m, v);
    }
    line := VariableLine(Read(m, v.data, v.size), hasDelta, skuLines);
    next := AlignUp(offset + v.size, 4);
  }

  /** The last loop of DumpNvStore: the records and their deltas. */
  method DumpStores(m: Memory, first: nat, end: nat) returns (stores: seq<Store>)
    ensures stores == Stores(m, first, end)
  {
    hide Stores, StoreAt, NextStore;
    var offset := first;
    stores := [];
    while offset < end
      invariant Stores(m, first, end) == stores + Stores(m, offset, end)
      decreases end - offset
    {
      StoresStep(m, offset, end);
      ghost var rest := Stores(m, NextStore(m, offset), end);
      var store, next := DumpStore(m, offset);
      ConcatAssoc(stores, [store], rest);
      stores := stores + [store];
      offset := next;
    }
    StoresStep(m, offset, end);
    assert stores + [] == stores;
  }

  method DumpStore(m: Memory, p: nat) returns (store: Store, next: nat)
    ensures store == StoreAt(m, p) && next == NextStore(m, p)
  {
    var first := AlignUp(p + 4 + U32(m, p + 4), 4);
    var end := p + U32(m, p);
    var delta := first;
    var deltas: seq<Delta> := [];
    while delta < end
      invariant Deltas(m, first, end) == deltas + Deltas(m, delta, end)
      invariant DeltasEnd(first, end) == DeltasEnd(delta, end)
      decreases end - delta
    {
      ConcatAssoc(deltas, [DeltaAt(m, delta)], Deltas(m, delta + DELTA_SIZE, end));
      deltas := deltas + [DeltaAt(m, delta)];
      delta := delta + DELTA_SIZE;
    }
    assert deltas + [] == deltas;
    store := Store(U64(m, p + 8), U16(m, p + 16), deltas);
    next := AlignUp(delta, 8);
  }
}
