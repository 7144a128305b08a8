/** The unit table VtdDump.c keeps in mVtdUnitInformation, filled in place: growable device arrays, the recursive
    bus scan, and the two walks over the DMAR table. */
module VtdUnits {
  import opened Bytes
  import opened PciTopology
  import opened VtdOwnership

  const MAX_VTD_PCI_DATA_NUMBER := 0x100

  /** One VTD_UNIT_INFORMATION. PciDeviceDataNumber is count, PciDeviceDataMaxNumber is data.Length. */
  class VtdUnit {
    var baseAddress: nat
    var segment: nat
    var includeAll: bool
    var count: nat
    var data: array<PciDevice>

    ghost predicate Valid()
      reads this
    {
      count <= data.Length
    }

    ghost function View(): Unit
      reads this, data
      requires Valid()
    {
      Unit(baseAddress, segment, includeAll, data[..count])
    }

    constructor ()
      ensures Valid() && fresh(data) && View() == ZERO_UNIT
    {
      baseAddress, segment, includeAll, count := 0, 0, false, 0;
      data := new PciDevice[0];
    }

    /** The "register new" half of RegisterPciDevice: reallocate if full, then append. */
    method Append(d: PciDevice)
      requires Valid()
      modifies this`count, this`data, data
      ensures Valid() && (data == old(data) || fresh(data))
      ensures View() == old(View()).(devices := old(View()).devices + [d])
    {
      ghost var devices := data[..count];
      if count >= data.Length {
        var grown := new PciDevice[data.Length + MAX_VTD_PCI_DATA_NUMBER](_ => ZERO_DEVICE);
        Put(grown, 0, data[..count]);
        assert grown[..count] == devices;
        data := grown;
      }
      data[count] := d;
      count := count + 1;
      assert data[..count] == devices + [d];
    }
  }

  /** units is an array of separate, valid units whose contents are views. */
  ghost predicate Represents(units: seq<VtdUnit>, views: seq<Unit>)
    reads units, set u | u in units :: u.data
  {
    && |units| == |views|
    && (forall i :: 0 <= i < |units| ==> units[i].Valid() && units[i].View() == views[i])
    && (forall i, j :: 0 <= i < j < |units| ==> units[i] != units[j] && units[i].data != units[j].data)
  }

  /** GetPciDataIndex; -1 stands for (UINTN)-1. */
  method GetPciDataIndex(unit: VtdUnit, segment: nat, id: SourceId, ghost view: Unit) returns (index: int)
    requires unit.Valid() && unit.View() == view
    ensures -1 <= index < |view.devices|
    ensures index >= 0 ==> view.segment == segment && view.devices[index].sourceId == id
    ensures index == -1 ==>
      view.segment != segment || forall k :: 0 <= k < |view.devices| ==> view.devices[k].sourceId != id
    ensures index >= 0 <==> Owns(view, segment, id)
  {
    if segment != unit.segment {
      return -1;
    }
    ghost var devices := unit.data[..unit.count];
    index := 0;
    while index < unit.count
      invariant 0 <= index <= unit.count
      invariant forall k :: 0 <= k < index ==> devices[k].sourceId != id
    {
      if unit.data[index].sourceId == id {
        assert devices[index] in devices;
        return;
      }
      index := index + 1;
    }
    return -1;
  }

  datatype Status = Success | AlreadyStarted | DeviceError

  method RegisterPciDevice(cfg: Config, units: seq<VtdUnit>, v: nat, id: SourceId, deviceType: Byte,
                           checkExist: bool, ghost views: seq<Unit>)
    returns (status: Status)
    requires v < |units| && Represents(units, views)
    modifies units[v], units[v].data
    ensures units[v].data == old(units[v].data) || fresh(units[v].data)
    ensures Represents(units, views[v := Register(cfg, views[..v], views[v], id, deviceType)])
    ensures status == if checkExist && !Excluded(views[..v], views[v], id) && Holds(views[v].devices, id)
                      then AlreadyStarted else Success
  {
    hide Holds, Distinct, Register;
    RegisterCases(cfg, views[..v], views[v], id, deviceType);
    var segment := units[v].segment;
    if units[v].includeAll {
      var index := 0;
      while index < v
        invariant 0 <= index <= v && units[v].data == old(units[v].data) && Represents(units, views)
        invariant forall j :: 0 <= j < index ==> !Owns(views[j], segment, id)
      {
        var found := GetPciDataIndex(units[index], segment, id, views[index]);
        if found != -1 {
          OwnedEarlier(views, v, index, id);
          assert views[v := views[v]] == views;
          return Success;
        }
        index := index + 1;
      }
    }
    NotExcluded(views, v, id);
    var index := GetPciDataIndex(units[v], segment, id, views[v]);
    if index == -1 {
      units[v].Append(PciDevice(deviceType, id, ReadPciId(cfg, segment, id, deviceType)));
    } else if checkExist {
      assert views[v := views[v]] == views;
      return AlreadyStarted;
    } else {
      assert views[v := views[v]] == views;
    }
    status := Success;
  }

  lemma RegisterCases(cfg: Config, earlier: seq<Unit>, u: Unit, id: SourceId, deviceType: Byte)
    ensures Register(cfg, earlier, u, id, deviceType) ==
      if Excluded(earlier, u, id) || Holds(u.devices, id) then u
      else u.(devices := u.devices + [PciDevice(deviceType, id, ReadPciId(cfg, u.segment, id, deviceType))])
  {
    hide Excluded, Holds, ReadPciId;
  }

  lemma OwnedEarlier(views: seq<Unit>, v: nat, i: nat, id: SourceId)
    requires i < v < |views| && views[v].includeAll && Owns(views[i], views[v].segment, id)
    ensures Excluded(views[..v], views[v], id)
  {
    assert views[..v][i] == views[i] && views[i] in views[..v];
  }

  lemma NotExcluded(views: seq<Unit>, v: nat, id: SourceId)
    requires v < |views|
    ensures (views[v].includeAll ==> forall j :: 0 <= j < v ==> !Owns(views[j], views[v].segment, id)) ==>
            !Excluded(views[..v], views[v], id)
  {
  }

  /** ScanBusCallbackRegisterPciDevice */
  method ScanCallback(cfg: Config, units: seq<VtdUnit>, v: nat, id: SourceId, ghost views: seq<Unit>)
    returns (status: Status)
    requires v < |units| && Represents(units, views)
    modifies units[v], units[v].data
    ensures units[v].data == old(units[v].data) || fresh(units[v].data)
    ensures Represents(units, views[v := Register(cfg, views[..v], views[v], id, ScanType(cfg, views[v].segment, id))])
    ensures status == Success
  {
    var deviceType := PCI_ENDPOINT;
    if cfg(units[v].segment, id, BASE_CLASS) == 6 {
      if cfg(units[v].segment, id, SUB_CLASS) == 4 {
        deviceType := PCI_BRIDGE;
      }
    }
    status := RegisterPciDevice(cfg, units, v, id, deviceType, false, views);
  }

  /** The body of ScanPciBus for one present function: the callback, then the bus behind a bridge. */
  method ScanFunction(cfg: Config, units: seq<VtdUnit>, v: nat, id: SourceId, ghost views: seq<Unit>)
    returns (status: Status)
    requires v < |units| && Represents(units, views) && Topology(cfg, views[v].segment)
    requires Probed(cfg, views[v].segment, id)
    modifies units[v], units[v].data
    ensures units[v].data == old(units[v].data) || fresh(units[v].data)
    ensures Represents(units, views[v := WithBelow(cfg, views[..v], views[v], id)])
    ensures status == Success
    decreases 256 - id.bus, 0
  {
    hide Represents, Register, ScanInto, Visit;
    SegmentOf(units, views, v);
    ghost var earlier, u := views[..v], views[v];
    status := ScanCallback(cfg, units, v, id, views);
    ghost var u1 := Register(cfg, earlier, u, id, ScanType(cfg, u.segment, id));
    ghost var now := views[v := u1];
    SegmentOf(units, now, v);
    SameEarlier(views, now, v);
    if IsBridge(cfg, units[v].segment, id) {
      var secondary := Secondary(cfg, units[v].segment, id);
      if secondary != 0 {
        status := ScanPciBus(cfg, units, v, secondary, now);
        assert now[v := WithBelow(cfg, earlier, u, id)] == views[v := WithBelow(cfg, earlier, u, id)];
        return;
      }
    }
    NothingBelow(cfg, earlier, u1);
  }

  ghost function Below(cfg: Config, seg: nat, id: SourceId): seq<SourceId>
    requires Topology(cfg, seg)
  {
    if Descends(cfg, seg, id) then Visit(cfg, seg, Secondary(cfg, seg, id), 0, 0) else []
  }

  ghost function WithBelow(cfg: Config, earlier: seq<Unit>, u: Unit, id: SourceId): (u': Unit)
    requires Topology(cfg, u.segment)
    ensures u' == u.(devices := u'.devices)
  {
    ScanInto(cfg, earlier, Register(cfg, earlier, u, id, ScanType(cfg, u.segment, id)), Below(cfg, u.segment, id))
  }

  method ScanPciBus(cfg: Config, units: seq<VtdUnit>, v: nat, bus: Byte, ghost views: seq<Unit>)
    returns (status: Status)
    requires v < |units| && Represents(units, views) && Topology(cfg, views[v].segment)
    modifies units[v], units[v].data
    ensures units[v].data == old(units[v].data) || fresh(units[v].data)
    ensures Represents(units, views[v := ScanInto(cfg, views[..v], views[v], Visit(cfg, views[v].segment, bus, 0, 0))])
    ensures status == Success
    decreases 256 - bus, 1
  {
    hide Represents, WithBelow, ScanInto;
    SegmentOf(units, views, v);
    ghost var earlier, seg := views[..v], views[v].segment;
    ghost var goal := ScanInto(cfg, earlier, views[v], Visit(cfg, seg, bus, 0, 0));
    ghost var u := views[v];
    assert views[v := u] == views;
    var device := 0;
    while device < 32
      invariant 0 <= device <= 32
      invariant units[v].data == old(units[v].data) || fresh(units[v].data)
      invariant u.segment == seg && units[v].segment == seg && Represents(units, views[v := u])
      invariant ScanInto(cfg, earlier, u, Visit(cfg, seg, bus, device, 0)) == goal
    {
      var maxFunction := MaxFunction(cfg, units[v].segment, bus, device);
      var fn := 0;
      while fn < maxFunction
        invariant 0 <= fn <= maxFunction
        invariant units[v].data == old(units[v].data) || fresh(units[v].data)
        invariant u.segment == seg && units[v].segment == seg && Represents(units, views[v := u])
        invariant ScanInto(cfg, earlier, u, Visit(cfg, seg, bus, device, fn)) == goal
      {
        var id := SourceId(bus, device, fn);
        if Present(cfg, units[v].segment, id) {
          VisitStep(cfg, earlier, u, bus, device, fn);
          SameEarlier(views, views[v := u], v);
          status := ScanFunction(cfg, units, v, id, views[v := u]);
          ghost var u' := WithBelow(cfg, earlier, u, id);
          assert views[v := u][v := u'] == views[v := u'];
          u := u';
          SegmentOf(units, views[v := u], v);
        }
        fn := fn + 1;
      }
      device := device + 1;
    }
    NothingBelow(cfg, earlier, u);
    status := Success;
  }

  lemma SegmentOf(units: seq<VtdUnit>, views: seq<Unit>, v: nat)
    requires v < |units| && Represents(units, views)
    ensures |units| == |views| && units[v].segment == views[v].segment && units[v].Valid()
  {
  }

  lemma SameEarlier(views: seq<Unit>, now: seq<Unit>, v: nat)
    requires v < |views| == |now| && now == views[v := now[v]]
    ensures now[..v] == views[..v]
  {
  }

  lemma VisitStep(cfg: Config, earlier: seq<Unit>, u: Unit, bus: Byte, device: Device, fn: Function)
    requires Topology(cfg, u.segment) && fn < MaxFunction(cfg, u.segment, bus, device)
    requires Present(cfg, u.segment, SourceId(bus, device, fn))
    ensures
      ScanInto(cfg, earlier, u, Visit(cfg, u.segment, bus, device, fn)) ==
      ScanInto(cfg, earlier, WithBelow(cfg, earlier, u, SourceId(bus, device, fn)),
               Visit(cfg, u.segment, bus, device, fn + 1))
  {
    hide Register;
    var id := SourceId(bus, device, fn);
    var below, rest := Below(cfg, u.segment, id), Visit(cfg, u.segment, bus, device, fn + 1);
    assert Visit(cfg, u.segment, bus, device, fn) == [id] + below + rest;
    ScanAppend(cfg, earlier, u, [id] + below, rest);
    assert ([id] + below)[1..] == below;
  }

  lemma NothingBelow(cfg: Config, earlier: seq<Unit>, u: Unit)
    ensures ScanInto(cfg, earlier, u, []) == u
  {
  }

  /* ---------- the DMAR table (Intel VT-d specification, sections 8.1 to 8.3.1) ---------- */

  const DMAR_HEADER_SIZE := 48
  const DRHD_SIZE := 16
  const SCOPE_HEADER_SIZE := 6
  const TYPE_DRHD := 0

  /** Device scope entries of positive, even length laid end to end up to end, each with a path element. */
  predicate WellFormedScopes(table: seq<Byte>, off: nat, end: nat)
    requires end <= |table|
    decreases end - off
  {
    off == end ||
    (off + 8 <= end && 8 <= table[off + 1] && table[off + 1] % 2 == 0 && off + table[off + 1] <= end &&
     WellFormedScopes(table, off + table[off + 1], end))
  }

  function StructureType(table: seq<Byte>, off: nat): nat
    requires off + 4 <= |table|
  {
    Word(table[off], table[off + 1])
  }

  function StructureLength(table: seq<Byte>, off: nat): nat
    requires off + 4 <= |table|
  {
    Word(table[off + 2], table[off + 3])
  }

  /** Remapping structures of positive length laid end to end up to the end of the table. */
  predicate WellFormedTable(table: seq<Byte>, off: nat)
    decreases |table| - off
  {
    off == |table| ||
    (off + 4 <= |table| && 4 <= StructureLength(table, off) && off + StructureLength(table, off) <= |table| &&
     (StructureType(table, off) == TYPE_DRHD ==>
        DRHD_SIZE <= StructureLength(table, off) &&
        WellFormedScopes(table, off + DRHD_SIZE, off + StructureLength(table, off))) &&
     WellFormedTable(table, off + StructureLength(table, off)))
  }

  function ScopePath(table: seq<Byte>, p: nat, end: nat): (path: seq<(Byte, Byte)>)
    requires p <= end <= |table| && (end - p) % 2 == 0
    ensures 2 * |path| == end - p
    decreases end - p
  {
    if p == end then [] else [(table[p], table[p + 1])] + ScopePath(table, p + 2, end)
  }

  ghost function ScopeAt(cfg: Config, seg: nat, table: seq<Byte>, off: nat, end: nat): Scope
    requires off < end <= |table| && WellFormedScopes(table, off, end)
  {
    var kind := table[off];
    Scope(kind,
      if kind == PCI_ENDPOINT || kind == PCI_BRIDGE
      then FollowPath(cfg, seg, table[off + 5], ScopePath(table, off + SCOPE_HEADER_SIZE, off + table[off + 1]))
      else MakeSourceId(table[off + 5], table[off + 6], table[off + 7]))
  }

  ghost function ScopesAt(cfg: Config, seg: nat, table: seq<Byte>, off: nat, end: nat): seq<Scope>
    requires off <= end <= |table| && WellFormedScopes(table, off, end)
    decreases end - off
  {
    if off == end then []
    else [ScopeAt(cfg, seg, table, off, end)] + ScopesAt(cfg, seg, table, off + table[off + 1], end)
  }

  predicate IsDrhd(table: seq<Byte>, off: nat) {
    off + 4 <= |table| && StructureType(table, off) == TYPE_DRHD && DRHD_SIZE <= StructureLength(table, off) &&
    off + StructureLength(table, off) <= |table| &&
    WellFormedScopes(table, off + DRHD_SIZE, off + StructureLength(table, off))
  }

  ghost function DrhdAt(cfg: Config, table: seq<Byte>, off: nat): Drhd
    requires IsDrhd(table, off)
  {
    var seg := Word(table[off + 6], table[off + 7]);
    Drhd(Field64(table, off + 8), seg, table[off + 4] % 2 == 1,
         ScopesAt(cfg, seg, table, off + DRHD_SIZE, off + StructureLength(table, off)))
  }

  /** Where the DRHD structures are, from off on. */
  function DrhdOffsets(table: seq<Byte>, off: nat): (offs: seq<nat>)
    requires off <= |table| && WellFormedTable(table, off)
    ensures forall o <- offs :: IsDrhd(table, o)
    decreases |table| - off
  {
    if off == |table| then []
    else (if StructureType(table, off) == TYPE_DRHD then [off] else [])
         + DrhdOffsets(table, off + StructureLength(table, off))
  }

  method GetVtdEngineNumber(table: seq<Byte>) returns (vtdIndex: nat)
    requires DMAR_HEADER_SIZE <= |table| && WellFormedTable(table, DMAR_HEADER_SIZE)
    ensures vtdIndex == |DrhdOffsets(table, DMAR_HEADER_SIZE)|
  {
    vtdIndex := 0;
    var off := DMAR_HEADER_SIZE;
    while off < |table|
      invariant off <= |table| && WellFormedTable(table, off)
      invariant vtdIndex + |DrhdOffsets(table, off)| == |DrhdOffsets(table, DMAR_HEADER_SIZE)|
      decreases |table| - off
    {
      if StructureType(table, off) == TYPE_DRHD {
        vtdIndex := vtdIndex + 1;
      }
      off := off + StructureLength(table, off);
    }
  }

  /** GetPciBusDeviceFunction: the register reads mask the device and function numbers like SourceId does. */
  method GetPciBusDeviceFunction(cfg: Config, seg: nat, table: seq<Byte>, off: nat, ghost end: nat)
    returns (bus: Byte, device: Byte, fn: Byte)
    requires off < end <= |table| && WellFormedScopes(table, off, end)
    ensures MakeSourceId(bus, device, fn) == ScopeAt(cfg, seg, table, off, end).id
  {
    var path := off + SCOPE_HEADER_SIZE;
    var last := off + table[off + 1];
    bus, device, fn := table[off + 5], table[path], table[path + 1];
    if table[off] == PCI_ENDPOINT || table[off] == PCI_BRIDGE {
      while path + 2 < last
        invariant off + SCOPE_HEADER_SIZE <= path && path + 2 <= last && (last - path) % 2 == 0
        invariant device == table[path] && fn == table[path + 1]
        invariant FollowPath(cfg, seg, bus, ScopePath(table, path, last))
               == FollowPath(cfg, seg, table[off + 5], ScopePath(table, off + SCOPE_HEADER_SIZE, last))
        decreases last - path
      {
        bus := Secondary(cfg, seg, MakeSourceId(bus, device, fn));
        path := path + 2;
        device, fn := table[path], table[path + 1];
      }
    }
  }

  /** The device scope loop of ProcessDhrd. */
  method ProcessDrhdScopes(cfg: Config, units: seq<VtdUnit>, v: nat, table: seq<Byte>, off: nat, end: nat,
                           ghost views: seq<Unit>)
    returns (status: Status)
    requires v < |units| && Represents(units, views) && Topology(cfg, views[v].segment)
    requires off <= end <= |table| && WellFormedScopes(table, off, end)
    modifies units[v], units[v].data
    ensures units[v].data == old(units[v].data) || fresh(units[v].data)
    ensures
      var (u, ok) := ProcessScopes(cfg, views[..v], views[v], ScopesAt(cfg, views[v].segment, table, off, end));
      Represents(units, views[v := u]) && status == if ok then Success else AlreadyStarted
  {
    hide Represents, Register, ScanInto, Visit, Excluded, Holds, ScopeAt;
    SegmentOf(units, views, v);
    ghost var earlier, seg, u := views[..v], views[v].segment, views[v];
    ghost var goal := ProcessScopes(cfg, earlier, u, ScopesAt(cfg, seg, table, off, end));
    assert views[v := u] == views;
    var p := off;
    while p < end
      invariant off <= p <= end && WellFormedScopes(table, p, end)
      invariant units[v].data == old(units[v].data) || fresh(units[v].data)
      invariant u.segment == seg && units[v].segment == seg && Represents(units, views[v := u])
      invariant ProcessScopes(cfg, earlier, u, ScopesAt(cfg, seg, table, p, end)) == goal
      decreases end - p
    {
      ghost var s := ScopeAt(cfg, seg, table, p, end);
      ScopesStep(cfg, earlier, u, table, p, end);
      SameEarlier(views, views[v := u], v);
      var bus, device, fn := GetPciBusDeviceFunction(cfg, units[v].segment, table, p, end);
      var id, kind := MakeSourceId(bus, device, fn), table[p];
      KindOf(cfg, seg, table, p, end);
      status := RegisterPciDevice(cfg, units, v, id, kind, true, views[v := u]);
      ghost var u' := Register(cfg, earlier, u, id, kind);
      assert views[v := u][v := u'] == views[v := u'];
      if status != Success && (kind == PCI_ENDPOINT || kind == PCI_BRIDGE) {
        DuplicateUnchanged(cfg, earlier, u, s);
        return;
      }
      SegmentOf(units, views[v := u'], v);
      if kind == PCI_BRIDGE {
        var secondary := Secondary(cfg, units[v].segment, id);
        SameEarlier(views, views[v := u'], v);
        status := ScanPciBus(cfg, units, v, secondary, views[v := u']);
        ghost var u2 := ScanInto(cfg, earlier, u', Visit(cfg, seg, secondary, 0, 0));
        assert views[v := u'][v := u2] == views[v := u2];
        u' := u2;
        SegmentOf(units, views[v := u'], v);
      }
      u := u';
      p := p + table[p + 1];
    }
    status := Success;
  }

  lemma KindOf(cfg: Config, seg: nat, table: seq<Byte>, p: nat, end: nat)
    requires p < end <= |table| && WellFormedScopes(table, p, end)
    ensures ScopeAt(cfg, seg, table, p, end).kind == table[p]
  {
  }

  lemma ScopesStep(cfg: Config, earlier: seq<Unit>, u: Unit, table: seq<Byte>, p: nat, end: nat)
    requires Topology(cfg, u.segment) && p < end <= |table| && WellFormedScopes(table, p, end)
    ensures
      var s := ScopeAt(cfg, u.segment, table, p, end);
      ProcessScopes(cfg, earlier, u, ScopesAt(cfg, u.segment, table, p, end)) ==
        if Duplicate(earlier, u, s) then (u, false)
        else ProcessScopes(cfg, earlier, AfterScope(cfg, earlier, u, s),
                           ScopesAt(cfg, u.segment, table, p + table[p + 1], end))
  {
    hide ScopeAt, Duplicate, AfterScope;
    var s, rest := ScopeAt(cfg, u.segment, table, p, end), ScopesAt(cfg, u.segment, table, p + table[p + 1], end);
    assert ([s] + rest)[0] == s && ([s] + rest)[1..] == rest;
  }

  lemma DuplicateUnchanged(cfg: Config, earlier: seq<Unit>, u: Unit, s: Scope)
    requires Duplicate(earlier, u, s)
    ensures Register(cfg, earlier, u, s.id, s.kind) == u
  {
  }

  /** The unit takes over the register base, segment and flag of its structure. */
  method InitUnit(cfg: Config, units: seq<VtdUnit>, v: nat, table: seq<Byte>, off: nat, ghost views: seq<Unit>)
    requires v < |units| && Represents(units, views) && views[v].devices == [] && IsDrhd(table, off)
    modifies units[v]
    ensures units[v].data == old(units[v].data) && |views| == |units|
    ensures
      var d := DrhdAt(cfg, table, off);
      Represents(units, views[v := Unit(d.baseAddress, d.segment, d.includeAll, [])])
    ensures units[v].includeAll == DrhdAt(cfg, table, off).includeAll
  {
    hide ScopesAt, Field64;
    units[v].baseAddress := Field64(table, off + 8);
    units[v].segment := Word(table[off + 6], table[off + 7]);
    units[v].includeAll := table[off + 4] % 2 == 1;
  }

  /** ProcessDhrd on a unit no one has touched yet. */
  method ProcessDhrd(cfg: Config, units: seq<VtdUnit>, v: nat, table: seq<Byte>, off: nat, ghost views: seq<Unit>)
    returns (status: Status)
    requires v < |units| && Represents(units, views) && views[v].devices == []
    requires IsDrhd(table, off) && forall seg :: Topology(cfg, seg)
    modifies units[v], units[v].data
    ensures units[v].data == old(units[v].data) || fresh(units[v].data)
    ensures
      var (u, ok) := ProcessDrhd(cfg, views[..v], DrhdAt(cfg, table, off));
      Represents(units, views[v := u]) && status == if ok then Success else AlreadyStarted
  {
    hide ScanInto, Visit, ProcessScopes, ScopesAt, Topology, Field64, Represents;
    ghost var d := DrhdAt(cfg, table, off);
    InitUnit(cfg, units, v, table, off, views);
    ghost var u := Unit(d.baseAddress, d.segment, d.includeAll, []);
    SegmentOf(units, views[v := u], v);
    ghost var now := views[v := u];
    SameEarlier(views, now, v);
    if units[v].includeAll {
      status := ScanPciBus(cfg, units, v, 0, now);
      u := ScanInto(cfg, views[..v], u, Visit(cfg, d.segment, 0, 0, 0));
      assert now[v := u] == views[v := u];
      now := views[v := u];
      SameEarlier(views, now, v);
      SegmentOf(units, now, v);
      if status != Success {
        return;
      }
    }
    status := ProcessDrhdScopes(cfg, units, v, table, off + DRHD_SIZE, off + StructureLength(table, off), now);
    ghost var w := ProcessScopes(cfg, views[..v], u, d.scopes).0;
    assert now[v := w] == views[v := w];
  }

  /** views are the results of processing the structures at offs one after the other,
      every one but possibly the last successfully. */
  ghost predicate Processed(cfg: Config, table: seq<Byte>, offs: seq<nat>, views: seq<Unit>)
    requires (forall o <- offs :: IsDrhd(table, o)) && forall seg :: Topology(cfg, seg)
  {
    |views| <= |offs| &&
    (forall i :: 0 <= i < |views| ==>
      views[i] == ProcessDrhd(cfg, views[..i], DrhdAt(cfg, table, offs[i])).0) &&
    (forall i :: 0 <= i < |views| - 1 ==> ProcessDrhd(cfg, views[..i], DrhdAt(cfg, table, offs[i])).1)
  }

  /** The allocation of one zeroed unit per DRHD structure. */
  method AllocateUnits(n: nat) returns (units: seq<VtdUnit>, ghost views: seq<Unit>)
    ensures |units| == n && Represents(units, views)
    ensures fresh(units) && forall i :: 0 <= i < n ==> fresh(units[i].data) && views[i] == ZERO_UNIT
  {
    units, views := [], [];
    var i := 0;
    while i < n
      invariant |units| == i <= n && Represents(units, views) && fresh(units)
      invariant forall k :: 0 <= k < i ==> fresh(units[k].data) && views[k] == ZERO_UNIT
    {
      var unit := new VtdUnit();
      units, views := units + [unit], views + [ZERO_UNIT];
      i := i + 1;
    }
  }

  lemma {:induction false} ProcessedInvariant(cfg: Config, table: seq<Byte>, offs: seq<nat>, views: seq<Unit>)
    requires (forall o <- offs :: IsDrhd(table, o)) && forall seg :: Topology(cfg, seg)
    requires Processed(cfg, table, offs, views)
    ensures RunInvariant(views)
  {
    hide ProcessDrhd, DrhdAt, Topology, IsDrhd;
    if views != [] {
      var n := |views| - 1;
      var init := views[..n];
      forall i | 0 <= i < n
        ensures init[..i] == views[..i]
      {
      }
      ProcessedInvariant(cfg, table, offs, init);
      RunStep(cfg, init, DrhdAt(cfg, table, offs[n]));
      assert views == init + [ProcessDrhd(cfg, init, DrhdAt(cfg, table, offs[n])).0];
    }
  }

  /** Unprocessed, still zero units do not disturb the invariant. */
  lemma PaddedInvariant(views: seq<Unit>, n: nat)
    requires n <= |views| && RunInvariant(views[..n])
    requires forall i :: n <= i < |views| ==> views[i].devices == []
    ensures RunInvariant(views)
  {
    hide Distinct;
    EmptyDistinct();
    forall i | 0 <= i < n
      ensures Distinct(views[i].devices)
    {
      assert views[..n][i] == views[i];
    }
    forall i, j, id | 0 <= j < i < |views| && views[i].includeAll && Owns(views[i], views[i].segment, id)
      ensures !Owns(views[j], views[i].segment, id)
    {
      if i < n {
        assert views[..n][i] == views[i] && views[..n][j] == views[j];
      }
    }
  }

  lemma EmptyDistinct()
    ensures Distinct([])
  {
  }

  /** The state of the processing walk: n structures done, the first n - 1 of them (all n if ok) successfully. */
  ghost predicate Stage(cfg: Config, table: seq<Byte>, offs: seq<nat>, views: seq<Unit>, n: nat, ok: bool)
    requires (forall o <- offs :: IsDrhd(table, o)) && forall seg :: Topology(cfg, seg)
  {
    && n <= |offs| == |views|
    && (forall k :: n <= k < |views| ==> views[k] == ZERO_UNIT)
    && Processed(cfg, table, offs, views[..n])
    && (ok && n > 0 ==> ProcessDrhd(cfg, views[..n - 1], DrhdAt(cfg, table, offs[n - 1])).1)
  }

  lemma StageStart(cfg: Config, table: seq<Byte>, offs: seq<nat>, views: seq<Unit>)
    requires (forall o <- offs :: IsDrhd(table, o)) && forall seg :: Topology(cfg, seg)
    requires |views| == |offs| && forall k :: 0 <= k < |views| ==> views[k] == ZERO_UNIT
    ensures Stage(cfg, table, offs, views, 0, true)
  {
  }

  lemma ProcessedStep(cfg: Config, table: seq<Byte>, offs: seq<nat>, views: seq<Unit>)
    requires (forall o <- offs :: IsDrhd(table, o)) && forall seg :: Topology(cfg, seg)
    requires Processed(cfg, table, offs, views) && |views| < |offs|
    requires |views| > 0 ==>
      ProcessDrhd(cfg, views[..|views| - 1], DrhdAt(cfg, table, offs[|views| - 1])).1
    ensures Processed(cfg, table, offs, views + [ProcessDrhd(cfg, views, DrhdAt(cfg, table, offs[|views|])).0])
  {
    hide ProcessDrhd, DrhdAt, Topology, IsDrhd;
    var now := views + [ProcessDrhd(cfg, views, DrhdAt(cfg, table, offs[|views|])).0];
    forall i | 0 <= i <= |views|
      ensures now[..i] == views[..i]
    {
    }
    assert views[..|views|] == views;
  }

  lemma StageStep(cfg: Config, table: seq<Byte>, offs: seq<nat>, views: seq<Unit>, n: nat)
    requires (forall o <- offs :: IsDrhd(table, o)) && forall seg :: Topology(cfg, seg)
    requires Stage(cfg, table, offs, views, n, true) && n < |offs|
    ensures views[n].devices == []
    ensures
      var (u, ok) := ProcessDrhd(cfg, views[..n], DrhdAt(cfg, table, offs[n]));
      Stage(cfg, table, offs, views[n := u], n + 1, ok)
  {
    hide ProcessDrhd, DrhdAt, Topology, IsDrhd, Processed;
    var u := ProcessDrhd(cfg, views[..n], DrhdAt(cfg, table, offs[n])).0;
    if n > 0 {
      assert views[..n][..n - 1] == views[..n - 1];
    }
    ProcessedStep(cfg, table, offs, views[..n]);
    assert views[n := u][..n + 1] == views[..n] + [u];
    assert views[n := u][..n] == views[..n];
  }

  lemma StageInvariant(cfg: Config, table: seq<Byte>, offs: seq<nat>, views: seq<Unit>, n: nat, ok: bool)
    requires (forall o <- offs :: IsDrhd(table, o)) && forall seg :: Topology(cfg, seg)
    requires Stage(cfg, table, offs, views, n, ok)
    ensures RunInvariant(views)
  {
    hide ProcessDrhd, DrhdAt, Topology, IsDrhd;
    ProcessedInvariant(cfg, table, offs, views[..n]);
    PaddedInvariant(views, n);
  }

  /** views[i] has the register base, segment and flag of its structure and holds, rightly described, exactly the
      devices the first k scope entries entitle it to, given the units before it. */
  ghost predicate OwnsFirst(cfg: Config, table: seq<Byte>, offs: seq<nat>, views: seq<Unit>, i: nat, k: nat)
    requires i < |views| == |offs| && IsDrhd(table, offs[i])
  {
    var d := DrhdAt(cfg, table, offs[i]);
    && k <= |d.scopes|
    && views[i].baseAddress == d.baseAddress && views[i].segment == d.segment && views[i].includeAll == d.includeAll
    && Described(cfg, d.segment, d.scopes, views[i].devices)
    && forall id :: Holds(views[i].devices, id) <==> Entitled(cfg, views[..i], d, k, id)
  }

  /** views[i] holds exactly the devices its structure entitles it to, given the units before it. */
  ghost predicate OwnsExactly(cfg: Config, table: seq<Byte>, offs: seq<nat>, views: seq<Unit>, i: nat)
    requires i < |views| == |offs| && IsDrhd(table, offs[i])
  {
    OwnsFirst(cfg, table, offs, views, i, |DrhdAt(cfg, table, offs[i]).scopes|)
  }

  /** Scope entry k of structure i is the first to repeat a device, given the units before it. */
  ghost predicate FirstRepeat(cfg: Config, table: seq<Byte>, offs: seq<nat>, views: seq<Unit>, i: nat, k: nat)
    requires i < |views| == |offs| && IsDrhd(table, offs[i])
  {
    var d := DrhdAt(cfg, table, offs[i]);
    && k < |d.scopes| && Repeats(cfg, views[..i], d, k)
    && forall j :: 0 <= j < k ==> !Repeats(cfg, views[..i], d, j)
  }

  /** Structure i has no scope entry that repeats a device, given the units before it. */
  ghost predicate NoRepeat(cfg: Config, table: seq<Byte>, offs: seq<nat>, views: seq<Unit>, i: nat)
    requires i < |views| == |offs| && IsDrhd(table, offs[i])
  {
    var d := DrhdAt(cfg, table, offs[i]);
    forall j :: 0 <= j < |d.scopes| ==> !Repeats(cfg, views[..i], d, j)
  }

  /** The first n units own what their structures entitle them to, without a repeat among their entries. */
  ghost predicate OwnBefore(cfg: Config, table: seq<Byte>, offs: seq<nat>, views: seq<Unit>, n: nat) {
    n <= |views| == |offs| &&
    forall i :: 0 <= i < n ==>
      IsDrhd(table, offs[i]) && OwnsExactly(cfg, table, offs, views, i) && NoRepeat(cfg, table, offs, views, i)
  }

  /** Unit n was given up at the first repeating entry of its structure, and the units behind it were never filled. */
  ghost predicate GaveUpAt(cfg: Config, table: seq<Byte>, offs: seq<nat>, views: seq<Unit>, n: nat) {
    n < |views| == |offs| && IsDrhd(table, offs[n]) &&
    (exists k :: FirstRepeat(cfg, table, offs, views, n, k) && OwnsFirst(cfg, table, offs, views, n, k)) &&
    forall i :: n < i < |views| ==> views[i] == ZERO_UNIT
  }

  /** What a unit is after ProcessDrhd: complete, or given up at its first repeating entry. */
  lemma UnitOwns(cfg: Config, table: seq<Byte>, offs: seq<nat>, views: seq<Unit>, i: nat)
    requires i < |views| == |offs| && IsDrhd(table, offs[i]) && forall seg :: Topology(cfg, seg)
    requires views[i] == ProcessDrhd(cfg, views[..i], DrhdAt(cfg, table, offs[i])).0
    ensures
      if ProcessDrhd(cfg, views[..i], DrhdAt(cfg, table, offs[i])).1
      then OwnsExactly(cfg, table, offs, views, i) && NoRepeat(cfg, table, offs, views, i)
      else exists k :: FirstRepeat(cfg, table, offs, views, i, k) && OwnsFirst(cfg, table, offs, views, i, k)
  {
    hide ProcessDrhd, DrhdAt, Topology, IsDrhd, Entitled, Holds, Repeats, Described;
    var k := DrhdOwns(cfg, views[..i], DrhdAt(cfg, table, offs[i]));
    DrhdDescribes(cfg, views[..i], DrhdAt(cfg, table, offs[i]));
    assert OwnsFirst(cfg, table, offs, views, i, k);
  }

  lemma StageOwns(cfg: Config, table: seq<Byte>, offs: seq<nat>, views: seq<Unit>, n: nat, ok: bool, i: nat)
    requires (forall o <- offs :: IsDrhd(table, o)) && forall seg :: Topology(cfg, seg)
    requires Stage(cfg, table, offs, views, n, ok) && i < n
    ensures IsDrhd(table, offs[i]) && views[i] == ProcessDrhd(cfg, views[..i], DrhdAt(cfg, table, offs[i])).0
    ensures i < n - 1 || ok ==> ProcessDrhd(cfg, views[..i], DrhdAt(cfg, table, offs[i])).1
  {
    hide ProcessDrhd, DrhdAt, Topology, IsDrhd;
    assert offs[i] in offs;
    assert views[..n][..i] == views[..i] && views[..n][i] == views[i];
  }

  /** After n structures, all successful: the first n units are complete. */
  lemma StageDone(cfg: Config, table: seq<Byte>, offs: seq<nat>, views: seq<Unit>, n: nat)
    requires (forall o <- offs :: IsDrhd(table, o)) && forall seg :: Topology(cfg, seg)
    requires Stage(cfg, table, offs, views, n, true)
    ensures OwnBefore(cfg, table, offs, views, n)
  {
    forall i | 0 <= i < n
      ensures IsDrhd(table, offs[i]) && OwnsExactly(cfg, table, offs, views, i) && NoRepeat(cfg, table, offs, views, i)
    {
      hide ProcessDrhd, DrhdAt, Topology, IsDrhd, Stage, OwnsExactly, NoRepeat, FirstRepeat, OwnsFirst;
      StageOwns(cfg, table, offs, views, n, true, i);
      UnitOwns(cfg, table, offs, views, i);
    }
  }

  /** After n + 1 structures, the last one failed: the first n units are complete and unit n was given up. */
  lemma StageFailed(cfg: Config, table: seq<Byte>, offs: seq<nat>, views: seq<Unit>, n: nat)
    requires (forall o <- offs :: IsDrhd(table, o)) && forall seg :: Topology(cfg, seg)
    requires Stage(cfg, table, offs, views, n + 1, false) && n < |offs| && IsDrhd(table, offs[n])
    requires !ProcessDrhd(cfg, views[..n], DrhdAt(cfg, table, offs[n])).1
    ensures OwnBefore(cfg, table, offs, views, n) && GaveUpAt(cfg, table, offs, views, n)
  {
    hide ProcessDrhd, DrhdAt, Topology, IsDrhd, OwnsExactly, NoRepeat, FirstRepeat, OwnsFirst, Processed;
    forall i | 0 <= i < n
      ensures IsDrhd(table, offs[i]) && OwnsExactly(cfg, table, offs, views, i) && NoRepeat(cfg, table, offs, views, i)
    {
      StageOwns(cfg, table, offs, views, n + 1, false, i);
      UnitOwns(cfg, table, offs, views, i);
    }
    StageOwns(cfg, table, offs, views, n + 1, false, n);
    UnitOwns(cfg, table, offs, views, n);
  }

  /** A unit given up has a repeating entry. */
  lemma GaveUpRepeats(cfg: Config, table: seq<Byte>, offs: seq<nat>, views: seq<Unit>, n: nat)
    requires GaveUpAt(cfg, table, offs, views, n)
    ensures !NoRepeat(cfg, table, offs, views, n)
  {
    hide Repeats, DrhdAt, IsDrhd, OwnsFirst;
  }

  lemma TableStep(table: seq<Byte>, off: nat)
    requires off < |table| && WellFormedTable(table, off)
    ensures off + 4 <= |table| && off < off + StructureLength(table, off) <= |table|
    ensures WellFormedTable(table, off + StructureLength(table, off))
    ensures StructureType(table, off) == TYPE_DRHD ==> IsDrhd(table, off)
    ensures DrhdOffsets(table, off) ==
            (if StructureType(table, off) == TYPE_DRHD then [off] else [])
            + DrhdOffsets(table, off + StructureLength(table, off))
  {
    hide WellFormedScopes;
  }

  lemma OffsetsAt(offs: seq<nat>, k: nat, off: nat, rest: seq<nat>)
    requires k <= |offs| && offs[k..] == [off] + rest
    ensures k < |offs| && offs[k] == off && offs[k + 1..] == rest
  {
    assert offs[k..][0] == off && offs[k..][1..] == offs[k + 1..];
  }

  lemma NoMoreOffsets(table: seq<Byte>, off: nat)
    requires off == |table| && WellFormedTable(table, off)
    ensures DrhdOffsets(table, off) == []
  {
  }

  /** ParseDmarAcpiTableDrhd: count the DRHD structures, allocate that many units, process each structure into its
      unit. The unit index never runs past the count and ends equal to it, and the run invariant holds whether or not
      a structure failed. It succeeds if and only if there is a DRHD structure and no scope entry repeats a device.
      On success every unit is exactly what its structure entitles it to; otherwise the units before the first
      structure with a repeat are, that structure's unit is for the entries before the repeat, and no later unit is
      filled. */
  method ParseDmarAcpiTableDrhd(cfg: Config, table: seq<Byte>)
    returns (status: Status, units: seq<VtdUnit>, ghost views: seq<Unit>)
    requires DMAR_HEADER_SIZE <= |table| && WellFormedTable(table, DMAR_HEADER_SIZE)
    requires forall seg :: Topology(cfg, seg)
    ensures Represents(units, views) && RunInvariant(views)
    ensures |units| == |views| == |DrhdOffsets(table, DMAR_HEADER_SIZE)|
    ensures status == DeviceError <==> DrhdOffsets(table, DMAR_HEADER_SIZE) == []
    ensures
      var offs := DrhdOffsets(table, DMAR_HEADER_SIZE);
      && (status == Success <==> offs != [] && forall i :: 0 <= i < |offs| ==>
            IsDrhd(table, offs[i]) && NoRepeat(cfg, table, offs, views, i))
      && (status == Success ==> OwnBefore(cfg, table, offs, views, |offs|))
      && (status == AlreadyStarted ==>
            exists n :: OwnBefore(cfg, table, offs, views, n) && GaveUpAt(cfg, table, offs, views, n))
  {
    hide Topology, ProcessDrhd, DrhdAt, RunInvariant, Stage, Represents, WellFormedTable, OwnsExactly,
      DrhdOffsets, IsDrhd, StructureType, StructureLength, NoRepeat, FirstRepeat, OwnsFirst;
    ghost var offs := DrhdOffsets(table, DMAR_HEADER_SIZE);
    var vtdUnitNumber := GetVtdEngineNumber(table);
    units, views := AllocateUnits(vtdUnitNumber);
    StageStart(cfg, table, offs, views);
    if vtdUnitNumber == 0 {
      StageInvariant(cfg, table, offs, views, 0, true);
      return DeviceError, units, views;
    }
    var vtdIndex := 0;
    var off := DMAR_HEADER_SIZE;
    while off < |table|
      invariant off <= |table| && WellFormedTable(table, off)
      invariant |units| == |views| == |offs| == vtdUnitNumber && vtdIndex <= vtdUnitNumber
      invariant offs[vtdIndex..] == DrhdOffsets(table, off)
      invariant Represents(units, views) && fresh(units) && forall k :: 0 <= k < |units| ==> fresh(units[k].data)
      invariant Stage(cfg, table, offs, views, vtdIndex, true)
      decreases |table| - off
    {
      TableStep(table, off);
      ghost var rest := DrhdOffsets(table, off + StructureLength(table, off));
      if StructureType(table, off) == TYPE_DRHD {
        OffsetsAt(offs, vtdIndex, off, rest);
        assert vtdIndex < vtdUnitNumber;  // the first ASSERT of the source
        StageStep(cfg, table, offs, views, vtdIndex);
        ghost var (u, ok) := ProcessDrhd(cfg, views[..vtdIndex], DrhdAt(cfg, table, off));
        status := ProcessDhrd(cfg, units, vtdIndex, table, off, views);
        SameEarlier(views, views[vtdIndex := u], vtdIndex);
        views := views[vtdIndex := u];
        if status != Success {
          StageInvariant(cfg, table, offs, views, vtdIndex + 1, ok);
          StageFailed(cfg, table, offs, views, vtdIndex);
          GaveUpRepeats(cfg, table, offs, views, vtdIndex);
          return;
        }
        vtdIndex := vtdIndex + 1;
      } else {
        assert [] + rest == rest;
      }
      off := off + StructureLength(table, off);
    }
    NoMoreOffsets(table, off);
    assert vtdIndex == vtdUnitNumber;  // the second ASSERT of the source
    StageInvariant(cfg, table, offs, views, vtdIndex, true);
    StageDone(cfg, table, offs, views, vtdIndex);
    status := Success;
  }
}
