/** Which devices a DMA remapping unit owns (Intel VT-d specification, sections 8.3 and 8.3.1), as a function of
    PCI topology and of the units processed before it. The methods of VtdUnits.dfy compute this function. */
module VtdOwnership {
  import opened Bytes
  import opened PciTopology

  const PCI_ENDPOINT: Byte := 1
  const PCI_BRIDGE: Byte := 2

  datatype PciDeviceId = PciDeviceId(vendorId: nat, deviceId: nat, revisionId: nat, subsystemVendorId: nat,
                                     subsystemDeviceId: nat)

  datatype PciDevice = PciDevice(deviceType: Byte, sourceId: SourceId, pciId: PciDeviceId)

  const ZERO_DEVICE: PciDevice := PciDevice(0, SourceId(0, 0, 0), PciDeviceId(0, 0, 0, 0, 0))

  /** The identification registers recorded with a device, read only for endpoints and bridges. */
  function ReadPciId(cfg: Config, seg: nat, id: SourceId, deviceType: Byte): PciDeviceId {
    if deviceType == PCI_ENDPOINT || deviceType == PCI_BRIDGE then
      PciDeviceId(Read16(cfg, seg, id, VENDOR_ID), Read16(cfg, seg, id, DEVICE_ID), cfg(seg, id, REVISION_ID),
                  if deviceType == PCI_ENDPOINT then Read16(cfg, seg, id, SUBSYSTEM_VENDOR_ID) else 0,
                  if deviceType == PCI_ENDPOINT then Read16(cfg, seg, id, SUBSYSTEM_ID) else 0)
    else PciDeviceId(0, 0, 0, 0, 0)
  }

  /** The device type the scan callback derives from the class code. */
  function ScanType(cfg: Config, seg: nat, id: SourceId): Byte {
    if IsBridge(cfg, seg, id) then PCI_BRIDGE else PCI_ENDPOINT
  }

  /** A remapping unit: its segment, INCLUDE_PCI_ALL flag and registered devices. */
  datatype Unit = Unit(baseAddress: nat, segment: nat, includeAll: bool, devices: seq<PciDevice>)

  const ZERO_UNIT: Unit := Unit(0, 0, false, [])

  /** The search of GetPciDataIndex succeeds. */
  predicate Owns(u: Unit, seg: nat, id: SourceId) {
    u.segment == seg && Holds(u.devices, id)
  }

  predicate Holds(devices: seq<PciDevice>, id: SourceId) {
    exists d <- devices :: d.sourceId == id
  }

  predicate Distinct(devices: seq<PciDevice>) {
    forall i, j :: 0 <= i < j < |devices| ==> devices[i].sourceId != devices[j].sourceId
  }

  /** Some earlier unit of the segment already owns the device. */
  predicate Taken(earlier: seq<Unit>, seg: nat, id: SourceId) {
    exists u <- earlier :: Owns(u, seg, id)
  }

  /** Ownership is by segment and source id. */
  lemma TakenIff(earlier: seq<Unit>, seg: nat, id: SourceId)
    ensures Taken(earlier, seg, id) <==>
      exists i, j :: 0 <= i < |earlier| && 0 <= j < |earlier[i].devices|
                     && earlier[i].segment == seg && earlier[i].devices[j].sourceId == id
  {
    if Taken(earlier, seg, id) {
      var u :| u in earlier && Owns(u, seg, id);
      var i :| 0 <= i < |earlier| && earlier[i] == u;
      var j :| 0 <= j < |u.devices| && u.devices[j].sourceId == id;
      assert earlier[i].devices[j].sourceId == id;
    }
    forall i, j | 0 <= i < |earlier| && 0 <= j < |earlier[i].devices|
                  && earlier[i].segment == seg && earlier[i].devices[j].sourceId == id
      ensures Taken(earlier, seg, id)
    {
      assert earlier[i].devices[j] in earlier[i].devices;
      assert Owns(earlier[i], seg, id);
    }
  }

  /** The devices an INCLUDE_PCI_ALL unit must leave alone. */
  predicate Excluded(earlier: seq<Unit>, u: Unit, id: SourceId) {
    u.includeAll && Taken(earlier, u.segment, id)
  }

  /** RegisterPciDevice, for a unit of the device's own segment. */
  function Register(cfg: Config, earlier: seq<Unit>, u: Unit, id: SourceId, deviceType: Byte): (u': Unit)
    ensures u' == u.(devices := u'.devices)
    ensures forall x :: Holds(u'.devices, x) <==> Holds(u.devices, x) || (x == id && !Excluded(earlier, u, id))
    ensures Distinct(u.devices) ==> Distinct(u'.devices)
  {
    if Excluded(earlier, u, id) || Holds(u.devices, id) then u
    else
      var d := PciDevice(deviceType, id, ReadPciId(cfg, u.segment, id, deviceType));
      AppendHolds(u.devices, d);
      u.(devices := u.devices + [d])
  }

  lemma AppendHolds(devices: seq<PciDevice>, d: PciDevice)
    ensures forall x :: Holds(devices + [d], x) <==> Holds(devices, x) || x == d.sourceId
    ensures Distinct(devices) && !Holds(devices, d.sourceId) ==> Distinct(devices + [d])
  {
    forall x
      ensures Holds(devices + [d], x) <==> Holds(devices, x) || x == d.sourceId
    {
      if Holds(devices, x) {
        var e :| e in devices && e.sourceId == x;
        assert e in devices + [d];
      }
      assert d in devices + [d];
    }
  }

  /** The bus-scan callback applied to a list of functions in order. */
  function ScanInto(cfg: Config, earlier: seq<Unit>, u: Unit, ids: seq<SourceId>): (u': Unit)
    ensures u' == u.(devices := u'.devices)
    decreases |ids|
  {
    if ids == [] then u
    else ScanInto(cfg, earlier, Register(cfg, earlier, u, ids[0], ScanType(cfg, u.segment, ids[0])), ids[1..])
  }

  lemma {:induction false} ScanAppend(cfg: Config, earlier: seq<Unit>, u: Unit, a: seq<SourceId>, b: seq<SourceId>)
    ensures ScanInto(cfg, earlier, u, a + b) == ScanInto(cfg, earlier, ScanInto(cfg, earlier, u, a), b)
    decreases |a|
  {
    hide Register;
    if a == [] {
      assert a + b == b;
    } else {
      assert (a + b)[0] == a[0] && (a + b)[1..] == a[1..] + b;
      ScanAppend(cfg, earlier, Register(cfg, earlier, u, a[0], ScanType(cfg, u.segment, a[0])), a[1..], b);
    }
  }

  lemma {:induction false} ScanOwns(cfg: Config, earlier: seq<Unit>, u: Unit, ids: seq<SourceId>)
    ensures
      var u' := ScanInto(cfg, earlier, u, ids);
      && u' == u.(devices := u'.devices)
      && (forall x :: Holds(u'.devices, x) <==> Holds(u.devices, x) || (x in ids && !Excluded(earlier, u, x)))
      && (Distinct(u.devices) ==> Distinct(u'.devices))
    decreases |ids|
  {
    hide Holds, Distinct, Excluded;
    if ids != [] {
      var v := Register(cfg, earlier, u, ids[0], ScanType(cfg, u.segment, ids[0]));
      ScanOwns(cfg, earlier, v, ids[1..]);
      forall x
        ensures Excluded(earlier, v, x) == Excluded(earlier, u, x)
      {
        SameExclusion(earlier, u, v, x);
      }
    }
  }

  lemma SameExclusion(earlier: seq<Unit>, u: Unit, v: Unit, x: SourceId)
    requires v == u.(devices := v.devices)
    ensures Excluded(earlier, v, x) == Excluded(earlier, u, x)
  {
  }

  /** A device scope entry: its type and the source id its path resolves to. */
  datatype Scope = Scope(kind: Byte, id: SourceId)

  /** The source id a device scope entry stands for: for endpoints and bridges the path is followed
      through the secondary bus of each function on it; other entries use their first path element. */
  ghost function FollowPath(cfg: Config, seg: nat, bus: Byte, path: seq<(Byte, Byte)>): SourceId
    requires path != []
    decreases |path|
  {
    var here := MakeSourceId(bus, path[0].0, path[0].1);
    if |path| == 1 then here else FollowPath(cfg, seg, Secondary(cfg, seg, here), path[1..])
  }

  /** The scope loop of ProcessDhrd. It fails on the first endpoint or bridge the unit already holds. */
  ghost function ProcessScopes(cfg: Config, earlier: seq<Unit>, u: Unit, scopes: seq<Scope>): (Unit, bool)
    requires Topology(cfg, u.segment)
    decreases |scopes|
  {
    if scopes == [] then (u, true)
    else
      var s := scopes[0];
      if Duplicate(earlier, u, s) then (u, false)
      else ProcessScopes(cfg, earlier, AfterScope(cfg, earlier, u, s), scopes[1..])
  }

  /** RegisterPciDevice answers EFI_ALREADY_STARTED and the entry type makes that an error. */
  predicate Duplicate(earlier: seq<Unit>, u: Unit, s: Scope) {
    !Excluded(earlier, u, s.id) && Holds(u.devices, s.id) && (s.kind == PCI_ENDPOINT || s.kind == PCI_BRIDGE)
  }

  ghost function AfterScope(cfg: Config, earlier: seq<Unit>, u: Unit, s: Scope): (u': Unit)
    requires Topology(cfg, u.segment)
    ensures u' == u.(devices := u'.devices)
  {
    var v := Register(cfg, earlier, u, s.id, s.kind);
    if s.kind == PCI_BRIDGE
    then ScanInto(cfg, earlier, v, Visit(cfg, u.segment, Secondary(cfg, u.segment, s.id), 0, 0))
    else v
  }

  /** What the scope entries give a unit: the devices they name, and everything reachable from the
      secondary bus of the bridges they name. */
  ghost predicate Scoped(cfg: Config, seg: nat, scopes: seq<Scope>, id: SourceId) {
    exists s <- scopes ::
      s.id == id || (s.kind == PCI_BRIDGE && Reachable(cfg, seg, Secondary(cfg, seg, s.id), id))
  }

  lemma ScopeOwns(cfg: Config, earlier: seq<Unit>, u: Unit, s: Scope)
    requires Topology(cfg, u.segment)
    ensures
      var u' := AfterScope(cfg, earlier, u, s);
      && u' == u.(devices := u'.devices)
      && (forall x :: Holds(u'.devices, x) <==>
            Holds(u.devices, x) || (Scoped(cfg, u.segment, [s], x) && !Excluded(earlier, u, x)))
      && (Distinct(u.devices) ==> Distinct(u'.devices))
  {
    hide Holds, Distinct, Excluded, Reachable, Visit;
    var seg := u.segment;
    var v := Register(cfg, earlier, u, s.id, s.kind);
    forall x
      ensures Excluded(earlier, v, x) == Excluded(earlier, u, x)
    {
      SameExclusion(earlier, u, v, x);
    }
    forall x
      ensures Scoped(cfg, seg, [s], x) <==>
        x == s.id || (s.kind == PCI_BRIDGE && Reachable(cfg, seg, Secondary(cfg, seg, s.id), x))
    {
      assert s in [s];
    }
    if s.kind == PCI_BRIDGE {
      var below := Visit(cfg, seg, Secondary(cfg, seg, s.id), 0, 0);
      ScanOwns(cfg, earlier, v, below);
      forall x
        ensures x in below <==> Reachable(cfg, seg, Secondary(cfg, seg, s.id), x)
      {
        VisitIsReachability(cfg, seg, Secondary(cfg, seg, s.id), x);
      }
    }
  }

  lemma ScopedSplit(cfg: Config, seg: nat, a: seq<Scope>, b: seq<Scope>, id: SourceId)
    ensures Scoped(cfg, seg, a + b, id) <==> Scoped(cfg, seg, a, id) || Scoped(cfg, seg, b, id)
  {
    forall s | s in a || s in b
      ensures s in a + b
    {
    }
  }

  /** Entry j is an endpoint or bridge that u, or an entry before j, already accounts for. */
  ghost predicate Clashes(cfg: Config, earlier: seq<Unit>, u: Unit, scopes: seq<Scope>, j: nat)
    requires j < |scopes|
  {
    && (scopes[j].kind == PCI_ENDPOINT || scopes[j].kind == PCI_BRIDGE)
    && (Holds(u.devices, scopes[j].id) || Scoped(cfg, u.segment, scopes[..j], scopes[j].id))
    && !Excluded(earlier, u, scopes[j].id)
  }

  /** Scope processing, exactly. With k the number of entries processed before the loop stopped:
      the unit holds what it held before plus what those entries give it, minus what is excluded;
      and it stopped early exactly when entry k is an endpoint or bridge the unit then already holds. */
  lemma {:induction false} ScopesOwn(cfg: Config, earlier: seq<Unit>, u: Unit, scopes: seq<Scope>) returns (k: nat)
    requires Topology(cfg, u.segment)
    ensures k <= |scopes|
    ensures
      var (u', ok) := ProcessScopes(cfg, earlier, u, scopes);
      && u' == u.(devices := u'.devices)
      && (Distinct(u.devices) ==> Distinct(u'.devices))
      && (forall x :: Holds(u'.devices, x) <==>
            Holds(u.devices, x) || (Scoped(cfg, u.segment, scopes[..k], x) && !Excluded(earlier, u, x)))
      && (ok <==> k == |scopes|)
      && (!ok ==> Duplicate(earlier, u', scopes[k]))
    ensures forall j :: 0 <= j < k ==> !Clashes(cfg, earlier, u, scopes, j)
    decreases |scopes|
  {
    hide Holds, Distinct, Excluded, Reachable, AfterScope, Scoped;
    EmptyScoped(cfg, u.segment);
    assert scopes[..0] == [];
    if scopes == [] || Duplicate(earlier, u, scopes[0]) {
      k := 0;
    } else {
      var s := scopes[0];
      var v := AfterScope(cfg, earlier, u, s);
      ScopeOwns(cfg, earlier, u, s);
      var n := ScopesOwn(cfg, earlier, v, scopes[1..]);
      k := n + 1;
      assert scopes[..k] == [s] + scopes[1..][..n];
      forall x
        ensures Excluded(earlier, v, x) == Excluded(earlier, u, x)
        ensures Scoped(cfg, u.segment, scopes[..k], x) <==>
          Scoped(cfg, u.segment, [s], x) || Scoped(cfg, u.segment, scopes[1..][..n], x)
      {
        SameExclusion(earlier, u, v, x);
        ScopedSplit(cfg, u.segment, [s], scopes[1..][..n], x);
      }
      forall j | 0 <= j < k
        ensures !Clashes(cfg, earlier, u, scopes, j)
      {
        if j > 0 {
          assert !Clashes(cfg, earlier, v, scopes[1..], j - 1);
          assert scopes[..j] == [s] + scopes[1..][..j - 1];
          ScopedSplit(cfg, u.segment, [s], scopes[1..][..j - 1], scopes[j].id);
        }
      }
    }
  }

  lemma EmptyScoped(cfg: Config, seg: nat)
    ensures forall x :: !Scoped(cfg, seg, [], x)
  {
  }

  /** One DRHD structure: register base, segment, flag and resolved device scope. */
  datatype Drhd = Drhd(baseAddress: nat, segment: nat, includeAll: bool, scopes: seq<Scope>)

  /** ProcessDhrd on a unit that was zero before. */
  ghost function ProcessDrhd(cfg: Config, earlier: seq<Unit>, d: Drhd): (Unit, bool)
    requires Topology(cfg, d.segment)
  {
    var u := Unit(d.baseAddress, d.segment, d.includeAll, []);
    ProcessScopes(cfg, earlier,
      if d.includeAll then ScanInto(cfg, earlier, u, Visit(cfg, d.segment, 0, 0, 0)) else u, d.scopes)
  }

  /** The devices the specification gives a unit, for the first k scope entries. */
  ghost predicate Entitled(cfg: Config, earlier: seq<Unit>, d: Drhd, k: nat, id: SourceId)
    requires k <= |d.scopes|
  {
    && ((d.includeAll && Reachable(cfg, d.segment, 0, id)) || Scoped(cfg, d.segment, d.scopes[..k], id))
    && !(d.includeAll && Taken(earlier, d.segment, id))
  }

  /** Entry j names an endpoint or bridge the unit is already entitled to by what precedes the entry. */
  ghost predicate Repeats(cfg: Config, earlier: seq<Unit>, d: Drhd, j: nat)
    requires j < |d.scopes|
  {
    (d.scopes[j].kind == PCI_ENDPOINT || d.scopes[j].kind == PCI_BRIDGE) &&
    Entitled(cfg, earlier, d, j, d.scopes[j].id)
  }

  /** Ownership: after ProcessDhrd the unit holds, once each, exactly the devices the entries processed entitle it
      to: all entries on success, and on failure those before the first endpoint or bridge entry that repeats one. */
  lemma DrhdOwns(cfg: Config, earlier: seq<Unit>, d: Drhd) returns (k: nat)
    requires Topology(cfg, d.segment)
    ensures k <= |d.scopes|
    ensures
      var (u, ok) := ProcessDrhd(cfg, earlier, d);
      && u == Unit(d.baseAddress, d.segment, d.includeAll, u.devices)
      && Distinct(u.devices)
      && (forall id :: Holds(u.devices, id) <==> Entitled(cfg, earlier, d, k, id))
      && (ok <==> k == |d.scopes|)
      && (!ok ==> Repeats(cfg, earlier, d, k))
    ensures forall j :: 0 <= j < k ==> !Repeats(cfg, earlier, d, j)
  {
    hide Reachable, ProcessScopes, Scoped, ScanInto, Visit, Taken;
    var u := Unit(d.baseAddress, d.segment, d.includeAll, []);
    var v := u;
    if d.includeAll {
      var all := Visit(cfg, d.segment, 0, 0, 0);
      v := ScanInto(cfg, earlier, u, all);
      ScanOwns(cfg, earlier, u, all);
      forall x
        ensures x in all <==> Reachable(cfg, d.segment, 0, x)
      {
        VisitIsReachability(cfg, d.segment, 0, x);
      }
    }
    k := ScopesOwn(cfg, earlier, v, d.scopes);
    forall j | 0 <= j < k
      ensures !Repeats(cfg, earlier, d, j)
    {
      assert !Clashes(cfg, earlier, v, d.scopes, j);
    }
  }

  /** ProcessDhrd succeeds if and only if no endpoint or bridge entry repeats a device. */
  lemma DrhdSucceedsIff(cfg: Config, earlier: seq<Unit>, d: Drhd)
    requires Topology(cfg, d.segment)
    ensures ProcessDrhd(cfg, earlier, d).1 <==> forall j :: 0 <= j < |d.scopes| ==> !Repeats(cfg, earlier, d, j)
  {
    hide ProcessDrhd, Repeats;
    var k := DrhdOwns(cfg, earlier, d);
  }

  /* ---------- what is recorded of a device ---------- */

  /** The type is that of a scope entry naming the device, or the one its class code gives; the identification
      registers are the device's, read as its type asks. */
  ghost predicate Described(cfg: Config, seg: nat, scopes: seq<Scope>, devices: seq<PciDevice>) {
    forall d <- devices ::
      && (d.deviceType == (if cfg(seg, d.sourceId, 0x0B) == 6 && cfg(seg, d.sourceId, 0x0A) == 4 then 2 else 1)
          || exists s <- scopes :: s.id == d.sourceId && s.kind == d.deviceType)
      && d.pciId == ReadPciId(cfg, seg, d.sourceId, d.deviceType)
  }

  lemma {:induction false} ScanDescribes(cfg: Config, earlier: seq<Unit>, u: Unit, ids: seq<SourceId>,
                                         scopes: seq<Scope>)
    requires Described(cfg, u.segment, scopes, u.devices)
    ensures Described(cfg, u.segment, scopes, ScanInto(cfg, earlier, u, ids).devices)
    decreases |ids|
  {
    hide ReadPciId, Excluded, Holds;
    if ids != [] {
      var v := Register(cfg, earlier, u, ids[0], ScanType(cfg, u.segment, ids[0]));
      ScanDescribes(cfg, earlier, v, ids[1..], scopes);
    }
  }

  lemma ScopeDescribes(cfg: Config, earlier: seq<Unit>, u: Unit, s: Scope, scopes: seq<Scope>)
    requires Topology(cfg, u.segment) && Described(cfg, u.segment, scopes, u.devices) && s in scopes
    ensures Described(cfg, u.segment, scopes, AfterScope(cfg, earlier, u, s).devices)
  {
    hide ReadPciId, Excluded, Holds, ScanInto, Visit;
    var v := Register(cfg, earlier, u, s.id, s.kind);
    if s.kind == PCI_BRIDGE {
      ScanDescribes(cfg, earlier, v, Visit(cfg, u.segment, Secondary(cfg, u.segment, s.id), 0, 0), scopes);
    }
  }

  lemma {:induction false} ScopesDescribe(cfg: Config, earlier: seq<Unit>, u: Unit, todo: seq<Scope>,
                                          scopes: seq<Scope>)
    requires Topology(cfg, u.segment) && Described(cfg, u.segment, scopes, u.devices)
    requires forall s <- todo :: s in scopes
    ensures Described(cfg, u.segment, scopes, ProcessScopes(cfg, earlier, u, todo).0.devices)
    decreases |todo|
  {
    hide Described, AfterScope, Duplicate;
    if todo != [] && !Duplicate(earlier, u, todo[0]) {
      ScopeDescribes(cfg, earlier, u, todo[0], scopes);
      ScopesDescribe(cfg, earlier, AfterScope(cfg, earlier, u, todo[0]), todo[1..], scopes);
    }
  }

  /** Every device a unit holds after ProcessDhrd is described. */
  lemma DrhdDescribes(cfg: Config, earlier: seq<Unit>, d: Drhd)
    requires Topology(cfg, d.segment)
    ensures Described(cfg, d.segment, d.scopes, ProcessDrhd(cfg, earlier, d).0.devices)
  {
    hide ProcessScopes, ScanInto, Visit;
    var u := Unit(d.baseAddress, d.segment, d.includeAll, []);
    if d.includeAll {
      ScanDescribes(cfg, earlier, u, Visit(cfg, d.segment, 0, 0, 0), d.scopes);
      ScopesDescribe(cfg, earlier, ScanInto(cfg, earlier, u, Visit(cfg, d.segment, 0, 0, 0)), d.scopes, d.scopes);
    } else {
      ScopesDescribe(cfg, earlier, u, d.scopes, d.scopes);
    }
  }

  /** What holds of every unit processed so far: no source id twice, and an INCLUDE_PCI_ALL unit is disjoint
      from all earlier units of its segment. */
  ghost predicate RunInvariant(units: seq<Unit>) {
    && (forall i :: 0 <= i < |units| ==> Distinct(units[i].devices))
    && (forall i, j, id :: 0 <= j < i < |units| && units[i].includeAll && Owns(units[i], units[i].segment, id) ==>
          !Owns(units[j], units[i].segment, id))
  }

  lemma RunStep(cfg: Config, units: seq<Unit>, d: Drhd)
    requires Topology(cfg, d.segment) && RunInvariant(units)
    ensures RunInvariant(units + [ProcessDrhd(cfg, units, d).0])
  {
    hide ProcessDrhd, Distinct, Holds, Scoped, Reachable;
    var k := DrhdOwns(cfg, units, d);
    var u := ProcessDrhd(cfg, units, d).0;
    var units' := units + [u];
    forall i, j, id | 0 <= j < i < |units'| && units'[i].includeAll && Owns(units'[i], units'[i].segment, id)
      ensures !Owns(units'[j], units'[i].segment, id)
    {
      if i == |units| {
        assert Entitled(cfg, units, d, k, id);
        assert units[j] in units;
      }
    }
  }
}
