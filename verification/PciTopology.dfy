/** PCI configuration space as a function, and the bus scan of VtdDump.c: the functions it visits
    are exactly those reachable through chains of bridges. */
module PciTopology {
  import opened Bytes

  /** VTD_SOURCE_ID: an 8-bit bus, a 5-bit device and a 3-bit function number. */
  datatype SourceId = SourceId(bus: Byte, device: Device, fn: Function)
  type Device = d: int | 0 <= d < 32
  type Function = f: int | 0 <= f < 8

  /** Stores into the bit fields keep the low bits. */
  function MakeSourceId(bus: Byte, device: Byte, fn: Byte): SourceId {
    SourceId(bus, device % 32, fn % 8)
  }

  /** PciSegmentRead8: segment, source id, register offset. */
  type Config = (nat, SourceId, nat) -> Byte

  function Read16(cfg: Config, seg: nat, id: SourceId, off: nat): nat {
    cfg(seg, id, off) + 0x100 * cfg(seg, id, off + 1)
  }

  const VENDOR_ID := 0x00
  const DEVICE_ID := 0x02
  const REVISION_ID := 0x08
  const SUB_CLASS := 0x0A
  const BASE_CLASS := 0x0B
  const HEADER_TYPE := 0x0E
  const SECONDARY_BUS := 0x19
  const SUBSYSTEM_VENDOR_ID := 0x2C
  const SUBSYSTEM_ID := 0x2E

  predicate Present(cfg: Config, seg: nat, id: SourceId) {
    !(Read16(cfg, seg, id, VENDOR_ID) == 0xFFFF && Read16(cfg, seg, id, DEVICE_ID) == 0xFFFF)
  }

  predicate IsBridge(cfg: Config, seg: nat, id: SourceId) {
    cfg(seg, id, BASE_CLASS) == 6 && cfg(seg, id, SUB_CLASS) == 4
  }

  function Secondary(cfg: Config, seg: nat, id: SourceId): Byte {
    cfg(seg, id, SECONDARY_BUS)
  }

  /** The number of functions probed on a device: 8 when function 0 says multi-function, else 1. */
  function MaxFunction(cfg: Config, seg: nat, bus: Byte, device: Device): nat {
    if cfg(seg, SourceId(bus, device, 0), HEADER_TYPE) < 0x80 then 1 else 8
  }

  /** A function the scan of its bus reports. */
  predicate Probed(cfg: Config, seg: nat, id: SourceId) {
    id.fn < MaxFunction(cfg, seg, id.bus, id.device) && Present(cfg, seg, id)
  }

  /** A bridge the scan descends through. */
  predicate Descends(cfg: Config, seg: nat, id: SourceId) {
    Probed(cfg, seg, id) && IsBridge(cfg, seg, id) && Secondary(cfg, seg, id) != 0
  }

  /** Bus numbers grow away from the root, which is what makes the recursion finite. */
  ghost predicate Topology(cfg: Config, seg: nat) {
    forall id: SourceId :: Descends(cfg, seg, id) ==> Secondary(cfg, seg, id) > id.bus
  }

  /** The callbacks ScanPciBus makes from (device, fn) of a bus onwards, in order. */
  ghost function Visit(cfg: Config, seg: nat, bus: Byte, device: nat, fn: nat): seq<SourceId>
    requires Topology(cfg, seg) && device <= 32 && fn <= 8
    decreases 256 - bus, 32 - device, 8 - fn
  {
    if device == 32 then []
    else if fn >= MaxFunction(cfg, seg, bus, device) then Visit(cfg, seg, bus, device + 1, 0)
    else
      var id := SourceId(bus, device, fn);
      if !Present(cfg, seg, id) then Visit(cfg, seg, bus, device, fn + 1)
      else
        [id]
        + (if Descends(cfg, seg, id) then Visit(cfg, seg, Secondary(cfg, seg, id), 0, 0) else [])
        + Visit(cfg, seg, bus, device, fn + 1)
  }

  /** id is a present function reached from bus by descending through the bridges of path. */
  ghost predicate Chain(cfg: Config, seg: nat, bus: Byte, path: seq<SourceId>, id: SourceId)
    decreases |path|
  {
    if path == [] then id.bus == bus && Probed(cfg, seg, id)
    else path[0].bus == bus && Descends(cfg, seg, path[0]) &&
         Chain(cfg, seg, Secondary(cfg, seg, path[0]), path[1..], id)
  }

  ghost predicate Reachable(cfg: Config, seg: nat, bus: Byte, id: SourceId) {
    exists path :: Chain(cfg, seg, bus, path, id)
  }

  lemma {:induction false} VisitSound(cfg: Config, seg: nat, bus: Byte, device: nat, fn: nat, id: SourceId)
    requires Topology(cfg, seg) && device <= 32 && fn <= 8
    requires id in Visit(cfg, seg, bus, device, fn)
    ensures Reachable(cfg, seg, bus, id)
    decreases 256 - bus, 32 - device, 8 - fn
  {
    if fn >= MaxFunction(cfg, seg, bus, device) {
      VisitSound(cfg, seg, bus, device + 1, 0, id);
    } else {
      var here := SourceId(bus, device, fn);
      if id in Visit(cfg, seg, bus, device, fn + 1) {
        VisitSound(cfg, seg, bus, device, fn + 1, id);
      } else if id == here {
        assert Chain(cfg, seg, bus, [], id);
      } else {
        var below := Secondary(cfg, seg, here);
        VisitSound(cfg, seg, below, 0, 0, id);
        var path :| Chain(cfg, seg, below, path, id);
        assert Chain(cfg, seg, bus, [here] + path, id) by {
          assert ([here] + path)[1..] == path;
        }
      }
    }
  }

  /** A probed function at or after (device, fn) is visited, and so is everything below it if it is a bridge. */
  lemma {:induction false} VisitCovers(cfg: Config, seg: nat, bus: Byte, device: nat, fn: nat, x: SourceId)
    requires Topology(cfg, seg) && device <= 32 && fn <= 8
    requires x.bus == bus && Probed(cfg, seg, x)
    requires device < x.device || (device == x.device && fn <= x.fn)
    ensures x in Visit(cfg, seg, bus, device, fn)
    ensures Descends(cfg, seg, x) ==>
      forall y <- Visit(cfg, seg, Secondary(cfg, seg, x), 0, 0) :: y in Visit(cfg, seg, bus, device, fn)
    decreases 32 - device, 8 - fn
  {
    if fn >= MaxFunction(cfg, seg, bus, device) {
      VisitCovers(cfg, seg, bus, device + 1, 0, x);
    } else if SourceId(bus, device, fn) != x {
      VisitCovers(cfg, seg, bus, device, fn + 1, x);
    }
  }

  lemma {:induction false} VisitComplete(cfg: Config, seg: nat, bus: Byte, path: seq<SourceId>, id: SourceId)
    requires Topology(cfg, seg) && Chain(cfg, seg, bus, path, id)
    ensures id in Visit(cfg, seg, bus, 0, 0)
    decreases |path|
  {
    if path == [] {
      VisitCovers(cfg, seg, bus, 0, 0, id);
    } else {
      VisitComplete(cfg, seg, Secondary(cfg, seg, path[0]), path[1..], id);
      VisitCovers(cfg, seg, bus, 0, 0, path[0]);
    }
  }

  /** The scan of a bus visits exactly what is reachable from it. */
  lemma VisitIsReachability(cfg: Config, seg: nat, bus: Byte, id: SourceId)
    requires Topology(cfg, seg)
    ensures id in Visit(cfg, seg, bus, 0, 0) <==> Reachable(cfg, seg, bus, id)
  {
    if id in Visit(cfg, seg, bus, 0, 0) {
      VisitSound(cfg, seg, bus, 0, 0, id);
    }
    if Reachable(cfg, seg, bus, id) {
      var path :| Chain(cfg, seg, bus, path, id);
      VisitComplete(cfg, seg, bus, path, id);
    }
  }
}
