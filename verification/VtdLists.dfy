/** The three lists a second-stage leaf is checked against (VtdDump.c): exception records, RMRR records and the
    IOMMU driver's mappings. Each list is searched from its tail. */
module VtdLists {
  import opened Bytes
  import opened Options

  datatype Location = Location(segment: nat, bus: nat, device: nat, fn: nat)

  datatype RmrrRecord = RmrrRecord(location: Location, address: UintN, length: UintN)

  /** A handle of a mapping; location is None for a handle without PCI I/O protocol or without GetLocation answer. */
  datatype MapHandleInfo = MapHandleInfo(ioMmuAccess: nat, location: Option<Location>)
  datatype MapInfo = MapInfo(deviceAddress: UintN, numberOfPages: UintN, handles: seq<MapHandleInfo>)

  const PAGE_SIZE := 0x1000

  /** The length bytes from base on, around the end of the address space if need be. */
  predicate InWindow(base: UintN, length: UintN, address: UintN) {
    base <= address < base + length || address + TWO64 < base + length
  }

  predicate Wraps(base: UintN, length: UintN) {
    base + length >= TWO64
  }

  /** The address filter of ExistInRmrr and ExistInIoMmuMap, with 64-bit addition, asks for an address below the range
      and above it at once: it skips the addresses outside a range that reaches the end of the address space, and
      never skips any other range. */
  lemma FilterSkips(base: UintN, length: UintN, address: UintN)
    ensures address < base && address >= (base + length) % TWO64 <==>
            Wraps(base, length) && !InWindow(base, length, address)
  {
  }

  /** Some record of the function contains the address, or is not filtered by address at all. */
  predicate InRmrr(records: seq<RmrrRecord>, location: Location, address: UintN) {
    exists r <- records :: r.location == location &&
      (Wraps(r.address, r.length) ==> InWindow(r.address, r.length, address))
  }

  /** Some record of the function contains the address. */
  predicate Reserved(records: seq<RmrrRecord>, location: Location, address: UintN) {
    exists r <- records :: r.location == location && InWindow(r.address, r.length, address)
  }

  /** ExistInRmrr answers whether the address is reserved for the function if and only if it is, or every record of
      the function reaches the end of the address space. */
  lemma InRmrrIsReservedIff(records: seq<RmrrRecord>, location: Location, address: UintN)
    ensures (InRmrr(records, location, address) <==> Reserved(records, location, address)) <==>
            Reserved(records, location, address) ||
            (forall r <- records :: r.location == location ==> Wraps(r.address, r.length))
  {
  }

  /** A record for 0x1000-0x1FFF admits address 0x9000. */
  lemma OutsideTheRangeIsAdmitted(location: Location)
    ensures InRmrr([RmrrRecord(location, 0x1000, 0x1000)], location, 0x9000)
    ensures !Reserved([RmrrRecord(location, 0x1000, 0x1000)], location, 0x9000)
  {
    var r := RmrrRecord(location, 0x1000, 0x1000);
    assert r in [r];
  }

  /** The handle has the access asked for, and is the function's or cannot be told to be another's. */
  predicate Admits(h: MapHandleInfo, location: Location, ioMmuAccess: nat) {
    h.ioMmuAccess == ioMmuAccess && (h.location == Some(location) || h.location == None)
  }

  function LengthOf(m: MapInfo): UintN {
    m.numberOfPages * PAGE_SIZE % TWO64
  }

  predicate SomeAdmits(m: MapInfo, location: Location, ioMmuAccess: nat) {
    exists h <- m.handles :: Admits(h, location, ioMmuAccess)
  }

  /** Some mapping with an admitting handle contains the address, or is not filtered by address at all. */
  predicate InIoMmuMap(maps: seq<MapInfo>, location: Location, address: UintN, ioMmuAccess: nat) {
    exists m <- maps :: SomeAdmits(m, location, ioMmuAccess) &&
      (Wraps(m.deviceAddress, LengthOf(m)) ==> InWindow(m.deviceAddress, LengthOf(m), address))
  }

  /** Some mapping with an admitting handle contains the address. */
  predicate Mapped(maps: seq<MapInfo>, location: Location, address: UintN, ioMmuAccess: nat) {
    exists m <- maps :: SomeAdmits(m, location, ioMmuAccess) && InWindow(m.deviceAddress, LengthOf(m), address)
  }

  /** ExistInIoMmuMap answers whether the address is mapped with that access if and only if it is, or every mapping with
      an admitting handle reaches the end of the address space. */
  lemma InIoMmuMapIsMappedIff(maps: seq<MapInfo>, location: Location, address: UintN, ioMmuAccess: nat)
    ensures (InIoMmuMap(maps, location, address, ioMmuAccess) <==> Mapped(maps, location, address, ioMmuAccess)) <==>
            Mapped(maps, location, address, ioMmuAccess) ||
            (forall m <- maps :: SomeAdmits(m, location, ioMmuAccess) ==> Wraps(m.deviceAddress, LengthOf(m)))
  {
    hide SomeAdmits, LengthOf;
  }

  /** A mapping of two pages, the last of the address space and the first, with one handle that is no PCI device: it
      holds the addresses of these pages for every function, with the handle's access only. */
  lemma TwoPagesAroundTheEnd(location: Location, address: UintN, ioMmuAccess: nat)
    ensures InIoMmuMap([MapInfo(TWO64 - 0x1000, 2, [MapHandleInfo(1, None)])], location, address, ioMmuAccess) <==>
            ioMmuAccess == 1 && (address >= TWO64 - 0x1000 || address < 0x1000)
  {
    var h := MapHandleInfo(1, None);
    var m := MapInfo(TWO64 - 0x1000, 2, [h]);
    assert h in m.handles && m in [m];
    assert LengthOf(m) == 0x2000;
  }

  method ExistInExceptionList(records: seq<Location>, location: Location) returns (exist: bool)
    ensures exist <==> location in records
  {
    var index := |records|;
    while index > 0
      invariant 0 <= index <= |records| && location !in records[index..]
    {
      index := index - 1;
      if records[index] == location {
        return true;
      }
    }
    return false;
  }

  method ExistInRmrr(records: seq<RmrrRecord>, location: Location, address: UintN) returns (exist: bool)
    ensures exist <==> InRmrr(records, location, address)
  {
    hide Wraps, InWindow;
    var index := |records|;
    while index > 0
      invariant 0 <= index <= |records| && !InRmrr(records[index..], location, address)
    {
      index := index - 1;
      var r := records[index];
      FilterSkips(r.address, r.length, address);
      assert records[index..] == [r] + records[index + 1..];
      if address < r.address && address >= (r.address + r.length) % TWO64 {
        continue;
      }
      if r.location == location {
        return true;
      }
    }
    return false;
  }

  /** The inner loop of ExistInIoMmuMap. */
  method SomeHandleAdmits(m: MapInfo, location: Location, ioMmuAccess: nat) returns (exist: bool)
    ensures exist <==> SomeAdmits(m, location, ioMmuAccess)
  {
    var index := |m.handles|;
    while index > 0
      invariant 0 <= index <= |m.handles| && forall h <- m.handles[index..] :: !Admits(h, location, ioMmuAccess)
    {
      index := index - 1;
      var h := m.handles[index];
      assert m.handles[index..] == [h] + m.handles[index + 1..];
      if h.ioMmuAccess != ioMmuAccess {
        continue;
      }
      if h.location.Some? {
        if h.location.value != location {
          continue;
        }
        assert h in m.handles && Admits(h, location, ioMmuAccess);
        return true;
      } else {
        assert h in m.handles && Admits(h, location, ioMmuAccess);
        return true;
      }
    }
    return false;
  }

  method ExistInIoMmuMap(maps: seq<MapInfo>, location: Location, address: UintN, ioMmuAccess: nat)
    returns (exist: bool)
    ensures exist <==> InIoMmuMap(maps, location, address, ioMmuAccess)
  {
    hide Wraps, InWindow, SomeAdmits;
    var index := |maps|;
    while index > 0
      invariant 0 <= index <= |maps| && !InIoMmuMap(maps[index..], location, address, ioMmuAccess)
    {
      index := index - 1;
      var m := maps[index];
      FilterSkips(m.deviceAddress, LengthOf(m), address);
      assert maps[index..] == [m] + maps[index + 1..];
      if address < m.deviceAddress && address >= (m.deviceAddress + LengthOf(m)) % TWO64 {
        continue;
      }
      var admitted := SomeHandleAdmits(m, location, ioMmuAccess);
      if admitted {
        return true;
      }
    }
    return false;
  }
}
