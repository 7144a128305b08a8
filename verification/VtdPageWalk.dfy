/** The second-stage page-table walk of VtdDump.c (Intel VT-d specification, sections 9.1, 9.3 and 9.8): every
    leaf reachable from the root table is checked exactly once, in address order. */
module VtdPageWalk {
  import opened Bytes
  import opened Options
  import opened VtdLists

  const SIZE_4KB := 0x1000
  const SIZE_2MB := 0x20_0000
  const TABLE_ENTRIES := 512
  const ROOT_ENTRIES := 256
  const CONTEXT_ENTRIES := 256

  /** Physical memory as aligned 64-bit loads. */
  type Memory = UintN -> UintN

  /** Bits 63:12 of a root or context entry. */
  function TablePointer(e: UintN): (p: UintN)
    ensures p <= TWO64 - 0x1000
  {
    e / 0x1000 * 0x1000
  }

  /** Bits 51:12 of a second-stage paging entry. */
  function PageAddress(e: UintN): (p: UintN)
    ensures p <= 0x10_0000_0000_0000 - 0x1000
  {
    e % 0x10_0000_0000_0000 / 0x1000 * 0x1000
  }

  predicate Present(e: UintN) { e % 2 == 1 }
  predicate Readable(e: UintN) { e % 2 == 1 }
  predicate Writable(e: UintN) { e / 2 % 2 == 1 }
  predicate LargePage(e: UintN) { e / 0x80 % 2 == 1 }

  /** A place in the tables: root and context index, then one index per level; i1 is -1 at level 2. */
  datatype Place = Place(bus: int, context: int, i4: int, i3: int, i2: int, i1: int)

  /** The loads that lead to a place, and what it holds. The root table address is 4KB aligned. */
  datatype Tables = Tables(mem: Memory, root: UintN) {
    predicate Valid() {
      root <= TWO64 - 0x1000
    }

    function RootEntry(bus: nat): UintN
      requires Valid() && bus < ROOT_ENTRIES
    {
      mem(root + 16 * bus)
    }

    function ContextEntry(bus: nat, context: nat): UintN
      requires Valid() && bus < ROOT_ENTRIES && context < CONTEXT_ENTRIES
    {
      mem(TablePointer(RootEntry(bus)) + 16 * context)
    }

    function Entry4(p: Place): UintN
      requires Valid() && InRange(p)
    {
      mem(TablePointer(ContextEntry(p.bus, p.context)) + 8 * p.i4)
    }

    function Entry3(p: Place): UintN
      requires Valid() && InRange(p)
    {
      mem(PageAddress(Entry4(p)) + 8 * p.i3)
    }

    function Entry2(p: Place): UintN
      requires Valid() && InRange(p)
    {
      mem(PageAddress(Entry3(p)) + 8 * p.i2)
    }

    function Entry1(p: Place): UintN
      requires Valid() && InRange(p) && p.i1 >= 0
    {
      mem(PageAddress(Entry2(p)) + 8 * p.i1)
    }

    /** A non-zero 4KB or 2MB leaf reached through present root and context entries and non-zero table entries. */
    predicate IsLeaf(p: Place)
      requires Valid()
    {
      && InRange(p)
      && Present(RootEntry(p.bus)) && Present(ContextEntry(p.bus, p.context))
      && Entry4(p) != 0 && Entry3(p) != 0 && Entry2(p) != 0
      && if p.i1 == -1 then LargePage(Entry2(p)) else !LargePage(Entry2(p)) && Entry1(p) != 0
    }

    function LeafEntry(p: Place): UintN
      requires Valid() && IsLeaf(p)
    {
      if p.i1 == -1 then Entry2(p) else Entry1(p)
    }
  }

  predicate InRange(p: Place) {
    0 <= p.bus < ROOT_ENTRIES && 0 <= p.context < CONTEXT_ENTRIES &&
    0 <= p.i4 < TABLE_ENTRIES && 0 <= p.i3 < TABLE_ENTRIES && 0 <= p.i2 < TABLE_ENTRIES && -1 <= p.i1 < TABLE_ENTRIES
  }

  /** Table order, which is strict: a sequence increasing in it holds no place twice. */
  predicate Less(a: Place, b: Place) {
    a.bus < b.bus || (a.bus == b.bus && (
    a.context < b.context || (a.context == b.context && (
    a.i4 < b.i4 || (a.i4 == b.i4 && (
    a.i3 < b.i3 || (a.i3 == b.i3 && (
    a.i2 < b.i2 || (a.i2 == b.i2 &&
    a.i1 < b.i1)))))))))
  }

  /** What leaves of a segment's tables are checked against. */
  datatype Allowed = Allowed(segment: nat, exceptions: seq<Location>, rmrrs: seq<RmrrRecord>, maps: seq<MapInfo>)

  function Access(e: UintN): nat {
    (if Readable(e) then 1 else 0) + (if Writable(e) then 2 else 0)
  }

  /** A readable or writable 4KB leaf of the device and function that make up its context index, device first and
      three bits for the function, which no list accounts for. */
  predicate Violates(t: Tables, allowed: Allowed, p: Place, device: nat, fn: nat)
    requires t.Valid()
  {
    t.IsLeaf(p) && p.i1 != -1 && 8 * device + fn == p.context && fn < 8 &&
    var e, location := t.LeafEntry(p), Location(allowed.segment, p.bus, device, fn);
    && (Readable(e) || Writable(e))
    && location !in allowed.exceptions
    && !InRmrr(allowed.rmrrs, location, PageAddress(e))
    && !InIoMmuMap(allowed.maps, location, PageAddress(e), Access(e))
  }

  /** The walk has done everything before p and nothing from p on. */
  ghost predicate Done(t: Tables, allowed: Allowed, visited: seq<Place>, before: bool, error: bool, p: Place)
    requires t.Valid()
  {
    && (forall l :: l in visited <==> t.IsLeaf(l) && Less(l, p))
    && (forall i, j :: 0 <= i < j < |visited| ==> Less(visited[i], visited[j]))
    && (error <==> before || exists l, device, fn :: l in visited && Violates(t, allowed, l, device, fn))
  }

  /** From p to q there is no leaf, or just p. */
  ghost predicate NoLeafBetween(t: Tables, p: Place, q: Place)
    requires t.Valid()
  {
    forall l :: t.IsLeaf(l) ==> (Less(l, p) <==> Less(l, q))
  }

  ghost predicate OneLeafBetween(t: Tables, p: Place, q: Place)
    requires t.Valid()
  {
    forall l :: t.IsLeaf(l) ==> (Less(l, q) <==> Less(l, p) || l == p)
  }

  /** Moving on over places that hold no leaf. */
  lemma Skip(t: Tables, allowed: Allowed, visited: seq<Place>, before: bool, error: bool, p: Place, q: Place)
    requires t.Valid() && Done(t, allowed, visited, before, error, p)
    requires NoLeafBetween(t, p, q)
    ensures Done(t, allowed, visited, before, error, q)
  {
  }

  /** A context index has one device and one function. */
  lemma OneFunction(t: Tables, allowed: Allowed, p: Place, device: nat, fn: nat)
    requires t.Valid() && 8 * device + fn == p.context && fn < 8
    ensures forall d, f :: Violates(t, allowed, p, d, f) ==> d == device && f == fn
  {
  }

  /** Moving on over a leaf that has just been checked. */
  lemma Visit(t: Tables, allowed: Allowed, visited: seq<Place>, before: bool, error: bool, p: Place, q: Place,
              device: nat, fn: nat)
    requires t.Valid() && Done(t, allowed, visited, before, error, p) && t.IsLeaf(p)
    requires OneLeafBetween(t, p, q) && 8 * device + fn == p.context && fn < 8
    ensures Done(t, allowed, visited + [p], before, error || Violates(t, allowed, p, device, fn), q)
  {
    hide Violates;
    OneFunction(t, allowed, p, device, fn);
    var now := visited + [p];
    assert now[|visited|] == p;
    assert forall i :: 0 <= i < |visited| ==> visited[i] in visited;
    forall l
      ensures l in now <==> l in visited || l == p
    {
    }
  }

  /** mHasError, and as a ghost the places handed to CheckPtEntry in the current walk. */
  class Walker {
    var hasError: bool
    ghost var visited: seq<Place>

    constructor ()
      ensures !hasError && visited == []
    {
      hasError, visited := false, [];
    }

    /** The arguments are those of the leaf p: its bus, device and function, its entry and its size. */
    method CheckPtEntry(allowed: Allowed, bus: nat, device: nat, fn: nat, entry: UintN, size: nat,
                        ghost t: Tables, ghost p: Place)
      requires t.Valid() && t.IsLeaf(p) && entry == t.LeafEntry(p)
      requires bus == p.bus && 8 * device + fn == p.context && fn < 8
      requires size == if p.i1 == -1 then SIZE_2MB else SIZE_4KB
      modifies this
      ensures visited == old(visited) + [p]
      ensures hasError == (old(hasError) || Violates(t, allowed, p, device, fn))
    {
      visited := visited + [p];
      if !Readable(entry) && !Writable(entry) {
        return;
      }
      var access := Access(entry);
      var address := PageAddress(entry);
      var location := Location(allowed.segment, bus, device, fn);
      if size == SIZE_4KB {
        var exist := ExistInExceptionList(allowed.exceptions, location);
        if exist {
          return;
        }
        exist := ExistInRmrr(allowed.rmrrs, location, address);
        if exist {
          return;
        }
        exist := ExistInIoMmuMap(allowed.maps, location, address, access);
        if !exist {
          hasError := true;
        }
      } else {
        // A large page is checked page by page, but only reported, never recorded in hasError.
        var index := 0;
        while index < SIZE_2MB / SIZE_4KB
          invariant visited == old(visited) + [p] && hasError == old(hasError)
        {
          var exist := ExistInExceptionList(allowed.exceptions, location);
          if exist {
            return;
          }
          exist := ExistInRmrr(allowed.rmrrs, location, address + index * SIZE_4KB);
          if exist {
            return;
          }
          index := index + 1;
        }
      }
    }

    /** The innermost loop of DumpSecondLevelPagingEntry: one level-1 table. */
    method WalkLevel1(allowed: Allowed, device: nat, fn: nat, t: Tables, table: UintN, p: Place, ghost before: bool)
      requires t.Valid() && InRange(p) && p.i1 == 0 && Reached(t, p) && !LargePage(t.Entry2(p))
      requires table == PageAddress(t.Entry2(p))
      requires Done(t, allowed, visited, before, hasError, p)
      requires 8 * device + fn == p.context && fn < 8
      modifies this
      ensures Done(t, allowed, visited, before, hasError, p.(i1 := TABLE_ENTRIES))
    {
      hide Done, Violates, Less, Reached, NoLeafBetween, OneLeafBetween;
      var index := 0;
      while index < TABLE_ENTRIES
        invariant 0 <= index <= TABLE_ENTRIES
        invariant Done(t, allowed, visited, before, hasError, p.(i1 := index))
      {
        var here := p.(i1 := index);
        var entry := t.mem(table + 8 * index);
        SamePrefix(t, p, here);
        if entry != 0 {
          Visit(t, allowed, visited, before, hasError, here, p.(i1 := index + 1), device, fn);
          CheckPtEntry(allowed, p.bus, device, fn, entry, SIZE_4KB, t, here);
        } else {
          Skip(t, allowed, visited, before, hasError, here, p.(i1 := index + 1));
        }
        index := index + 1;
      }
    }

    /** The loop over a level-2 table: a large page is a leaf, anything else non-zero leads to level 1. */
    method WalkLevel2(allowed: Allowed, device: nat, fn: nat, t: Tables, table: UintN, p: Place, ghost before: bool)
      requires t.Valid() && InRange(p) && p.i2 == 0 && p.i1 == -1
      requires Present(t.RootEntry(p.bus)) && Present(t.ContextEntry(p.bus, p.context))
      requires t.Entry4(p) != 0 && t.Entry3(p) != 0 && table == PageAddress(t.Entry3(p))
      requires Done(t, allowed, visited, before, hasError, p)
      requires 8 * device + fn == p.context && fn < 8
      modifies this
      ensures Done(t, allowed, visited, before, hasError, p.(i2 := TABLE_ENTRIES))
    {
      hide Done, Violates, Less, NoLeafBetween, OneLeafBetween;
      var index := 0;
      while index < TABLE_ENTRIES
        invariant 0 <= index <= TABLE_ENTRIES
        invariant Done(t, allowed, visited, before, hasError, p.(i2 := index))
      {
        var here, next := p.(i2 := index), p.(i2 := index + 1);
        var entry := t.mem(table + 8 * index);
        assert entry == t.Entry2(here);
        if entry == 0 {
          EmptyAt2(t, here);
          Skip(t, allowed, visited, before, hasError, here, next);
        } else if !LargePage(entry) {
          NoLarge(t, here);
          Skip(t, allowed, visited, before, hasError, here, here.(i1 := 0));
          WalkLevel1(allowed, device, fn, t, PageAddress(entry), here.(i1 := 0), before);
          Skip(t, allowed, visited, before, hasError, here.(i1 := TABLE_ENTRIES), next);
        } else {
          OnlyLarge(t, here);
          Visit(t, allowed, visited, before, hasError, here, next, device, fn);
          CheckPtEntry(allowed, p.bus, device, fn, entry, SIZE_2MB, t, here);
        }
        index := index + 1;
      }
    }

    /** The loop over a level-3 table. */
    method WalkLevel3(allowed: Allowed, device: nat, fn: nat, t: Tables, table: UintN, p: Place, ghost before: bool)
      requires t.Valid() && InRange(p) && p.i3 == 0 && p.i2 == 0 && p.i1 == -1
      requires Present(t.RootEntry(p.bus)) && Present(t.ContextEntry(p.bus, p.context))
      requires t.Entry4(p) != 0 && table == PageAddress(t.Entry4(p))
      requires Done(t, allowed, visited, before, hasError, p)
      requires 8 * device + fn == p.context && fn < 8
      modifies this
      ensures Done(t, allowed, visited, before, hasError, p.(i3 := TABLE_ENTRIES))
    {
      hide Done, Violates, Less, NoLeafBetween, OneLeafBetween;
      var index := 0;
      while index < TABLE_ENTRIES
        invariant 0 <= index <= TABLE_ENTRIES
        invariant Done(t, allowed, visited, before, hasError, p.(i3 := index))
      {
        var here, next := p.(i3 := index), p.(i3 := index + 1);
        var entry := t.mem(table + 8 * index);
        assert entry == t.Entry3(here);
        if entry == 0 {
          EmptyAt3(t, here);
          Skip(t, allowed, visited, before, hasError, here, next);
        } else {
          WalkLevel2(allowed, device, fn, t, PageAddress(entry), here, before);
          EndOfLevel2(t, here);
          Skip(t, allowed, visited, before, hasError, here.(i2 := TABLE_ENTRIES), next);
        }
        index := index + 1;
      }
    }

    /** DumpSecondLevelPagingEntry: the loop over the level-4 table of one context entry. */
    method DumpSecondLevelPagingEntry(allowed: Allowed, device: nat, fn: nat, t: Tables, table: UintN, p: Place,
                                      ghost before: bool)
      requires t.Valid() && InRange(p) && p.i4 == 0 && p.i3 == 0 && p.i2 == 0 && p.i1 == -1
      requires Present(t.RootEntry(p.bus)) && Present(t.ContextEntry(p.bus, p.context))
      requires table == TablePointer(t.ContextEntry(p.bus, p.context))
      requires Done(t, allowed, visited, before, hasError, p)
      requires 8 * device + fn == p.context && fn < 8
      modifies this
      ensures Done(t, allowed, visited, before, hasError, p.(i4 := TABLE_ENTRIES))
    {
      hide Done, Violates, Less, NoLeafBetween, OneLeafBetween;
      var index := 0;
      while index < TABLE_ENTRIES
        invariant 0 <= index <= TABLE_ENTRIES
        invariant Done(t, allowed, visited, before, hasError, p.(i4 := index))
      {
        var here, next := p.(i4 := index), p.(i4 := index + 1);
        var entry := t.mem(table + 8 * index);
        assert entry == t.Entry4(here);
        if entry == 0 {
          EmptyAt4(t, here);
          Skip(t, allowed, visited, before, hasError, here, next);
        } else {
          WalkLevel3(allowed, device, fn, t, PageAddress(entry), here, before);
          EndOfLevel3(t, here);
          Skip(t, allowed, visited, before, hasError, here.(i3 := TABLE_ENTRIES), next);
        }
        index := index + 1;
      }
    }

    /** Page walk completeness: CheckPtEntry is called exactly once for every leaf, in table
        order, and hasError ends up set if and only if some 4KB leaf is unaccounted for. */
    method DumpDmarContextEntryTable(allowed: Allowed, t: Tables)
      requires t.Valid()
      modifies this
      ensures forall l :: l in visited <==> t.IsLeaf(l)
      ensures forall i, j :: 0 <= i < j < |visited| ==> Less(visited[i], visited[j])
      ensures hasError <==> old(hasError) || exists l, device, fn :: Violates(t, allowed, l, device, fn)
    {
      hide Done, Violates, Less, NoLeafBetween, OneLeafBetween;
      ghost var before := hasError;
      visited := [];
      Start(t, allowed, before);
      var index := 0;
      while index < ROOT_ENTRIES
        invariant 0 <= index <= ROOT_ENTRIES
        invariant Done(t, allowed, visited, before, hasError, Place(index, 0, 0, 0, 0, -1))
      {
        var here, next := Place(index, 0, 0, 0, 0, -1), Place(index + 1, 0, 0, 0, 0, -1);
        var rootEntry := t.mem(t.root + 16 * index);
        assert rootEntry == t.RootEntry(index);
        if !Present(rootEntry) {
          NoContext(t, index);
          Skip(t, allowed, visited, before, hasError, here, next);
          index := index + 1;
          continue;
        }
        var index2 := 0;
        while index2 < CONTEXT_ENTRIES
          invariant 0 <= index2 <= CONTEXT_ENTRIES
          invariant Done(t, allowed, visited, before, hasError, here.(context := index2))
        {
          var here2, next2 := here.(context := index2), here.(context := index2 + 1);
          var contextEntry := t.mem(TablePointer(rootEntry) + 16 * index2);
          assert contextEntry == t.ContextEntry(index, index2);
          if !Present(contextEntry) {
            NoTable(t, here2);
            Skip(t, allowed, visited, before, hasError, here2, next2);
          } else {
            DumpSecondLevelPagingEntry(allowed, index2 / 8, index2 % 8, t, TablePointer(contextEntry), here2, before);
            EndOfLevel4(t, here2);
            Skip(t, allowed, visited, before, hasError, here2.(i4 := TABLE_ENTRIES), next2);
          }
          index2 := index2 + 1;
        }
        EndOfContexts(t, here);
        Skip(t, allowed, visited, before, hasError, here.(context := CONTEXT_ENTRIES), next);
        index := index + 1;
      }
      Finish(t, allowed, visited, before, hasError);
    }
  }

  lemma Start(t: Tables, allowed: Allowed, before: bool)
    requires t.Valid()
    ensures Done(t, allowed, [], before, before, Place(0, 0, 0, 0, 0, -1))
  {
  }

  lemma Finish(t: Tables, allowed: Allowed, visited: seq<Place>, before: bool, error: bool)
    requires t.Valid() && Done(t, allowed, visited, before, error, Place(ROOT_ENTRIES, 0, 0, 0, 0, -1))
    ensures forall l :: l in visited <==> t.IsLeaf(l)
    ensures forall i, j :: 0 <= i < j < |visited| ==> Less(visited[i], visited[j])
    ensures error <==> before || exists l, device, fn :: Violates(t, allowed, l, device, fn)
  {
    forall l, device, fn | Violates(t, allowed, l, device, fn)
      ensures l in visited
    {
      assert Less(l, Place(ROOT_ENTRIES, 0, 0, 0, 0, -1));
    }
  }

  /** The entries above level 1 on the way to p are present or non-zero. */
  predicate Reached(t: Tables, p: Place)
    requires t.Valid() && InRange(p)
  {
    && Present(t.RootEntry(p.bus)) && Present(t.ContextEntry(p.bus, p.context))
    && t.Entry4(p) != 0 && t.Entry3(p) != 0 && t.Entry2(p) != 0
  }

  lemma SamePrefix(t: Tables, p: Place, q: Place)
    requires t.Valid() && InRange(p) && InRange(q) && q == p.(i1 := q.i1) && q.i1 >= 0
    requires Reached(t, p) && !LargePage(t.Entry2(p))
    ensures t.IsLeaf(q) <==> t.mem(PageAddress(t.Entry2(p)) + 8 * q.i1) != 0
    ensures t.IsLeaf(q) ==> t.LeafEntry(q) == t.mem(PageAddress(t.Entry2(p)) + 8 * q.i1)
    ensures OneLeafBetween(t, q, q.(i1 := q.i1 + 1))
    ensures !t.IsLeaf(q) ==> NoLeafBetween(t, q, q.(i1 := q.i1 + 1))
  {
  }

  lemma EmptyAt2(t: Tables, p: Place)
    requires t.Valid() && InRange(p) && p.i1 == -1 && t.Entry2(p) == 0
    ensures NoLeafBetween(t, p, p.(i2 := p.i2 + 1))
  {
  }

  lemma NoLarge(t: Tables, p: Place)
    requires t.Valid() && InRange(p) && p.i1 == -1 && t.Entry2(p) != 0 && !LargePage(t.Entry2(p))
    ensures NoLeafBetween(t, p, p.(i1 := 0))
    ensures NoLeafBetween(t, p.(i1 := TABLE_ENTRIES), p.(i2 := p.i2 + 1))
  {
  }

  lemma OnlyLarge(t: Tables, p: Place)
    requires t.Valid() && InRange(p) && p.i1 == -1 && t.Entry2(p) != 0 && LargePage(t.Entry2(p))
    ensures OneLeafBetween(t, p, p.(i2 := p.i2 + 1))
  {
  }

  lemma EndOfLevel2(t: Tables, p: Place)
    requires t.Valid() && InRange(p) && p.i2 == 0 && p.i1 == -1
    ensures NoLeafBetween(t, p.(i2 := TABLE_ENTRIES), p.(i3 := p.i3 + 1))
  {
  }

  lemma EmptyAt3(t: Tables, p: Place)
    requires t.Valid() && InRange(p) && p.i2 == 0 && p.i1 == -1 && t.Entry3(p) == 0
    ensures NoLeafBetween(t, p, p.(i3 := p.i3 + 1))
  {
  }

  lemma EndOfLevel3(t: Tables, p: Place)
    requires t.Valid() && InRange(p) && p.i3 == 0 && p.i2 == 0 && p.i1 == -1
    ensures NoLeafBetween(t, p.(i3 := TABLE_ENTRIES), p.(i4 := p.i4 + 1))
  {
  }

  lemma EmptyAt4(t: Tables, p: Place)
    requires t.Valid() && InRange(p) && p.i3 == 0 && p.i2 == 0 && p.i1 == -1 && t.Entry4(p) == 0
    ensures NoLeafBetween(t, p, p.(i4 := p.i4 + 1))
  {
  }

  lemma EndOfLevel4(t: Tables, p: Place)
    requires t.Valid() && InRange(p) && p.i4 == 0 && p.i3 == 0 && p.i2 == 0 && p.i1 == -1
    ensures NoLeafBetween(t, p.(i4 := TABLE_ENTRIES), p.(context := p.context + 1))
  {
  }

  lemma NoTable(t: Tables, p: Place)
    requires t.Valid() && InRange(p) && p.i4 == 0 && p.i3 == 0 && p.i2 == 0 && p.i1 == -1
    requires !Present(t.ContextEntry(p.bus, p.context))
    ensures NoLeafBetween(t, p, p.(context := p.context + 1))
  {
  }

  lemma EndOfContexts(t: Tables, p: Place)
    requires t.Valid() && InRange(p) && p == Place(p.bus, 0, 0, 0, 0, -1)
    ensures NoLeafBetween(t, p.(context := CONTEXT_ENTRIES), p.(bus := p.bus + 1))
  {
  }

  lemma NoContext(t: Tables, bus: nat)
    requires t.Valid() && bus < ROOT_ENTRIES && !Present(t.RootEntry(bus))
    ensures NoLeafBetween(t, Place(bus, 0, 0, 0, 0, -1), Place(bus + 1, 0, 0, 0, 0, -1))
  {
  }

  /** One RMRR record of a function that does not reach the end of the address space accounts for every leaf of the
      function, whatever its address: the walk reports no error for that function. */
  lemma RmrrHidesFunction(t: Tables, allowed: Allowed, r: RmrrRecord, p: Place, device: nat, fn: nat)
    requires t.Valid() && InRange(p) && r in allowed.rmrrs && !Wraps(r.address, r.length)
    requires r.location == Location(allowed.segment, p.bus, device, fn)
    ensures !Violates(t, allowed, p, device, fn)
  {
    hide t.IsLeaf, t.LeafEntry, InIoMmuMap;
  }

  /** The fields of a second-stage entry: read is bit 0, write bit 1, page size bit 7, and the address bits 51:12. */
  lemma EntryBits(e: UintN, read: nat, write: nat, low: nat, large: nat, mid: nat, frame: nat, high: nat)
    requires e == read + 2 * write + 4 * low + 0x80 * large + 0x100 * mid + 0x1000 * frame + 0x10_0000_0000_0000 * high
    requires read < 2 && write < 2 && low < 32 && large < 2 && mid < 16 && frame < 0x100_0000_0000
    ensures Readable(e) <==> read == 1
    ensures Writable(e) <==> write == 1
    ensures LargePage(e) <==> large == 1
    ensures PageAddress(e) == 0x1000 * frame
    ensures Access(e) == read + 2 * write
  {
    var byte1 := large + 2 * mid + 0x20 * frame + 0x2000_0000_0000 * high;
    Quotient(e, 2, write + 2 * low + 0x40 * byte1, read);
    Quotient(write + 2 * low + 0x40 * byte1, 2, low + 0x20 * byte1, write);
    Quotient(e, 0x80, byte1, read + 2 * write + 4 * low);
    Quotient(byte1, 2, mid + 0x10 * frame + 0x1000_0000_0000 * high, large);
    var offset := read + 2 * write + 4 * low + 0x80 * large + 0x100 * mid;
    Quotient(e, 0x10_0000_0000_0000, high, offset + 0x1000 * frame);
    Quotient(offset + 0x1000 * frame, 0x1000, frame, offset);
  }

  /** Loads along one path: root entry 2, context entry 0x0B (device 1, function 3), then entries 4, 5 and 6, the last
      not a large page, and entry 7 of the level-1 table, which maps the page at 0x9000 for reading. */
  ghost predicate OnePath(t: Tables, leaf: UintN) {
    && t.root == 0x1000
    && t.mem(0x1020) == 0x2001 && t.mem(0x20B0) == 0x3001
    && t.mem(0x3020) == 0x4003 && t.mem(0x4028) == 0x5003 && t.mem(0x5030) == 0x6003
    && t.mem(0x6038) == leaf
  }

  lemma OnePathLeads(t: Tables)
    requires OnePath(t, 0x9001)
    ensures t.Valid() && t.IsLeaf(Place(2, 0x0B, 4, 5, 6, 7)) && t.LeafEntry(Place(2, 0x0B, 4, 5, 6, 7)) == 0x9001
  {
    var p := Place(2, 0x0B, 4, 5, 6, 7);
    assert t.RootEntry(2) == 0x2001;
    assert t.ContextEntry(2, 0x0B) == 0x3001;
    assert t.Entry4(p) == 0x4003;
    assert t.Entry3(p) == 0x5003;
    assert t.Entry2(p) == 0x6003;
    assert t.Entry1(p) == 0x9001;
  }

  lemma OnePathViolates(t: Tables, allowed: Allowed)
    requires OnePath(t, 0x9001)
    ensures
      var location := Location(allowed.segment, 2, 1, 3);
      t.Valid() && (Violates(t, allowed, Place(2, 0x0B, 4, 5, 6, 7), 1, 3) <==>
        location !in allowed.exceptions && !InRmrr(allowed.rmrrs, location, 0x9000)
        && !InIoMmuMap(allowed.maps, location, 0x9000, 1))
  {
    hide OnePath, t.IsLeaf, t.LeafEntry, InRmrr, InIoMmuMap;
    OnePathLeads(t);
  }
}
