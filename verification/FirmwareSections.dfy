/** Sections of a firmware file (PcdDump.c; PI specification Volume 3, section 3.2.4), stepped over by their sizes:
    the n-th one of a type, and the first RAW one that holds a PCD database. */
module FirmwareSections {
  import opened Bytes
  import opened FlatMemory
  import opened Options
  import opened Walks

  const EFI_SECTION_RAW: Byte := 0x19

  datatype Section = Section(start: nat, size: nat, kind: Byte, headerSize: nat)

  /** EFI_COMMON_SECTION_HEADER: Size[3], Type; EFI_COMMON_SECTION_HEADER2 adds a 32-bit size. */
  predicate IsSection2(m: Memory, p: nat) {
    U24(m, p) == 0xFFFFFF
  }

  function SectionSize(m: Memory, p: nat): nat {
    if IsSection2(m, p) then U32(m, p + 4) else U24(m, p)
  }

  function SectionAt(m: Memory, p: nat): Section {
    Section(p, SectionSize(m, p), m(p + 3), if IsSection2(m, p) then 8 else 4)
  }

  function NextSection(m: Memory, p: nat): (next: nat)
    ensures next >= p && (next == p <==> SectionSize(m, p) == 0)
  {
    p + AlignUp(SectionSize(m, p), 4)
  }

  /** The header the walk from p looks at after n steps, and the sections it has passed by then. */
  ghost function Position(m: Memory, p: nat, n: nat): nat
    decreases n
  {
    if n == 0 then p else Position(m, NextSection(m, p), n - 1)
  }

  ghost function Passed(m: Memory, p: nat, n: nat): (sections: seq<Section>)
    ensures |sections| == n
    decreases n
  {
    if n == 0 then [] else [SectionAt(m, p)] + Passed(m, NextSection(m, p), n - 1)
  }

  function OfKind(sections: seq<Section>, kind: Byte): (r: seq<Section>)
    ensures forall s <- r :: s.kind == kind && s in sections
  {
    if sections == [] then []
    else (if sections[0].kind == kind then [sections[0]] else []) + OfKind(sections[1..], kind)
  }

  lemma OfKindFirst(s: Section, rest: seq<Section>, kind: Byte)
    ensures OfKind([s] + rest, kind) == (if s.kind == kind then [s] else []) + OfKind(rest, kind)
  {
    assert ([s] + rest)[1..] == rest;
  }

  /* ---------- one section of a type ---------- */

  /** The search for section k of a type gets somewhere: every section it has to step over has a size, except
      that sections of the type itself, each of which brings k down by one, need none. */
  predicate FindsType(m: Memory, p: nat, end: nat, kind: Byte, k: nat)
    decreases k, end - p
  {
    p >= end ||
    if m(p + 3) == kind then k == 0 || FindsType(m, NextSection(m, p), end, kind, k - 1)
    else SectionSize(m, p) > 0 && FindsType(m, NextSection(m, p), end, kind, k)
  }

  /** The two variables of GetSectionByType's loop. */
  datatype Cursor = Cursor(header: nat, instance: nat)

  ghost function TypeLoop(m: Memory, kind: Byte): Cursor -> Cursor {
    (c: Cursor) => Cursor(NextSection(m, c.header), if m(c.header + 3) == kind then c.instance + 1 else c.instance)
  }

  ghost function TypeExit(m: Memory, end: nat, kind: Byte, k: nat): Cursor -> bool {
    (c: Cursor) => c.header >= end || (m(c.header + 3) == kind && c.instance == k)
  }

  /** FindsType is the exact condition for the loop of GetSectionByType to end. */
  lemma {:induction false} FindsTypeIff(m: Memory, p: nat, end: nat, kind: Byte, i: nat, k: nat)
    requires i <= k
    ensures Ends(TypeLoop(m, kind), TypeExit(m, end, kind, k), Cursor(p, i)) <==> FindsType(m, p, end, kind, k - i)
    decreases k - i, end - p
  {
    hide NextSection, SectionSize;
    var next, stop, c := TypeLoop(m, kind), TypeExit(m, end, kind, k), Cursor(p, i);
    Unfold(next, stop, c);
    if !stop(c) {
      if m(p + 3) == kind {
        FindsTypeIff(m, NextSection(m, p), end, kind, i + 1, k);
      } else if SectionSize(m, p) > 0 {
        FindsTypeIff(m, NextSection(m, p), end, kind, i, k);
      } else {
        assert NextSection(m, p) == p;
        assert next(c) == c;
        StuckNeverEnds(next, stop, c);
      }
    }
  }

  /** Section k of the type: sections of the type count down k as they are passed. */
  function Nth(m: Memory, p: nat, end: nat, kind: Byte, k: nat): Option<Section>
    requires FindsType(m, p, end, kind, k)
    decreases k, end - p
  {
    if p >= end then None
    else if m(p + 3) != kind then Nth(m, NextSection(m, p), end, kind, k)
    else if k == 0 then Some(SectionAt(m, p))
    else Nth(m, NextSection(m, p), end, kind, k - 1)
  }

  /** Of the sections met before the end, the one of that type that k of that type precede; None if the walk meets
      the end with no more than k of them passed. */
  ghost predicate IsNth(m: Memory, p: nat, end: nat, kind: Byte, k: nat, found: Option<Section>) {
    exists n: nat :: IsNthAfter(m, p, end, kind, k, found, n)
  }

  ghost predicate IsNthAfter(m: Memory, p: nat, end: nat, kind: Byte, k: nat, found: Option<Section>, n: nat) {
    && (forall i: nat :: i < n ==> Position(m, p, i) < end)
    && var q, before := Position(m, p, n), |OfKind(Passed(m, p, n), kind)|;
       match found
       case None => q >= end && before <= k
       case Some(s) => q < end && s == SectionAt(m, q) && s.kind == kind && before == k
  }

  lemma {:induction false} NthIsNth(m: Memory, p: nat, end: nat, kind: Byte, k: nat)
    requires FindsType(m, p, end, kind, k)
    ensures IsNth(m, p, end, kind, k, Nth(m, p, end, kind, k))
    decreases k, end - p
  {
    hide NextSection, SectionSize, IsSection2;
    if p >= end || (m(p + 3) == kind && k == 0) {
      assert Passed(m, p, 0) == [] && Position(m, p, 0) == p;
      assert IsNthAfter(m, p, end, kind, k, Nth(m, p, end, kind, k), 0);
    } else {
      var next, k' := NextSection(m, p), if m(p + 3) == kind then k - 1 else k;
      NthIsNth(m, next, end, kind, k');
      IsNthBefore(m, p, end, kind, k', Nth(m, next, end, kind, k'));
    }
  }

  lemma IsNthBefore(m: Memory, p: nat, end: nat, kind: Byte, k: nat, found: Option<Section>)
    requires p < end && IsNth(m, NextSection(m, p), end, kind, k, found)
    ensures IsNth(m, p, end, kind, if m(p + 3) == kind then k + 1 else k, found)
  {
    hide NextSection, SectionSize, IsSection2;
    var next := NextSection(m, p);
    var n: nat :| IsNthAfter(m, next, end, kind, k, found, n);
    OfKindFirst(SectionAt(m, p), Passed(m, next, n), kind);
    assert Passed(m, p, n + 1) == [SectionAt(m, p)] + Passed(m, next, n);
    forall i: nat | i < n + 1
      ensures Position(m, p, i) < end
    {
      if i > 0 {
        assert Position(m, p, i) == Position(m, next, i - 1);
      }
    }
    assert Position(m, p, n + 1) == Position(m, next, n);
    assert IsNthAfter(m, p, end, kind, if m(p + 3) == kind then k + 1 else k, found, n + 1);
  }

  /** With a size in every section, that is the entry of the list of all sections of the type. */
  predicate SectionsAdvance(m: Memory, p: nat, end: nat)
    decreases end - p
  {
    p < end ==> SectionSize(m, p) > 0 && SectionsAdvance(m, NextSection(m, p), end)
  }

  function Sections(m: Memory, p: nat, end: nat): seq<Section>
    requires SectionsAdvance(m, p, end)
    decreases end - p
  {
    if p >= end then [] else [SectionAt(m, p)] + Sections(m, NextSection(m, p), end)
  }

  lemma {:induction false} NthOfAll(m: Memory, p: nat, end: nat, kind: Byte, k: nat)
    requires SectionsAdvance(m, p, end)
    ensures FindsType(m, p, end, kind, k)
    ensures
      var all := OfKind(Sections(m, p, end), kind);
      Nth(m, p, end, kind, k) == if k < |all| then Some(all[k]) else None
    decreases end - p
  {
    hide NextSection, SectionSize, IsSection2;
    if p < end {
      var next := NextSection(m, p);
      OfKindFirst(SectionAt(m, p), Sections(m, next, end), kind);
      if m(p + 3) != kind {
        NthOfAll(m, next, end, kind, k);
      } else if k > 0 {
        NthOfAll(m, next, end, kind, k - 1);
      } else {
        NthOfAll(m, next, end, kind, 0);
      }
    }
  }

  /** GetSectionByType, on every buffer on which it returns. */
  method GetSectionByType(m: Memory, buffer: nat, bufferSize: Uint32, sectionType: Byte, sectionInstance: nat)
    returns (found: Option<Section>)
    requires FindsType(m, buffer, buffer + bufferSize, sectionType, sectionInstance)
    ensures found == Nth(m, buffer, buffer + bufferSize, sectionType, sectionInstance)
    ensures IsNth(m, buffer, buffer + bufferSize, sectionType, sectionInstance, found)
  {
    hide NextSection, SectionAt, IsNth;
    ghost var end := buffer + bufferSize;
    NthIsNth(m, buffer, end, sectionType, sectionInstance);
    var instance: nat := 0;
    var header: nat := buffer;
    while header < buffer + bufferSize
      invariant instance <= sectionInstance && FindsType(m, header, end, sectionType, sectionInstance - instance)
      invariant Nth(m, buffer, end, sectionType, sectionInstance) ==
                Nth(m, header, end, sectionType, sectionInstance - instance)
      decreases sectionInstance - instance, end - header
    {
      if m(header + 3) == sectionType {
        if instance == sectionInstance {
          return Some(SectionAt(m, header));
        }
        instance := instance + 1;
      }
      header := NextSection(m, header);
    }
    return None;
  }

  /** A section without a size is found again and again when it is of the type asked for. */
  lemma {:induction false} SizelessSectionIsFound(m: Memory, p: nat, end: nat, k: nat)
    requires p < end && SectionSize(m, p) == 0
    ensures FindsType(m, p, end, m(p + 3), k) && Nth(m, p, end, m(p + 3), k) == Some(SectionAt(m, p))
  {
    if k > 0 {
      SizelessSectionIsFound(m, p, end, k - 1);
    }
  }

  lemma TypeStep(m: Memory, p: nat, end: nat, kind: Byte, k: nat)
    requires p < end
    ensures m(p + 3) != kind ==>
      (FindsType(m, p, end, kind, k) <==> SectionSize(m, p) > 0 && FindsType(m, NextSection(m, p), end, kind, k))
    ensures m(p + 3) == kind ==> FindsType(m, p, end, kind, 0)
    ensures m(p + 3) == kind && k > 0 ==>
      (FindsType(m, p, end, kind, k) <==> FindsType(m, NextSection(m, p), end, kind, k - 1))
    ensures FindsType(m, p, end, kind, k) ==>
      Nth(m, p, end, kind, k) ==
        if m(p + 3) != kind then Nth(m, NextSection(m, p), end, kind, k)
        else if k == 0 then Some(SectionAt(m, p))
        else Nth(m, NextSection(m, p), end, kind, k - 1)
  {
    hide NextSection, SectionSize, SectionAt;
  }

  lemma SizelessSectionStops(m: Memory, p: nat, end: nat, kind: Byte, k: nat)
    requires p < end && m(p + 3) != kind && SectionSize(m, p) == 0
    ensures !FindsType(m, p, end, kind, k)
  {
  }

  /** One of another type is never left: 16 bytes of zeros hold no RAW section, and the search for one does not end. */
  lemma SizelessSectionIsNeverLeft()
    ensures !FindsType(_ => 0, 0, 16, EFI_SECTION_RAW, 0)
    ensures !Ends(TypeLoop(_ => 0, EFI_SECTION_RAW), TypeExit(_ => 0, 16, EFI_SECTION_RAW, 0), Cursor(0, 0))
  {
    var m: Memory := _ => 0;
    assert SectionSize(m, 0) == 0 by {
      UnLeZeros(Read(m, 0, 3));
    }
    hide SectionSize;
    SizelessSectionStops(m, 0, 16, EFI_SECTION_RAW, 0);
    FindsTypeIff(m, 0, 16, EFI_SECTION_RAW, 0, 0);
  }

  /* ---------- the PCD database among the RAW sections ---------- */

  /** Where a section's data starts, and its length as the unsigned subtraction leaves it. */
  function DataStart(s: Section): nat {
    s.start + s.headerSize
  }

  function DataSize(s: Section): UintN {
    (s.size - s.headerSize) % TWO64
  }

  predicate IsDataPcdDatabase(m: Memory, data: nat, dataSize: nat, signature: Guid) {
    dataSize >= 16 && GuidAt(m, data) == signature
  }

  predicate HoldsDatabase(m: Memory, s: Section, signature: Guid) {
    IsDataPcdDatabase(m, DataStart(s), DataSize(s), signature)
  }

  predicate DatabaseAt(m: Memory, p: nat, signature: Guid) {
    m(p + 3) == EFI_SECTION_RAW && HoldsDatabase(m, SectionAt(m, p), signature)
  }

  /** The search of GetImagePcdDbFromAddress gets somewhere: every section before the database has a size. */
  predicate FindsDatabase(m: Memory, p: nat, end: nat, signature: Guid)
    decreases end - p
  {
    p >= end || DatabaseAt(m, p, signature) ||
    (SectionSize(m, p) > 0 && FindsDatabase(m, NextSection(m, p), end, signature))
  }

  /** The loop over instances 0, 1, 2, ... ends at instance k: each call up to then returns, those before k with a RAW
      section that holds no database, the last with one that does or with none. */
  ghost predicate EndsAtInstance(m: Memory, p: nat, end: nat, signature: Guid, k: nat) {
    && (forall j: nat :: j <= k ==> FindsType(m, p, end, EFI_SECTION_RAW, j))
    && (forall j: nat :: j < k ==>
          var s := Nth(m, p, end, EFI_SECTION_RAW, j); s.Some? && !HoldsDatabase(m, s.value, signature))
    && var s := Nth(m, p, end, EFI_SECTION_RAW, k); s.None? || HoldsDatabase(m, s.value, signature)
  }

  /** FindsDatabase is the exact condition for that loop to end. */
  lemma {:induction false} FindsDatabaseIff(m: Memory, p: nat, end: nat, signature: Guid)
    ensures FindsDatabase(m, p, end, signature) <==> exists k: nat :: EndsAtInstance(m, p, end, signature, k)
    decreases end - p
  {
    hide NextSection, SectionSize, HoldsDatabase, SectionAt;
    if p >= end || DatabaseAt(m, p, signature) {
      assert EndsAtInstance(m, p, end, signature, 0);
    } else {
      var next := NextSection(m, p);
      var raw := m(p + 3) == EFI_SECTION_RAW;
      if SectionSize(m, p) > 0 {
        FindsDatabaseIff(m, next, end, signature);
        if k: nat :| EndsAtInstance(m, next, end, signature, k) {
          InstancesBefore(m, p, end, signature, k);
        }
      }
      forall k: nat | EndsAtInstance(m, p, end, signature, k)
        ensures SectionSize(m, p) > 0
        ensures exists k': nat :: EndsAtInstance(m, next, end, signature, k')
      {
        InstancesLater(m, p, end, signature, k);
      }
    }
  }

  lemma InstancesBefore(m: Memory, p: nat, end: nat, signature: Guid, k: nat)
    requires p < end && !DatabaseAt(m, p, signature) && SectionSize(m, p) > 0
    requires EndsAtInstance(m, NextSection(m, p), end, signature, k)
    ensures EndsAtInstance(m, p, end, signature, if m(p + 3) == EFI_SECTION_RAW then k + 1 else k)
  {
    hide NextSection, SectionSize, HoldsDatabase, SectionAt, FindsType, Nth;
    var raw := m(p + 3) == EFI_SECTION_RAW;
    forall j: nat | j <= if raw then k + 1 else k
      ensures FindsType(m, p, end, EFI_SECTION_RAW, j)
      ensures Nth(m, p, end, EFI_SECTION_RAW, j) ==
        if raw && j == 0 then Some(SectionAt(m, p))
        else Nth(m, NextSection(m, p), end, EFI_SECTION_RAW, if raw then j - 1 else j)
    {
      assert raw && j > 0 ==> FindsType(m, NextSection(m, p), end, EFI_SECTION_RAW, j - 1);
      TypeStep(m, p, end, EFI_SECTION_RAW, j);
    }
  }

  lemma InstancesLater(m: Memory, p: nat, end: nat, signature: Guid, k: nat)
    requires p < end && !DatabaseAt(m, p, signature) && EndsAtInstance(m, p, end, signature, k)
    ensures SectionSize(m, p) > 0 && (m(p + 3) == EFI_SECTION_RAW ==> k > 0)
    ensures
      var k' := if m(p + 3) == EFI_SECTION_RAW then k - 1 else k;
      && EndsAtInstance(m, NextSection(m, p), end, signature, k')
      && Nth(m, p, end, EFI_SECTION_RAW, k) == Nth(m, NextSection(m, p), end, EFI_SECTION_RAW, k')
  {
    hide NextSection, SectionSize, HoldsDatabase, SectionAt, FindsType, Nth;
    var raw := m(p + 3) == EFI_SECTION_RAW;
    assert FindsType(m, p, end, EFI_SECTION_RAW, 0);
    TypeStep(m, p, end, EFI_SECTION_RAW, 0);
    TypeStep(m, p, end, EFI_SECTION_RAW, k);
    if SectionSize(m, p) == 0 {
      SizelessSectionIsFound(m, p, end, k);
      assert false;
    }
    forall j: nat | j <= if raw then k - 1 else k
      ensures FindsType(m, NextSection(m, p), end, EFI_SECTION_RAW, j)
      ensures Nth(m, p, end, EFI_SECTION_RAW, if raw then j + 1 else j) ==
              Nth(m, NextSection(m, p), end, EFI_SECTION_RAW, j)
    {
      assert FindsType(m, p, end, EFI_SECTION_RAW, if raw then j + 1 else j);
      TypeStep(m, p, end, EFI_SECTION_RAW, if raw then j + 1 else j);
    }
  }

  /** The data of the first RAW section with the signature; None if and only if no section before the end is one. */
  ghost predicate IsFirstDatabase(m: Memory, p: nat, end: nat, signature: Guid, found: Option<(nat, nat)>) {
    exists n: nat :: IsDatabaseAfter(m, p, end, signature, found, n)
  }

  ghost predicate IsDatabaseAfter(m: Memory, p: nat, end: nat, signature: Guid, found: Option<(nat, nat)>, n: nat) {
    && (forall i: nat :: i < n ==> Position(m, p, i) < end && !DatabaseAt(m, Position(m, p, i), signature))
    && var q := Position(m, p, n);
       match found
       case None => q >= end
       case Some((data, size)) => q < end && DatabaseAt(m, q, signature)
                                  && data == DataStart(SectionAt(m, q)) && size == DataSize(SectionAt(m, q))
  }

  function DataOf(s: Option<Section>): Option<(nat, nat)> {
    if s.None? then None else Some((DataStart(s.value), DataSize(s.value)))
  }

  /** A RAW section without a size and without the signature holds the caller up: every single call returns it. */
  lemma SizelessRawIsAskedForForever(m: Memory, p: nat, end: nat, signature: Guid)
    requires p < end && SectionSize(m, p) == 0 && m(p + 3) == EFI_SECTION_RAW && !DatabaseAt(m, p, signature)
    ensures forall k: nat ::
      FindsType(m, p, end, EFI_SECTION_RAW, k) && Nth(m, p, end, EFI_SECTION_RAW, k) == Some(SectionAt(m, p))
    ensures !FindsDatabase(m, p, end, signature) && forall k: nat :: !EndsAtInstance(m, p, end, signature, k)
  {
    hide SectionSize, SectionAt, HoldsDatabase;
    forall k: nat
      ensures FindsType(m, p, end, EFI_SECTION_RAW, k)
      ensures Nth(m, p, end, EFI_SECTION_RAW, k) == Some(SectionAt(m, p))
    {
      SizelessSectionIsFound(m, p, end, k);
    }
    FindsDatabaseIff(m, p, end, signature);
  }

  lemma {:induction false} LastInstanceIsFirst(m: Memory, p: nat, end: nat, signature: Guid, k: nat)
    requires FindsDatabase(m, p, end, signature) && EndsAtInstance(m, p, end, signature, k)
    ensures IsFirstDatabase(m, p, end, signature, DataOf(Nth(m, p, end, EFI_SECTION_RAW, k)))
    decreases end - p
  {
    hide NextSection, SectionSize, HoldsDatabase, SectionAt;
    if p >= end || DatabaseAt(m, p, signature) {
      assert Position(m, p, 0) == p;
      assert FindsType(m, p, end, EFI_SECTION_RAW, 0);
      assert k > 0 ==> Nth(m, p, end, EFI_SECTION_RAW, 0).Some?;
      assert IsDatabaseAfter(m, p, end, signature, DataOf(Nth(m, p, end, EFI_SECTION_RAW, k)), 0);
    } else {
      var next, k' := NextSection(m, p), if m(p + 3) == EFI_SECTION_RAW then k - 1 else k;
      InstancesLater(m, p, end, signature, k);
      LastInstanceIsFirst(m, next, end, signature, k');
      FirstBefore(m, p, end, signature, DataOf(Nth(m, next, end, EFI_SECTION_RAW, k')));
    }
  }

  lemma FirstBefore(m: Memory, p: nat, end: nat, signature: Guid, found: Option<(nat, nat)>)
    requires p < end && !DatabaseAt(m, p, signature) && IsFirstDatabase(m, NextSection(m, p), end, signature, found)
    ensures IsFirstDatabase(m, p, end, signature, found)
  {
    hide NextSection, DatabaseAt, SectionAt;
    var next := NextSection(m, p);
    var n: nat :| IsDatabaseAfter(m, next, end, signature, found, n);
    forall i: nat | i < n + 1
      ensures Position(m, p, i) < end && !DatabaseAt(m, Position(m, p, i), signature)
    {
      if i > 0 {
        assert Position(m, p, i) == Position(m, next, i - 1);
      }
    }
    assert Position(m, p, n + 1) == Position(m, next, n);
    assert IsDatabaseAfter(m, p, end, signature, found, n + 1);
  }

  /** The loop of GetImagePcdDbFromAddress over RAW instances, on every content on which it ends. */
  method FindDatabase(m: Memory, start: nat, size: Uint32, signature: Guid) returns (found: Option<(nat, nat)>)
    requires FindsDatabase(m, start, start + size, signature)
    ensures IsFirstDatabase(m, start, start + size, signature, found)
  {
    hide FindsDatabase, FindsType, Nth, IsNth, IsFirstDatabase, SectionAt, HoldsDatabase;
    ghost var end := start + size;
    FindsDatabaseIff(m, start, end, signature);
    ghost var last: nat :| EndsAtInstance(m, start, end, signature, last);
    LastInstanceIsFirst(m, start, end, signature, last);
    var instance: nat := 0;
    while true
      invariant instance <= last
      decreases last - instance
    {
      var section := GetSectionByType(m, start, size, EFI_SECTION_RAW, instance);
      if section.None? {
        return None;
      }
      if HoldsDatabase(m, section.value, signature) {
        return Some((DataStart(section.value), DataSize(section.value)));
      }
      instance := instance + 1;
    }
  }

  lemma DatabaseOnce(m: Memory, p: nat, end: nat, signature: Guid, a: Option<(nat, nat)>, b: Option<(nat, nat)>)
    requires IsFirstDatabase(m, p, end, signature, a) && IsFirstDatabase(m, p, end, signature, b)
    ensures a == b
  {
    hide DatabaseAt, Position, SectionAt;
    var n: nat :| IsDatabaseAfter(m, p, end, signature, a, n);
    var n': nat :| IsDatabaseAfter(m, p, end, signature, b, n');
    assert n == n';
  }
}
