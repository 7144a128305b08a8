/** The heuristic of MemoryTypeInfo.c that sizes memory types for the next boot, with its 32-bit arithmetic. */
module MemoryTypes {
  import opened Bytes
  import opened Options

  const EFI_MAX_MEMORY_TYPE: Uint32 := 15

  datatype MemoryType = MemoryType(kind: Uint32, pages: Uint32)

  /** 150% and 125% of the need, as 32-bit sums. */
  function OneAndAHalf(current: Uint32): Uint32 { (current as int + current / 2) % TWO32 }

  function OneAndAQuarter(current: Uint32): Uint32 { (current as int + current / 4) % TWO32 }

  /** The pages to preallocate next time, given the pages needed and preallocated this time. */
  function Next(current: Uint32, previous: Uint32, defaultSettings: bool): Uint32 {
    var next :=
      if OneAndAHalf(current) < previous then (if defaultSettings then OneAndAQuarter(current) else previous)
      else if current > previous then OneAndAQuarter(current)
      else previous;
    if 0 < next < 4 then 4 else next
  }

  /** The result is enough exactly when: 150% of the need fits 32 bits; or 125% does and it is what is used; or
      the old value is kept, because the wrapped 150% is below it, and it is enough. */
  lemma EnoughIff(current: Uint32, previous: Uint32, defaultSettings: bool)
    ensures Next(current, previous, defaultSettings) >= current <==>
      || current <= 0xAAAA_AAAA
      || (if OneAndAHalf(current) < previous && !defaultSettings then previous >= current else current <= 0xCCCC_CCCC)
  {
    assert current <= 0xAAAA_AAAA <==> current as int + current / 2 < TWO32;
    assert current <= 0xCCCC_CCCC <==> current as int + current / 4 < TWO32;
  }

  /** The design, wherever 150% of the need fits 32 bits: 125% of the need when too little was preallocated, or when
      more than 150% was and the boot mode is default settings; otherwise what was preallocated; but never 1 to 3. */
  lemma NextFollowsDesign(current: Uint32, previous: Uint32, defaultSettings: bool)
    requires current <= 0xAAAA_AAAA
    ensures
      var c: nat, p: nat := current, previous;
      var pages := if c > p || (defaultSettings && 2 * p > 3 * c) then 5 * c / 4 else p;
      Next(current, previous, defaultSettings) == if 1 <= pages <= 3 then 4 else pages
  {
    Percentages(current, previous);
    hide OneAndAHalf, OneAndAQuarter;
  }

  lemma Percentages(current: Uint32, previous: Uint32)
    requires current <= 0xAAAA_AAAA
    ensures
      var c: nat, p: nat := current, previous;
      OneAndAQuarter(current) == 5 * c / 4 && (OneAndAHalf(current) < previous <==> 2 * p > 3 * c)
  {
    var c: nat := current;
    var q, r := c / 4, c % 4;
    assert c == 4 * q + r && c / 2 == 2 * q + r / 2;
    assert 5 * c == 4 * (5 * q + r) + r;
  }

  /** 0xE0000000 pages needed and 1 preallocated: fewer than half of them are proposed. */
  lemma WrapProposesTooLittle()
    ensures Next(0xE000_0000, 1, false) == 0x1800_0000 < 0xE000_0000
  {
  }

  /** Never 1, 2 or 3 pages, and stable: with the same need and boot mode a second round changes nothing. */
  lemma NextIsStable(current: Uint32, previous: Uint32, defaultSettings: bool)
    ensures
      var next := Next(current, previous, defaultSettings);
      (next == 0 || next >= 4) && Next(current, next, defaultSettings) == next
  {
  }

  /* ---------- over whole tables ---------- */

  /** A table ends at its first EfiMaxMemoryType entry. */
  ghost predicate Terminated(table: seq<MemoryType>) {
    exists i :: 0 <= i < |table| && table[i].kind == EFI_MAX_MEMORY_TYPE
  }

  function TableLength(table: seq<MemoryType>): (n: nat)
    requires Terminated(table)
    ensures n < |table| && table[n].kind == EFI_MAX_MEMORY_TYPE
    ensures forall i :: 0 <= i < n ==> table[i].kind != EFI_MAX_MEMORY_TYPE
  {
    LengthFrom(table, 0)
  }

  function LengthFrom(table: seq<MemoryType>, from: nat): (n: nat)
    requires Terminated(table) && from <= |table| && forall i :: 0 <= i < from ==> table[i].kind != EFI_MAX_MEMORY_TYPE
    ensures n < |table| && table[n].kind == EFI_MAX_MEMORY_TYPE
    ensures forall i :: 0 <= i < n ==> table[i].kind != EFI_MAX_MEMORY_TYPE
    decreases |table| - from
  {
    if table[from].kind == EFI_MAX_MEMORY_TYPE then from else LengthFrom(table, from + 1)
  }

  /** The pages the current table gives for a type: its first entry of that type. */
  function Need(table: seq<MemoryType>, kind: Uint32): (need: Option<Uint32>)
    ensures need.None? <==> forall i :: 0 <= i < |table| ==> table[i].kind != kind
    ensures need.Some? ==> exists i :: 0 <= i < |table| && table[i] == MemoryType(kind, need.value)
                                    && forall j :: 0 <= j < i ==> table[j].kind != kind
  {
    if table == [] then None
    else if table[0].kind == kind then Some(table[0].pages)
    else
      var rest := Need(table[1..], kind);
      assert forall i :: 0 < i < |table| ==> table[i] == table[1..][i - 1];
      rest
  }

  /** An entry after the run. */
  function Adjusted(current: seq<MemoryType>, entry: MemoryType, defaultSettings: bool): MemoryType
    requires Terminated(current)
  {
    match Need(current[..TableLength(current)], entry.kind)
    case None => entry
    case Some(need) => entry.(pages := Next(need, entry.pages, defaultSettings))
  }

  function AdjustedTable(current: seq<MemoryType>, previous: seq<MemoryType>, defaultSettings: bool)
    : (r: seq<MemoryType>)
    requires Terminated(current) && Terminated(previous)
    ensures |r| == |previous|
    ensures forall i :: 0 <= i < TableLength(previous) ==> r[i] == Adjusted(current, previous[i], defaultSettings)
    ensures r[TableLength(previous)..] == previous[TableLength(previous)..]
  {
    seq(|previous|, i requires 0 <= i < |previous| =>
      if i < TableLength(previous) then Adjusted(current, previous[i], defaultSettings) else previous[i])
  }

  lemma AdjustedKeepsLength(current: seq<MemoryType>, previous: seq<MemoryType>, defaultSettings: bool)
    requires Terminated(current) && Terminated(previous)
    ensures
      var r := AdjustedTable(current, previous, defaultSettings);
      Terminated(r) && TableLength(r) == TableLength(previous)
  {
    var r, n := AdjustedTable(current, previous, defaultSettings), TableLength(previous);
    assert r[n..][0] == previous[n..][0];
    assert r[n].kind == EFI_MAX_MEMORY_TYPE;
    forall i | 0 <= i < n
      ensures r[i].kind == previous[i].kind
    {
    }
  }

  /** A second run with the same current table and boot mode changes nothing. */
  lemma SecondRunChangesNothing(current: seq<MemoryType>, previous: seq<MemoryType>, defaultSettings: bool)
    requires Terminated(current) && Terminated(previous)
    ensures
      var r := AdjustedTable(current, previous, defaultSettings);
      Terminated(r) && AdjustedTable(current, r, defaultSettings) == r
  {
    hide Next;
    var r, n := AdjustedTable(current, previous, defaultSettings), TableLength(previous);
    AdjustedKeepsLength(current, previous, defaultSettings);
    forall i | 0 <= i < n
      ensures Adjusted(current, r[i], defaultSettings) == r[i]
    {
      var need := Need(current[..TableLength(current)], previous[i].kind);
      if need.Some? {
        NextIsStable(need.value, previous[i].pages, defaultSettings);
      }
    }
  }

  /** Without 32-bit overflow, every matched entry covers its need and is 0 or at least 4 pages. */
  lemma EveryMatchIsCovered(current: seq<MemoryType>, previous: seq<MemoryType>, defaultSettings: bool, i: nat)
    requires Terminated(current) && Terminated(previous) && i < TableLength(previous)
    requires forall j :: 0 <= j < TableLength(current) ==> current[j].pages as int + current[j].pages / 2 < TWO32
    ensures
      var pages := AdjustedTable(current, previous, defaultSettings)[i].pages;
      match Need(current[..TableLength(current)], previous[i].kind)
      case None => pages == previous[i].pages
      case Some(need) => pages >= need && (pages == 0 || pages >= 4)
  {
    hide Next;
    var need := Need(current[..TableLength(current)], previous[i].kind);
    if need.Some? {
      var j :| 0 <= j < TableLength(current) && current[j] == MemoryType(previous[i].kind, need.value);
      EnoughIff(need.value, previous[i].pages, defaultSettings);
      NextIsStable(need.value, previous[i].pages, defaultSettings);
    }
  }

  method FindType(current: seq<MemoryType>, kind: Uint32) returns (index1: nat)
    requires Terminated(current) && kind != EFI_MAX_MEMORY_TYPE
    ensures index1 <= TableLength(current) && forall i :: 0 <= i < index1 ==> current[i].kind != kind
    ensures index1 < TableLength(current) ==> current[index1].kind == kind
  {
    index1 := 0;
    while current[index1].kind != EFI_MAX_MEMORY_TYPE
      invariant index1 <= TableLength(current) && forall i :: 0 <= i < index1 ==> current[i].kind != kind
      decreases TableLength(current) - index1
    {
      if kind == current[index1].kind {
        return;
      }
      index1 := index1 + 1;
    }
  }

  method DumpMemoryTypeInfoSummary(current: seq<MemoryType>, previous: array<MemoryType>, defaultSettings: bool)
    returns (modified: bool)
    requires Terminated(current) && Terminated(previous[..])
    modifies previous
    ensures previous[..] == AdjustedTable(current, old(previous[..]), defaultSettings)
    ensures modified <==> previous[..] != old(previous[..])
  {
    hide Next, Need, Terminated;
    ghost var was := previous[..];
    ghost var n := TableLength(was);
    modified := false;
    var index := 0;
    while previous[index].kind != EFI_MAX_MEMORY_TYPE
      invariant 0 <= index <= n
      invariant forall i :: 0 <= i < index ==> previous[i] == Adjusted(current, was[i], defaultSettings)
      invariant forall i :: index <= i < previous.Length ==> previous[i] == was[i]
      invariant modified <==> exists i :: 0 <= i < index && previous[i] != was[i]
      decreases n - index
    {
      var index1 := FindType(current, previous[index].kind);
      NeedIs(current, previous[index].kind, index1);
      if current[index1].kind != EFI_MAX_MEMORY_TYPE {
        var next := Next(current[index1].pages, previous[index].pages, defaultSettings);
        if next != previous[index].pages {
          previous[index] := previous[index].(pages := next);
          modified := true;
        }
      }
      index := index + 1;
    }
    assert previous[..] == AdjustedTable(current, was, defaultSettings);
    assert modified ==> previous[..] != was;
  }

  lemma NeedIs(current: seq<MemoryType>, kind: Uint32, index1: nat)
    requires Terminated(current) && index1 <= TableLength(current)
    requires forall i :: 0 <= i < index1 ==> current[i].kind != kind
    requires index1 < TableLength(current) ==> current[index1].kind == kind
    ensures Need(current[..TableLength(current)], kind) ==
            if index1 < TableLength(current) then Some(current[index1].pages) else None
  {
    var t := current[..TableLength(current)];
    if index1 < TableLength(current) {
      assert t[index1].kind == kind;
    }
  }
}
