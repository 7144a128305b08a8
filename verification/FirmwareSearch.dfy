/** Finding the PCD database of a driver in a firmware volume (PcdDump.c; PI specification Volume 3, sections
    3.2.1 and 3.2.3): volume and file headers are stepped over by their sizes. */
module FirmwareSearch {
  import opened Bytes
  import opened FlatMemory
  import opened Options
  import opened FirmwareSections
  import opened Walks

  /* ---------- files ---------- */

  const FFS_HEADER := 24
  const FFS_HEADER2 := 32
  const FILETYPE_ALL: Byte := 0

  /** EFI_FFS_FILE_HEADER: Name, IntegrityCheck, Type, Attributes, Size[3], State; FFS_ATTRIB_LARGE_FILE is bit 0. */
  predicate IsFfsFile2(m: Memory, p: nat) {
    m(p + 19) % 2 == 1
  }

  function FileSize(m: Memory, p: nat): Uint32 {
    if IsFfsFile2(m, p) then U32(m, p + FFS_HEADER) else U24(m, p + 20)
  }

  predicate Matches(m: Memory, p: nat, name: Guid, fileType: Byte) {
    GuidAt(m, p) == name && (fileType == FILETYPE_ALL || m(p + 18) == fileType)
  }

  /** Erased flash: all ones or all zeros, by the polarity of the volume. */
  predicate Erased(m: Memory, polarity: Byte, p: nat, n: nat) {
    forall i :: 0 <= i < n ==> Read(m, p, n)[i] == if polarity == 1 then 0xFF else 0
  }

  method IsBufferErased(m: Memory, erasePolarity: Byte, p: nat, bufferSize: nat) returns (erased: bool)
    ensures erasePolarity == 1 ==> (erased <==> forall b <- Read(m, p, bufferSize) :: b == 0xFF)
    ensures erasePolarity != 1 ==> (erased <==> forall b <- Read(m, p, bufferSize) :: b == 0)
    ensures erased <==> Erased(m, erasePolarity, p, bufferSize)
  {
    var eraseByte: Byte := if erasePolarity == 1 then 0xFF else 0;
    var count := 0;
    while count < bufferSize
      invariant 0 <= count <= bufferSize
      invariant forall i :: 0 <= i < count ==> Read(m, p, bufferSize)[i] == eraseByte
    {
      assert Read(m, p, bufferSize)[count] == m(p + count);
      if m(p + count) != eraseByte {
        assert m(p + count) in Read(m, p, bufferSize);
        return false;
      }
      count := count + 1;
    }
    return true;
  }

  /** The file loop stops at the end of the volume, less one byte, or where a header's worth of bytes is erased. */
  predicate NoMoreFiles(m: Memory, p: nat, end: nat) {
    p + 1 >= end || Erased(m, 1, p, if end - p > FFS_HEADER then FFS_HEADER else end - p)
  }

  /** The alignment is done in 32 bits, so a size above 2^32 - 8 wraps to 0. */
  function NextFile(m: Memory, p: nat): (next: nat)
    ensures next >= p
    ensures next > p <==> 0 < FileSize(m, p) <= TWO32 - 8
  {
    p + AlignUp(FileSize(m, p), 8) % TWO32
  }

  /** The file loop gets somewhere: every file before the match can be stepped over. */
  predicate FindsFile(m: Memory, p: nat, end: nat, name: Guid, fileType: Byte)
    decreases end - p
  {
    NoMoreFiles(m, p, end) || Matches(m, p, name, fileType) ||
    (NextFile(m, p) > p && FindsFile(m, NextFile(m, p), end, name, fileType))
  }

  ghost function FileLoop(m: Memory): nat -> nat {
    (p: nat) => NextFile(m, p)
  }

  ghost function FileExit(m: Memory, end: nat, name: Guid, fileType: Byte): nat -> bool {
    (p: nat) => NoMoreFiles(m, p, end) || Matches(m, p, name, fileType)
  }

  /** FindsFile is the exact condition for the file loop of GetFfsByName to end. */
  lemma {:induction false} FindsFileIff(m: Memory, p: nat, end: nat, name: Guid, fileType: Byte)
    ensures Ends(FileLoop(m), FileExit(m, end, name, fileType), p) <==> FindsFile(m, p, end, name, fileType)
    decreases end - p
  {
    hide NextFile, FileSize, Erased, Matches;
    var next, stop := FileLoop(m), FileExit(m, end, name, fileType);
    Unfold(next, stop, p);
    if !stop(p) {
      if NextFile(m, p) > p {
        FindsFileIff(m, NextFile(m, p), end, name, fileType);
      } else {
        assert next(p) == p;
        StuckNeverEnds(next, stop, p);
      }
    }
  }

  /** The file met first, of those that match; None if the loop comes to its end. */
  ghost predicate IsFirstFile(m: Memory, p: nat, end: nat, name: Guid, fileType: Byte, found: Option<nat>) {
    exists n: nat ::
      && (forall i: nat :: i < n ==>
            !NoMoreFiles(m, Step(FileLoop(m), p, i), end) && !Matches(m, Step(FileLoop(m), p, i), name, fileType))
      && var q := Step(FileLoop(m), p, n);
         match found
         case None => NoMoreFiles(m, q, end)
         case Some(f) => q == f && !NoMoreFiles(m, q, end) && Matches(m, q, name, fileType)
  }

  lemma FirstFileAfter(m: Memory, p: nat, end: nat, name: Guid, fileType: Byte, n: nat)
    requires EndsAfter(FileLoop(m), FileExit(m, end, name, fileType), p, n)
    ensures
      var q := Step(FileLoop(m), p, n);
      IsFirstFile(m, p, end, name, fileType, if NoMoreFiles(m, q, end) then None else Some(q))
  {
    hide NoMoreFiles, Matches, NextFile;
    var stop := FileExit(m, end, name, fileType);
    forall i: nat | i < n
      ensures !NoMoreFiles(m, Step(FileLoop(m), p, i), end) && !Matches(m, Step(FileLoop(m), p, i), name, fileType)
    {
      assert !stop(Step(FileLoop(m), p, i));
    }
    assert stop(Step(FileLoop(m), p, n));
  }

  lemma FirstFileOnce(m: Memory, p: nat, end: nat, name: Guid, fileType: Byte, a: Option<nat>, b: Option<nat>)
    requires IsFirstFile(m, p, end, name, fileType, a) && IsFirstFile(m, p, end, name, fileType, b)
    ensures a == b
  {
    hide NoMoreFiles, Matches, FileLoop, Step;
  }

  /** The file loop of GetFfsByName, on every volume on which it ends. */
  method FindInVolume(m: Memory, first: nat, end: nat, name: Guid, fileType: Byte) returns (found: Option<nat>)
    requires FindsFile(m, first, end, name, fileType)
    ensures IsFirstFile(m, first, end, name, fileType, found)
  {
    hide Matches, Erased, FileSize, NextFile, IsFirstFile, Step, EndsAfter;
    FindsFileIff(m, first, end, name, fileType);
    ghost var n := Iterations(FileLoop(m), FileExit(m, end, name, fileType), first);
    FirstFileAfter(m, first, end, name, fileType, n);
    ghost var left: nat := n;
    var ffs: nat := first;
    while ffs + 1 < end
      invariant EndsAfter(FileLoop(m), FileExit(m, end, name, fileType), ffs, left)
      invariant Step(FileLoop(m), ffs, left) == Step(FileLoop(m), first, n)
      decreases left
    {
      Later(FileLoop(m), FileExit(m, end, name, fileType), ffs, left);
      StepNone(FileLoop(m), ffs);
      var erased := IsBufferErased(m, 1, ffs, if end - ffs > FFS_HEADER then FFS_HEADER else end - ffs);
      if erased {
        return None;
      }
      if Matches(m, ffs, name, fileType) {
        return Some(ffs);
      }
      ffs := NextFile(m, ffs);
      left := left - 1;
    }
    Later(FileLoop(m), FileExit(m, end, name, fileType), ffs, left);
    StepNone(FileLoop(m), ffs);
    return None;
  }

  /** A file without a size is never left, unless it is the one asked for. */
  lemma SizelessFileIsNeverLeft(m: Memory, p: nat, end: nat, name: Guid, fileType: Byte)
    requires !NoMoreFiles(m, p, end) && !Matches(m, p, name, fileType) && FileSize(m, p) == 0
    ensures !FindsFile(m, p, end, name, fileType)
    ensures !Ends(FileLoop(m), FileExit(m, end, name, fileType), p)
  {
    hide NoMoreFiles, Matches, FileSize;
    FindsFileIff(m, p, end, name, fileType);
  }

  /** In memory full of zeros, which is not erased, the search for any name but the zero GUID does not end. */
  lemma ZerosAreNeverLeft(name: Guid)
    requires name != ZERO_GUID
    ensures !FindsFile(_ => 0, 0, 64, name, FILETYPE_ALL)
  {
    ZerosAreAFile(_ => 0, name);
    SizelessFileIsNeverLeft(_ => 0, 0, 64, name, FILETYPE_ALL);
  }

  lemma ZerosAreAFile(m: Memory, name: Guid)
    requires name != ZERO_GUID && forall p: nat :: m(p) == 0
    ensures !NoMoreFiles(m, 0, 64) && !Matches(m, 0, name, FILETYPE_ALL) && FileSize(m, 0) == 0
  {
    assert Read(m, 0, FFS_HEADER)[0] == 0;
    UnLeZeros(Read(m, 20, 3));
    var guid := GuidAt(m, 0);
    assert forall i :: 0 <= i < 16 ==> guid[i] == ZERO_GUID[i];
    assert guid == ZERO_GUID;
  }

  /* ---------- volumes ---------- */

  const FVH_SIGNATURE: nat := 0x4856465F
  const SIZE_4KB := 0x1000

  /** EFI_FIRMWARE_VOLUME_HEADER: FvLength at 32, Signature at 40, HeaderLength at 48, ExtHeaderOffset at 52. */
  predicate IsVolume(m: Memory, fv: nat) {
    U32(m, fv + 40) == FVH_SIGNATURE
  }

  function FvLength(m: Memory, fv: nat): UintN {
    U64(m, fv + 32)
  }

  function FirstFile(m: Memory, fv: nat): (p: nat)
    ensures p >= fv
  {
    var ext := U16(m, fv + 52);
    fv + AlignUp(if ext != 0 then ext + U32(m, fv + ext + 16) else U16(m, fv + 48), 8)
  }

  /** The file loop on the volume at fv ends, and what it finds. */
  predicate FindsInVolume(m: Memory, fv: nat, name: Guid, fileType: Byte) {
    FindsFile(m, FirstFile(m, fv), fv + FvLength(m, fv), name, fileType)
  }

  ghost predicate IsFirstInVolume(m: Memory, fv: nat, name: Guid, fileType: Byte, found: Option<nat>) {
    IsFirstFile(m, FirstFile(m, fv), fv + FvLength(m, fv), name, fileType, found)
  }

  /** What an iteration of the volume loop does at p: leave the loop with no result, search the volume, or go on. */
  datatype Visit = Leave | Search | GoOn

  function VisitOf(m: Memory, p: nat, end: nat): Visit {
    if p + 1 >= end then Leave
    else if !IsVolume(m, p) then GoOn
    else if FvLength(m, p) > end - p then Leave
    else Search
  }

  function NextVolume(m: Memory, p: nat): nat {
    if IsVolume(m, p) then p + FvLength(m, p) else p + SIZE_4KB
  }

  ghost function VolumeLoop(m: Memory): nat -> nat {
    (p: nat) => NextVolume(m, p)
  }

  /** The iteration at p is completed without a result. */
  ghost predicate Passes(m: Memory, p: nat, end: nat, name: Guid, fileType: Byte) {
    || VisitOf(m, p, end).GoOn?
    || (VisitOf(m, p, end).Search?
        && FindsInVolume(m, p, name, fileType) && IsFirstInVolume(m, p, name, fileType, None))
  }

  /** The iteration at p is the last, with the given result. */
  ghost predicate Finishes(m: Memory, p: nat, end: nat, name: Guid, fileType: Byte, found: Option<nat>) {
    || (VisitOf(m, p, end).Leave? && found.None?)
    || (VisitOf(m, p, end).Search? && found.Some?
        && FindsInVolume(m, p, name, fileType) && IsFirstInVolume(m, p, name, fileType, found))
  }

  /** GetFfsByName returns found after n iterations that completed without a result. */
  ghost predicate ReturnsAfter(m: Memory, p: nat, end: nat, name: Guid, fileType: Byte, found: Option<nat>, n: nat) {
    && (forall i: nat :: i < n ==> Passes(m, Step(VolumeLoop(m), p, i), end, name, fileType))
    && Finishes(m, Step(VolumeLoop(m), p, n), end, name, fileType, found)
  }

  ghost predicate Returns(m: Memory, p: nat, end: nat, name: Guid, fileType: Byte, found: Option<nat>) {
    exists n: nat :: ReturnsAfter(m, p, end, name, fileType, found, n)
  }

  /** Both loops of GetFfsByName get somewhere: on every volume searched the file loop ends, and every volume left
      without a match has a length. */
  ghost predicate FindsOnDevice(m: Memory, p: nat, end: nat, name: Guid, fileType: Byte)
    decreases end - p
  {
    match VisitOf(m, p, end)
    case Leave => true
    case GoOn => FindsOnDevice(m, p + SIZE_4KB, end, name, fileType)
    case Search =>
      && FindsInVolume(m, p, name, fileType)
      && (IsFirstInVolume(m, p, name, fileType, None) ==>
            FvLength(m, p) > 0 && FindsOnDevice(m, p + FvLength(m, p), end, name, fileType))
  }

  lemma VolumeResult(m: Memory, fv: nat, name: Guid, fileType: Byte) returns (found: Option<nat>)
    requires FindsInVolume(m, fv, name, fileType)
    ensures IsFirstInVolume(m, fv, name, fileType, found)
  {
    hide Matches, NoMoreFiles, NextFile, FindsFile, IsFirstFile, FirstFile;
    var end := fv + FvLength(m, fv);
    FindsFileIff(m, FirstFile(m, fv), end, name, fileType);
    var n := Iterations(FileLoop(m), FileExit(m, end, name, fileType), FirstFile(m, fv));
    FirstFileAfter(m, FirstFile(m, fv), end, name, fileType, n);
    var q := Step(FileLoop(m), FirstFile(m, fv), n);
    found := if NoMoreFiles(m, q, end) then None else Some(q);
  }

  /** FindsOnDevice is the exact condition for GetFfsByName to return. */
  lemma {:induction false} FindsOnDeviceIff(m: Memory, p: nat, end: nat, name: Guid, fileType: Byte)
    ensures FindsOnDevice(m, p, end, name, fileType) <==>
            exists found: Option<nat> :: Returns(m, p, end, name, fileType, found)
    decreases end - p
  {
    hide FindsInVolume, IsFirstInVolume, IsVolume, FvLength, Returns;
    if VisitOf(m, p, end).Leave? {
      ReturnsHere(m, p, end, name, fileType, None);
    } else if VisitOf(m, p, end).Search? && FindsInVolume(m, p, name, fileType)
              && !IsFirstInVolume(m, p, name, fileType, None)
    {
      var found := VolumeResult(m, p, name, fileType);
      ReturnsHere(m, p, end, name, fileType, found);
    } else if Passes(m, p, end, name, fileType) {
      NotFinished(m, p, end, name, fileType);
      if NextVolume(m, p) > p {
        FindsOnDeviceIff(m, NextVolume(m, p), end, name, fileType);
        forall found: Option<nat>
          ensures Returns(m, p, end, name, fileType, found) <==>
                  Returns(m, NextVolume(m, p), end, name, fileType, found)
        {
          ReturnsLater(m, p, end, name, fileType, found);
        }
      } else {
        forall found: Option<nat>
          ensures !Returns(m, p, end, name, fileType, found)
        {
          NeverReturns(m, p, end, name, fileType, found);
        }
      }
    } else {
      forall found: Option<nat>
        ensures !Returns(m, p, end, name, fileType, found)
      {
        NeverReturns(m, p, end, name, fileType, found);
      }
    }
  }

  lemma ReturnsHere(m: Memory, p: nat, end: nat, name: Guid, fileType: Byte, found: Option<nat>)
    requires Finishes(m, p, end, name, fileType, found)
    ensures Returns(m, p, end, name, fileType, found)
  {
    hide Finishes, Passes;
    StepNone(VolumeLoop(m), p);
    assert ReturnsAfter(m, p, end, name, fileType, found, 0);
  }

  /** A completed iteration is not the last one: the first file of a volume is unique. */
  lemma NotFinished(m: Memory, p: nat, end: nat, name: Guid, fileType: Byte)
    requires Passes(m, p, end, name, fileType)
    ensures forall found: Option<nat> :: !Finishes(m, p, end, name, fileType, found)
  {
    hide VisitOf, FindsInVolume, IsFirstFile;
    forall found: Option<nat> | found.Some? && IsFirstInVolume(m, p, name, fileType, None)
      ensures !IsFirstInVolume(m, p, name, fileType, found)
    {
      if IsFirstInVolume(m, p, name, fileType, found) {
        FirstFileOnce(m, FirstFile(m, p), p + FvLength(m, p), name, fileType, None, found);
      }
    }
  }

  lemma ReturnsLater(m: Memory, p: nat, end: nat, name: Guid, fileType: Byte, found: Option<nat>)
    requires Passes(m, p, end, name, fileType) && !Finishes(m, p, end, name, fileType, found)
    ensures Returns(m, p, end, name, fileType, found) <==> Returns(m, NextVolume(m, p), end, name, fileType, found)
  {
    hide Passes, Finishes, NextVolume, ReturnsAfter;
    if n: nat :| ReturnsAfter(m, p, end, name, fileType, found, n) {
      OneIterationLess(m, p, end, name, fileType, found, n);
    }
    if n: nat :| ReturnsAfter(m, NextVolume(m, p), end, name, fileType, found, n) {
      OneIterationMore(m, p, end, name, fileType, found, n);
    }
  }

  lemma OneIterationLess(m: Memory, p: nat, end: nat, name: Guid, fileType: Byte, found: Option<nat>, n: nat)
    requires !Finishes(m, p, end, name, fileType, found) && ReturnsAfter(m, p, end, name, fileType, found, n)
    ensures n > 0 && ReturnsAfter(m, NextVolume(m, p), end, name, fileType, found, n - 1)
  {
    hide Passes, Finishes, NextVolume;
    var next := VolumeLoop(m);
    StepNone(next, p);
    forall i: nat | i < n - 1
      ensures Passes(m, Step(next, next(p), i), end, name, fileType)
    {
      assert Step(next, p, i + 1) == Step(next, next(p), i);
    }
    assert n > 0 ==> Step(next, p, n) == Step(next, next(p), n - 1);
  }

  lemma OneIterationMore(m: Memory, p: nat, end: nat, name: Guid, fileType: Byte, found: Option<nat>, n: nat)
    requires Passes(m, p, end, name, fileType) && ReturnsAfter(m, NextVolume(m, p), end, name, fileType, found, n)
    ensures ReturnsAfter(m, p, end, name, fileType, found, n + 1)
  {
    hide Passes, Finishes, NextVolume;
    var next := VolumeLoop(m);
    StepNone(next, p);
    forall i: nat | i < n + 1
      ensures Passes(m, Step(next, p, i), end, name, fileType)
    {
      if i > 0 {
        assert Step(next, p, i) == Step(next, next(p), i - 1);
      }
    }
    assert Step(next, p, n + 1) == Step(next, next(p), n);
  }

  /** Stuck at p, or inside the volume at p. */
  lemma NeverReturns(m: Memory, p: nat, end: nat, name: Guid, fileType: Byte, found: Option<nat>)
    requires !Finishes(m, p, end, name, fileType, found)
    requires !Passes(m, p, end, name, fileType) || NextVolume(m, p) == p
    ensures !Returns(m, p, end, name, fileType, found)
  {
    hide Passes, Finishes, NextVolume, ReturnsAfter;
    forall n: nat
      ensures !ReturnsAfter(m, p, end, name, fileType, found, n)
    {
      if ReturnsAfter(m, p, end, name, fileType, found, n) {
        ReturnsFirst(m, p, end, name, fileType, found, n);
      }
    }
  }

  lemma ReturnsFirst(m: Memory, p: nat, end: nat, name: Guid, fileType: Byte, found: Option<nat>, n: nat)
    requires ReturnsAfter(m, p, end, name, fileType, found, n)
    ensures n == 0 || NextVolume(m, p) == p ==> Finishes(m, p, end, name, fileType, found)
    ensures n > 0 ==> Passes(m, p, end, name, fileType)
  {
    hide Passes, Finishes, NextVolume;
    var next := VolumeLoop(m);
    StepNone(next, p);
    if n > 0 {
      assert Passes(m, Step(next, p, 0), end, name, fileType);
    }
    if NextVolume(m, p) == p {
      assert next(p) == p;
      Stays(next, p, n);
    }
  }

  /** The first file of that name, and type unless any will do, in the volumes between fdStart and its end, on
      every device on which the search returns. */
  method GetFfsByName(m: Memory, fdStart: nat, fdSize: nat, name: Guid, fileType: Byte)
    returns (found: Option<nat>, size: nat)
    requires fdStart + fdSize > 0 && FindsOnDevice(m, fdStart, fdStart + fdSize, name, fileType)
    ensures Returns(m, fdStart, fdStart + fdSize, name, fileType, found)
    ensures found.Some? ==> size == FileSize(m, found.value)
  {
    hide Returns, FvLength, FirstFile, IsVolume, FindsFile, IsFirstFile, Step;
    var end := fdStart + fdSize;
    size := 0;
    var fv := fdStart;
    ghost var n: nat := 0;
    StepNone(VolumeLoop(m), fdStart);
    while fv < end - 1
      invariant FindsOnDevice(m, fv, end, name, fileType)
      invariant fv == Step(VolumeLoop(m), fdStart, n)
      invariant forall i: nat :: i < n ==> Passes(m, Step(VolumeLoop(m), fdStart, i), end, name, fileType)
      decreases end - fv
    {
      StepOnce(VolumeLoop(m), fdStart, n);
      if !IsVolume(m, fv) {
        fv := fv + SIZE_4KB;
        n := n + 1;
        continue;
      }
      if FvLength(m, fv) > end - fv {
        ReturnsAfterAll(m, fdStart, end, name, fileType, None, n);
        return None, 0;
      }
      found := FindInVolume(m, FirstFile(m, fv), fv + FvLength(m, fv), name, fileType);
      if found.Some? {
        ReturnsAfterAll(m, fdStart, end, name, fileType, found, n);
        return found, FileSize(m, found.value);
      }
      fv := fv + FvLength(m, fv);
      n := n + 1;
    }
    ReturnsAfterAll(m, fdStart, end, name, fileType, None, n);
    return None, 0;
  }

  lemma ReturnsAfterAll(m: Memory, p: nat, end: nat, name: Guid, fileType: Byte, found: Option<nat>, n: nat)
    requires forall i: nat :: i < n ==> Passes(m, Step(VolumeLoop(m), p, i), end, name, fileType)
    requires Finishes(m, Step(VolumeLoop(m), p, n), end, name, fileType, found)
    ensures Returns(m, p, end, name, fileType, found)
  {
    hide Passes, Finishes, Step;
    assert ReturnsAfter(m, p, end, name, fileType, found, n);
  }

  /** A volume without a length is never left. */
  lemma LengthlessVolumeIsNeverLeft(m: Memory, p: nat, end: nat, name: Guid, fileType: Byte)
    requires p + 1 < end && IsVolume(m, p) && FvLength(m, p) == 0
    ensures !FindsOnDevice(m, p, end, name, fileType)
    ensures forall found: Option<nat> :: !Returns(m, p, end, name, fileType, found)
  {
    hide IsVolume, FvLength, FirstFile, Returns, Step;
    StepNone(FileLoop(m), FirstFile(m, p));
    assert NoMoreFiles(m, FirstFile(m, p), p);
    assert IsFirstInVolume(m, p, name, fileType, None);
    FindsOnDeviceIff(m, p, end, name, fileType);
  }

  /** A header of zeros but for the signature at 40. */
  function LengthlessVolume(): Memory {
    (p: nat) =>
      if p == 40 then 0x5F else if p == 41 then 0x46 else if p == 42 then 0x56 else if p == 43 then 0x48 else 0
  }

  lemma LengthlessVolumeExample(name: Guid)
    ensures !FindsOnDevice(LengthlessVolume(), 0, 0x2000, name, FILETYPE_ALL)
  {
    hide IsVolume, FvLength, FindsOnDevice, LengthlessVolume, Returns;
    var m := LengthlessVolume();
    LengthlessHeader(m);
    LengthlessVolumeIsNeverLeft(m, 0, 0x2000, name, FILETYPE_ALL);
  }

  lemma LengthlessHeader(m: Memory)
    requires m == LengthlessVolume()
    ensures IsVolume(m, 0) && FvLength(m, 0) == 0
  {
    var s := Read(m, 40, 4);
    assert s == [0x5F, 0x46, 0x56, 0x48];
    assert s[0..4] == s && s[3..] == [0x48] && s[2..] == [0x56, 0x48] && s[1..] == [0x46, 0x56, 0x48];
    assert UnLe([0x48]) == 0x48;
    assert UnLe(s[2..]) == 0x56 + 256 * UnLe(s[2..][1..]) == 0x4856;
    assert UnLe(s[1..]) == 0x46 + 256 * UnLe(s[1..][1..]) == 0x485646;
    UnLeZeros(Read(m, 32, 8)[0..8]);
  }

  /* ---------- the PCD database of an image ---------- */

  function FileHeaderSize(m: Memory, f: nat): nat {
    if IsFfsFile2(m, f) then FFS_HEADER2 else FFS_HEADER
  }

  function ContentStart(m: Memory, f: nat): nat {
    f + FileHeaderSize(m, f)
  }

  /** The content length handed on as a UINT32. */
  function ContentSize(m: Memory, f: nat): Uint32 {
    (FileSize(m, f) - FileHeaderSize(m, f)) % TWO32
  }

  predicate FindsInFile(m: Memory, f: nat, signature: Guid) {
    FindsDatabase(m, ContentStart(m, f), ContentStart(m, f) + ContentSize(m, f), signature)
  }

  ghost predicate IsFirstInFile(m: Memory, f: nat, signature: Guid, found: Option<(nat, nat)>) {
    IsFirstDatabase(m, ContentStart(m, f), ContentStart(m, f) + ContentSize(m, f), signature, found)
  }

  /** Searching a volume as if it were a whole device looks at just that volume's files. */
  lemma OneVolume(m: Memory, fv: nat, name: Guid, fileType: Byte, found: Option<nat>)
    requires IsVolume(m, fv) && FindsInVolume(m, fv, name, fileType)
    ensures FindsOnDevice(m, fv, fv + FvLength(m, fv), name, fileType)
    ensures Returns(m, fv, fv + FvLength(m, fv), name, fileType, found) <==>
            IsFirstInVolume(m, fv, name, fileType, found)
  {
    hide IsVolume, FvLength, FindsInVolume, IsFirstInVolume, Returns;
    var end := fv + FvLength(m, fv);
    var result := VolumeResult(m, fv, name, fileType);
    InVolumeOnce(m, fv, name, fileType, result);
    assert VisitOf(m, end, end).Leave?;
    ReturnsIff(m, end, end, name, fileType, found);
    if fv + 1 >= end {
      TinyVolume(m, fv, name, fileType);
      ReturnsIff(m, fv, end, name, fileType, found);
    } else if result.Some? {
      ReturnsIff(m, fv, end, name, fileType, found);
    } else {
      NotFinished(m, fv, end, name, fileType);
      ReturnsLater(m, fv, end, name, fileType, found);
    }
  }

  lemma InVolumeOnce(m: Memory, fv: nat, name: Guid, fileType: Byte, found: Option<nat>)
    requires IsFirstInVolume(m, fv, name, fileType, found)
    ensures forall other: Option<nat> :: IsFirstInVolume(m, fv, name, fileType, other) ==> other == found
  {
    hide IsFirstFile;
    forall other: Option<nat> | IsFirstInVolume(m, fv, name, fileType, other)
      ensures other == found
    {
      FirstFileOnce(m, FirstFile(m, fv), fv + FvLength(m, fv), name, fileType, other, found);
    }
  }

  /** Where the iteration cannot be completed without a result, the result is that of this iteration. */
  lemma ReturnsIff(m: Memory, p: nat, end: nat, name: Guid, fileType: Byte, found: Option<nat>)
    requires !Passes(m, p, end, name, fileType)
    ensures Returns(m, p, end, name, fileType, found) <==> Finishes(m, p, end, name, fileType, found)
  {
    hide Passes, Finishes, Returns;
    if Finishes(m, p, end, name, fileType, found) {
      ReturnsHere(m, p, end, name, fileType, found);
    } else {
      NeverReturns(m, p, end, name, fileType, found);
    }
  }

  /** Less than two bytes hold no file. */
  lemma TinyVolume(m: Memory, fv: nat, name: Guid, fileType: Byte)
    requires fv + 1 >= fv + FvLength(m, fv)
    ensures IsFirstInVolume(m, fv, name, fileType, None)
  {
    hide FvLength, FirstFile, Step, Erased;
    StepNone(FileLoop(m), FirstFile(m, fv));
    assert NoMoreFiles(m, FirstFile(m, fv), fv + FvLength(m, fv));
  }

  /** What GetImagePcdDbFromAddress is for: the database is that of the earliest RAW section with the signature in
      the first file of that name; nothing is found if and only if there is no such file or no such section. */
  ghost predicate IsImagePcdDb(m: Memory, fv: nat, image: Guid, signature: Guid, found: Option<(nat, nat)>) {
    exists file: Option<nat> ::
      && IsFirstInVolume(m, fv, image, FILETYPE_ALL, file)
      && match file
         case None => found == None
         case Some(f) => IsFirstInFile(m, f, signature, found)
  }

  /** Some((data, size)) for EFI_SUCCESS, None for EFI_NOT_FOUND; on every volume on which the search ends. */
  method GetImagePcdDbFromAddress(m: Memory, image: Guid, fv: nat, signature: Guid) returns (found: Option<(nat, nat)>)
    requires fv + FvLength(m, fv) > 0
    requires IsVolume(m, fv) ==> FindsInVolume(m, fv, image, FILETYPE_ALL)
    requires forall f ::
      IsVolume(m, fv) && IsFirstInVolume(m, fv, image, FILETYPE_ALL, Some(f)) ==> FindsInFile(m, f, signature)
    ensures !IsVolume(m, fv) ==> found == None
    ensures IsVolume(m, fv) ==> IsImagePcdDb(m, fv, image, signature, found)
  {
    hide IsVolume, FvLength, FindsInVolume, IsFirstInVolume, FindsDatabase, IsFirstDatabase, FindsOnDevice, Returns;
    if !IsVolume(m, fv) {
      return None;
    }
    OneVolume(m, fv, image, FILETYPE_ALL, None);
    var file, size := GetFfsByName(m, fv, FvLength(m, fv), image, FILETYPE_ALL);
    OneVolume(m, fv, image, FILETYPE_ALL, file);
    if file.None? {
      return None;
    }
    found := FindDatabase(m, ContentStart(m, file.value), ContentSize(m, file.value), signature);
  }

  /** There is only one answer. */
  lemma ImagePcdDbOnce(m: Memory, fv: nat, image: Guid, signature: Guid, a: Option<(nat, nat)>, b: Option<(nat, nat)>)
    requires IsImagePcdDb(m, fv, image, signature, a) && IsImagePcdDb(m, fv, image, signature, b)
    ensures a == b
  {
    hide IsFirstDatabase, IsFirstInVolume, ContentStart, ContentSize;
    var file: Option<nat> :| IsFirstInVolume(m, fv, image, FILETYPE_ALL, file)
      && match file case None => a == None case Some(f) => IsFirstInFile(m, f, signature, a);
    InVolumeOnce(m, fv, image, FILETYPE_ALL, file);
    if file.Some? {
      var start, size := ContentStart(m, file.value), ContentSize(m, file.value);
      DatabaseOnce(m, start, start + size, signature, a, b);
    }
  }
}
