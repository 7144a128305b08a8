/** The image table both sides of the SMM dump keep (SmmCoreDump.c on the SMM side,
    SmmCoreDumpApp.c in the shell), and the two ways of naming the owner of an address. */
module SmmImages {
  import opened Bytes

  type Char16 = c: int | 0 <= c < 0x1_0000

  const NAME_STRING_LENGTH := 35

  /** NameString[NAME_STRING_LENGTH + 1] */
  type Name = n: seq<Char16> | |n| == NAME_STRING_LENGTH + 1 witness seq(36, _ => 0)

  const UNKNOWN_NAME: seq<Char16> := [63, 63, 63]  // L"???"
  const NOT_FOUND: UintN := TWO64 - 1              // (UINTN)-1

  datatype Image = Image(
    fileGuid: Guid,
    entryPoint: UintN,
    imageBase: UintN,
    imageSize: UintN,
    loadedImageBase: UintN,
    name: Name)

  const ZERO_NAME: Name :=
    [0, 0, 0, 0, 0, 0, 0, 0, 0, 0, 0, 0, 0, 0, 0, 0, 0, 0,
     0, 0, 0, 0, 0, 0, 0, 0, 0, 0, 0, 0, 0, 0, 0, 0, 0, 0]

  const ZERO_IMAGE: Image := Image(ZERO_GUID, 0, 0, 0, 0, ZERO_NAME)

  /** The characters of a C string: everything before the first NUL. */
  function CString(s: seq<Char16>): (r: seq<Char16>)
    ensures |r| <= |s| && r == s[..|r|] && 0 !in r
    ensures |r| < |s| ==> s[|r|] == 0
  {
    if s == [] || s[0] == 0 then [] else [s[0]] + CString(s[1..])
  }

  /** StrnCpyS into a zeroed NameString: at most 35 characters, zero padded. */
  function CopyName(s: seq<Char16>): (n: Name) {
    var c := CString(s);
    var k := if |c| < NAME_STRING_LENGTH then |c| else NAME_STRING_LENGTH;
    c[..k] + seq(NAME_STRING_LENGTH + 1 - k, _ => 0)
  }

  lemma {:induction false} CStringUnique(s: seq<Char16>, k: nat)
    requires k < |s| && s[k] == 0 && forall i :: 0 <= i < k ==> s[i] != 0
    ensures CString(s) == s[..k]
  {
    if k > 0 {
      CStringUnique(s[1..], k - 1);
      assert s[..k] == [s[0]] + s[1..][..k - 1];
    }
  }

  /** A name field holds the characters of the name, or the first 35 of them, and then only NULs. */
  lemma CopyNameHolds(s: seq<Char16>)
    ensures
      var c := CString(s);
      CString(CopyName(s)) == if |c| <= 35 then c else c[..35]
    ensures forall i :: |CString(s)| <= i < 36 ==> CopyName(s)[i] == 0
  {
    var c := CString(s);
    var k := if |c| < NAME_STRING_LENGTH then |c| else NAME_STRING_LENGTH;
    var n := CopyName(s);
    forall i | 0 <= i < k
      ensures n[i] != 0
    {
      assert n[i] == c[i] && c[i] in c;
    }
    CStringUnique(n, k);
    assert n[..k] == c[..k];
  }

  /** A name already in the table survives being copied again. */
  lemma CopyNameIdempotent(s: seq<Char16>)
    ensures CopyName(CopyName(s)) == CopyName(s)
  {
    hide CString;
    CopyNameHolds(s);
    CopyNameHolds(CopyName(s));
  }

  /** The address is base + k with k below size. A range whose end wraps around the address space is empty. */
  predicate Inside(base: UintN, size: UintN, address: UintN) {
    0 <= address - base < size && base + size < TWO64
  }

  predicate Covers(image: Image, address: UintN) {
    Inside(image.imageBase, image.imageSize, address)
  }

  /** The test AddressToImageRef and AddressToImageName make, with 64-bit addition. */
  lemma WrappingTest(base: UintN, size: UintN, address: UintN)
    ensures base <= address < (base + size) % TWO64 <==> Inside(base, size, address)
  {
  }

  function FirstCovering(images: seq<Image>, address: UintN, from: nat): (r: nat)
    requires from <= |images|
    ensures from <= r <= |images|
    ensures forall i :: from <= i < r ==> !Covers(images[i], address)
    ensures r < |images| ==> Covers(images[r], address)
    decreases |images| - from
  {
    if from == |images| || Covers(images[from], address) then from
    else FirstCovering(images, address, from + 1)
  }

  /** The index AddressToImageRef returns: the first covering image, or (UINTN)-1. */
  function ImageRef(images: seq<Image>, address: UintN): (r: UintN)
    requires |images| < NOT_FOUND
  {
    var i := FirstCovering(images, address, 0);
    if i < |images| then i else NOT_FOUND
  }

  /** The name the SMM side finds directly from the address. */
  function ImageName(images: seq<Image>, address: UintN): seq<Char16> {
    var i := FirstCovering(images, address, 0);
    if i < |images| then CString(images[i].name) else UNKNOWN_NAME
  }

  /** Image r is the first to hold the address, or none does and r is (UINTN)-1. */
  ghost predicate FirstHolder(images: seq<Image>, address: UintN, r: UintN) {
    && (r == NOT_FOUND || r < |images|)
    && forall i :: 0 <= i < |images| && i <= r ==>
         (i == r <==> Inside(images[i].imageBase, images[i].imageSize, address))
  }

  lemma RefIsFirstHolder(images: seq<Image>, address: UintN)
    requires |images| < NOT_FOUND
    ensures FirstHolder(images, address, ImageRef(images, address))
  {
  }

  /** The name is that of the first image to hold the address, or "???" if none does. */
  ghost predicate NameOfHolder(images: seq<Image>, address: UintN, name: seq<Char16>) {
    exists r: UintN :: FirstHolder(images, address, r) &&
      (name == if r < |images| then CString(images[r].name) else UNKNOWN_NAME)
  }

  lemma NameIsOfHolder(images: seq<Image>, address: UintN)
    requires |images| < NOT_FOUND
    ensures NameOfHolder(images, address, ImageName(images, address))
  {
    hide FirstHolder;
    RefIsFirstHolder(images, address);
  }

  /** No address has two first holders. */
  lemma FirstHolderOnce(images: seq<Image>, address: UintN, r: UintN, r': UintN)
    requires |images| < NOT_FOUND && FirstHolder(images, address, r) && FirstHolder(images, address, r')
    ensures r == r'
  {
    var x := if r < |images| then [images[r]] else [];
    var y := if r' < |images| then [images[r']] else [];
  }

  /** The name the shell application reads through a transmitted reference. */
  function RefName(images: seq<Image>, ref: UintN): seq<Char16> {
    if ref >= |images| then UNKNOWN_NAME else CString(images[ref].name)
  }

  /** One entry of mProtocolFuncStruct. */
  datatype ProtocolFunc = ProtocolFunc(guid: Guid, funcOffset: nat)

  /** What the SMM side can see: its image table, memory as 64-bit loads, and mProtocolFuncStruct. */
  datatype Env = Env(images: seq<Image>, memory: UintN -> UintN, funcs: seq<ProtocolFunc>) {
    predicate Valid() {
      |images| < NOT_FOUND
    }

    /** The function pointer the "Ex" lookups fetch through the interface of a known protocol. */
    function Indirect(address: UintN, protocol: Guid, from: nat): (f: seq<UintN>)
      requires from <= |funcs|
      ensures |f| <= 1
      decreases |funcs| - from
    {
      if from == |funcs| then []
      else if funcs[from].guid == protocol then [memory((address + funcs[from].funcOffset) % TWO64)]
      else Indirect(address, protocol, from + 1)
    }

    function RefEx(address: UintN, protocol: Guid): UintN
      requires Valid()
    {
      var ref := ImageRef(images, address);
      var f := Indirect(address, protocol, 0);
      if ref != NOT_FOUND then ref
      else if f == [] then NOT_FOUND
      else ImageRef(images, f[0])
    }

    /** Entry k of mProtocolFuncStruct is the first of the protocol, or there is none and k is the number of entries. */
    predicate FirstFunc(protocol: Guid, k: nat) {
      && k <= |funcs| && (forall j :: 0 <= j < k ==> funcs[j].guid != protocol)
      && (k < |funcs| ==> funcs[k].guid == protocol)
    }

    /** The reference of an interface: the image that holds it, or else the image that holds the function whose
        pointer the interface keeps at the offset of the protocol's first entry in mProtocolFuncStruct. */
    ghost predicate LeadsTo(address: UintN, protocol: Guid, ref: UintN) {
      || (ref != NOT_FOUND && FirstHolder(images, address, ref))
      || (FirstHolder(images, address, NOT_FOUND) && exists k :: FirstFunc(protocol, k) && Through(address, k, ref))
    }

    ghost predicate Through(address: UintN, k: nat, ref: UintN)
      requires k <= |funcs|
    {
      if k == |funcs| then ref == NOT_FOUND
      else FirstHolder(images, memory((address + funcs[k].funcOffset) % TWO64), ref)
    }

    lemma {:induction false} IndirectIsFirst(address: UintN, protocol: Guid, from: nat) returns (k: nat)
      requires from <= |funcs| && forall j :: 0 <= j < from ==> funcs[j].guid != protocol
      ensures k <= |funcs| && FirstFunc(protocol, k)
      ensures Indirect(address, protocol, from) ==
        if k < |funcs| then [memory((address + funcs[k].funcOffset) % TWO64)] else []
      decreases |funcs| - from
    {
      if from == |funcs| || funcs[from].guid == protocol {
        k := from;
      } else {
        k := IndirectIsFirst(address, protocol, from + 1);
      }
    }

    lemma RefExLeads(address: UintN, protocol: Guid)
      requires Valid()
      ensures LeadsTo(address, protocol, RefEx(address, protocol))
    {
      hide ImageRef, FirstHolder, FirstFunc;
      RefIsFirstHolder(images, address);
      var k := IndirectIsFirst(address, protocol, 0);
      if k < |funcs| {
        RefIsFirstHolder(images, memory((address + funcs[k].funcOffset) % TWO64));
      }
    }

    function NameEx(address: UintN, protocol: Guid): seq<Char16> {
      var name := ImageName(images, address);
      var f := Indirect(address, protocol, 0);
      if name != UNKNOWN_NAME then name
      else if f == [] then UNKNOWN_NAME
      else ImageName(images, f[0])
    }

    /** The image covering the address is itself called "???", and the protocol's function pointer leads elsewhere. */
    predicate Misnamed(address: UintN, protocol: Guid) {
      var i := FirstCovering(images, address, 0);
      var f := Indirect(address, protocol, 0);
      i < |images| && CString(images[i].name) == UNKNOWN_NAME && f != [] && ImageName(images, f[0]) != UNKNOWN_NAME
    }
  }

  /** mImageStruct, mImageStructCountMax and mImageStructCount. */
  class ImageTable {
    var imageStruct: array<Image>
    var count: nat
    const keepsEntryPoint: bool  // SmmCoreDump.c stores EntryPoint, SmmCoreDumpApp.c drops it

    ghost predicate Valid()
      reads this, imageStruct
    {
      && count <= imageStruct.Length < NOT_FOUND
      && forall i :: count <= i < imageStruct.Length ==> imageStruct[i] == ZERO_IMAGE
    }

    ghost function Images(): seq<Image>
      reads this, imageStruct
      requires Valid()
    {
      imageStruct[..count]
    }

    constructor (countMax: nat, keepsEntryPoint: bool)
      requires countMax < NOT_FOUND
      ensures Valid() && fresh(imageStruct) && imageStruct.Length == countMax
      ensures this.keepsEntryPoint == keepsEntryPoint
      ensures Images() == []
    {
      imageStruct := new Image[countMax](_ => ZERO_IMAGE);
      count := 0;
      this.keepsEntryPoint := keepsEntryPoint;
    }

    method AddImageStruct(imageBase: UintN, imageSize: UintN, loadedImageBase: UintN, entryPoint: UintN,
                          nameString: seq<Char16>, guid: Guid)
      requires Valid()
      modifies this`count, imageStruct
      ensures Valid() && imageStruct == old(imageStruct)
      ensures Images() == old(Images()) +
        if old(count) < imageStruct.Length
        then [Image(guid, if keepsEntryPoint then entryPoint else 0, imageBase, imageSize, loadedImageBase,
                    CopyName(nameString))]
        else []
    {
      if count >= imageStruct.Length {
        return;
      }
      imageStruct[count] := Image(guid, if keepsEntryPoint then entryPoint else 0, imageBase, imageSize,
                                  loadedImageBase, CopyName(nameString));
      count := count + 1;
    }

    method AddressToImageRef(address: UintN) returns (ref: UintN)
      requires Valid()
      ensures ref == NOT_FOUND || ref < count
      ensures forall i :: 0 <= i < count && i <= ref ==>
        (i == ref <==> Inside(imageStruct[i].imageBase, imageStruct[i].imageSize, address))
      ensures ref == ImageRef(Images(), address)
    {
      hide Inside;
      var index := 0;
      while index < count
        invariant 0 <= index <= count
        invariant FirstCovering(Images(), address, 0) == FirstCovering(Images(), address, index)
        invariant forall i :: 0 <= i < index ==>
          !Inside(imageStruct[i].imageBase, imageStruct[i].imageSize, address)
      {
        WrappingTest(imageStruct[index].imageBase, imageStruct[index].imageSize, address);
        if imageStruct[index].imageBase <= address <
           (imageStruct[index].imageBase + imageStruct[index].imageSize) % TWO64
        {
          return index;
        }
        index := index + 1;
      }
      return NOT_FOUND;
    }

    method AddressToImageName(address: UintN) returns (name: seq<Char16>)
      requires Valid()
      ensures NameOfHolder(Images(), address, name)
      ensures name == ImageName(Images(), address)
    {
      hide Inside, NameOfHolder, CString;
      NameIsOfHolder(Images(), address);
      var index := 0;
      while index < count
        invariant 0 <= index <= count
        invariant FirstCovering(Images(), address, 0) == FirstCovering(Images(), address, index)
      {
        WrappingTest(imageStruct[index].imageBase, imageStruct[index].imageSize, address);
        if imageStruct[index].imageBase <= address <
           (imageStruct[index].imageBase + imageStruct[index].imageSize) % TWO64
        {
          return CString(imageStruct[index].name);
        }
        index := index + 1;
      }
      return UNKNOWN_NAME;
    }

    method AddressToImageRefEx(env: Env, address: UintN, protocol: Guid) returns (ref: UintN)
      requires Valid() && env.images == Images()
      ensures env.LeadsTo(address, protocol, ref) && ref == env.RefEx(address, protocol)
    {
      hide Inside, env.LeadsTo;
      env.RefExLeads(address, protocol);
      ref := AddressToImageRef(address);
      if ref != NOT_FOUND {
        return;
      }
      var index := 0;
      while index < |env.funcs|
        invariant 0 <= index <= |env.funcs|
        invariant env.Indirect(address, protocol, 0) == env.Indirect(address, protocol, index)
      {
        if env.funcs[index].guid == protocol {
          ref := AddressToImageRef(env.memory((address + env.funcs[index].funcOffset) % TWO64));
          return;
        }
        index := index + 1;
      }
      return NOT_FOUND;
    }

    method AddressToImageNameEx(env: Env, address: UintN, protocol: Guid) returns (name: seq<Char16>)
      requires Valid() && env.images == Images()
      ensures name == env.NameEx(address, protocol)
    {
      hide ImageName, NameOfHolder, CString;
      name := AddressToImageName(address);
      if name != UNKNOWN_NAME {
        return;
      }
      var index := 0;
      while index < |env.funcs|
        invariant 0 <= index <= |env.funcs|
        invariant env.Indirect(address, protocol, 0) == env.Indirect(address, protocol, index)
      {
        if env.funcs[index].guid == protocol {
          name := AddressToImageName(env.memory((address + env.funcs[index].funcOffset) % TWO64));
          return;
        }
        index := index + 1;
      }
      return UNKNOWN_NAME;
    }

    /** An entry not filled yet has an empty name. */
    method GetImageRefName(ref: UintN) returns (name: seq<Char16>)
      requires Valid()
      ensures name == if count <= ref < imageStruct.Length then [] else RefName(Images(), ref)
    {
      if ref >= imageStruct.Length {
        return UNKNOWN_NAME;
      }
      return CString(imageStruct[ref].name);
    }
  }

  /** The table the application rebuilds: the SMM table without the entry points. */
  function Transmitted(images: seq<Image>): seq<Image> {
    seq(|images|, i requires 0 <= i < |images| => images[i].(entryPoint := 0))
  }

  /** A reference means the same image on both sides, and not-found means unknown on both. */
  lemma RefNameAgrees(images: seq<Image>, address: UintN)
    requires |images| < NOT_FOUND
    ensures RefName(Transmitted(images), ImageRef(images, address)) == ImageName(images, address)
  {
  }

  /** The name seen by the application is that of AddressToImageNameEx if and only if the address is not misnamed;
      a misnamed address shows as unknown. */
  lemma RefNameExAgrees(env: Env, address: UintN, protocol: Guid)
    requires env.Valid()
    ensures
      var name := RefName(Transmitted(env.images), env.RefEx(address, protocol));
      && (name == env.NameEx(address, protocol) <==> !env.Misnamed(address, protocol))
      && (env.Misnamed(address, protocol) ==> name == UNKNOWN_NAME)
  {
  }

  /** An image loaded as for base 0x6000_0000 but standing at 0x7F00_0000: its bytes are those behind the latter. */
  lemma ImageBaseDecides(name: Name, address: UintN)
    requires CString(name) != UNKNOWN_NAME
    ensures
      var images := [Image(ZERO_GUID, 0, 0x7F00_0000, 0x1_0000, 0x6000_0000, name)];
      var inside := 0x7F00_0000 <= address <= 0x7F00_FFFF;
      && ImageRef(images, address) == (if inside then 0 else NOT_FOUND)
      && ImageName(images, address) == (if inside then CString(name) else UNKNOWN_NAME)
  {
    var images := [Image(ZERO_GUID, 0, 0x7F00_0000, 0x1_0000, 0x6000_0000, name)];
    assert FirstCovering(images, address, 0) == if Covers(images[0], address) then 0 else 1;
  }

  /** An image named "???" at 0x1000 holding a protocol whose function lies in an image named "A" at 0x4000. */
  function AnonymousImageEnv(): (env: Env)
    ensures env.Valid()
  {
    Env([Image(ZERO_GUID, 0, 0x1000, 0x1000, 0x4000, UNKNOWN_NAME + seq(33, _ => 0)),
         Image(ZERO_GUID, 0, 0x4000, 0x1000, 0x1000, [65] + seq(35, _ => 0))],
        _ => 0x4000,
        [ProtocolFunc(ZERO_GUID, 8)])
  }

  lemma RefNameExCanDisagree()
    ensures
      var env := AnonymousImageEnv();
      RefName(Transmitted(env.images), env.RefEx(0x1000, ZERO_GUID)) != env.NameEx(0x1000, ZERO_GUID)
  {
    var env := AnonymousImageEnv();
    var images := env.images;
    CStringUnique(images[0].name, 3);
    CStringUnique(images[1].name, 1);
    assert Covers(images[0], 0x1000) && !Covers(images[0], 0x4000) && Covers(images[1], 0x4000);
    assert FirstCovering(images, 0x4000, 0) == FirstCovering(images, 0x4000, 1) == 1;
    assert env.Indirect(0x1000, ZERO_GUID, 0) == [0x4000];
    assert images[1].name[..1] == [65];
    assert images[0].name[..3] == UNKNOWN_NAME;
    RefNameExAgrees(env, 0x1000, ZERO_GUID);
  }
}
