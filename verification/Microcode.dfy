/** The checksums PatchMicrocode.c shows for a microcode update (Intel SDM Volume 3A, Microcode Update Facilities,
    section 9.11): one for header and data, one for the extended signature table, and one per entry of that table. */
module Microcode {
  import opened Bytes
  import opened Options

  /* CPU_MICROCODE_HEADER, as 32-bit words */
  const SIGNATURE := 3
  const CHECKSUM := 4
  const FLAGS := 6
  const DATA_SIZE := 7
  const TOTAL_SIZE := 8
  const HEADER_WORDS := 12
  const EXTENDED_HEADER_WORDS := 5  // ExtendedSignatureCount, ExtendedChecksum, Reserved[3]
  const ENTRY_WORDS := 3            // ProcessorSignature, ProcessorFlag, Checksum

  datatype Entry = Entry(signature: Uint32, flag: Uint32, checksum: Uint32)

  datatype Dump = Dump(checkSum: Uint32, extended: Option<Extended>)
  datatype Extended = Extended(checkSum: Uint32, entrySums: seq<Uint32>)

  function Sum(words: seq<Uint32>): nat {
    if words == [] then 0 else Sum(words[..|words| - 1]) + words[|words| - 1]
  }

  /** The sum of the words modulo 2^32. */
  function Sum32(words: seq<Uint32>): Uint32 {
    Sum(words) % TWO32
  }

  lemma {:induction false} SumUpdate(words: seq<Uint32>, k: nat, v: Uint32)
    requires k < |words|
    ensures Sum(words[k := v]) == Sum(words) - words[k] + v
  {
    var n := |words| - 1;
    if k == n {
      assert words[k := v][..n] == words[..n];
    } else {
      SumUpdate(words[..n], k, v);
      assert words[k := v][..n] == words[..n][k := v];
    }
  }

  /** CalculateSum32 of BaseLib: 32-bit additions. */
  method CalculateSum32(words: seq<Uint32>) returns (sum: Uint32)
    ensures sum == Sum32(words)
  {
    sum := 0;
    for i := 0 to |words|
      invariant sum == Sum32(words[..i])
    {
      assert words[..i + 1][..i] == words[..i];
      ModAdd(Sum(words[..i]), words[i]);
      var x: int := sum;
      sum := (x + words[i]) % TWO32;
    }
    assert words[..|words|] == words;
  }

  lemma ModAdd(a: int, b: int)
    ensures (a % TWO32 + b) % TWO32 == (a + b) % TWO32
  {
    assert a == TWO32 * (a / TWO32) + a % TWO32;
    ModShift(a % TWO32 + b, a / TWO32);
  }

  lemma ModShift(x: int, k: int)
    ensures (x + TWO32 * k) % TWO32 == x % TWO32
  {
  }

  /** Header and data: a DataSize of 0 stands for 2000 bytes. */
  function MainWords(image: seq<Uint32>): nat
    requires |image| >= HEADER_WORDS
  {
    HEADER_WORDS + (if image[DATA_SIZE] == 0 then 2000 / 4 else image[DATA_SIZE] / 4)
  }

  /** What the tool requires of the buffer: whole words, and the parts its sizes and counts announce. */
  predicate Valid(image: seq<Uint32>) {
    && |image| >= HEADER_WORDS
    && |image| >= MainWords(image)
    && image[DATA_SIZE] % 4 == 0
    && (HasExtended(image) ==>
          && image[TOTAL_SIZE] % 4 == 0 && MainWords(image) * 4 <= image[TOTAL_SIZE] <= |image| * 4
          && |image| >= MainWords(image) + EXTENDED_HEADER_WORDS
          && |image| >= MainWords(image) + EXTENDED_HEADER_WORDS + ENTRY_WORDS * EntryCount(image))
  }

  predicate HasExtended(image: seq<Uint32>)
    requires |image| >= HEADER_WORDS
  {
    image[DATA_SIZE] != 0 && image[TOTAL_SIZE] != image[DATA_SIZE] + 4 * HEADER_WORDS
  }

  function EntryCount(image: seq<Uint32>): nat
    requires |image| >= HEADER_WORDS
  {
    if MainWords(image) < |image| then image[MainWords(image)] else 0
  }

  function EntryAt(image: seq<Uint32>, i: nat): Entry
    requires Valid(image) && HasExtended(image) && i < EntryCount(image)
  {
    var p := MainWords(image) + EXTENDED_HEADER_WORDS + ENTRY_WORDS * i;
    Entry(image[p], image[p + 1], image[p + 2])
  }

  /** The update as it would be for the entry's processor: header and data with the entry's fields put in. */
  function Substituted(image: seq<Uint32>, e: Entry): (words: seq<Uint32>)
    requires Valid(image)
    ensures |words| == MainWords(image)
  {
    image[..MainWords(image)][SIGNATURE := e.signature][FLAGS := e.flag][CHECKSUM := e.checksum]
  }

  lemma SubstitutedSum(image: seq<Uint32>, e: Entry)
    requires Valid(image)
    ensures Sum(Substituted(image, e)) ==
      Sum(image[..MainWords(image)]) - image[SIGNATURE] - image[FLAGS] - image[CHECKSUM]
      + e.signature + e.flag + e.checksum
  {
    hide Sum;
    var s := image[..MainWords(image)];
    SumUpdate(s, SIGNATURE, e.signature);
    SumUpdate(s[SIGNATURE := e.signature], FLAGS, e.flag);
    SumUpdate(s[SIGNATURE := e.signature][FLAGS := e.flag], CHECKSUM, e.checksum);
  }

  /** Three 32-bit additions (or subtractions) in a row. */
  lemma ModAdd3(a: int, x: int, y: int, z: int)
    ensures (((a % TWO32 + x) % TWO32 + y) % TWO32 + z) % TWO32 == (a + x + y + z) % TWO32
  {
    ModAdd(a, x);
    ModAdd(a + x, y);
    ModAdd(a + x + y, z);
  }

  /** A partial checksum with three more words added, each addition in 32 bits. */
  method AddThree(inComplete: Uint32, x: int, y: int, z: int, ghost total: int) returns (sum: Uint32)
    requires inComplete == total % TWO32
    ensures sum == (total + x + y + z) % TWO32
  {
    var s: int := inComplete;
    s := (s + x) % TWO32;
    s := (s + y) % TWO32;
    s := (s + z) % TWO32;
    ModAdd3(total, x, y, z);
    sum := s;
  }

  method DumpMicrocode(image: seq<Uint32>) returns (dump: Dump)
    requires Valid(image)
    ensures dump.checkSum == Sum32(image[..MainWords(image)])
    ensures dump.extended.Some? <==> HasExtended(image)
    ensures dump.extended.Some? ==>
      && dump.extended.value.checkSum == Sum32(image[MainWords(image)..image[TOTAL_SIZE] / 4])
      && |dump.extended.value.entrySums| == EntryCount(image)
      && forall i :: 0 <= i < EntryCount(image) ==>
           dump.extended.value.entrySums[i] == Sum32(Substituted(image, EntryAt(image, i)))
  {
    hide Sum, Substituted;
    var main := MainWords(image);
    ghost var total := Sum(image[..main]);
    var signature: int, flags: int, checksum: int := image[SIGNATURE], image[FLAGS], image[CHECKSUM];
    var sum := CalculateSum32(image[..main]);
    var inComplete := AddThree(sum, -signature, -flags, -checksum, total);
    ghost var partial := total - signature - flags - checksum;
    var checkSum := AddThree(inComplete, signature, flags, checksum, partial);
    if image[DATA_SIZE] == 0 {
      return Dump(checkSum, None);
    }
    if image[TOTAL_SIZE] == image[DATA_SIZE] + 4 * HEADER_WORDS {
      return Dump(checkSum, None);
    }
    var extended := CalculateSum32(image[main..image[TOTAL_SIZE] / 4]);
    var entrySums: seq<Uint32> := [];
    for index := 0 to EntryCount(image)
      invariant |entrySums| == index
      invariant forall i :: 0 <= i < index ==> entrySums[i] == Sum32(Substituted(image, EntryAt(image, i)))
    {
      var e := EntryAt(image, index);
      var x := AddThree(inComplete, e.signature, e.flag, e.checksum, partial);
      SubstitutedSum(image, e);
      entrySums := entrySums + [x];
    }
    return Dump(checkSum, Some(Extended(extended, entrySums)));
  }

  /** The substituted update differs from the original in the three header words only. */
  lemma SubstitutedWords(image: seq<Uint32>, e: Entry, k: nat)
    requires Valid(image) && k < MainWords(image)
    ensures Substituted(image, e)[k] ==
      if k == 3 then e.signature
      else if k == 6 then e.flag
      else if k == 4 then e.checksum
      else image[k]
  {
  }
}
