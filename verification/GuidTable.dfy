/** The GUID name table of SupportGuid.c, built by tokenizing Guid.xref in place: one entry per line whose
    first two fields are a GUID and a name. */
module GuidTables {
  import opened Bytes
  import opened Options
  import opened Tokens
  import opened Tokenizers

  const GUID_STRING_LENGTH_MAX := 64

  datatype GuidString = GuidString(guid: Guid, str: seq<Byte>)

  const FIELD_ENDS: seq<Byte> := [SPACE]

  /** "00000000-0000-0000-0000-000000000000" and "ZeroGuid" */
  const ZERO_GUID_TEXT: seq<Byte> := [48, 48, 48, 48, 48, 48, 48, 48, 45, 48, 48, 48, 48, 45, 48, 48, 48, 48, 45,
    48, 48, 48, 48, 45, 48, 48, 48, 48, 48, 48, 48, 48, 48, 48, 48, 48]
  const ZERO_GUID_NAME: seq<Byte> := [90, 101, 114, 111, 71, 117, 105, 100]

  /** AsciiStrnCpyS into a name field: the rest of a long name is dropped. */
  function Truncated(name: seq<Byte>): seq<Byte> {
    if |name| < GUID_STRING_LENGTH_MAX then name else name[..GUID_STRING_LENGTH_MAX - 1]
  }

  /** AsciiStrToGuid, left uninterpreted. */
  type Parser = seq<Byte> -> Option<Guid>

  function Entry(guidStr: seq<Byte>, nameStr: seq<Byte>, parse: Parser): Option<GuidString> {
    match parse(guidStr)
    case None => None
    case Some(guid) => Some(GuidString(guid, if guidStr == ZERO_GUID_TEXT then ZERO_GUID_NAME else Truncated(nameStr)))
  }

  predicate HasTwoFields(line: seq<Byte>) {
    |Split(line, FIELD_ENDS)| >= 2
  }

  /** What a line contributes to the table: its first two fields, if the first is a GUID. */
  function LineEntry(line: seq<Byte>, parse: Parser): Option<GuidString> {
    if HasTwoFields(line) then Entry(Split(line, FIELD_ENDS)[0], Split(line, FIELD_ENDS)[1], parse) else None
  }

  /** What the lines contribute, in order. */
  function Entries(lines: seq<seq<Byte>>, parse: Parser): seq<GuidString> {
    if lines == [] then []
    else
      var last := LineEntry(lines[|lines| - 1], parse);
      Entries(lines[..|lines| - 1], parse) + (if last.Some? then [last.value] else [])
  }

  lemma {:induction false} EntriesBounded(lines: seq<seq<Byte>>, parse: Parser)
    ensures |Entries(lines, parse)| <= |lines|
  {
    if lines != [] {
      EntriesBounded(lines[..|lines| - 1], parse);
    }
  }

  /** The name field of an entry: "ZeroGuid" for the text of the zero GUID, otherwise as much of the name as leaves room
      for the NUL. */
  ghost predicate NameFor(str: seq<Byte>, guidStr: seq<Byte>, nameStr: seq<Byte>) {
    if guidStr == ZERO_GUID_TEXT then str == ZERO_GUID_NAME
    else |str| <= 63 && str <= nameStr && (|str| < 63 ==> str == nameStr)
  }

  /** The entry is made from the first two fields of the line: the GUID the first stands for and the name the second
      is. */
  ghost predicate MadeFrom(entry: GuidString, line: seq<Byte>, parse: Parser) {
    var fields := Split(line, FIELD_ENDS);
    |fields| >= 2 && parse(fields[0]) == Some(entry.guid) && NameFor(entry.str, fields[0], fields[1])
  }

  ghost predicate HasEntry(line: seq<Byte>, parse: Parser) {
    exists entry :: MadeFrom(entry, line, parse)
  }

  /** Entry k is made from line at[k], the lines chosen are in order, and they are all the lines that have an entry. */
  ghost predicate ChosenLines(table: seq<GuidString>, lines: seq<seq<Byte>>, parse: Parser, at: seq<nat>) {
    && |at| == |table|
    && (forall k :: 0 <= k < |at| ==> at[k] < |lines| && MadeFrom(table[k], lines[at[k]], parse))
    && (forall j, k :: 0 <= j < k < |at| ==> at[j] < at[k])
    && (forall i :: 0 <= i < |lines| && HasEntry(lines[i], parse) ==> i in at)
  }

  lemma LineEntryIsMade(line: seq<Byte>, parse: Parser)
    ensures
      match LineEntry(line, parse)
      case Some(entry) => MadeFrom(entry, line, parse)
      case None => !HasEntry(line, parse)
  {
  }

  /** One more line, with its entry if it has one. */
  lemma ChosenNext(table: seq<GuidString>, lines: seq<seq<Byte>>, parse: Parser, at: seq<nat>, line: seq<Byte>)
    requires ChosenLines(table, lines, parse, at)
    ensures !HasEntry(line, parse) ==> ChosenLines(table, lines + [line], parse, at)
    ensures forall entry :: MadeFrom(entry, line, parse) ==>
      ChosenLines(table + [entry], lines + [line], parse, at + [|lines|])
  {
    hide MadeFrom, HasEntry;
    assert forall i :: 0 <= i < |lines| ==> (lines + [line])[i] == lines[i];
    forall entry | MadeFrom(entry, line, parse)
      ensures ChosenLines(table + [entry], lines + [line], parse, at + [|lines|])
    {
      var at' := at + [|lines|];
      assert at'[|at|] == |lines|;
      forall i | 0 <= i < |lines + [line]| && HasEntry((lines + [line])[i], parse)
        ensures i in at'
      {
        if i < |lines| {
          assert i in at;
        }
      }
    }
  }

  /** The entries are those of the lines that have one, in order. */
  lemma {:induction false} EntriesAreChosen(lines: seq<seq<Byte>>, parse: Parser) returns (at: seq<nat>)
    ensures ChosenLines(Entries(lines, parse), lines, parse, at)
  {
    if lines == [] {
      at := [];
    } else {
      var n := |lines| - 1;
      at := EntriesAreChosen(lines[..n], parse);
      hide MadeFrom, HasEntry, LineEntry, ChosenLines;
      LineEntryIsMade(lines[n], parse);
      ChosenNext(Entries(lines[..n], parse), lines[..n], parse, at, lines[n]);
      assert lines[..n] + [lines[n]] == lines;
      if LineEntry(lines[n], parse).Some? {
        at := at + [n];
      } else {
        assert Entries(lines[..n], parse) + [] == Entries(lines[..n], parse);
      }
    }
  }

  /** The lines of a file: the tokenizer stops at the first NUL, or at the one appended to the file. */
  function Text(file: seq<Byte>): seq<Byte> {
    Str(file + [0, 0], 0)
  }

  function Lines(file: seq<Byte>): seq<seq<Byte>> {
    Split(Text(file), LINE_ENDS)
  }

  function Capacity(file: seq<Byte>): nat {
    CountLf(file) + 1
  }

  /** Some line with two fields is reached with the table already full: the source asserts there. */
  ghost predicate Overflows(file: seq<Byte>, parse: Parser) {
    exists i :: 0 <= i < |Lines(file)| && HasTwoFields(Lines(file)[i])
                && |Entries(Lines(file)[..i], parse)| >= Capacity(file)
  }

  /** The text is a prefix of the file, up to its first NUL. */
  lemma TextIsPrefix(file: seq<Byte>)
    ensures |Text(file)| <= |file| && Text(file) == file[..|Text(file)|]
    ensures |Text(file)| == |file| || file[|Text(file)|] == 0
  {
    assert (file + [0, 0])[|file|] == 0;
  }

  /** If every CR is followed by LF, the table sized by counting LFs is large enough. */
  lemma CapacitySuffices(file: seq<Byte>, parse: Parser)
    requires CrLfText(Text(file))
    ensures |Entries(Lines(file), parse)| <= Capacity(file)
    ensures !Overflows(file, parse)
  {
    hide Split, CountLf, Entries;
    var k := |Text(file)|;
    TextIsPrefix(file);
    hide Text;
    LinesBounded(Text(file));
    EntriesBounded(Lines(file), parse);
    assert file == file[..k] + file[k..];
    CountLfAppend(file[..k], file[k..]);
    forall i | 0 <= i < |Lines(file)|
      ensures |Entries(Lines(file)[..i], parse)| < Capacity(file)
    {
      EntriesBounded(Lines(file)[..i], parse);
    }
  }

  /** A file with a lone CR: two lines with a GUID and a name each, room for one. */
  lemma LoneCrOverflows(guid: Guid)
    ensures Overflows([65, SPACE, 66, CR, 65, SPACE, 67], _ => Some(guid))
  {
    hide Split, StrEnd;
    var a: seq<Byte>, b: seq<Byte> := [65, SPACE, 66], [65, SPACE, 67];
    var file: seq<Byte> := [65, SPACE, 66, CR, 65, SPACE, 67];
    var parse: Parser := _ => Some(guid);
    StrEndIs(file + [0, 0], 0, 7);
    assert Text(file) == file == a + [CR] + b;
    TwoWords(65, 66);
    TwoWords(65, 67);
    SplitDistributes(a, CR, b, LINE_ENDS);
    assert Lines(file) == [a, b];
    CountLfNone(file);
    assert Lines(file)[..1] == [a];
    assert Entries([a], parse) == Entries([a][..0], parse) + [LineEntry(a, parse).value];
    assert HasTwoFields(Lines(file)[1]);
  }

  lemma TwoWords(x: Byte, y: Byte)
    requires x > SPACE && y > SPACE
    ensures Split([x, SPACE, y], FIELD_ENDS) == [[x], [y]]
    ensures Split([x, SPACE, y], LINE_ENDS) == [[x, SPACE, y]]
  {
    SplitDistributes([x], SPACE, [y], FIELD_ENDS);
    assert [x] + [SPACE] + [y] == [x, SPACE, y];
    OneWord([x], FIELD_ENDS);
    OneWord([y], FIELD_ENDS);
    OneWord([x, SPACE, y], LINE_ENDS);
  }

  /** A line of two words stands for the GUID of the first under the name of the second. */
  lemma TwoWordLine(x: Byte, y: Byte, parse: Parser)
    requires x > SPACE && y > SPACE
    ensures LineEntry([x, SPACE, y], parse) ==
      match parse([x]) case None => None case Some(guid) => Some(GuidString(guid, [y]))
  {
    hide Split;
    TwoWords(x, y);
  }

  lemma OneWord(t: seq<Byte>, d: seq<Byte>)
    requires t != [] && forall b <- t :: b !in d
    ensures Split(t, d) == [t]
  {
    hide Split;
    SplitWhole(t, d);
  }

  lemma {:induction false} CountLfNone(t: seq<Byte>)
    requires LF !in t
    ensures CountLf(t) == 0
  {
    if t != [] {
      CountLfNone(t[1..]);
    }
  }

  /* ---------- one line ---------- */

  /** A string is not affected by changes behind its NUL. */
  lemma StrUntouched(s: seq<Byte>, s': seq<Byte>, p: nat, lo: nat, hi: nat)
    requires Terminated(s) && Terminated(s') && p < |s| && StrEnd(s, p) < lo && SameOutside(s, s', lo, hi)
    ensures Str(s', p) == Str(s, p)
  {
    StrEndIs(s', p, StrEnd(s, p));
    assert s'[p..StrEnd(s, p)] == s[p..StrEnd(s, p)];
  }

  /** The second call's changes are inside the line as well. */
  lemma WithinLine(s1: seq<Byte>, line: nat, s2: seq<Byte>, next: nat, s3: seq<Byte>)
    requires Terminated(s1) && Terminated(s2) && |s2| == |s1| && line <= next < |s1|
    requires SameOutside(s1, s2, line, StrEnd(s1, line)) && next <= StrEnd(s1, line)
    requires SameOutside(s2, s3, next, StrEnd(s2, next))
    ensures SameOutside(s1, s3, line, StrEnd(s1, line))
  {
    EndStays(s1, line, s2, next);
    SameOutsideStep(s1, s2, s3, line, StrEnd(s1, line), next, StrEnd(s2, next));
  }

  /** Two field calls on a line find its first two fields, and touch only the line's own bytes. */
  lemma FieldsOfLine(s1: seq<Byte>, line: nat, s2: seq<Byte>, guid: int, next: int,
                     s3: seq<Byte>, name: int, next': int)
    requires Terminated(s1) && line < |s1|
    requires TakesPiece(s1, line, s2, guid, next, FIELD_ENDS)
    requires TakesPiece(s2, next, s3, name, next', FIELD_ENDS)
    ensures |s3| == |s1| && Terminated(s3)
    ensures SameOutside(s1, s3, line, StrEnd(s1, line))
    ensures guid != NULL && name != NULL <==> HasTwoFields(Str(s1, line))
    ensures guid != NULL && name != NULL ==>
      [Str(s3, guid), Str(s3, name)] == Split(Str(s1, line), FIELD_ENDS)[..2]
  {
    hide Split, SameOutside;
    SplitEmpty(FIELD_ENDS);
    if next == NULL {
      assert Rest(s2, next) == [];
    } else {
      StrUntouched(s2, s3, guid, next, StrEnd(s2, next));
      WithinLine(s1, line, s2, next, s3);
      if name != NULL {
        var pieces := Split(Str(s1, line), FIELD_ENDS);
        assert pieces[1..][0] == pieces[1];
        assert pieces[..2] == [pieces[0], pieces[1]];
      }
    }
  }

  /** The line loop holds line i at tok, the rest behind next. */
  ghost predicate AtLine(s: seq<Byte>, tok: int, next: int, lines: seq<seq<Byte>>, i: nat) {
    && Terminated(s) && NULL <= tok < |s| && NULL <= next < |s|
    && (tok == NULL ==> i == |lines|)
    && (tok != NULL ==>
          && i < |lines| && Str(s, tok) == lines[i] && Split(Rest(s, next), LINE_ENDS) == lines[i + 1..]
          && (next != NULL ==> StrEnd(s, tok) < next))
  }

  lemma FirstLine(s: seq<Byte>, s': seq<Byte>, tok: int, next: int, lines: seq<seq<Byte>>)
    requires Terminated(s) && lines == Split(Str(s, 0), LINE_ENDS)
    requires TakesPiece(s, 0, s', tok, next, LINE_ENDS)
    ensures AtLine(s', tok, next, lines, 0)
  {
    hide Split;
  }

  /** Cutting fields out of a line leaves the lines behind it as they were. */
  lemma NextLine(s: seq<Byte>, tok: nat, next: int, lines: seq<seq<Byte>>, i: nat, s1: seq<Byte>,
                 s2: seq<Byte>, tok': int, next': int)
    requires AtLine(s, tok, next, lines, i) && Terminated(s1) && SameOutside(s, s1, tok, StrEnd(s, tok))
    requires TakesPiece(s1, next, s2, tok', next', LINE_ENDS)
    ensures AtLine(s2, tok', next', lines, i + 1)
  {
    hide Split;
    SplitEmpty(LINE_ENDS);
    if next != NULL {
      StrSuffix(s, s1, next);
    }
    assert Rest(s1, next) == Rest(s, next);
  }

  method CountLines(file: seq<Byte>) returns (n: nat)
    ensures n == Capacity(file)
  {
    n := 0;
    var index := 0;
    while index < |file|
      invariant 0 <= index <= |file| && n == CountLf(file[..index])
    {
      CountLfAppend(file[..index], [file[index]]);
      assert file[..index + 1] == file[..index] + [file[index]];
      if file[index] == LF {
        n := n + 1;
      }
      index := index + 1;
    }
    assert file[..|file|] == file;
    n := n + 1;
  }

  /* ---------- the table as lines are read ---------- */

  function Prefix<T>(x: seq<T>, n: nat): seq<T> {
    if |x| <= n then x else x[..n]
  }

  /** The table after the first i lines. */
  ghost predicate Covers(table: seq<GuidString>, asserted: bool, lines: seq<seq<Byte>>, i: nat, max: nat,
                         parse: Parser)
  {
    && i <= |lines|
    && table == Prefix(Entries(lines[..i], parse), max)
    && (asserted <==> exists j :: 0 <= j < i && HasTwoFields(lines[j]) && |Entries(lines[..j], parse)| >= max)
  }

  function Added(table: seq<GuidString>, entry: Option<GuidString>, max: nat): seq<GuidString> {
    if |table| >= max || entry.None? then table else table + [entry.value]
  }

  lemma CoversNextLine(table: seq<GuidString>, asserted: bool, lines: seq<seq<Byte>>, i: nat, max: nat, parse: Parser)
    requires Covers(table, asserted, lines, i, max, parse) && i < |lines|
    ensures Covers(Added(table, LineEntry(lines[i], parse), max),
                   asserted || (HasTwoFields(lines[i]) && |table| >= max), lines, i + 1, max, parse)
  {
    hide LineEntry, HasTwoFields;
    assert lines[..i + 1][..i] == lines[..i];
    assert lines[..i + 1][i] == lines[i];
    if |table| >= max && HasTwoFields(lines[i]) {
      assert |Entries(lines[..i], parse)| >= max;
    }
  }

  class GuidTable {
    const parse: Parser
    const format: Guid -> seq<Byte>  // AsciiSPrint with "%g"
    var guidString: array<GuidString>
    var countMax: nat
    var count: nat
    var asserted: bool               // the ASSERT of AddGuidName was reached

    ghost predicate Valid()
      reads this
    {
      guidString.Length == countMax && count <= countMax
    }

    ghost function Table(): seq<GuidString>
      requires Valid()
      reads this, guidString
    {
      guidString[..count]
    }

    constructor (parse: Parser, format: Guid -> seq<Byte>)
      ensures Valid() && Table() == [] && !asserted && fresh(guidString)
      ensures this.parse == parse && this.format == format
    {
      this.parse, this.format := parse, format;
      guidString := new GuidString[0];
      countMax, count, asserted := 0, 0, false;
    }

    method AddGuidName(guidStr: seq<Byte>, nameStr: seq<Byte>)
      requires Valid()
      modifies this`count, this`asserted, guidString
      ensures Valid()
      ensures old(count) >= countMax || parse(guidStr) == None ==> Table() == old(Table())
      ensures old(count) < countMax && parse(guidStr).Some? ==>
        |Table()| == old(count) + 1 && Table()[..old(count)] == old(Table())
        && Table()[old(count)].guid == parse(guidStr).value && NameFor(Table()[old(count)].str, guidStr, nameStr)
      ensures Table() == Added(old(Table()), Entry(guidStr, nameStr, parse), countMax)
      ensures asserted == (old(asserted) || old(count) >= countMax)
    {
      if count >= countMax {
        asserted := true;
        return;
      }
      var status := parse(guidStr);
      if status.None? {
        return;
      }
      if guidStr == ZERO_GUID_TEXT {
        guidString[count] := GuidString(status.value, Truncated(ZERO_GUID_NAME));
      } else {
        guidString[count] := GuidString(status.value, Truncated(nameStr));
      }
      count := count + 1;
    }

    /** The body of InitGuid's loop. Only bytes of the line itself change in the buffer. */
    method AddLine(tokens: Tokenizer, line: nat)
      requires Valid() && tokens.Valid() && line < tokens.buf.Length
      modifies this`count, this`asserted, guidString, tokens`field, tokens.buf
      ensures Valid() && tokens.Valid()
      ensures SameOutside(old(tokens.buf[..]), tokens.buf[..], line, StrEnd(old(tokens.buf[..]), line))
      ensures
        var text := Str(old(tokens.buf[..]), line);
        && Table() == Added(old(Table()), LineEntry(text, parse), countMax)
        && (asserted <==> old(asserted) || (HasTwoFields(text) && old(count) >= countMax))
    {
      hide Split, TakesPiece, SameOutside, StrEnd, Str, Entry;
      ghost var s1 := tokens.buf[..];
      var guidStr := tokens.AsciiStrGetNewTokenField(line, FIELD_ENDS);
      ghost var s2, next := tokens.buf[..], tokens.field;
      TookParts(s1, line, s2, guidStr, next, FIELD_ENDS);
      var nameStr := tokens.AsciiStrGetNextTokenField(FIELD_ENDS);
      TookParts(s2, next, tokens.buf[..], nameStr, tokens.field, FIELD_ENDS);
      FieldsOfLine(s1, line, s2, guidStr, next, tokens.buf[..], nameStr, tokens.field);
      if guidStr != NULL && nameStr != NULL {
        var guidText, nameText := Str(tokens.buf[..], guidStr), Str(tokens.buf[..], nameStr);
        assert [guidText, nameText][0] == guidText && [guidText, nameText][1] == nameText;
        AddGuidName(guidText, nameText);
      }
    }

    /** The line loop of InitGuid, from the buffer the file was read into. */
    method ReadLines(tokens: Tokenizer, ghost lines: seq<seq<Byte>>)
      requires Valid() && tokens.Valid() && count == 0 && !asserted
      requires lines == Split(Str(tokens.buf[..], 0), LINE_ENDS)
      modifies this`count, this`asserted, guidString, tokens, tokens.buf
      ensures Valid() && Covers(Table(), asserted, lines, |lines|, countMax, parse)
    {
      hide Split, StrEnd, Str, Rest, Entries, SameOutside, TakesPiece, AtLine, Covers, LineEntry, HasTwoFields, Added;
      ghost var i, s := 0, tokens.buf[..];
      var line := tokens.AsciiStrGetNewTokenLine(0, LINE_ENDS);
      FirstLine(s, tokens.buf[..], line, tokens.line, lines);
      CoversNone(lines, countMax, parse);
      while line != NULL
        invariant Valid() && tokens.Valid() && i <= |lines|
        invariant AtLine(tokens.buf[..], line, tokens.line, lines, i)
        invariant Covers(Table(), asserted, lines, i, countMax, parse)
        decreases |lines| - i
      {
        ghost var s0, next, line0 := tokens.buf[..], tokens.line, line;
        LineInRange(s0, line, next, lines, i);
        CoversNextLine(Table(), asserted, lines, i, countMax, parse);
        AddLine(tokens, line);
        i := i + 1;
        ghost var s1 := tokens.buf[..];
        line := tokens.AsciiStrGetNextTokenLine(LINE_ENDS);
        NextLine(s0, line0, next, lines, i - 1, s1, tokens.buf[..], line, tokens.line);
        LineInRange(tokens.buf[..], line, tokens.line, lines, i);
      }
      LineInRange(tokens.buf[..], line, tokens.line, lines, i);
    }

    /** The table holds the entries of the file's lines in order; with CR LF line ends it holds all of them. */
    method InitGuid(file: Option<seq<Byte>>)
      requires Valid() && count == 0 && !asserted
      modifies this`guidString, this`countMax, this`count, this`asserted
      ensures Valid()
      ensures file.None? ==> Table() == []
      ensures file.Some? ==> Table() == Prefix(Entries(Lines(file.value), parse), Capacity(file.value))
      ensures file.Some? ==> (asserted <==> Overflows(file.value, parse))
      ensures file.Some? && CrLfText(Text(file.value)) ==>
        !asserted && Table() == Entries(Lines(file.value), parse)
        && exists at :: ChosenLines(Table(), Lines(file.value), parse, at)
    {
      hide Split, StrEnd, Entries, Covers, Overflows, Capacity, CrLfText, ChosenLines;
      if file.None? {
        return;
      }
      var buffer := new Byte[|file.value| + 2];
      Put(buffer, 0, file.value + [0, 0]);
      assert buffer[..] == file.value + [0, 0];
      countMax := CountLines(file.value);
      guidString := new GuidString[countMax](_ => GuidString(ZERO_GUID, []));
      var tokens := new Tokenizer(buffer);
      ReadLines(tokens, Lines(file.value));
      AllCovered(Table(), asserted, file.value, parse);
      ghost var at := EntriesAreChosen(Lines(file.value), parse);
    }

    /** The first entry with that GUID names it; a GUID without one is formatted. */
    method GuidToName(guid: Guid) returns (name: seq<Byte>)
      requires Valid()
      ensures (forall k <- Table() :: k.guid != guid) ==> name == format(guid)
      ensures forall k :: 0 <= k < |Table()| && Table()[k].guid == guid
                && (forall j :: 0 <= j < k ==> Table()[j].guid != guid)
                ==> name == Table()[k].str
    {
      var index := 0;
      while index < count
        invariant index <= count && forall j :: 0 <= j < index ==> guidString[j].guid != guid
      {
        if guidString[index].guid == guid {
          return guidString[index].str;
        }
        index := index + 1;
      }
      return format(guid);
    }
  }

  lemma LineInRange(s: seq<Byte>, tok: int, next: int, lines: seq<seq<Byte>>, i: nat)
    requires AtLine(s, tok, next, lines, i)
    ensures tok == NULL ==> i == |lines|
    ensures tok != NULL ==> i < |lines| && Terminated(s) && 0 <= tok < |s| && Str(s, tok) == lines[i]
  {
  }

  lemma CoversNone(lines: seq<seq<Byte>>, max: nat, parse: Parser)
    ensures Covers([], false, lines, 0, max, parse)
  {
  }

  lemma AllCovered(table: seq<GuidString>, asserted: bool, file: seq<Byte>, parse: Parser)
    requires Covers(table, asserted, Lines(file), |Lines(file)|, Capacity(file), parse)
    ensures table == Prefix(Entries(Lines(file), parse), Capacity(file))
    ensures asserted <==> Overflows(file, parse)
    ensures CrLfText(Text(file)) ==> table == Entries(Lines(file), parse) && !asserted
  {
    hide Split, Text, CrLfText, CountLf, HasTwoFields;
    assert Lines(file)[..|Lines(file)|] == Lines(file);
    if CrLfText(Text(file)) {
      CapacitySuffices(file, parse);
    }
  }
}
