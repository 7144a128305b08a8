/** The two-level in-place tokenizer of SupportString.c. A pointer is a position in the buffer, or NULL.
    NULs are written over delimiters; two cursors, one for lines and one for fields, persist between calls. */
module Tokenizers {
  import opened Bytes
  import opened Tokens

  /** A call on the string at start turned buffer s into s' and handed out token tok, leaving the cursor
      at next: token and remaining string hold the pieces of that string, and nothing outside it changed. */
  ghost predicate Steps(s: seq<Byte>, start: int, s': seq<Byte>, tok: int, next: int, d: seq<Byte>)
    requires Terminated(s) && NULL <= start < |s|
  {
    && |s'| == |s| && Terminated(s')
    && NULL <= tok < |s| && NULL <= next < |s|
    && (start == NULL ==> s' == s && tok == NULL)
    && (start != NULL ==> SameOutside(s, s', start, StrEnd(s, start)))
    && (tok == NULL ==> next == NULL)
    && (tok != NULL ==> start <= tok && (next != NULL ==> StrEnd(s', tok) < next <= StrEnd(s, start)))
    && Split(Rest(s, start), d) ==
         (if Rest(s', tok) == [] then [] else [Rest(s', tok)]) + Split(Rest(s', next), d)
  }

  /** As Steps, and the token is the first piece: NULL if and only if there is none. */
  ghost predicate TakesPiece(s: seq<Byte>, start: int, s': seq<Byte>, tok: int, next: int, d: seq<Byte>)
    requires Terminated(s) && NULL <= start < |s|
  {
    var pieces := Split(Rest(s, start), d);
    && Steps(s, start, s', tok, next, d)
    && (tok == NULL <==> pieces == [])
    && (tok != NULL ==> Str(s', tok) == pieces[0] && Split(Rest(s', next), d) == pieces[1..])
  }

  lemma StepsTakePiece(s: seq<Byte>, start: int, s': seq<Byte>, tok: int, next: int, d: seq<Byte>)
    requires Terminated(s) && NULL <= start < |s| && Steps(s, start, s', tok, next, d)
    requires tok != NULL ==> s'[tok] != 0
    ensures TakesPiece(s, start, s', tok, next, d)
  {
    hide StrEnd, SameOutside, Split;
    if tok == NULL {
      SplitEmpty(d);
    } else {
      StrNonEmpty(s', tok);
    }
  }

  lemma TookParts(s: seq<Byte>, start: int, s': seq<Byte>, tok: int, next: int, d: seq<Byte>)
    requires Terminated(s) && NULL <= start < |s| && TakesPiece(s, start, s', tok, next, d)
    ensures |s'| == |s| && Terminated(s') && NULL <= tok < |s| && NULL <= next < |s|
  {
  }

  lemma SplitEmpty(d: seq<Byte>)
    ensures Split([], d) == []
  {
  }

  lemma StrNonEmpty(s: seq<Byte>, p: nat)
    requires Terminated(s) && p < |s|
    ensures Str(s, p) == [] <==> s[p] == 0
    ensures |Str(s, p)| == StrEnd(s, p) - p
  {
  }

  lemma StrTail(s: seq<Byte>, p: nat, k: nat)
    requires Terminated(s) && p < |s| && k <= |Str(s, p)|
    ensures p + k < |s| && StrEnd(s, p + k) == StrEnd(s, p) && Str(s, p + k) == Str(s, p)[k..]
  {
    StrEndIs(s, p + k, StrEnd(s, p));
  }

  /** Writing a NUL over position p + k ends the string there and leaves the rest behind it. */
  lemma CutString(s: seq<Byte>, p: nat, k: nat)
    requires Terminated(s) && p < |s| && k < |Str(s, p)|
    ensures p + k + 1 < |s| && Terminated(s[p + k := 0])
    ensures Str(s[p + k := 0], p) == Str(s, p)[..k] && StrEnd(s[p + k := 0], p) == p + k
    ensures Str(s[p + k := 0], p + k + 1) == Str(s, p)[k + 1..]
    ensures p + k + 1 <= StrEnd(s, p)
    ensures SameOutside(s, s[p + k := 0], p, StrEnd(s, p))
  {
    var s' := s[p + k := 0];
    StrTail(s, p, k + 1);
    StrSuffix(s, s', p + k + 1);
    StrEndIs(s', p, p + k);
    assert s'[p..p + k] == s[p..p + k] == Str(s, p)[..k];
  }

  /** Where the token ends and what the cursor and the buffer become when its first piece is cut off. */
  lemma CutSteps(s: seq<Byte>, start: nat, tok: nat, k: nat, d: seq<Byte>)
    requires Terminated(s) && start <= tok < |s| && tok <= StrEnd(s, start) && s[tok] != 0
    requires Split(Str(s, start), d) == Split(Str(s, tok), d)
    requires k == Span(Str(s, tok), d)
    ensures k == |Str(s, tok)| ==> Steps(s, start, s, tok, NULL, d)
    ensures k < |Str(s, tok)| ==>
      tok + k + 1 < |s| && s[tok + k] != 0 && Steps(s, start, s[tok + k := 0], tok, tok + k + 1, d)
  {
    hide Split, SameOutside, Span;
    StrTail(s, start, tok - start);
    StrNonEmpty(s, tok);
    SplitAt(Str(s, tok), d);
    SplitEmpty(d);
    if k == |Str(s, tok)| {
      assert Str(s, tok)[..k] == Str(s, tok);
      SameOutsideRefl(s, start, StrEnd(s, start));
    } else {
      CutString(s, tok, k);
      CutWider(s, s[tok + k := 0], tok, start, StrEnd(s, start));
    }
  }

  /** The calls that find nothing. */
  lemma NoToken(s: seq<Byte>, start: int, d: seq<Byte>)
    requires Terminated(s) && NULL <= start < |s| && Split(Rest(s, start), d) == []
    ensures Steps(s, start, s, NULL, NULL, d) && TakesPiece(s, start, s, NULL, NULL, d)
  {
    hide Split;
    SplitEmpty(d);
  }

  lemma NothingLeft(s: seq<Byte>, start: int, d: seq<Byte>)
    requires Terminated(s) && NULL <= start < |s| && (start == NULL || s[start] == 0)
    ensures Rest(s, start) == [] && Split(Rest(s, start), d) == []
  {
    SplitEmpty(d);
    if start != NULL {
      StrNonEmpty(s, start);
    }
  }

  lemma StrIsRest(s: seq<Byte>, p: nat)
    requires Terminated(s) && p < |s|
    ensures Rest(s, p) == Str(s, p)
  {
  }

  lemma StartIsInside(s: seq<Byte>, p: nat)
    requires Terminated(s) && p < |s|
    ensures p <= StrEnd(s, p) < |s|
  {
  }

  /** Where the leading delimiters end: at the NUL, or at a byte that starts the first piece. */
  lemma SkipLead(s: seq<Byte>, start: nat, d: seq<Byte>)
    requires Terminated(s) && start < |s|
    ensures
      var begin := start + Lead(Str(s, start), d);
      && begin <= StrEnd(s, start) && Split(Str(s, start), d) == Split(Str(s, begin), d)
      && (s[begin] != 0 ==> Span(Str(s, begin), d) > 0)
  {
    hide Split;
    var t := Str(s, start);
    var skip := Lead(t, d);
    SplitLead(t, d);
    StrTail(s, start, skip);
    StrNonEmpty(s, start + skip);
    if s[start + skip] != 0 {
      assert t[skip] == t[skip..][0] && t[skip] !in d;
    }
  }

  lemma CutWider(s: seq<Byte>, s': seq<Byte>, lo: nat, lo': nat, hi: nat)
    requires SameOutside(s, s', lo, hi) && lo' <= lo
    ensures SameOutside(s, s', lo', hi)
  {
  }

  /** An empty token followed by another call is one longer step. */
  lemma StepsChain(s: seq<Byte>, start: int, s1: seq<Byte>, tok: nat, next: int,
                   s2: seq<Byte>, tok': int, next': int, d: seq<Byte>)
    requires Terminated(s) && NULL <= start < |s| && Steps(s, start, s1, tok, next, d)
    requires s1[tok] == 0
    requires Steps(s1, next, s2, tok', next', d)
    ensures Steps(s, start, s2, tok', next', d)
  {
    hide Split;
    StrNonEmpty(s1, tok);
    if next != NULL {
      EndStays(s, start, s1, next);
      hide StrEnd;
      assert SameOutside(s1, s2, start, StrEnd(s, start)) by {
        CutWider(s1, s2, next, start, StrEnd(s1, next));
        assert forall i :: 0 <= i < |s1| && StrEnd(s, start) <= i ==> s2[i] == s1[i];
      }
    }
  }

  /** Strings inside the old string end no later than it did. */
  lemma EndStays(s: seq<Byte>, start: nat, s1: seq<Byte>, next: nat)
    requires Terminated(s) && Terminated(s1) && |s1| == |s| && start < |s|
    requires SameOutside(s, s1, start, StrEnd(s, start)) && next <= StrEnd(s, start)
    ensures StrEnd(s1, next) <= StrEnd(s, start)
  {
    assert s1[StrEnd(s, start)] == 0;
  }

  class Tokenizer {
    const buf: array<Byte>
    var line: int   // mAsciiLineBuffer
    var field: int  // mAsciiFieldBuffer

    ghost predicate Valid()
      reads this, buf
    {
      Terminated(buf[..]) && NULL <= line < buf.Length && NULL <= field < buf.Length
    }

    constructor (buffer: array<Byte>)
      requires Terminated(buffer[..])
      ensures Valid() && buf == buffer && line == NULL && field == NULL
    {
      buf := buffer;
      line, field := NULL, NULL;
    }

    method AsciiStrSpn(p: nat, charSet: seq<Byte>) returns (count: nat)
      requires Valid() && p < buf.Length && 0 !in charSet
      ensures count == Lead(Str(buf[..], p), charSet)
    {
      ghost var t := Str(buf[..], p);
      count := 0;
      var str1: nat := p;
      while buf[str1] != 0
        invariant str1 == p + count <= StrEnd(buf[..], p)
        invariant forall i :: 0 <= i < count ==> t[i] in charSet
        decreases StrEnd(buf[..], p) - str1
      {
        var str2 := 0;
        while str2 < |charSet| && buf[str1] != charSet[str2]
          invariant str2 <= |charSet| && buf[str1] !in charSet[..str2]
        {
          str2 := str2 + 1;
        }
        assert charSet[..|charSet|] == charSet;
        assert t[count] == buf[str1];
        if str2 == |charSet| {
          LeadIs(t, charSet, count);
          return;
        }
        count := count + 1;
        str1 := str1 + 1;
      }
      LeadIs(t, charSet, count);
    }

    method AsciiStrBrk(p: nat, charSet: seq<Byte>) returns (found: int)
      requires Valid() && p < buf.Length && 0 !in charSet
      ensures
        var t := Str(buf[..], p);
        found == if Span(t, charSet) == |t| then NULL else p + Span(t, charSet)
    {
      ghost var t := Str(buf[..], p);
      var str1: nat := p;
      while buf[str1] != 0
        invariant p <= str1 <= StrEnd(buf[..], p)
        invariant forall i :: 0 <= i < str1 - p ==> t[i] !in charSet
        decreases StrEnd(buf[..], p) - str1
      {
        var str2 := 0;
        while str2 < |charSet|
          invariant str2 <= |charSet| && buf[str1] !in charSet[..str2]
        {
          assert t[str1 - p] == buf[str1];
          if buf[str1] == charSet[str2] {
            SpanIs(t, charSet, str1 - p);
            return str1;
          }
          str2 := str2 + 1;
        }
        assert charSet[..|charSet|] == charSet;
        str1 := str1 + 1;
      }
      return NULL;
    }

    method AsciiStrTokenLine(str: int, charSet: seq<Byte>) returns (begin: int)
      requires Valid() && NULL <= str < buf.Length && 0 !in charSet
      modifies this`line, buf
      ensures Valid()
      ensures TakesPiece(old(buf[..]), if str == NULL then old(line) else str, buf[..], begin, line, charSet)
    {
      hide TakesPiece, Steps, Split, Span, Lead, Str, StrEnd, Rest;
      ghost var s := buf[..];
      begin := if str == NULL then line else str;
      if begin == NULL {
        NothingLeft(s, NULL, charSet);
        NoToken(s, NULL, charSet);
        return NULL;
      }
      ghost var start: nat := begin;
      SkipLead(s, start, charSet);
      var skip := AsciiStrSpn(begin, charSet);
      begin := begin + skip;
      if buf[begin] == 0 {
        line := NULL;
        NothingLeft(s, begin, charSet);
        StrIsRest(s, begin);
        StrIsRest(s, start);
        NoToken(s, start, charSet);
        return NULL;
      }
      ghost var k := Span(Str(s, begin), charSet);
      CutSteps(s, start, begin, k, charSet);
      var end := AsciiStrBrk(begin, charSet);
      if end != NULL && buf[end] != 0 {
        buf[end] := 0;
        end := end + 1;
        assert buf[..] == s[begin + k := 0];
      }
      line := end;
      StepsTakePiece(s, start, buf[..], begin, line, charSet);
    }

    method AsciiStrTokenField(str: int, charSet: seq<Byte>) returns (begin: int)
      requires Valid() && NULL <= str < buf.Length && 0 !in charSet
      modifies this`field, buf
      ensures Valid()
      ensures Steps(old(buf[..]), if str == NULL then old(field) else str, buf[..], begin, field, charSet)
      ensures begin != NULL ==> begin == if str == NULL then old(field) else str
      ensures begin == NULL ==> Rest(old(buf[..]), if str == NULL then old(field) else str) == []
    {
      hide TakesPiece, Steps, Split, Span, Str, StrEnd, Rest;
      ghost var s := buf[..];
      begin := if str == NULL then field else str;
      if begin == NULL || buf[begin] == 0 {
        NothingLeft(s, begin, charSet);
        NoToken(s, begin, charSet);
        field := NULL;
        return NULL;
      }
      ghost var k := Span(Str(s, begin), charSet);
      StartIsInside(s, begin);
      CutSteps(s, begin, begin, k, charSet);
      var end := AsciiStrBrk(begin, charSet);
      if end != NULL && buf[end] != 0 {
        buf[end] := 0;
        end := end + 1;
        assert buf[..] == s[begin + k := 0];
      }
      field := end;
    }

    method AsciiStrGetNewTokenLine(str: nat, charSet: seq<Byte>) returns (tok: int)
      requires Valid() && str < buf.Length && 0 !in charSet
      modifies this`line, buf
      ensures Valid() && TakesPiece(old(buf[..]), str, buf[..], tok, line, charSet)
    {
      tok := SkipEmptyLines(str, charSet);
    }

    method AsciiStrGetNextTokenLine(charSet: seq<Byte>) returns (tok: int)
      requires Valid() && 0 !in charSet
      modifies this`line, buf
      ensures Valid() && TakesPiece(old(buf[..]), old(line), buf[..], tok, line, charSet)
    {
      tok := SkipEmptyLines(NULL, charSet);
    }

    method AsciiStrGetNewTokenField(str: nat, charSet: seq<Byte>) returns (tok: int)
      requires Valid() && str < buf.Length && 0 !in charSet
      modifies this`field, buf
      ensures Valid() && TakesPiece(old(buf[..]), str, buf[..], tok, field, charSet)
    {
      tok := SkipEmptyFields(str, charSet);
    }

    method AsciiStrGetNextTokenField(charSet: seq<Byte>) returns (tok: int)
      requires Valid() && 0 !in charSet
      modifies this`field, buf
      ensures Valid() && TakesPiece(old(buf[..]), old(field), buf[..], tok, field, charSet)
    {
      tok := SkipEmptyFields(NULL, charSet);
    }

    /** The loop the two line wrappers share. */
    method SkipEmptyLines(str: int, charSet: seq<Byte>) returns (tok: int)
      requires Valid() && NULL <= str < buf.Length && 0 !in charSet
      modifies this`line, buf
      ensures Valid()
      ensures TakesPiece(old(buf[..]), if str == NULL then old(line) else str, buf[..], tok, line, charSet)
    {
      hide Split, SameOutside;
      ghost var s, start := buf[..], if str == NULL then line else str;
      tok := AsciiStrTokenLine(str, charSet);
      while tok != NULL && buf[tok] == 0
        invariant Valid() && NULL <= tok < buf.Length
        invariant Steps(s, start, buf[..], tok, line, charSet)
        decreases if tok == NULL then 0 else buf.Length - tok
      {
        ghost var s1, tok1, next := buf[..], tok, line;
        tok := AsciiStrTokenLine(NULL, charSet);
        StepsChain(s, start, s1, tok1, next, buf[..], tok, line, charSet);
      }
      StepsTakePiece(s, start, buf[..], tok, line, charSet);
    }

    /** The loop the two field wrappers share: adjacent delimiters make empty tokens, which it drops. */
    method SkipEmptyFields(str: int, charSet: seq<Byte>) returns (tok: int)
      requires Valid() && NULL <= str < buf.Length && 0 !in charSet
      modifies this`field, buf
      ensures Valid()
      ensures TakesPiece(old(buf[..]), if str == NULL then old(field) else str, buf[..], tok, field, charSet)
    {
      hide Split, SameOutside;
      ghost var s, start := buf[..], if str == NULL then field else str;
      tok := AsciiStrTokenField(str, charSet);
      while tok != NULL && buf[tok] == 0
        invariant Valid() && NULL <= tok < buf.Length
        invariant Steps(s, start, buf[..], tok, field, charSet)
        decreases if tok == NULL then 0 else buf.Length - tok
      {
        ghost var s1, tok1, next := buf[..], tok, field;
        tok := AsciiStrTokenField(NULL, charSet);
        StepsChain(s, start, s1, tok1, next, buf[..], tok, field, charSet);
      }
      StepsTakePiece(s, start, buf[..], tok, field, charSet);
    }
  }
}
