/** The delimiter split the tokenizers of SupportString.c are meant to produce, and C strings in a buffer. */
module Tokens {
  import opened Bytes

  /** The length of the longest prefix free of delimiters. */
  function Span(t: seq<Byte>, d: seq<Byte>): (k: nat)
    ensures k <= |t| && (forall i :: 0 <= i < k ==> t[i] !in d) && (k < |t| ==> t[k] in d)
  {
    if t == [] || t[0] in d then 0 else 1 + Span(t[1..], d)
  }

  /** The length of the longest prefix of delimiters. */
  function Lead(t: seq<Byte>, d: seq<Byte>): (k: nat)
    ensures k <= |t| && (forall i :: 0 <= i < k ==> t[i] in d) && (k < |t| ==> t[k] !in d)
  {
    if t == [] || t[0] !in d then 0 else 1 + Lead(t[1..], d)
  }

  /** The pieces between delimiters, empty ones left out. */
  function Split(t: seq<Byte>, d: seq<Byte>): (pieces: seq<seq<Byte>>)
    ensures forall p <- pieces :: p != [] && forall b <- p :: b !in d
    decreases |t|
  {
    if t == [] then []
    else if t[0] in d then Split(t[1..], d)
    else
      var k := Span(t, d);
      assert forall b <- t[..k] :: b !in d;
      [t[..k]] + Split(t[k..], d)
  }

  lemma {:induction false} SplitLead(t: seq<Byte>, d: seq<Byte>)
    ensures Split(t, d) == Split(t[Lead(t, d)..], d)
  {
    if t != [] && t[0] in d {
      SplitLead(t[1..], d);
      assert t[1..][Lead(t[1..], d)..] == t[Lead(t, d)..];
    }
  }

  /** Split after the first delimiter: its piece, if not empty, then the rest. */
  lemma SplitAt(t: seq<Byte>, d: seq<Byte>)
    requires t != []
    ensures
      var k := Span(t, d);
      Split(t, d) == (if k == 0 then [] else [t[..k]]) + (if k == |t| then [] else Split(t[k + 1..], d))
  {
    var k := Span(t, d);
    if k == 0 {
      assert t[0] in d;
    } else if k < |t| {
      assert t[k..][0] in d && t[k..][1..] == t[k + 1..];
    }
  }

  /** Nothing past the first delimiter affects the span. */
  lemma SpanPast(a: seq<Byte>, c: Byte, b: seq<Byte>, d: seq<Byte>)
    requires c in d
    ensures Span(a + [c] + b, d) == Span(a, d)
  {
    var k := Span(a, d);
    var t := a + [c] + b;
    assert t[k] in d by {
      if k == |a| {
        assert t[k] == c;
      } else {
        assert t[k] == a[k];
      }
    }
    assert forall i :: 0 <= i < k ==> t[i] == a[i];
    SpanIs(t, d, k);
  }

  /** The split is determined by where the delimiters are: it distributes over any delimiter. */
  lemma {:induction false} SplitDistributes(a: seq<Byte>, c: Byte, b: seq<Byte>, d: seq<Byte>)
    requires c in d
    ensures Split(a + [c] + b, d) == Split(a, d) + Split(b, d)
    decreases |a|
  {
    hide Split, Span;
    var t := a + [c] + b;
    var k := Span(a, d);
    SpanPast(a, c, b, d);
    SplitAt(t, d);
    assert t[..k] == a[..k];
    if k == |a| {
      assert t[k + 1..] == b && a[..k] == a;
      SplitWhole(a, d);
    } else {
      SplitAt(a, d);
      assert t[k + 1..] == a[k + 1..] + [c] + b;
      SplitDistributes(a[k + 1..], c, b, d);
    }
  }

  /** Text without a delimiter is one piece, or none. */
  lemma SplitWhole(a: seq<Byte>, d: seq<Byte>)
    requires Span(a, d) == |a|
    ensures Split(a, d) == if a == [] then [] else [a]
  {
    if a != [] {
      assert a[..|a|] == a;
      SplitAt(a, d);
    }
  }

  lemma {:induction false} SpanIs(t: seq<Byte>, d: seq<Byte>, k: nat)
    requires k < |t| && t[k] in d && forall i :: 0 <= i < k ==> t[i] !in d
    ensures Span(t, d) == k
  {
  }

  lemma {:induction false} LeadIs(t: seq<Byte>, d: seq<Byte>, k: nat)
    requires k <= |t| && (forall i :: 0 <= i < k ==> t[i] in d) && (k < |t| ==> t[k] !in d)
    ensures Lead(t, d) == k
  {
  }

  /* ---------- C strings ---------- */

  /** Every position of s is the start of a NUL-terminated string. */
  predicate Terminated(s: seq<Byte>) {
    s != [] && s[|s| - 1] == 0
  }

  /** The position of the first NUL at or after p. */
  function StrEnd(s: seq<Byte>, p: nat): (e: nat)
    requires Terminated(s) && p < |s|
    ensures p <= e < |s| && s[e] == 0 && forall i :: p <= i < e ==> s[i] != 0
    decreases |s| - p
  {
    if s[p] == 0 then p else StrEnd(s, p + 1)
  }

  function Str(s: seq<Byte>, p: nat): seq<Byte>
    requires Terminated(s) && p < |s|
  {
    s[p..StrEnd(s, p)]
  }

  lemma StrEndIs(s: seq<Byte>, p: nat, e: nat)
    requires Terminated(s) && p <= e < |s| && s[e] == 0 && forall i :: p <= i < e ==> s[i] != 0
    ensures StrEnd(s, p) == e
  {
  }

  const NULL: int := -1

  /** What a possibly NULL cursor points at. */
  function Rest(s: seq<Byte>, cursor: int): seq<Byte>
    requires Terminated(s) && NULL <= cursor < |s|
  {
    if cursor == NULL then [] else Str(s, cursor)
  }

  /** A string is not affected by changes in front of it. */
  lemma StrSuffix(s: seq<Byte>, s': seq<Byte>, p: nat)
    requires Terminated(s) && Terminated(s') && |s| == |s'| && p < |s|
    requires forall i :: p <= i < |s| ==> s'[i] == s[i]
    ensures StrEnd(s', p) == StrEnd(s, p) && Str(s', p) == Str(s, p)
  {
    StrEndIs(s', p, StrEnd(s, p));
  }

  /* ---------- line counts ---------- */

  const LF: Byte := 10
  const CR: Byte := 13
  const SPACE: Byte := 32
  const LINE_ENDS: seq<Byte> := [LF, CR]

  function CountLf(t: seq<Byte>): nat {
    if t == [] then 0 else (if t[0] == LF then 1 else 0) + CountLf(t[1..])
  }

  ghost predicate CrLfText(t: seq<Byte>) {
    forall i :: 0 <= i < |t| && t[i] == CR ==> i + 1 < |t| && t[i + 1] == LF
  }

  lemma {:induction false} CountLfAppend(a: seq<Byte>, b: seq<Byte>)
    ensures CountLf(a + b) == CountLf(a) + CountLf(b)
  {
    if a == [] {
      assert a + b == b;
    } else {
      CountLfAppend(a[1..], b);
      assert (a + b)[1..] == a[1..] + b && (a + b)[0] == a[0];
    }
  }

  lemma CrLfSuffix(t: seq<Byte>, k: nat)
    requires CrLfText(t) && k <= |t|
    ensures CrLfText(t[k..])
  {
    forall i | 0 <= i < |t[k..]| && t[k..][i] == CR
      ensures i + 1 < |t[k..]| && t[k..][i + 1] == LF
    {
      assert t[k + i] == CR;
    }
  }

  lemma CountLfSuffix(t: seq<Byte>, k: nat)
    requires k <= |t|
    ensures CountLf(t) >= CountLf(t[k..])
  {
    assert t == t[..k] + t[k..];
    CountLfAppend(t[..k], t[k..]);
  }

  /** With every CR followed by LF, there are at most as many lines as line feeds, plus one;
      without the plus one when the text starts with a line end. */
  lemma {:induction false} LinesBounded(t: seq<Byte>)
    requires CrLfText(t)
    ensures |Split(t, LINE_ENDS)| <= CountLf(t) + 1
    ensures t != [] && t[0] in LINE_ENDS ==> |Split(t, LINE_ENDS)| <= CountLf(t)
    decreases |t|
  {
    hide Span;
    if t != [] {
      var k := Span(t, LINE_ENDS);
      var n := if k == 0 then 1 else k;
      assert t[0] == CR ==> t[1] == LF && t[1..][0] == LF by {
        hide Split, CountLf;
      }
      CrLfSuffix(t, n);
      LinesBounded(t[n..]);
      if k > 0 {
        hide CountLf, CrLfText;
        CountLfSuffix(t, k);
        assert |Split(t, LINE_ENDS)| == 1 + |Split(t[k..], LINE_ENDS)|;
      }
    }
  }
}
