/** A packed structure seen as seven consecutive fields, and what loads and stores at
    the fields' offsets do to it. Structures with fewer fields leave the last ones empty. */
module Segments {
  import opened Bytes

  function Cat<T>(a: seq<T>, b: seq<T>, c: seq<T>, d: seq<T>, e: seq<T>, f: seq<T>, g: seq<T>): (s: seq<T>)
    ensures |s| == |a| + |b| + |c| + |d| + |e| + |f| + |g|
  {
    a + b + c + d + e + f + g
  }

  /** Each field is found at its offset, whatever follows the structure. */
  lemma Loads<T>(a: seq<T>, b: seq<T>, c: seq<T>, d: seq<T>, e: seq<T>, f: seq<T>, g: seq<T>, post: seq<T>)
    ensures
      var s := Cat(a, b, c, d, e, f, g) + post;
      var ob := |a|; var oc := ob + |b|; var od := oc + |c|; var oe := od + |d|; var of := oe + |e|; var og := of + |f|;
      s[..ob] == a && s[ob..oc] == b && s[oc..od] == c && s[od..oe] == d && s[oe..of] == e && s[of..og] == f &&
      s[og..og + |g|] == g
  {
    var b' := a + b;
    var c' := b' + c;
    var d' := c' + d;
    var e' := d' + e;
    var f' := e' + f;
    ConcatAssoc(f', g, post);
    ConcatAssoc(e', f, g + post);
    ConcatAssoc(d', e, f + (g + post));
    ConcatAssoc(c', d, e + (f + (g + post)));
    ConcatAssoc(b', c, d + (e + (f + (g + post))));
    SliceOfCat(f', g, post);
    SliceOfCat(e', f, g + post);
    SliceOfCat(d', e, f + (g + post));
    SliceOfCat(c', d, e + (f + (g + post)));
    SliceOfCat(b', c, d + (e + (f + (g + post))));
    SliceOfCat(a, b, c + (d + (e + (f + (g + post)))));
  }

  lemma SliceOfCat<T>(a: seq<T>, b: seq<T>, c: seq<T>)
    ensures (a + b + c)[..|a|] == a && (a + b + c)[|a|..|a| + |b|] == b
  {
  }

  lemma Store0<T>(s: seq<T>, p: nat, a: seq<T>, b: seq<T>, c: seq<T>, d: seq<T>, e: seq<T>, f: seq<T>,
                  g: seq<T>, y: seq<T>)
    requires |y| == |a| && p + |Cat(a, b, c, d, e, f, g)| <= |s|
    ensures Splice(Splice(s, p, Cat(a, b, c, d, e, f, g)), p, y) == Splice(s, p, Cat(y, b, c, d, e, f, g))
  {
    Tail0(a, b, c, d, e, f, g);
    Tail0(y, b, c, d, e, f, g);
    SpliceHead(s, p, a, b + c + d + e + f + g, y);
  }

  lemma SpliceHead<T>(s: seq<T>, p: nat, x: seq<T>, c: seq<T>, y: seq<T>)
    requires |x| == |y| && p + |x| + |c| <= |s|
    ensures Splice(Splice(s, p, x + c), p, y) == Splice(s, p, y + c)
  {
  }

  lemma Tail0<T>(a: seq<T>, b: seq<T>, c: seq<T>, d: seq<T>, e: seq<T>, f: seq<T>, g: seq<T>)
    ensures Cat(a, b, c, d, e, f, g) == a + (b + c + d + e + f + g)
  {
  }

  lemma Store1<T>(s: seq<T>, p: nat, a: seq<T>, b: seq<T>, c: seq<T>, d: seq<T>, e: seq<T>, f: seq<T>,
                  g: seq<T>, y: seq<T>)
    requires |y| == |b| && p + |Cat(a, b, c, d, e, f, g)| <= |s|
    ensures Splice(Splice(s, p, Cat(a, b, c, d, e, f, g)), p + |a|, y) == Splice(s, p, Cat(a, y, c, d, e, f, g))
  {
    Tail1(a, b, c, d, e, f, g);
    Tail1(a, y, c, d, e, f, g);
    SpliceOver(s, p, a, b, c + d + e + f + g, y);
  }

  lemma Tail1<T>(a: seq<T>, b: seq<T>, c: seq<T>, d: seq<T>, e: seq<T>, f: seq<T>, g: seq<T>)
    ensures Cat(a, b, c, d, e, f, g) == a + b + (c + d + e + f + g)
  {
  }

  lemma Store2<T>(s: seq<T>, p: nat, a: seq<T>, b: seq<T>, c: seq<T>, d: seq<T>, e: seq<T>, f: seq<T>,
                  g: seq<T>, y: seq<T>)
    requires |y| == |c| && p + |Cat(a, b, c, d, e, f, g)| <= |s|
    ensures Splice(Splice(s, p, Cat(a, b, c, d, e, f, g)), p + |a| + |b|, y) == Splice(s, p, Cat(a, b, y, d, e, f, g))
  {
    Tail1(a + b, c, d, e, f, g, []);
    Tail1(a + b, y, d, e, f, g, []);
    SpliceOver(s, p, a + b, c, d + e + f + g + [], y);
    assert forall x: seq<T> :: x + [] == x;
  }

  lemma Store3<T>(s: seq<T>, p: nat, a: seq<T>, b: seq<T>, c: seq<T>, d: seq<T>, e: seq<T>, f: seq<T>,
                  g: seq<T>, y: seq<T>)
    requires |y| == |d| && p + |Cat(a, b, c, d, e, f, g)| <= |s|
    ensures Splice(Splice(s, p, Cat(a, b, c, d, e, f, g)), p + |a| + |b| + |c|, y)
         == Splice(s, p, Cat(a, b, c, y, e, f, g))
  {
    ConcatAssoc(a + b + c + d + e, f, g);
    ConcatAssoc(a + b + c + d, e, f + g);
    ConcatAssoc(a + b + c + y + e, f, g);
    ConcatAssoc(a + b + c + y, e, f + g);
    SpliceOver(s, p, a + b + c, d, e + (f + g), y);
  }

  lemma Store4<T>(s: seq<T>, p: nat, a: seq<T>, b: seq<T>, c: seq<T>, d: seq<T>, e: seq<T>, f: seq<T>,
                  g: seq<T>, y: seq<T>)
    requires |y| == |e| && p + |Cat(a, b, c, d, e, f, g)| <= |s|
    ensures Splice(Splice(s, p, Cat(a, b, c, d, e, f, g)), p + |a| + |b| + |c| + |d|, y)
         == Splice(s, p, Cat(a, b, c, d, y, f, g))
  {
    ConcatAssoc(a + b + c + d + e, f, g);
    ConcatAssoc(a + b + c + d + y, f, g);
    SpliceOver(s, p, a + b + c + d, e, f + g, y);
  }

  lemma Store5<T>(s: seq<T>, p: nat, a: seq<T>, b: seq<T>, c: seq<T>, d: seq<T>, e: seq<T>, f: seq<T>,
                  g: seq<T>, y: seq<T>)
    requires |y| == |f| && p + |Cat(a, b, c, d, e, f, g)| <= |s|
    ensures Splice(Splice(s, p, Cat(a, b, c, d, e, f, g)), p + |a| + |b| + |c| + |d| + |e|, y)
         == Splice(s, p, Cat(a, b, c, d, e, y, g))
  {
    SpliceOver(s, p, a + b + c + d + e, f, g, y);
  }

  lemma CatExtend<T>(a: seq<T>, b: seq<T>, c: seq<T>, d: seq<T>, e: seq<T>, f: seq<T>, y: seq<T>)
    ensures Cat(a, b, c, d, e, f, []) + y == Cat(a, b, c, d, e, f + y, [])
  {
    ConcatAssoc(a + b + c + d + e, f, y);
    assert forall x: seq<T> :: x + [] == x;
  }

  /** What a buffer holds before any store, cut into fields at the given offsets. */
  lemma Cut<T>(s: seq<T>, p: nat, b: nat, c: nat, d: nat, e: nat, f: nat, end: nat)
    requires p <= b <= c <= d <= e <= f <= end <= |s|
    ensures Splice(s, p, Cat(s[p..b], s[b..c], s[c..d], s[d..e], s[e..f], s[f..end], [])) == s
  {
    hide Splice;
    CutTwo(s, p, b, c);
    CutTwo(s, p, c, d);
    CutTwo(s, p, d, e);
    CutTwo(s, p, e, f);
    CutTwo(s, p, f, end);
    assert Cat(s[p..b], s[b..c], s[c..d], s[d..e], s[e..f], s[f..end], []) == s[p..end];
    SpliceSelf(s, p, end - p);
  }

  lemma CutTwo<T>(s: seq<T>, lo: nat, mid: nat, hi: nat)
    requires lo <= mid <= hi <= |s|
    ensures s[lo..mid] + s[mid..hi] == s[lo..hi]
  {
  }
}
