/** Loops of the shape "while not at a stop, go on to the next state", and when they end. */
module Walks {

  /** The state after n iterations. */
  ghost function Step<T>(next: T -> T, s: T, n: nat): T {
    if n == 0 then s else Step(next, next(s), n - 1)
  }

  /** The loop ends: some number of iterations reaches a stop. */
  ghost predicate Ends<T>(next: T -> T, stop: T -> bool, s: T) {
    exists n: nat :: stop(Step(next, s, n))
  }

  /** The loop ends after exactly n iterations. */
  ghost predicate EndsAfter<T>(next: T -> T, stop: T -> bool, s: T, n: nat) {
    stop(Step(next, s, n)) && forall i: nat :: i < n ==> !stop(Step(next, s, i))
  }

  lemma Iterations<T>(next: T -> T, stop: T -> bool, s: T) returns (n: nat)
    requires Ends(next, stop, s)
    ensures EndsAfter(next, stop, s, n)
  {
    var k: nat :| stop(Step(next, s, k));
    n := First(next, stop, s, k);
  }

  lemma {:induction false} First<T>(next: T -> T, stop: T -> bool, s: T, k: nat) returns (n: nat)
    requires stop(Step(next, s, k))
    ensures EndsAfter(next, stop, s, n)
  {
    if stop(s) {
      n := 0;
      assert Step(next, s, 0) == s;
    } else {
      n := First(next, stop, next(s), k - 1);
      n := n + 1;
      Earlier(next, stop, s, n);
    }
  }

  /** One iteration before a loop that ends. */
  lemma Earlier<T>(next: T -> T, stop: T -> bool, s: T, n: nat)
    requires n > 0 && !stop(s) && EndsAfter(next, stop, next(s), n - 1)
    ensures EndsAfter(next, stop, s, n)
  {
    forall i: nat | i < n
      ensures !stop(Step(next, s, i))
    {
      if i > 0 {
        assert Step(next, s, i) == Step(next, next(s), i - 1);
      }
    }
  }

  /** One iteration of a loop that ends. */
  lemma Later<T>(next: T -> T, stop: T -> bool, s: T, n: nat)
    requires EndsAfter(next, stop, s, n)
    ensures stop(s) <==> n == 0
    ensures n > 0 ==> EndsAfter(next, stop, next(s), n - 1) && Step(next, s, n) == Step(next, next(s), n - 1)
  {
    assert Step(next, s, 0) == s;
    if n > 0 {
      forall i: nat | i < n - 1
        ensures !stop(Step(next, next(s), i))
      {
        assert Step(next, s, i + 1) == Step(next, next(s), i);
      }
    }
  }

  lemma Unfold<T>(next: T -> T, stop: T -> bool, s: T)
    ensures Ends(next, stop, s) <==> stop(s) || Ends(next, stop, next(s))
  {
    assert Step(next, s, 0) == s;
    if Ends(next, stop, s) {
      var n := Iterations(next, stop, s);
      Later(next, stop, s, n);
    }
    if Ends(next, stop, next(s)) {
      var n: nat :| stop(Step(next, next(s), n));
      assert Step(next, s, n + 1) == Step(next, next(s), n);
    }
  }

  /** A state that is its own successor and no stop is never left. */
  lemma StuckNeverEnds<T>(next: T -> T, stop: T -> bool, s: T)
    requires next(s) == s && !stop(s)
    ensures !Ends(next, stop, s)
  {
    forall n: nat
      ensures Step(next, s, n) == s
    {
      Stays(next, s, n);
    }
  }

  lemma {:induction false} Stays<T>(next: T -> T, s: T, n: nat)
    requires next(s) == s
    ensures Step(next, s, n) == s
  {
    if n > 0 {
      Stays(next, s, n - 1);
    }
  }

  lemma StepNone<T>(next: T -> T, s: T)
    ensures Step(next, s, 0) == s
  {
  }

  lemma {:induction false} StepOnce<T>(next: T -> T, s: T, n: nat)
    ensures Step(next, s, n + 1) == next(Step(next, s, n))
  {
    if n > 0 {
      StepOnce(next, next(s), n - 1);
    }
  }
}
