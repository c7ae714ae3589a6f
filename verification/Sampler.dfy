/** fcyc.c: the K-best sampler that keeps the smallest measurements in a sorted buffer. */
module Sampler {

  ghost predicate Sorted(s: seq<real>) {
    forall i, j {:trigger s[i], s[j]} :: 0 <= i < j < |s| ==> s[i] <= s[j]
  }

  function Least(x: nat, y: nat): nat {
    if x < y then x else y
  }

  /** best holds, in order, the k smallest of samples, or all of them if there are fewer:
      what was left out is nowhere smaller. */
  ghost predicate KSmallest(best: seq<real>, samples: seq<real>, k: nat) {
    && Sorted(best) && |best| == Least(|samples|, k)
    && multiset(best) <= multiset(samples)
    && forall x, y :: x in multiset(samples) - multiset(best) && y in best ==> y <= x
  }

  /** The k smallest, in order, are determined by the samples. */
  lemma KSmallestUnique(a: seq<real>, b: seq<real>, samples: seq<real>, k: nat)
    requires KSmallest(a, samples, k) && KSmallest(b, samples, k)
    ensures a == b
  {
    SameElements(a, b, samples, k);
    SortedUnique(a, b);
  }

  lemma SameElements(a: seq<real>, b: seq<real>, samples: seq<real>, k: nat)
    requires KSmallest(a, samples, k) && KSmallest(b, samples, k)
    ensures multiset(a) == multiset(b)
  {
    if multiset(a) != multiset(b) {
      var x := Surplus(a, b);
      var y := Surplus(b, a);
      NotBelow(a, b, samples, k, x, y);
      hide KSmallest;
      NotBelow(b, a, samples, k, y, x);
    }
  }

  /** Whatever a has beyond b is nowhere smaller than b. */
  lemma NotBelow(a: seq<real>, b: seq<real>, samples: seq<real>, k: nat, x: real, y: real)
    requires KSmallest(a, samples, k) && KSmallest(b, samples, k)
    requires multiset(b)[x] < multiset(a)[x] && y in b
    ensures y <= x
  {
    assert x in multiset(samples) - multiset(b);
  }

  lemma Surplus(a: seq<real>, b: seq<real>) returns (x: real)
    requires |a| == |b| && multiset(a) != multiset(b)
    ensures x in a && multiset(b)[x] < multiset(a)[x]
  {
    if z :| z in a && multiset(b)[z] < multiset(a)[z] {
      x := z;
    } else {
      forall z: real
        ensures multiset(a)[z] <= multiset(b)[z]
      {
        if z !in a {
          assert multiset(a)[z] == 0;
        }
      }
      x := SameSize(a, b);
    }
  }

  lemma SameSize(a: seq<real>, b: seq<real>) returns (x: real)
    requires |a| == |b| && multiset(a) <= multiset(b)
    ensures multiset(a) == multiset(b)
  {
    assert multiset(b) == multiset(a) + (multiset(b) - multiset(a));
    x := 0.0;
  }

  lemma HeadIsLeast(s: seq<real>)
    requires Sorted(s) && s != []
    ensures Sorted(s[1..]) && multiset(s[1..]) == multiset(s) - multiset{s[0]}
    ensures s[0] in multiset(s) && forall x :: x in multiset(s) ==> s[0] <= x
  {
    assert s == [s[0]] + s[1..];
    forall x | x in multiset(s)
      ensures s[0] <= x
    {
      assert x in s;
      var i :| 0 <= i < |s| && s[i] == x;
      assert i > 0 ==> s[0] <= s[i];
    }
  }

  lemma HeadsEqual(a: seq<real>, b: seq<real>)
    requires Sorted(a) && Sorted(b) && multiset(a) == multiset(b) && a != [] && b != []
    ensures a[0] == b[0] && Sorted(a[1..]) && Sorted(b[1..]) && multiset(a[1..]) == multiset(b[1..])
  {
    HeadIsLeast(a);
    HeadIsLeast(b);
    hide Sorted;
  }

  lemma SameLength(a: seq<real>, b: seq<real>)
    requires multiset(a) == multiset(b)
    ensures |a| == |b|
  {
    assert |multiset(a)| == |multiset(b)|;
  }

  lemma {:induction false} SortedUnique(a: seq<real>, b: seq<real>)
    requires Sorted(a) && Sorted(b) && multiset(a) == multiset(b)
    ensures a == b
    decreases |a|
  {
    hide Sorted;
    SameLength(a, b);
    if a != [] {
      HeadsEqual(a, b);
      SortedUnique(a[1..], b[1..]);
      SameConsed(a, b);
    }
  }

  lemma SameConsed(a: seq<real>, b: seq<real>)
    requires a != [] && b != [] && a[0] == b[0] && a[1..] == b[1..]
    ensures a == b
  {
    assert a == [a[0]] + a[1..] && b == [b[0]] + b[1..];
  }

  /** The least and the greatest of best lie within epsilon of each other. */
  predicate Close(least: real, greatest: real, epsilon: real) {
    (1.0 + epsilon) * least >= greatest
  }

  // ----- how many samples are at most b -----

  ghost function AtMost(samples: seq<real>, b: real): set<nat> {
    set i: nat | i < |samples| && samples[i] <= b
  }

  ghost function Count(s: seq<real>, b: real): nat {
    if s == [] then 0 else Count(s[..|s| - 1], b) + if s[|s| - 1] <= b then 1 else 0
  }

  lemma {:induction false} CountIndices(s: seq<real>, b: real)
    ensures |AtMost(s, b)| == Count(s, b)
  {
    if s == [] {
      assert AtMost(s, b) == {};
    } else {
      var n := |s| - 1;
      CountIndices(s[..n], b);
      assert AtMost(s, b) == AtMost(s[..n], b) + if s[n] <= b then {n} else {};
    }
  }

  lemma {:induction false} CountConcat(s: seq<real>, u: seq<real>, b: real)
    ensures Count(s + u, b) == Count(s, b) + Count(u, b)
  {
    if u == [] {
      assert s + u == s;
    } else {
      CountConcat(s, u[..|u| - 1], b);
      assert (s + u)[..|s + u| - 1] == s + u[..|u| - 1];
    }
  }

  lemma {:induction false} CountBounds(s: seq<real>, b: real)
    ensures Count(s, b) <= |s|
    ensures (forall x :: x in s ==> b < x) ==> Count(s, b) == 0
    ensures (forall x :: x in s ==> x <= b) ==> Count(s, b) == |s|
  {
    if s != [] {
      var n := |s| - 1;
      CountBounds(s[..n], b);
      assert s[n] in s && forall x :: x in s[..n] ==> x in s;
    }
  }

  /** s without one occurrence of x */
  lemma TakeOut(s: seq<real>, x: real, b: real) returns (s': seq<real>)
    requires x in s
    ensures multiset(s') == multiset(s) - multiset{x} && |s'| == |s| - 1
    ensures Count(s, b) == Count(s', b) + if x <= b then 1 else 0
  {
    var j :| 0 <= j < |s| && s[j] == x;
    s' := s[..j] + s[j + 1..];
    assert s == s[..j] + ([x] + s[j + 1..]);
    CountConcat(s[..j], [x] + s[j + 1..], b);
    CountConcat([x], s[j + 1..], b);
    CountConcat(s[..j], s[j + 1..], b);
    assert [x][..0] == [];
    assert Count([x], b) == if x <= b then 1 else 0;
  }

  lemma LastOut(s: seq<real>)
    requires s != []
    ensures var n := |s| - 1;
            s == s[..n] + [s[n]] && multiset(s) - multiset{s[n]} == multiset(s[..n]) && multiset(s[..n]) <= multiset(s) && s[n] in multiset(s)
  {
    var n := |s| - 1;
    assert s == s[..n] + [s[n]];
  }

  /** What is left of samples without best, and how it counts. */
  lemma {:induction false} Rest(best: seq<real>, samples: seq<real>, b: real) returns (rest: seq<real>)
    requires multiset(best) <= multiset(samples)
    ensures multiset(rest) == multiset(samples) - multiset(best) && Count(samples, b) == Count(best, b) + Count(rest, b)
  {
    if best == [] {
      rest := samples;
    } else {
      LastOut(best);
      var x, before := best[|best| - 1], best[..|best| - 1];
      assert x in multiset(samples);
      var s' := TakeOut(samples, x, b);
      assert multiset(before) <= multiset(s') by {
        assert multiset(before) == multiset(best) - multiset{x};
      }
      rest := Rest(before, s', b);
      assert multiset(samples) - multiset(best) == multiset(s') - multiset(before);
    }
  }

  /** At least k samples are at most b exactly if the greatest of the k smallest is. */
  lemma KthAtMost(best: seq<real>, samples: seq<real>, k: nat, b: real)
    requires KSmallest(best, samples, k) && 1 <= k <= |samples|
    ensures |best| == k && (|AtMost(samples, b)| >= k <==> best[k - 1] <= b)
  {
    hide AtMost, Count;
    CountIndices(samples, b);
    var rest := Rest(best, samples, b);
    var last := best[k - 1];
    if last <= b {
      forall x | x in best
        ensures x <= b
      {
        AtMostLast(best, x);
      }
      CountBounds(best, b);
    } else {
      forall x | x in rest
        ensures b < x
      {
        assert x in multiset(rest) && last in best;
      }
      CountBounds(rest, b);
      LastOut(best);
      CountLast(best, b);
      CountBounds(best[..k - 1], b);
    }
  }

  lemma CountLast(s: seq<real>, b: real)
    requires s != []
    ensures Count(s, b) == Count(s[..|s| - 1], b) + if s[|s| - 1] <= b then 1 else 0
  {
  }

  lemma AtMostLast(best: seq<real>, x: real)
    requires Sorted(best) && x in best
    ensures x <= best[|best| - 1]
  {
  }

  ghost predicate LeastOf(samples: seq<real>, least: real) {
    least in samples && forall x :: x in samples ==> least <= x
  }

  /** The first of the k smallest is the least sample. */
  lemma FirstOfBest(best: seq<real>, samples: seq<real>, k: nat)
    requires KSmallest(best, samples, k) && 1 <= k && samples != []
    ensures best != [] && LeastOf(samples, best[0])
  {
    assert best[0] in multiset(best);
    forall x | x in samples
      ensures best[0] <= x
    {
      if x in best {
        var i :| 0 <= i < |best| && best[i] == x;
        assert i > 0 ==> best[0] <= best[i];
      } else {
        assert x in multiset(samples) - multiset(best) && best[0] in best;
      }
    }
  }

  /** What exceeds least by the fraction epsilon of it. */
  function Bound(least: real, epsilon: real): real {
    (1.0 + epsilon) * least
  }

  /** At least k samples exceed the least one by no more than the fraction epsilon of it. */
  ghost predicate Converged(samples: seq<real>, k: nat, epsilon: real) {
    exists least: real :: LeastOf(samples, least) && |AtMost(samples, Bound(least, epsilon))| >= k
  }

  lemma OneLeast(samples: seq<real>, k: nat, epsilon: real, least: real)
    requires LeastOf(samples, least)
    ensures Converged(samples, k, epsilon) <==> |AtMost(samples, Bound(least, epsilon))| >= k
  {
    hide AtMost, Bound;
    if Converged(samples, k, epsilon) {
      var other: real :| LeastOf(samples, other) && |AtMost(samples, Bound(other, epsilon))| >= k;
      assert other == least;
    }
  }

  /** Whether that is so can be read off the k smallest. */
  lemma ConvergedIff(best: seq<real>, samples: seq<real>, k: nat, epsilon: real)
    requires KSmallest(best, samples, k) && 1 <= k
    ensures |samples| >= k ==> |best| == k
    ensures Converged(samples, k, epsilon) <==> |samples| >= k && Close(best[0], best[k - 1], epsilon)
  {
    if |samples| >= k {
      FirstOfBest(best, samples, k);
      KthAtMost(best, samples, k, Bound(best[0], epsilon));
      OneLeast(samples, k, epsilon, best[0]);
    } else if least: real :| LeastOf(samples, least) && |AtMost(samples, Bound(least, epsilon))| >= k {
      CountIndices(samples, Bound(least, epsilon));
      CountBounds(samples, Bound(least, epsilon));
    }
  }

  /** Sorted but for the element at pos, which may be too large for its predecessors only. */
  ghost predicate SortedBut(s: seq<real>, pos: nat) {
    && pos < |s|
    && (forall i, j {:trigger s[i], s[j]} :: 0 <= i < j < |s| && i != pos && j != pos ==> s[i] <= s[j])
    && (forall j {:trigger s[j]} :: pos < j < |s| ==> s[pos] <= s[j])
  }

  lemma OneMore(s: seq<real>)
    requires s != [] && Sorted(s[..|s| - 1])
    ensures SortedBut(s, |s| - 1)
  {
    assert forall i :: 0 <= i < |s| - 1 ==> s[i] == s[..|s| - 1][i];
  }

  lemma SwapDown(s: seq<real>, pos: nat)
    requires SortedBut(s, pos) && 0 < pos && s[pos - 1] > s[pos]
    ensures SortedBut(s[pos - 1 := s[pos]][pos := s[pos - 1]], pos - 1)
    ensures multiset(s[pos - 1 := s[pos]][pos := s[pos - 1]]) == multiset(s)
  {
  }

  lemma NowSorted(s: seq<real>, pos: nat)
    requires SortedBut(s, pos) && (pos == 0 || s[pos - 1] <= s[pos])
    ensures Sorted(s)
  {
    forall i, j | 0 <= i < j < |s|
      ensures s[i] <= s[j]
    {
      if j == pos && i < pos - 1 {
        assert s[i] <= s[pos - 1];
      }
    }
  }

  lemma BestSorted(best: seq<real>, samples: seq<real>, k: nat)
    requires KSmallest(best, samples, k)
    ensures Sorted(best) && |best| == Least(|samples|, k)
    ensures forall i :: 0 <= i <= |best| ==> Sorted(best[..i])
  {
  }

  // ----- the three ways a sample is taken in -----

  lemma RoomLeft(best: seq<real>, samples: seq<real>, k: nat, val: real, s: seq<real>)
    requires KSmallest(best, samples, k) && |samples| < k
    requires Sorted(s) && multiset(s) == multiset(best + [val])
    ensures KSmallest(s, samples + [val], k)
  {
    assert |multiset(s)| == |multiset(best + [val])|;
    assert |multiset(samples) - multiset(best)| == 0;
    assert multiset(samples + [val]) - multiset(s) == multiset(samples) - multiset(best);
  }

  lemma LargestOut(best: seq<real>, samples: seq<real>, k: nat, val: real, s: seq<real>)
    requires KSmallest(best, samples, k) && 1 <= k <= |samples| && val < best[k - 1]
    requires Sorted(s) && multiset(s) == multiset(best[..k - 1] + [val])
    ensures KSmallest(s, samples + [val], k)
  {
    var out := best[k - 1];
    assert best == best[..k - 1] + [out];
    assert |multiset(s)| == |multiset(best[..k - 1] + [val])|;
    assert multiset(samples + [val]) - multiset(s) == (multiset(samples) - multiset(best)) + multiset{out};
    forall x, y | x in multiset(samples + [val]) - multiset(s) && y in s
      ensures y <= x
    {
      assert y in multiset(s);
      if y != val {
        var i :| 0 <= i < k - 1 && best[..k - 1][i] == y;
        assert y == best[i] <= out;
      }
      assert out in best;
    }
  }

  lemma NotAmong(best: seq<real>, samples: seq<real>, k: nat, val: real)
    requires KSmallest(best, samples, k) && 1 <= k <= |samples| && val >= best[k - 1]
    ensures KSmallest(best, samples + [val], k)
  {
    assert multiset(samples + [val]) - multiset(best) == (multiset(samples) - multiset(best)) + multiset{val};
  }

  class KBest {
    const kbest: nat
    const maxsamples: int
    const epsilon: real
    var values: array<real>
    var samplecount: nat
    ghost var samples: seq<real>

    constructor (kbest: nat, maxsamples: int, epsilon: real)
      requires 1 <= kbest
      ensures Valid() && samples == [] && fresh(values)
      ensures this.kbest == kbest && this.maxsamples == maxsamples && this.epsilon == epsilon
    {
      this.kbest, this.maxsamples, this.epsilon := kbest, maxsamples, epsilon;
      values := new real[kbest](_ => 0.0);
      samplecount, samples := 0, [];
    }

    /** The buffer holds the k smallest of all samples so far, in order. */
    ghost predicate Valid()
      reads this, values
    {
      && 1 <= kbest && values.Length == kbest && samplecount == |samples|
      && KSmallest(values[..Least(samplecount, kbest)], samples, kbest)
    }

    /** add_sample */
    method AddSample(val: real)
      requires Valid()
      modifies this`samplecount, this`samples, values
      ensures Valid() && samples == old(samples) + [val]
    {
      hide KSmallest, Sorted;
      ghost var best := values[..Least(samplecount, kbest)];
      BestSorted(best, samples, kbest);
      if samplecount < kbest {
        TakeIn(val, best);
      } else if val < values[kbest - 1] {
        PushOut(val, best);
      } else {
        NotAmong(best, samples, kbest, val);
        Record(samples + [val], kbest);
      }
    }

    /** case samplecount < kbest */
    method TakeIn(val: real, ghost best: seq<real>)
      requires Valid() && samplecount < kbest && best == values[..samplecount] && Sorted(best)
      modifies `samplecount, `samples, values
      ensures Valid() && samples == old(samples) + [val]
    {
      hide KSmallest, Sorted;
      Replace(samplecount, val, best);
      RoomLeft(best, samples, kbest, val, values[..samplecount + 1]);
      Record(samples + [val], samplecount + 1);
    }

    /** case val < values[kbest - 1] */
    method PushOut(val: real, ghost best: seq<real>)
      requires Valid() && samplecount >= kbest && val < values[kbest - 1]
      requires best == values[..kbest] && Sorted(best[..kbest - 1])
      modifies `samplecount, `samples, values
      ensures Valid() && samples == old(samples) + [val]
    {
      hide KSmallest, Sorted;
      Replace(kbest - 1, val, best[..kbest - 1]);
      LargestOut(best, samples, kbest, val, values[..kbest]);
      Record(samples + [val], kbest);
    }

    /** samplecount++ */
    method Record(ghost all: seq<real>, ghost c: nat)
      requires 1 <= kbest && values.Length == kbest && c == Least(samplecount + 1, kbest)
      requires |all| == samplecount + 1 && KSmallest(values[..c], all, kbest)
      modifies `samplecount, `samples
      ensures Valid() && samples == all
    {
      hide KSmallest;
      samplecount := samplecount + 1;
      samples := all;
    }

    /** The new sample goes to position pos and from there to its place. */
    method Replace(pos: nat, val: real, ghost before: seq<real>)
      requires pos < values.Length && values[..pos] == before && Sorted(before)
      modifies values
      ensures Sorted(values[..pos + 1])
      ensures multiset(values[..pos + 1]) == multiset(before + [val])
    {
      hide Sorted;
      values[pos] := val;
      assert values[..pos] == before && values[..pos + 1] == before + [val];
      SortIn(pos);
    }

    /** Two neighbouring values change places. */
    method Swap(pos: nat, last: nat, ghost s: seq<real>)
      requires 0 < pos <= last < values.Length && values[..last + 1] == s
      modifies values
      ensures values[..last + 1] == s[pos - 1 := s[pos]][pos := s[pos - 1]]
    {
      assert values[pos - 1] == s[pos - 1] && values[pos] == s[pos];
      var temp := values[pos - 1];
      values[pos - 1] := values[pos];
      values[pos] := temp;
    }

    /** The insertion sort that ends add_sample */
    method SortIn(last: nat)
      requires last < values.Length && Sorted(values[..last])
      modifies values
      ensures Sorted(values[..last + 1])
      ensures multiset(values[..last + 1]) == multiset(old(values[..last + 1]))
    {
      var pos: nat := last;
      ghost var s0, s := values[..last + 1], values[..last + 1];
      assert s[..last] == values[..last];
      OneMore(s);
      hide Sorted, SortedBut;
      while pos > 0 && values[pos - 1] > values[pos]
        invariant pos <= last && values[..last + 1] == s
        invariant SortedBut(s, pos) && multiset(s) == multiset(s0)
      {
        SwapDown(s, pos);
        Swap(pos, last, s);
        s := s[pos - 1 := s[pos]][pos := s[pos - 1]];
        pos := pos - 1;
      }
      assert pos > 0 ==> values[pos - 1] == s[pos - 1] && values[pos] == s[pos];
      NowSorted(s, pos);
    }

    /** has_converged */
    function HasConverged(): bool
      requires Valid()
      reads this, values
    {
      samplecount >= kbest && Close(values[0], values[kbest - 1], epsilon)
    }

    /** The first entry is the least sample. */
    lemma FirstIsLeast()
      requires Valid() && samples != []
      ensures LeastOf(samples, values[0])
    {
      FirstOfBest(values[..Least(samplecount, kbest)], samples, kbest);
    }

    lemma ConvergedNow()
      requires Valid()
      ensures HasConverged() <==> Converged(samples, kbest, epsilon)
    {
      hide KSmallest, Close;
      ConvergedIff(values[..Least(samplecount, kbest)], samples, kbest, epsilon);
    }

    /** fcyc: measures until the best samples converge or maxsamples is reached, and
        returns the least measurement made: it stops as soon as either happens.  cost(i) is
        the i-th measurement. */
    method Fcyc(cost: nat -> real) returns (result: real)
      requires Valid() && samples == []
      modifies this, values
      ensures Valid() && samplecount == |samples| && 1 <= samplecount
      ensures samplecount <= 1 || samplecount <= maxsamples
      ensures forall i :: 0 <= i < samplecount ==> samples[i] == cost(i)
      ensures Converged(samples, kbest, epsilon) || samplecount >= maxsamples
      ensures forall n {:trigger samples[..n]} :: 1 <= n < samplecount ==> !Converged(samples[..n], kbest, epsilon) && n < maxsamples
      ensures LeastOf(samples, result)
      ensures |AtMost(samples, Bound(result, epsilon))| >= kbest || samplecount >= maxsamples
    {
      hide KSmallest, Converged, AtMost, Bound;
      var more := true;
      while more
        invariant Valid() && values == old(values)
        invariant more ==> samplecount == 0 || (samplecount < maxsamples && !Converged(samples, kbest, epsilon))
        invariant !more ==> 1 <= samplecount && (Converged(samples, kbest, epsilon) || samplecount >= maxsamples)
        invariant forall n {:trigger samples[..n]} :: 1 <= n < samplecount ==> !Converged(samples[..n], kbest, epsilon) && n < maxsamples
        invariant samplecount <= 1 || samplecount <= maxsamples
        invariant forall i :: 0 <= i < samplecount ==> samples[i] == cost(i)
        decreases more, maxsamples - samplecount
      {
        ghost var before := samples;
        AddSample(cost(samplecount));
        assert samples[..|before|] == before && forall n :: 0 <= n <= |before| ==> samples[..n] == before[..n];
        ConvergedNow();
        more := !HasConverged() && samplecount < maxsamples;
      }
      FirstIsLeast();
      result := values[0];
      OneLeast(samples, kbest, epsilon, result);
    }
  }
}
