/** In-order subsequences: what is left of a stream after arbitrary drops. */
module Subsequences {
  import opened Bytes

  /** `a` results from `b` by leaving elements out; compared from the end, where streams grow. */
  ghost predicate Sub<T>(a: seq<T>, b: seq<T>) {
    if a == [] then true
    else if b == [] then false
    else
      || (a[|a| - 1] == b[|b| - 1] && Sub(a[..|a| - 1], b[..|b| - 1]))
      || Sub(a, b[..|b| - 1])
  }

  ghost predicate Increasing(idx: seq<nat>, bound: nat) {
    && (forall i :: 0 <= i < |idx| ==> idx[i] < bound)
    && (forall i, j :: 0 <= i < j < |idx| ==> idx[i] < idx[j])
  }

  /** What `Sub` means: each element of `a` is one element of `b`, at strictly increasing positions. */
  lemma {:induction false} SubMeaning<T>(a: seq<T>, b: seq<T>) returns (idx: seq<nat>)
    requires Sub(a, b)
    ensures |idx| == |a| && Increasing(idx, |b|)
    ensures forall i :: 0 <= i < |a| ==> b[idx[i]] == a[i]
    decreases |b|
  {
    if a == [] {
      idx := [];
    } else {
      var m, n := |a| - 1, |b| - 1;
      if a[m] == b[n] && Sub(a[..m], b[..n]) {
        var front := SubMeaning(a[..m], b[..n]);
        idx := front + [n];
      } else {
        idx := SubMeaning(a, b[..n]);
      }
    }
  }

  /** Positions of positions. */
  function Compose(o: seq<nat>, at: seq<nat>): seq<nat>
    requires forall i :: 0 <= i < |at| ==> at[i] < |o|
  {
    seq(|at|, i requires 0 <= i < |at| => o[at[i]])
  }

  lemma ComposeIncreasing(o: seq<nat>, at: seq<nat>, bound: nat)
    requires Increasing(o, bound) && Increasing(at, |o|)
    ensures Increasing(Compose(o, at), bound)
  {
  }

  lemma SubPush<T>(a: seq<T>, b: seq<T>, x: T)
    requires Sub(a, b)
    ensures Sub(a + [x], b + [x])
    ensures Sub(a, b + [x])
  {
    assert (a + [x])[..|a|] == a && (b + [x])[..|b|] == b;
  }

  lemma {:induction false} SubRefl<T>(a: seq<T>)
    ensures Sub(a, a)
  {
    if a == [] {
    } else {
      SubRefl(a[..|a| - 1]);
    }
  }

  lemma {:induction false} SubTrans<T>(a: seq<T>, b: seq<T>, c: seq<T>)
    requires Sub(a, b) && Sub(b, c)
    ensures Sub(a, c)
    decreases |c|
  {
    if a == [] {
    } else {
      var i, j, k := |a| - 1, |b| - 1, |c| - 1;
      if b[j] == c[k] && Sub(b[..j], c[..k]) {
        if a[i] == b[j] && Sub(a[..i], b[..j]) {
          SubTrans(a[..i], b[..j], c[..k]);
        } else {
          SubTrans(a, b[..j], c[..k]);
        }
      } else {
        SubTrans(a, b, c[..k]);
      }
    }
  }

  /** Splitting off the last element of the second part. */
  lemma LastOf<T>(a: seq<T>, y: seq<T>)
    requires y != []
    ensures a + y == a + y[..|y| - 1] + [y[|y| - 1]]
  {
  }

  lemma {:induction false} SubConcat<T>(a: seq<T>, b: seq<T>, y: seq<T>)
    requires Sub(a, b)
    ensures Sub(a + y, b + y)
    ensures Sub(a, b + y)
  {
    if y == [] {
      assert a + y == a && b + y == b;
    } else {
      var m := |y| - 1;
      SubConcat(a, b, y[..m]);
      LastOf(a, y);
      LastOf(b, y);
      SubPush(a + y[..m], b + y[..m], y[m]);
      SubPush(a, b + y[..m], y[m]);
    }
  }

  /** One element less in the middle. */
  lemma SubWithout<T>(x: seq<T>, m: T, y: seq<T>, b: seq<T>)
    requires Sub(x + [m] + y, b)
    ensures Sub(x + y, b)
  {
    SubRefl(x);
    SubPush(x, x, m);
    SubConcat(x, x + [m], y);
    SubTrans(x + y, x + [m] + y, b);
  }

  /** A shorter front part. */
  lemma SubFront<T>(x: seq<T>, y: seq<T>, b: seq<T>)
    requires Sub(x + y, b)
    ensures Sub(x, b)
  {
    SubRefl(x);
    SubConcat(x, x, y);
    SubTrans(x, x + y, b);
  }

  lemma {:induction false} SubLength<T>(a: seq<T>, b: seq<T>)
    requires Sub(a, b)
    ensures |a| <= |b| && (|a| == |b| ==> a == b)
    decreases |b|
  {
    if a == [] {
    } else {
      var m, n := |a| - 1, |b| - 1;
      if a[m] == b[n] && Sub(a[..m], b[..n]) {
        SubLength(a[..m], b[..n]);
        assert a == a[..m] + [a[m]] && b == b[..n] + [b[n]];
      } else {
        SubLength(a, b[..n]);
      }
    }
  }

  // ------------------------------------------- what a partial function makes of a stream

  function Listed<T>(r: Option<T>): seq<T> {
    if r.Some? then [r.value] else []
  }

  function Results<S, T>(f: S -> Option<T>, xs: seq<S>): seq<T> {
    if xs == [] then [] else Results(f, xs[..|xs| - 1]) + Listed(f(xs[|xs| - 1]))
  }

  lemma ResultsPush<S, T>(f: S -> Option<T>, xs: seq<S>, x: S)
    ensures Results(f, xs + [x]) == Results(f, xs) + Listed(f(x))
  {
    assert (xs + [x])[..|xs|] == xs;
  }

  /** Results of a concatenation, one list after the other. */
  ghost predicate Splits<S, T>(f: S -> Option<T>, a: seq<S>, b: seq<S>) {
    Results(f, a + b) == Results(f, a) + Results(f, b)
  }

  lemma SplitsNothing<S, T>(f: S -> Option<T>, a: seq<S>)
    ensures Splits(f, a, [])
  {
    assert a + [] == a && Results(f, a) + [] == Results(f, a);
  }

  lemma SplitsPush<S, T>(f: S -> Option<T>, a: seq<S>, b: seq<S>, x: S)
    requires Splits(f, a, b)
    ensures Splits(f, a, b + [x])
  {
    ResultsPush(f, a + b, x);
    ResultsPush(f, b, x);
    Regrouped(a, b, [x]);
    Regrouped(Results(f, a), Results(f, b), Listed(f(x)));
  }

  lemma Regrouped<T>(a: seq<T>, b: seq<T>, c: seq<T>)
    ensures (a + b) + c == a + (b + c)
  {
  }

  lemma {:induction false} SplitsUpTo<S, T>(f: S -> Option<T>, a: seq<S>, b: seq<S>, k: nat)
    requires k <= |b|
    ensures Splits(f, a, b[..k])
    decreases k
  {
    if k == 0 {
      SplitsNothing(f, a);
    } else {
      SplitsUpTo(f, a, b, k - 1);
      SplitsPush(f, a, b[..k - 1], b[k - 1]);
      OneMoreTaken(b, k);
    }
  }

  lemma OneMoreTaken<S>(b: seq<S>, k: nat)
    requires 0 < k <= |b|
    ensures b[..k - 1] + [b[k - 1]] == b[..k]
  {
  }

  lemma ResultsConcat<S, T>(f: S -> Option<T>, a: seq<S>, b: seq<S>)
    ensures Results(f, a + b) == Results(f, a) + Results(f, b)
  {
    SplitsUpTo(f, a, b, |b|);
    assert b[..|b|] == b;
  }

  /** Leaving out arguments leaves out results. */
  lemma {:induction false} ResultsMonotone<S, T>(f: S -> Option<T>, a: seq<S>, b: seq<S>)
    requires Sub(a, b)
    ensures Sub(Results(f, a), Results(f, b))
    decreases |b|
  {
    if a == [] {
    } else {
      var i, j := |a| - 1, |b| - 1;
      var last := Listed(f(b[j]));
      if a[i] == b[j] && Sub(a[..i], b[..j]) {
        ResultsMonotone(f, a[..i], b[..j]);
        SubConcat(Results(f, a[..i]), Results(f, b[..j]), last);
      } else {
        ResultsMonotone(f, a, b[..j]);
        SubConcat(Results(f, a), Results(f, b[..j]), last);
      }
    }
  }

  /** Each element of `ms` is the result for one argument, at strictly increasing positions. */
  ghost predicate From<S, T>(f: S -> Option<T>, xs: seq<S>, ms: seq<T>, idx: seq<nat>) {
    && |idx| == |ms| && Increasing(idx, |xs|)
    && forall i :: 0 <= i < |idx| ==> f(xs[idx[i]]) == Some(ms[i])
  }

  lemma IncreasingPush(front: seq<nat>, n: nat)
    requires Increasing(front, n)
    ensures Increasing(front, n + 1) && Increasing(front + [n], n + 1)
  {
  }

  /** One more argument, with or without a result. */
  lemma FromKeep<S, T>(f: S -> Option<T>, xs: seq<S>, x: S, ms: seq<T>, front: seq<nat>)
    requires From(f, xs, ms, front)
    ensures From(f, xs + [x], ms, front)
  {
    IncreasingPush(front, |xs|);
    assert forall i :: 0 <= i < |front| ==> (xs + [x])[front[i]] == xs[front[i]];
  }

  lemma FromPush<S, T>(f: S -> Option<T>, xs: seq<S>, x: S, ms: seq<T>, front: seq<nat>, y: T)
    requires From(f, xs, ms, front) && f(x) == Some(y)
    ensures From(f, xs + [x], ms + [y], front + [|xs|])
  {
    IncreasingPush(front, |xs|);
    var all, idx := xs + [x], front + [|xs|];
    forall i | 0 <= i < |idx| ensures f(all[idx[i]]) == Some((ms + [y])[i]) {
      if i < |front| {
        assert all[front[i]] == xs[front[i]];
      }
    }
  }

  lemma {:induction false} ResultsFrom<S, T>(f: S -> Option<T>, xs: seq<S>) returns (idx: seq<nat>)
    ensures From(f, xs, Results(f, xs), idx)
  {
    if xs == [] {
      idx := [];
    } else {
      var m := |xs| - 1;
      var before, x := xs[..m], xs[m];
      var front := ResultsFrom(f, before);
      var ms := Results(f, before);
      assert xs == before + [x];
      match f(x)
      case None =>
        idx := front;
        FromKeep(f, before, x, ms, front);
        assert ms + [] == ms;
      case Some(y) =>
        idx := front + [m];
        FromPush(f, before, x, ms, front, y);
    }
  }

  lemma FromSub<S, T>(f: S -> Option<T>, xs: seq<S>, all: seq<T>, o: seq<nat>, ms: seq<T>) returns (idx: seq<nat>)
    requires From(f, xs, all, o) && Sub(ms, all)
    ensures From(f, xs, ms, idx)
  {
    var at := SubMeaning(ms, all);
    idx := Compose(o, at);
    ComposeIncreasing(o, at, |xs|);
  }
}
