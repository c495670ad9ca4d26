/** The result type of the system's fallible operations; errors carry the source's numeric code. */
module Results {
  datatype Option<+T> = None | Some(value: T)

  datatype Result<+T> = Ok(value: T) | Err(code: nat) {
    predicate IsFailure() { Err? }
    function PropagateFailure<U>(): Result<U> requires Err? { Err(code) }
    function Extract(): T requires Ok? { value }
  }
}

/** Finite sequences without repetition. */
module Pigeonhole {
  ghost predicate NoDuplicates<T(!new)>(s: seq<T>) {
    forall i, j :: 0 <= i < j < |s| ==> s[i] != s[j]
  }

  lemma {:induction false} FitsInSet<T(!new)>(s: seq<T>, S: set<T>)
    requires NoDuplicates(s)
    requires forall i :: 0 <= i < |s| ==> s[i] in S
    ensures |s| <= |S|
    decreases |s|
  {
    if s != [] {
      var n := |s| - 1;
      assert |S| == |S - {s[n]}| + 1;
      forall i | 0 <= i < n
        ensures s[..n][i] in S - {s[n]}
      {
        assert s[..n][i] == s[i] && s[i] in S;
      }
      assert NoDuplicates(s[..n]);
      FitsInSet(s[..n], S - {s[n]});
    }
  }
}

/** Sub-sequences given by the positions they keep. */
module Selections {
  ghost predicate Increasing(at: seq<nat>) { forall i, j :: 0 <= i < j < |at| ==> at[i] < at[j] }

  /** ys lists, in order, the elements of xs at the positions `at`. */
  ghost predicate Picks<T(!new)>(xs: seq<T>, at: seq<nat>, ys: seq<T>) {
    && Increasing(at) && |ys| == |at|
    && forall k :: 0 <= k < |at| ==> at[k] < |xs| && ys[k] == xs[at[k]]
  }

  lemma PickSkip<T(!new)>(xs: seq<T>, at: seq<nat>, ys: seq<T>, more: seq<T>)
    requires Picks(xs, at, ys)
    ensures Picks(xs + more, at, ys)
  {}

  lemma PickOne<T(!new)>(xs: seq<T>, at: seq<nat>, ys: seq<T>, x: T)
    requires Picks(xs, at, ys)
    ensures Picks(xs + [x], at + [|xs|], ys + [x])
  {}
}
