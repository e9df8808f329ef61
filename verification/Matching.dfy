/** Greedy matching of a message sequence against a list of acceptance tests. */
module Matching {
  import opened Wrappers

  /** The first position from i on whose message passes the test. */
  function FirstFrom<M>(s: seq<M>, ok: M -> bool, i: nat): (r: Option<nat>)
    requires i <= |s|
    ensures r.Some? ==> i <= r.value < |s|
    decreases |s| - i
  {
    if i == |s| then None
    else if ok(s[i]) then Some(i)
    else FirstFrom(s, ok, i + 1)
  }

  lemma {:induction false} FirstFromMeaning<M>(s: seq<M>, ok: M -> bool, i: nat)
    requires i <= |s|
    ensures
      match FirstFrom(s, ok, i)
      case Some(j) => ok(s[j]) && forall k :: i <= k < j ==> !ok(s[k])
      case None => forall k :: i <= k < |s| ==> !ok(s[k])
    decreases |s| - i
  {
    if i < |s| && !ok(s[i]) { FirstFromMeaning(s, ok, i + 1); }
  }

  /** A search loop that stops at j has found the first position. */
  lemma {:induction false} FirstFromIs<M>(s: seq<M>, ok: M -> bool, i: nat, j: nat)
    requires i <= j <= |s|
    requires forall k :: i <= k < j ==> !ok(s[k])
    requires j < |s| ==> ok(s[j])
    ensures FirstFrom(s, ok, i) == if j < |s| then Some(j) else None
    decreases j - i
  {
    if i < j { FirstFromIs(s, ok, i + 1, j); }
  }

  /** Each test, from number k on, takes the first message it accepts after the previous one's. */
  function Greedy<M>(s: seq<M>, oks: seq<M -> bool>, k: nat, i: nat): Option<seq<nat>>
    requires k <= |oks| && i <= |s|
    decreases |oks| - k
  {
    if k == |oks| then Some([])
    else match FirstFrom(s, oks[k], i)
      case None => None
      case Some(j) =>
        match Greedy(s, oks, k + 1, j + 1)
        case None => None
        case Some(rest) => Some([j] + rest)
  }

  lemma GreedyStep<M>(s: seq<M>, oks: seq<M -> bool>, k: nat, i: nat, a: seq<nat>)
    requires k < |oks| == |a| && i <= |s|
    requires Greedy(s, oks, k, i) == Some(a[k..])
    ensures FirstFrom(s, oks[k], i) == Some(a[k])
    ensures Greedy(s, oks, k + 1, a[k] + 1) == Some(a[k + 1..])
  {
    assert a[k..][0] == a[k] && a[k..][1..] == a[k + 1..];
  }

  /** Messages at strictly increasing positions from i on, each passing its test; the tests are those from k on. */
  ghost predicate Assignment<M>(s: seq<M>, oks: seq<M -> bool>, k: nat, a: seq<nat>, i: nat) {
    && k + |a| == |oks|
    && (forall n :: 0 <= n < |a| ==> i <= a[n] < |s| && oks[k + n](s[a[n]]))
    && (forall m, n :: 0 <= m < n < |a| ==> a[m] < a[n])
  }

  lemma {:induction false} GreedyIsAssignment<M>(s: seq<M>, oks: seq<M -> bool>, k: nat, i: nat)
    requires k <= |oks| && i <= |s| && Greedy(s, oks, k, i).Some?
    ensures Assignment(s, oks, k, Greedy(s, oks, k, i).value, i)
    decreases |oks| - k
  {
    if k < |oks| {
      var j := FirstFrom(s, oks[k], i).value;
      FirstFromMeaning(s, oks[k], i);
      GreedyIsAssignment(s, oks, k + 1, j + 1);
      var rest := Greedy(s, oks, k + 1, j + 1).value;
      assert forall n :: 0 <= n < |rest| ==> oks[k + 1 + n](s[rest[n]]);
    }
  }

  /** Whatever assignment there is, greedy matching succeeds and is nowhere later. */
  lemma {:induction false} GreedyIsEarliest<M>(s: seq<M>, oks: seq<M -> bool>, k: nat, i: nat, a: seq<nat>)
    requires k <= |oks| && i <= |s| && Assignment(s, oks, k, a, i)
    ensures Greedy(s, oks, k, i).Some? && |Greedy(s, oks, k, i).value| == |a|
    ensures forall n :: 0 <= n < |a| ==> Greedy(s, oks, k, i).value[n] <= a[n]
    decreases |oks| - k
  {
    if k < |oks| {
      var j := FirstFrom(s, oks[k], i);
      FirstFromMeaning(s, oks[k], i);
      assert oks[k + 0](s[a[0]]);
      assert j.Some? && j.value <= a[0];
      forall n | 0 <= n < |a[1..]|
        ensures j.value + 1 <= a[1..][n] < |s| && oks[k + 1 + n](s[a[1..][n]])
      {
        assert oks[k + (n + 1)](s[a[n + 1]]);
      }
      GreedyIsEarliest(s, oks, k + 1, j.value + 1, a[1..]);
    }
  }

  /** Greedy matching is complete and sound. */
  lemma GreedyIffAssignment<M>(s: seq<M>, oks: seq<M -> bool>, i: nat)
    requires i <= |s|
    ensures Greedy(s, oks, 0, i).Some? <==> exists a :: Assignment(s, oks, 0, a, i)
  {
    if Greedy(s, oks, 0, i).Some? {
      GreedyIsAssignment(s, oks, 0, i);
    }
    if a :| Assignment(s, oks, 0, a, i) {
      GreedyIsEarliest(s, oks, 0, i, a);
    }
  }
}
