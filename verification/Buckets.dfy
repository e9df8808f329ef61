/** Aggregating a plan's logs into time buckets. */
module Buckets {
  import opened Wrappers

  /** A log, as far as bucketing sees it. */
  datatype Log = Log(status: string, createdAt: int)

  datatype Bucket = Bucket(start: int, total: nat, successCount: nat, rate: real)

  /** Go's integer division rounds toward zero. */
  function GoDiv(a: int, b: int): int
    requires b != 0
  {
    if (a >= 0) == (b > 0) then Abs(a) / Abs(b) else -(Abs(a) / Abs(b))
  }

  function Abs(a: int): nat {
    if a < 0 then -a else a
  }

  predicate IsSuccess(l: Log) {
    l.status == "success"
  }

  // ---------- Where a log belongs ----------

  /** The bucket whose time span holds the log; the last bucket holds everything after its start.
      A negative size, which goes with a negative duration, puts everything into the first bucket. */
  predicate Belongs(l: Log, i: nat, start: int, size: int, n: nat) {
    && i < n
    && if size > 0 then
         start + i * size <= l.createdAt && (i < n - 1 ==> l.createdAt < start + (i + 1) * size)
       else i == 0
  }

  /** The logs of one bucket, in order. */
  function Within(logs: seq<Log>, i: nat, start: int, size: int, n: nat): seq<Log>
    decreases |logs|
  {
    if logs == [] then []
    else
      var before := Within(logs[..|logs| - 1], i, start, size, n);
      var l := logs[|logs| - 1];
      if Belongs(l, i, start, size, n) then before + [l] else before
  }

  function Successes(logs: seq<Log>): nat
    decreases |logs|
  {
    if logs == [] then 0
    else Successes(logs[..|logs| - 1]) + if IsSuccess(logs[|logs| - 1]) then 1 else 0
  }

  function Rate(total: nat, successes: nat): real {
    if total > 0 then successes as real / total as real else 0.0
  }

  /** The index the source computes: the quotient, clamped to the buckets there are. */
  function Index(l: Log, start: int, size: int, n: nat): int
    requires size != 0
  {
    var idx := GoDiv(l.createdAt - start, size);
    if idx < 0 then (if 0 >= n then n - 1 else 0)
    else if idx >= n then n - 1
    else idx
  }

  lemma Scale(size: int, a: nat, b: nat)
    requires size > 0 && a <= b
    ensures a * size <= b * size
  {
  }

  lemma {:induction false} QuotientIsLast(d: nat, size: int, i: nat)
    requires size > 0
    ensures i * size <= d <==> i <= d / size
  {
    var q := d / size;
    assert q * size <= d < (q + 1) * size by {
      assert d == size * q + d % size;
    }
    if i <= q { Scale(size, i, q); } else { Scale(size, q + 1, i); }
  }

  /** For logs from start on, that is the bucket they belong to, and the only one. */
  lemma {:induction false} IndexIsBucket(l: Log, i: nat, start: int, size: int, n: nat)
    requires size != 0 && n > 0 && l.createdAt >= start
    ensures 0 <= Index(l, start, size, n) < n
    ensures Belongs(l, i, start, size, n) <==> i == Index(l, start, size, n)
  {
    hide GoDiv;
    var d := l.createdAt - start;
    NatQuotient(d, size);
    if size > 0 {
      QuotientIsLast(d, size, i);
      QuotientIsLast(d, size, i + 1);
      BelongsByQuotient(l, i, start, size, n, d / size);
    }
  }

  lemma NatQuotient(d: nat, size: int)
    requires size != 0
    ensures size > 0 ==> GoDiv(d, size) == d / size >= 0
    ensures size < 0 ==> GoDiv(d, size) <= 0
  {
    if size < 0 {
      var q := Abs(d) / Abs(size);
      assert q >= 0;
    }
  }

  lemma BelongsByQuotient(l: Log, i: nat, start: int, size: int, n: nat, q: nat)
    requires size > 0
    requires i * size <= l.createdAt - start <==> i <= q
    requires (i + 1) * size <= l.createdAt - start <==> i + 1 <= q
    ensures Belongs(l, i, start, size, n) <==> i < n && i <= q && (i < n - 1 ==> q <= i)
  {
    var a, b := i * size, (i + 1) * size;
    assert start + b == start + (i + 1) * size;
  }

  // ---------- The source's loops ----------

  /** start is now minus the duration. None stands for the panics: a zero bucket size, a negative number of
      buckets, or a log with no bucket to go to. */
  method TimeBuckets(logs: seq<Log>, start: int, duration: int, size: int) returns (r: Option<array<Bucket>>)
    requires forall k :: 0 <= k < |logs| ==> logs[k].createdAt >= start
    ensures r == None <==> size == 0 || GoDiv(duration, size) < 0 || (GoDiv(duration, size) == 0 && logs != [])
    ensures r.Some? ==> fresh(r.value) && r.value.Length == GoDiv(duration, size)
    ensures r.Some? ==>
      forall i :: 0 <= i < r.value.Length ==>
        IsBucketOf(r.value[i], logs, i, start, size, r.value.Length) && r.value[i].start == start + i * size
  {
    if size == 0 {
      return None;
    }
    hide Within, Successes, GoDiv, Rate;
    var bucketCount := GoDiv(duration, size);
    if bucketCount < 0 {
      return None;
    }
    var buckets := EmptyBuckets(start, size, bucketCount);
    if bucketCount == 0 && logs != [] {
      return None;
    }
    Fill(logs, buckets, start, size);
    FillRates(buckets);
    return Some(buckets);
  }

  function EmptyBucket(start: int, size: int, i: nat): Bucket {
    Bucket(start + i * size, 0, 0, 0.0)
  }

  method EmptyBuckets(start: int, size: int, count: nat) returns (buckets: array<Bucket>)
    ensures fresh(buckets) && buckets.Length == count
    ensures forall k :: 0 <= k < count ==> buckets[k] == EmptyBucket(start, size, k)
    ensures forall k :: 0 <= k < count ==> buckets[k] == Bucket(start + k * size, 0, 0, 0.0)
  {
    buckets := new Bucket[count](i => Bucket(0, 0, 0, 0.0));
    for i := 0 to count
      invariant forall k :: 0 <= k < i ==> buckets[k] == EmptyBucket(start, size, k)
      invariant forall k :: i <= k < count ==> buckets[k] == Bucket(0, 0, 0, 0.0)
    {
      buckets[i] := buckets[i].(start := start + i * size);
    }
  }

  ghost predicate IsBucketOf(b: Bucket, logs: seq<Log>, i: nat, start: int, size: int, n: nat) {
    var mine := Within(logs, i, start, size, n);
    b == Bucket(start + i * size, |mine|, Successes(mine), Rate(|mine|, Successes(mine)))
  }

  function CountOf(logs: seq<Log>, i: nat, start: int, size: int, n: nat): Bucket {
    var mine := Within(logs, i, start, size, n);
    Bucket(start + i * size, |mine|, Successes(mine), 0.0)
  }

  lemma NothingWithin(start: int, size: int, n: nat)
    ensures forall k :: 0 <= k < n ==> CountOf([], k, start, size, n) == EmptyBucket(start, size, k)
  {
  }

  /** Counts the logs into the buckets. */
  method Fill(logs: seq<Log>, buckets: array<Bucket>, start: int, size: int)
    requires size != 0 && (buckets.Length == 0 ==> logs == [])
    requires forall k :: 0 <= k < |logs| ==> logs[k].createdAt >= start
    requires forall k :: 0 <= k < buckets.Length ==> buckets[k] == EmptyBucket(start, size, k)
    modifies buckets
    ensures forall k :: 0 <= k < buckets.Length ==> buckets[k].rate == 0.0
    ensures forall k :: 0 <= k < buckets.Length ==> buckets[k] == CountOf(logs, k, start, size, buckets.Length)
  {
    hide Within, Successes, Belongs, GoDiv, Rate;
    var n := buckets.Length;
    NothingWithin(start, size, n);
    assert logs[..0] == [];
    for j := 0 to |logs|
      invariant forall k :: 0 <= k < n ==> buckets[k].rate == 0.0
      invariant forall k :: 0 <= k < n ==> buckets[k] == CountOf(logs[..j], k, start, size, n)
    {
      var l := logs[j];
      var idx := GoDiv(l.createdAt - start, size);
      if idx < 0 {
        idx := 0;
      }
      if idx >= n {
        idx := n - 1;
      }
      ghost var before := buckets[..];
      buckets[idx] := buckets[idx].(total := buckets[idx].total + 1);
      if l.status == "success" {
        buckets[idx] := buckets[idx].(successCount := buckets[idx].successCount + 1);
      }
      forall k | 0 <= k < n
        ensures buckets[k] == CountOf(logs[..j + 1], k, start, size, n)
      {
        IndexIsBucket(l, k, start, size, n);
        OneMoreLog(logs, j, k, start, size, n);
        assert before[k] == CountOf(logs[..j], k, start, size, n);
      }
    }
    assert logs[..|logs|] == logs;
  }

  lemma OneMoreLog(logs: seq<Log>, j: nat, k: nat, start: int, size: int, n: nat)
    requires j < |logs|
    ensures
      var mine := Within(logs[..j], k, start, size, n);
      var mine' := Within(logs[..j + 1], k, start, size, n);
      if Belongs(logs[j], k, start, size, n) then
        |mine'| == |mine| + 1 && Successes(mine') == Successes(mine) + if IsSuccess(logs[j]) then 1 else 0
      else mine' == mine
  {
    assert logs[..j + 1][..j] == logs[..j];
    var mine := Within(logs[..j], k, start, size, n);
    assert (mine + [logs[j]])[..|mine|] == mine;
  }

  method FillRates(buckets: array<Bucket>)
    requires forall k :: 0 <= k < buckets.Length ==> buckets[k].rate == 0.0
    modifies buckets
    ensures forall k :: 0 <= k < buckets.Length ==>
      buckets[k] == old(buckets[k]).(rate := Rate(old(buckets[k]).total, old(buckets[k]).successCount))
  {
    for i := 0 to buckets.Length
      invariant forall k :: 0 <= k < i ==>
        buckets[k] == old(buckets[k]).(rate := Rate(old(buckets[k]).total, old(buckets[k]).successCount))
      invariant forall k :: i <= k < buckets.Length ==> buckets[k] == old(buckets[k])
    {
      if buckets[i].total > 0 {
        buckets[i] := buckets[i].(rate := buckets[i].successCount as real / buckets[i].total as real);
      }
    }
  }

  // ---------- Conservation ----------

  /** Sums a quantity over buckets 0 to m. */
  function Sum(f: nat -> nat, m: nat): nat {
    if m == 0 then 0 else Sum(f, m - 1) + f(m - 1)
  }

  lemma {:induction false} SumWithOneMore(f: nat -> nat, g: nat -> nat, j: nat, m: nat)
    requires forall i: nat :: i < m ==> g(i) == f(i) + if i == j then 1 else 0
    ensures Sum(g, m) == Sum(f, m) + if j < m then 1 else 0
  {
    if m > 0 { SumWithOneMore(f, g, j, m - 1); }
  }

  lemma {:induction false} SameSum(f: nat -> nat, g: nat -> nat, m: nat)
    requires forall i: nat :: i < m ==> g(i) == f(i)
    ensures Sum(g, m) == Sum(f, m)
  {
    if m > 0 { SameSum(f, g, m - 1); }
  }

  lemma {:induction false} SumOfZeros(f: nat -> nat, m: nat)
    requires forall i: nat :: i < m ==> f(i) == 0
    ensures Sum(f, m) == 0
  {
    if m > 0 { SumOfZeros(f, m - 1); }
  }

  function TotalsOf(logs: seq<Log>, start: int, size: int, n: nat): nat -> nat {
    i => |Within(logs, i, start, size, n)|
  }

  function SuccessesOf(logs: seq<Log>, start: int, size: int, n: nat): nat -> nat {
    i => Successes(Within(logs, i, start, size, n))
  }

  /** Every log is counted in exactly one bucket, and so is every success. */
  lemma {:induction false} BucketsConserve(logs: seq<Log>, start: int, size: int, n: nat)
    requires size != 0 && n > 0
    requires forall k :: 0 <= k < |logs| ==> logs[k].createdAt >= start
    ensures Sum(TotalsOf(logs, start, size, n), n) == |logs|
    ensures Sum(SuccessesOf(logs, start, size, n), n) == Successes(logs)
    decreases |logs|
  {
    if logs == [] {
      SumOfZeros(TotalsOf(logs, start, size, n), n);
      SumOfZeros(SuccessesOf(logs, start, size, n), n);
    } else {
      var m := |logs| - 1;
      var init, l := logs[..m], logs[m];
      BucketsConserve(init, start, size, n);
      IndexIsBucket(l, 0, start, size, n);
      var j := Index(l, start, size, n);
      forall i: nat
        ensures Belongs(l, i, start, size, n) <==> i == j
        ensures TotalsOf(logs, start, size, n)(i) == TotalsOf(init, start, size, n)(i) + if i == j then 1 else 0
        ensures SuccessesOf(logs, start, size, n)(i)
             == SuccessesOf(init, start, size, n)(i) + if i == j && IsSuccess(l) then 1 else 0
      {
        IndexIsBucket(l, i, start, size, n);
        OneMoreLog(logs, m, i, start, size, n);
        assert logs[..m + 1] == logs;
      }
      SumWithOneMore(TotalsOf(init, start, size, n), TotalsOf(logs, start, size, n), j, n);
      if IsSuccess(l) {
        SumWithOneMore(SuccessesOf(init, start, size, n), SuccessesOf(logs, start, size, n), j, n);
      } else {
        SameSum(SuccessesOf(init, start, size, n), SuccessesOf(logs, start, size, n), n);
      }
    }
  }

  /** A bucket holds exactly the logs of its time span, each as often as it is listed. */
  lemma {:induction false} BucketHoldsItsSpan(logs: seq<Log>, i: nat, start: int, size: int, n: nat, l: Log)
    ensures multiset(Within(logs, i, start, size, n))[l]
         == if Belongs(l, i, start, size, n) then multiset(logs)[l] else 0
    decreases |logs|
  {
    if logs != [] {
      var m := |logs| - 1;
      BucketHoldsItsSpan(logs[..m], i, start, size, n, l);
      assert logs == logs[..m] + [logs[m]];
    }
  }

  lemma {:induction false} SuccessesAreFew(logs: seq<Log>)
    ensures Successes(logs) <= |logs|
    decreases |logs|
  {
    if logs != [] { SuccessesAreFew(logs[..|logs| - 1]); }
  }

  lemma RateIsAShare(logs: seq<Log>)
    ensures 0.0 <= Rate(|logs|, Successes(logs)) <= 1.0
    ensures Rate(|logs|, Successes(logs)) == 1.0 <==> |logs| > 0 && Successes(logs) == |logs|
  {
    SuccessesAreFew(logs);
    if |logs| > 0 {
      Share(Successes(logs) as real, |logs| as real);
    }
  }

  lemma Share(a: real, b: real)
    requires 0.0 <= a <= b && b > 0.0
    ensures 0.0 <= a / b <= 1.0 && (a / b == 1.0 <==> a == b)
  {
    var q := a / b;
    ShareOf(q, a, b);
  }

  lemma ShareOf(q: real, a: real, b: real)
    requires 0.0 <= a <= b && b > 0.0 && q * b == a
    ensures 0.0 <= q <= 1.0 && (q == 1.0 <==> a == b)
  {
    if q > 1.0 { RealScale(1.0, q, b); }
    if q < 0.0 { RealScale(q, 0.0, b); }
    if q < 1.0 { RealScale(q, 1.0, b); }
  }

  lemma RealScale(x: real, y: real, b: real)
    requires x < y && b > 0.0
    ensures x * b < y * b
  {
    assert (y - x) * b > 0.0;
  }

  // ---------- Numbers, spelled out ----------

  /** Go's quotient: the one that leaves a remainder smaller than the divisor and with the sign of the dividend. */
  lemma GoDivMeaning(a: int, b: int)
    requires b != 0
    ensures
      var r := a - b * GoDiv(a, b);
      if a >= 0 then 0 <= r && r < Abs(b) else r <= 0 && -r < Abs(b)
  {
    var m: int, n: int := Abs(a), Abs(b);
    var q: int := m / n;
    assert m == n * q + m % n;
    assert b > 0 ==> b * q == n * q;
    assert b < 0 ==> b * q == -(n * q) by { Negate(n, q); }
    assert b * -q == -(b * q) by { Negate(q, b); }
  }

  lemma Negate(x: int, y: int)
    ensures (-x) * y == -(x * y) && y * (-x) == -(y * x)
  {
  }

  /** A bucket's rate is its successes over its total, and 0 without logs. */
  lemma RateMeaning(total: nat, successes: nat)
    ensures total == 0 ==> Rate(total, successes) == 0.0
    ensures total > 0 ==> Rate(total, successes) * total as real == successes as real
  {
    if total > 0 {
      DivideBack(successes as real, total as real);
    }
  }

  lemma DivideBack(a: real, b: real)
    requires b != 0.0
    ensures a / b * b == a
  {
  }

  /** A log is in bucket i if its time is from the bucket's start on and, unless the bucket is the last, before the next
      start. */
  lemma SpanMeaning(l: Log, i: nat, start: int, size: int, n: nat)
    requires size > 0 && i < n
    ensures Belongs(l, i, start, size, n)
       <==> start + i * size <= l.createdAt && (i + 1 == n || l.createdAt < start + (i + 1) * size)
  {
  }

  function SuccessesAt(logs: seq<Log>): set<nat> {
    set i | 0 <= i < |logs| && logs[i].status == "success"
  }

  lemma {:induction false} SuccessCount(logs: seq<Log>)
    ensures Successes(logs) == |SuccessesAt(logs)|
    decreases |logs|
  {
    hide SuccessesAt;
    NoSuccess();
    if logs != [] {
      SuccessAdded(logs);
      SuccessCount(logs[..|logs| - 1]);
    }
  }

  lemma NoSuccess()
    ensures SuccessesAt([]) == {}
  {
  }

  lemma SuccessAdded(logs: seq<Log>)
    requires logs != []
    ensures
      var m := |logs| - 1;
      var before := SuccessesAt(logs[..m]);
      m !in before && SuccessesAt(logs) == if logs[m].status == "success" then before + {m} else before
  {
    var m := |logs| - 1;
    var before := SuccessesAt(logs[..m]);
    forall i ensures i in SuccessesAt(logs) <==> i in before || (i == m && logs[m].status == "success") {
      assert i in before <==> 0 <= i < m && logs[i].status == "success";
    }
  }
}
