/**
 The statistics collector: counters, a latency histogram and a sampled ring of recent requests, all
 proved to be functions of the log of requests counted since the last reset.
 */
module Stats {
  import opened CycleKeys
  import opened Versions

  /** Timestamp 0 is the zero time, which marks an empty slot. */
  datatype Request = Request(
    timestamp: int,
    path: string,
    host: string,
    status: int,
    ruleID: string,
    destination: string,
    latencyUs: int,
    clientIP: string)

  const EMPTY := Request(0, "", "", 0, "", "", 0, "")

  datatype RuleTotals = RuleTotals(hits: nat, totalLatency: int)

  datatype RuleStats = RuleStats(id: string, hits: nat, totalLatency: int)

  // ---------- what a log adds up to ----------

  function Bucket(latencyUs: int): (b: nat)
    ensures b < 6
  {
    if latencyUs < 100 then 0
    else if latencyUs < 500 then 1
    else if latencyUs < 1000 then 2
    else if latencyUs < 5000 then 3
    else if latencyUs < 10000 then 4
    else 5
  }

  function InBucket(log: seq<Request>, b: nat): nat
  {
    if log == [] then 0
    else InBucket(log[..|log| - 1], b) + if Bucket(log[|log| - 1].latencyUs) == b then 1 else 0
  }

  function WithStatus(log: seq<Request>, status: int): nat
  {
    if log == [] then 0
    else WithStatus(log[..|log| - 1], status) + if log[|log| - 1].status == status then 1 else 0
  }

  function Errors(log: seq<Request>): nat
  {
    if log == [] then 0 else Errors(log[..|log| - 1]) + if log[|log| - 1].status >= 400 then 1 else 0
  }

  function TotalsFor(log: seq<Request>, ruleID: string): (t: RuleTotals)
    ensures t.hits == 0 ==> t.totalLatency == 0
  {
    if log == [] then RuleTotals(0, 0)
    else
      var t, r := TotalsFor(log[..|log| - 1], ruleID), log[|log| - 1];
      if r.ruleID == ruleID then RuleTotals(t.hits + 1, t.totalLatency + r.latencyUs) else t
  }

  /** The six buckets together hold every request exactly once. */
  lemma {:induction false} BucketsAddUp(log: seq<Request>)
    ensures InBucket(log, 0) + InBucket(log, 1) + InBucket(log, 2)
            + InBucket(log, 3) + InBucket(log, 4) + InBucket(log, 5) == |log|
  {
    if log != [] {
      BucketsAddUp(log[..|log| - 1]);
    }
  }

  /** The status counts over a list of statuses. */
  function SumOver(statuses: seq<int>, log: seq<Request>): nat
  {
    if statuses == [] then 0 else WithStatus(log, statuses[0]) + SumOver(statuses[1..], log)
  }

  lemma {:induction false} SumOverAppend(statuses: seq<int>, log: seq<Request>, r: Request)
    requires Distinct(statuses)
    ensures SumOver(statuses, log + [r]) == SumOver(statuses, log) + if r.status in statuses then 1 else 0
  {
    assert (log + [r])[..|log|] == log;
    if statuses != [] {
      SumOverAppend(statuses[1..], log, r);
      assert statuses[0] !in statuses[1..];
    }
  }

  lemma {:induction false} SumOverNothing(statuses: seq<int>)
    ensures SumOver(statuses, []) == 0
  {
    if statuses != [] {
      SumOverNothing(statuses[1..]);
    }
  }

  /** Over any list naming every status seen once, the status counts add up to the number of requests. */
  lemma {:induction false} StatusesAddUp(statuses: seq<int>, log: seq<Request>)
    requires Distinct(statuses) && forall i :: 0 <= i < |log| ==> log[i].status in statuses
    ensures SumOver(statuses, log) == |log|
  {
    if log == [] {
      SumOverNothing(statuses);
    } else {
      StatusesAddUp(statuses, log[..|log| - 1]);
      SumOverAppend(statuses, log[..|log| - 1], log[|log| - 1]);
      assert log[..|log| - 1] + [log[|log| - 1]] == log;
    }
  }

  // ---------- the same counts as sizes of sets ----------

  ghost function Chosen(n: nat, p: nat -> bool): set<nat>
  {
    set i: nat | i < n && p(i)
  }

  lemma ChosenStep(n: nat, p: nat -> bool)
    ensures Chosen(0, p) == {}
    ensures |Chosen(n + 1, p)| == |Chosen(n, p)| + if p(n) then 1 else 0
  {
    assert Chosen(n + 1, p) == Chosen(n, p) + if p(n) then {n} else {};
  }

  /** The latencies, in microseconds, of each bucket: under 0.1, 0.5, 1, 5 and 10 ms, and above. */
  predicate Lies(b: nat, latencyUs: int)
  {
    match b
    case 0 => latencyUs < 100
    case 1 => 100 <= latencyUs < 500
    case 2 => 500 <= latencyUs < 1000
    case 3 => 1000 <= latencyUs < 5000
    case 4 => 5000 <= latencyUs < 10000
    case 5 => 10000 <= latencyUs
    case _ => false
  }

  /** Errors are the requests answered with a status of 400 or more. */
  lemma ErrorsCount(log: seq<Request>)
    ensures Errors(log) == |set i: nat | i < |log| && log[i].status >= 400|
  {
    hide Errors;
    var p := (i: nat) => i < |log| && log[i].status >= 400;
    ErrorsCountTo(log, |log|, p);
    assert log[..|log|] == log;
    assert Chosen(|log|, p) == set i: nat | i < |log| && log[i].status >= 400;
  }

  lemma {:induction false} ErrorsCountTo(log: seq<Request>, n: nat, p: nat -> bool)
    requires n <= |log| && forall i: nat :: i < |log| ==> (p(i) <==> log[i].status >= 400)
    ensures Errors(log[..n]) == |Chosen(n, p)|
  {
    hide Chosen;
    if n == 0 {
      ChosenStep(0, p);
    } else {
      ErrorsCountTo(log, n - 1, p);
      assert log[..n][..n - 1] == log[..n - 1];
      ChosenStep(n - 1, p);
    }
  }

  /** Requests per status. */
  lemma StatusCount(log: seq<Request>, status: int)
    ensures WithStatus(log, status) == |set i: nat | i < |log| && log[i].status == status|
  {
    hide WithStatus;
    var p := (i: nat) => i < |log| && log[i].status == status;
    StatusCountTo(log, status, |log|, p);
    assert log[..|log|] == log;
    assert Chosen(|log|, p) == set i: nat | i < |log| && log[i].status == status;
  }

  lemma {:induction false} StatusCountTo(log: seq<Request>, status: int, n: nat, p: nat -> bool)
    requires n <= |log| && forall i: nat :: i < |log| ==> (p(i) <==> log[i].status == status)
    ensures WithStatus(log[..n], status) == |Chosen(n, p)|
  {
    hide Chosen;
    if n == 0 {
      ChosenStep(0, p);
    } else {
      StatusCountTo(log, status, n - 1, p);
      assert log[..n][..n - 1] == log[..n - 1];
      ChosenStep(n - 1, p);
    }
  }

  /** Requests per latency bucket. */
  lemma BucketCount(log: seq<Request>, b: nat)
    ensures InBucket(log, b) == |set i: nat | i < |log| && Lies(b, log[i].latencyUs)|
  {
    hide InBucket;
    var p := (i: nat) => i < |log| && Lies(b, log[i].latencyUs);
    BucketCountTo(log, b, |log|, p);
    assert log[..|log|] == log;
    assert Chosen(|log|, p) == set i: nat | i < |log| && Lies(b, log[i].latencyUs);
  }

  lemma {:induction false} BucketCountTo(log: seq<Request>, b: nat, n: nat, p: nat -> bool)
    requires n <= |log| && forall i: nat :: i < |log| ==> (p(i) <==> Lies(b, log[i].latencyUs))
    ensures InBucket(log[..n], b) == |Chosen(n, p)|
  {
    hide Chosen;
    if n == 0 {
      ChosenStep(0, p);
    } else {
      BucketCountTo(log, b, n - 1, p);
      assert log[..n][..n - 1] == log[..n - 1];
      ChosenStep(n - 1, p);
    }
  }

  /** Requests per rule. */
  lemma HitsCount(log: seq<Request>, ruleID: string)
    ensures TotalsFor(log, ruleID).hits == |set i: nat | i < |log| && log[i].ruleID == ruleID|
  {
    hide TotalsFor;
    var p := (i: nat) => i < |log| && log[i].ruleID == ruleID;
    HitsCountTo(log, ruleID, |log|, p);
    assert log[..|log|] == log;
    assert Chosen(|log|, p) == set i: nat | i < |log| && log[i].ruleID == ruleID;
  }

  lemma {:induction false} HitsCountTo(log: seq<Request>, ruleID: string, n: nat, p: nat -> bool)
    requires n <= |log| && forall i: nat :: i < |log| ==> (p(i) <==> log[i].ruleID == ruleID)
    ensures TotalsFor(log[..n], ruleID).hits == |Chosen(n, p)|
  {
    hide Chosen;
    if n == 0 {
      ChosenStep(0, p);
    } else {
      HitsCountTo(log, ruleID, n - 1, p);
      assert log[..n][..n - 1] == log[..n - 1];
      ChosenStep(n - 1, p);
    }
  }

  /** A rule's total latency grows by the latency of each request it answers. */
  lemma {:induction false} LatencyAdds(a: seq<Request>, b: seq<Request>, ruleID: string)
    ensures TotalsFor(a + b, ruleID).totalLatency ==
            TotalsFor(a, ruleID).totalLatency + TotalsFor(b, ruleID).totalLatency
    ensures |b| == 1 ==> TotalsFor(b, ruleID).totalLatency == if b[0].ruleID == ruleID then b[0].latencyUs else 0
  {
    if b == [] {
      assert a + b == a;
    } else {
      assert (a + b)[..|a + b| - 1] == a + b[..|b| - 1];
      LatencyAdds(a, b[..|b| - 1], ruleID);
    }
  }

  // ---------- the ring ----------

  /** The ring holds the newest sampled requests, request i in slot i % size, and nothing else. */
  ghost predicate RingHolds(ring: seq<Request>, sampled: seq<Request>)
  {
    && |ring| > 0
    && (forall i :: 0 <= i < |sampled| && |sampled| - |ring| <= i ==> ring[i % |ring|] == sampled[i])
    && forall k :: |sampled| <= k < |ring| ==> ring[k] == EMPTY
  }

  lemma RingAppend(ring: seq<Request>, sampled: seq<Request>, r: Request)
    requires RingHolds(ring, sampled)
    ensures RingHolds(ring[|sampled| % |ring| := r], sampled + [r])
  {
    var m, s' := |ring|, sampled + [r];
    var ring' := ring[|sampled| % m := r];
    forall i | 0 <= i < |s'| && |s'| - m <= i ensures ring'[i % m] == s'[i] {
      if i < |sampled| {
        SlotsDiffer(i, |sampled|, m);
      }
    }
    if |sampled| < m {
      ModUnique(0, m, |sampled|);
    }
  }

  lemma IndexBack(n: int, i: int, m: nat)
    requires m > 0 && 0 <= i < m && i < n
    ensures (n % m - 1 - i + m) % m == (n - 1 - i) % m
  {
    if i + 1 < m {
      StepBack(n, i + 1, m);
    } else {
      ModUnique(0, m, n % m);
      ModUnique(n / m - 1, m, n % m);
      assert n - m == (n / m - 1) * m + n % m;
    }
  }

  lemma IndexBefore(n: int, m: nat)
    requires 0 <= n < m
    ensures n % m == n && (n % m - 1 - n + m) % m == m - 1
  {
    ModUnique(0, m, n);
    ModUnique(0, m, m - 1);
  }

  lemma Scaled(a: real, x: real, r: real)
    requires r > 0.0 && x * r == 1.0
    ensures a <= x <==> a * r <= 1.0
  {
    Positive(if a <= x then x - a else a - x, r);
    assert (x - a) * r == x * r - a * r;
  }

  lemma Positive(a: real, r: real)
    requires a >= 0.0 && r > 0.0
    ensures a * r >= 0.0 && (a > 0.0 ==> a * r > 0.0)
  {
  }

  class Collector {
    const ringSize: nat
    const samplingRate: real
    var ringBuffer: array<Request>
    var ringHead: nat
    var totalRequests: nat
    var totalErrors: nat
    var statusCounts: map<int, nat>
    var ruleStats: map<string, RuleTotals>
    var latencyBuckets: seq<nat>
    var sampleCount: nat
    var enabled: bool
    ghost var counted: seq<Request>   // requests counted since the last reset
    ghost var sampled: seq<Request>   // those of them that went into the ring
    ghost var resetAt: nat            // the sample count at the last reset

    /** Only every Interval()-th request is sampled. */
    function Interval(): nat
      requires 0.0 < samplingRate <= 1.0
    {
      (1.0 / samplingRate).Floor
    }

    /** The interval is the number of requests one sample stands for, rounded down. */
    lemma IntervalMeaning(k: nat)
      requires 0.0 < samplingRate <= 1.0
      ensures Interval() == k <==> (k as real) * samplingRate <= 1.0 < (k as real + 1.0) * samplingRate
    {
      var x := 1.0 / samplingRate;
      Scaled(k as real, x, samplingRate);
      Scaled(k as real + 1.0, x, samplingRate);
      assert x.Floor == k <==> k as real <= x < k as real + 1.0;
    }

    ghost predicate StatusesAgree(log: seq<Request>)
      reads this`statusCounts
    {
      && (forall s :: s in statusCounts <==> WithStatus(log, s) > 0)
      && forall s :: s in statusCounts ==> statusCounts[s] == WithStatus(log, s)
    }

    ghost predicate RulesAgree(log: seq<Request>)
      reads this`ruleStats
    {
      && (forall id :: id in ruleStats <==> id != "" && TotalsFor(log, id).hits > 0)
      && forall id :: id in ruleStats ==> ruleStats[id] == TotalsFor(log, id)
    }

    ghost predicate LatenciesAgree(log: seq<Request>)
      reads this`latencyBuckets
    {
      |latencyBuckets| == 6 && forall b :: 0 <= b < 6 ==> latencyBuckets[b] == InBucket(log, b)
    }

    ghost predicate Counts()
      reads this`totalRequests, this`totalErrors, this`statusCounts, this`ruleStats, this`latencyBuckets, this`counted
    {
      && totalRequests == |counted| && totalErrors == Errors(counted)
      && StatusesAgree(counted) && RulesAgree(counted) && LatenciesAgree(counted)
    }

    ghost predicate Valid()
      reads this, ringBuffer
    {
      && 0.0 < samplingRate <= 1.0 && Interval() >= 1
      && ringBuffer.Length == ringSize > 0
      && RingHolds(ringBuffer[..], sampled)
      && ringHead == |sampled| % ringSize
      && resetAt <= sampleCount && |counted| == sampleCount - resetAt
      && |sampled| == sampleCount / Interval() - resetAt / Interval()
      && Counts()
    }

    constructor (enabled: bool, bufferSize: int, rate: real)
      ensures Valid() && fresh(ringBuffer) && counted == [] && sampled == [] && resetAt == 0
      ensures this.enabled == enabled
      ensures ringSize == if bufferSize <= 0 then 1000 else bufferSize
      ensures samplingRate == if rate <= 0.0 || rate > 1.0 then 1.0 else rate
    {
      var size: nat := if bufferSize <= 0 then 1000 else bufferSize;
      var checked := if rate <= 0.0 || rate > 1.0 then 1.0 else rate;
      ringBuffer := new Request[size](_ => EMPTY);
      ringSize := size;
      samplingRate := checked;
      ringHead, totalRequests, totalErrors, sampleCount, resetAt := 0, 0, 0, 0, 0;
      statusCounts, ruleStats := map[], map[];
      latencyBuckets := [0, 0, 0, 0, 0, 0];
      this.enabled := enabled;
      counted, sampled := [], [];
      new;
      assert 1.0 / samplingRate >= 1.0;
    }

    method IncrementStatus(rec: Request, ghost log: seq<Request>)
      requires StatusesAgree(log)
      modifies this`statusCounts
      ensures StatusesAgree(log + [rec])
    {
      assert (log + [rec])[..|log|] == log;
      var n := if rec.status in statusCounts then statusCounts[rec.status] else 0;
      statusCounts := statusCounts[rec.status := n + 1];
    }

    method UpdateRuleStats(rec: Request, ghost log: seq<Request>)
      requires RulesAgree(log)
      modifies this`ruleStats
      ensures RulesAgree(log + [rec])
    {
      assert (log + [rec])[..|log|] == log;
      if rec.ruleID == "" {
        return;
      }
      var t := if rec.ruleID in ruleStats then ruleStats[rec.ruleID] else RuleTotals(0, 0);
      ruleStats := ruleStats[rec.ruleID := RuleTotals(t.hits + 1, t.totalLatency + rec.latencyUs)];
    }

    method UpdateLatencyHistogram(rec: Request, ghost log: seq<Request>)
      requires LatenciesAgree(log)
      modifies this`latencyBuckets
      ensures LatenciesAgree(log + [rec])
    {
      assert (log + [rec])[..|log|] == log;
      var b := 5;
      if rec.latencyUs < 100 {
        b := 0;
      } else if rec.latencyUs < 500 {
        b := 1;
      } else if rec.latencyUs < 1000 {
        b := 2;
      } else if rec.latencyUs < 5000 {
        b := 3;
      } else if rec.latencyUs < 10000 {
        b := 4;
      }
      latencyBuckets := latencyBuckets[b := latencyBuckets[b] + 1];
    }

    /** The counters of Record: total, errors, status, rule, latency. */
    method Count(rec: Request)
      requires Counts()
      modifies this`totalRequests, this`totalErrors, this`statusCounts, this`ruleStats, this`latencyBuckets, this`counted
      ensures Counts() && counted == old(counted) + [rec]
    {
      hide StatusesAgree, RulesAgree, LatenciesAgree;
      assert (counted + [rec])[..|counted|] == counted;
      totalRequests := totalRequests + 1;
      if rec.status >= 400 {
        totalErrors := totalErrors + 1;
      }
      IncrementStatus(rec, counted);
      UpdateRuleStats(rec, counted);
      UpdateLatencyHistogram(rec, counted);
      counted := counted + [rec];
    }

    method ClearCounters()
      modifies this`totalRequests, this`totalErrors, this`statusCounts, this`ruleStats, this`latencyBuckets, this`counted
      ensures Counts() && counted == []
    {
      totalRequests, totalErrors := 0, 0;
      statusCounts, ruleStats := map[], map[];
      latencyBuckets := [0, 0, 0, 0, 0, 0];
      counted := [];
    }

    /** Record: counts an enabled request, and samples every Interval()-th one ever recorded. */
    method Record(rec: Request)
      requires Valid()
      modifies this, ringBuffer
      ensures Valid() && enabled == old(enabled) && ringBuffer == old(ringBuffer) && resetAt == old(resetAt)
      ensures !enabled ==> counted == old(counted) && sampled == old(sampled) && sampleCount == old(sampleCount)
      ensures enabled ==>
                && counted == old(counted) + [rec]
                && sampleCount == old(sampleCount) + 1
                && sampled == old(sampled) + if sampleCount % Interval() == 0 then [rec] else []
    {
      hide Counts;
      if !enabled {
        return;
      }
      Count(rec);
      sampleCount := sampleCount + 1;
      CountUp(sampleCount - 1, Interval());
      if samplingRate < 1.0 {
        var interval := (1.0 / samplingRate).Floor;
        if sampleCount % interval != 0 {
          return;
        }
      }
      RingAppend(ringBuffer[..], sampled, rec);
      StepOn(|sampled|, ringSize);
      ghost var ring := ringBuffer[..];
      ringBuffer[ringHead] := rec;
      assert ringBuffer[..] == ring[ringHead := rec];
      ringHead := (ringHead + 1) % ringSize;
      sampled := sampled + [rec];
    }

    /** GetRecentRequests: the newest sampled requests in order, stopping at a zero timestamp. */
    method GetRecentRequests(limit: int) returns (result: seq<Request>)
      requires Valid()
      ensures !enabled ==> result == []
      ensures enabled ==>
                && |result| <= |sampled| && |result| <= ringSize && (limit >= 1 ==> |result| <= limit)
                && (forall k :: 0 <= k < |result| ==> result[k] == sampled[|sampled| - 1 - k])
                && (|result| < |sampled| && |result| < ringSize && (limit >= 1 ==> |result| < limit) ==>
                      sampled[|sampled| - 1 - |result|].timestamp == 0)
    {
      if !enabled {
        return [];
      }
      var bound := if limit <= 0 || limit > ringSize then ringSize else limit;
      result := [];
      for i := 0 to bound
        invariant |result| == i <= |sampled|
        invariant forall k :: 0 <= k < i ==> result[k] == sampled[|sampled| - 1 - k]
      {
        var idx := (ringHead - 1 - i + ringSize) % ringSize;
        SlotBack(i);
        var rec := ringBuffer[idx];
        if rec.timestamp == 0 {
          break;
        }
        result := result + [rec];
      }
    }

    lemma SlotBack(i: nat)
      requires Valid() && i < ringSize && i <= |sampled|
      ensures var idx := (ringHead - 1 - i + ringSize) % ringSize;
              ringBuffer[idx] == if i < |sampled| then sampled[|sampled| - 1 - i] else EMPTY
    {
      var n, m := |sampled|, ringSize;
      if i < n {
        IndexBack(n, i, m);
        assert ringBuffer[..][(n - 1 - i) % m] == sampled[n - 1 - i];
      } else {
        IndexBefore(n, m);
        assert ringBuffer[..][m - 1] == EMPTY;
      }
    }

    method Enable()
      requires Valid()
      modifies this`enabled
      ensures Valid() && enabled
    {
      enabled := true;
    }

    method Disable()
      requires Valid()
      modifies this`enabled
      ensures Valid() && !enabled
    {
      enabled := false;
    }

    /** Reset clears counters and ring, but not the sample count, so the sampling phase carries over. */
    method Reset()
      requires Valid()
      modifies this
      ensures Valid() && fresh(ringBuffer) && counted == [] && sampled == []
      ensures enabled == old(enabled) && sampleCount == old(sampleCount) && resetAt == sampleCount
    {
      hide Counts;
      ClearCounters();
      ringBuffer := new Request[ringSize](_ => EMPTY);
      ringHead := 0;
      sampled := [];
      resetAt := sampleCount;
    }

    /** Of n requests counted since the last reset n / Interval() are sampled, rounded down when there was no reset;
        after one the phase carries over and one more may be. */
    lemma SampledShare()
      requires Valid()
      ensures resetAt == 0 ==> |sampled| == |counted| / Interval()
      ensures |counted| / Interval() <= |sampled| <= |counted| / Interval() + 1
      ensures Interval() == 1 ==> |sampled| == |counted|
    {
      QuotientDifference(resetAt, |counted|, Interval());
    }

    function Counted(statuses: seq<int>): nat
      reads this`statusCounts
      requires forall i :: 0 <= i < |statuses| ==> statuses[i] in statusCounts
    {
      if statuses == [] then 0 else statusCounts[statuses[0]] + Counted(statuses[1..])
    }

    lemma CountedSums(statuses: seq<int>)
      requires Counts() && forall i :: 0 <= i < |statuses| ==> statuses[i] in statusCounts
      ensures Counted(statuses) == SumOver(statuses, counted)
    {
      if statuses != [] {
        CountedSums(statuses[1..]);
      }
    }

    /** However requests were recorded, the histogram and the status counts each add up to the total. */
    lemma Conserved(statuses: seq<int>)
      requires Counts()
      requires Distinct(statuses) && forall i :: 0 <= i < |statuses| ==> statuses[i] in statusCounts
      requires forall s :: s in statusCounts ==> s in statuses
      ensures latencyBuckets[0] + latencyBuckets[1] + latencyBuckets[2]
              + latencyBuckets[3] + latencyBuckets[4] + latencyBuckets[5] == totalRequests
      ensures Counted(statuses) == totalRequests
    {
      BucketsAddUp(counted);
      forall i | 0 <= i < |counted| ensures counted[i].status in statuses {
        StatusSeen(counted, i);
      }
      CountedSums(statuses);
      StatusesAddUp(statuses, counted);
    }
  }

  lemma {:induction false} StatusSeen(log: seq<Request>, i: nat)
    requires i < |log|
    ensures WithStatus(log, log[i].status) > 0
  {
    if i < |log| - 1 {
      StatusSeen(log[..|log| - 1], i);
    }
  }

  lemma CountUp(n: nat, k: nat)
    requires k >= 1
    ensures (n + 1) / k == n / k + if (n + 1) % k == 0 then 1 else 0
  {
    var q, r := n / k, n % k;
    assert n == q * k + r;
    if r + 1 < k {
      ModUnique(q, k, r + 1);
      assert n + 1 == q * k + (r + 1);
      QuotientIs(q, k, r + 1);
    } else {
      assert n + 1 == (q + 1) * k + 0;
      ModUnique(q + 1, k, 0);
      QuotientIs(q + 1, k, 0);
    }
  }

  lemma QuotientDifference(a: nat, b: nat, k: nat)
    requires k >= 1
    ensures b / k <= (a + b) / k - a / k <= b / k + 1
    ensures a == 0 || k == 1 ==> (a + b) / k - a / k == b / k
  {
    var q, r := a / k + b / k, a % k + b % k;
    assert a == (a / k) * k + a % k && b == (b / k) * k + b % k;
    assert (a / k) * k + (b / k) * k == q * k;
    if r < k {
      QuotientIs(q, k, r);
    } else {
      assert a + b == (q + 1) * k + (r - k);
      QuotientIs(q + 1, k, r - k);
    }
  }

  lemma QuotientIs(q: int, k: nat, r: int)
    requires k > 0 && 0 <= r < k
    ensures (q * k + r) / k == q
  {
    var x := q * k + r;
    assert x == (x / k) * k + x % k;
    ModUnique(q, k, r);
    assert (x / k - q) * k == 0;
    MultipleBound(x / k - q, k);
  }

  // ---------- the top rules ----------

  predicate Descending(s: seq<RuleStats>)
  {
    forall i, j :: 0 <= i < j < |s| ==> s[i].hits >= s[j].hits
  }

  /** Positions before i are settled: nothing after them has more hits. */
  ghost predicate Settled(s: seq<RuleStats>, i: int)
  {
    forall k, l :: 0 <= k < i && k < l < |s| ==> s[k].hits >= s[l].hits
  }

  ghost predicate Largest(s: seq<RuleStats>, i: int, j: int)
  {
    forall l :: i < l < j && l < |s| ==> 0 <= i && s[i].hits >= s[l].hits
  }

  lemma Exchanged(s: seq<RuleStats>, t: seq<RuleStats>, i: int, j: int)
    requires 0 <= i < j < |s| && t == s[i := s[j]][j := s[i]]
    requires Settled(s, i) && Largest(s, i, j) && s[j].hits > s[i].hits
    ensures multiset(t) == multiset(s) && Settled(t, i) && Largest(t, i, j + 1)
  {
  }

  /** GetSummary's in-place exchange sort. */
  method SortByHits(rules: array<RuleStats>)
    modifies rules
    ensures multiset(rules[..]) == multiset(old(rules[..]))
    ensures Descending(rules[..])
  {
    for i := 0 to rules.Length
      invariant multiset(rules[..]) == multiset(old(rules[..])) && Settled(rules[..], i)
    {
      for j := i + 1 to rules.Length
        invariant multiset(rules[..]) == multiset(old(rules[..])) && Settled(rules[..], i) && Largest(rules[..], i, j)
      {
        ghost var s := rules[..];
        if rules[j].hits > rules[i].hits {
          rules[i], rules[j] := rules[j], rules[i];
          Exchanged(s, rules[..], i, j);
        }
      }
    }
  }

  ghost predicate ListsRules(s: seq<RuleStats>, stats: map<string, RuleTotals>)
  {
    && (forall i, j :: 0 <= i < j < |s| ==> s[i].id != s[j].id)
    && (forall i :: 0 <= i < |s| ==> s[i].id in stats && stats[s[i].id] == RuleTotals(s[i].hits, s[i].totalLatency))
  }

  ghost predicate AllListed(s: seq<RuleStats>, stats: map<string, RuleTotals>)
  {
    |s| == |stats| && ListsRules(s, stats) && forall id :: id in stats ==> exists i :: 0 <= i < |s| && s[i].id == id
  }

  /** No rule left out of the list has more hits than one that is in it. */
  ghost predicate Unbeaten(top: seq<RuleStats>, stats: map<string, RuleTotals>)
  {
    forall id, k :: id in stats && 0 <= k < |top| && (forall l :: 0 <= l < |top| ==> top[l].id != id)
                    ==> stats[id].hits <= top[k].hits
  }

  /** GetSummary's top list: at most ten rules, most hits first, none beaten by a rule left out. */
  method TopRules(stats: map<string, RuleTotals>) returns (top: seq<RuleStats>)
    ensures |top| <= 10 && |top| <= |stats| && (|top| < |stats| ==> |top| == 10)
    ensures forall i, j :: 0 <= i < j < |top| ==> top[i].hits >= top[j].hits && top[i].id != top[j].id
    ensures forall i :: 0 <= i < |top| ==>
              top[i].id in stats && stats[top[i].id] == RuleTotals(top[i].hits, top[i].totalLatency)
    ensures forall id, k :: id in stats && 0 <= k < |top| && (forall l :: 0 <= l < |top| ==> top[l].id != id)
                            ==> stats[id].hits <= top[k].hits
  {
    top := TopTen(stats);
  }

  method TopTen(stats: map<string, RuleTotals>) returns (top: seq<RuleStats>)
    ensures |top| <= 10 && |top| <= |stats| && (|top| < |stats| ==> |top| == 10)
    ensures Descending(top) && ListsRules(top, stats) && Unbeaten(top, stats)
  {
    hide AllListed, Descending, ListsRules, Unbeaten;
    var all := Collect(stats);
    var rules := new RuleStats[|all|](i requires 0 <= i < |all| => all[i]);
    assert rules[..] == all;
    SortByHits(rules);
    SameRules(all, rules[..], stats);
    ghost var sorted := rules[..];
    AllSized(sorted, stats);
    if rules.Length > 10 {
      top := rules[..10];
    } else {
      top := rules[..];
    }
    TopOf(sorted, |top|, stats);
    assert top == sorted[..|top|];
  }

  lemma AllSized(s: seq<RuleStats>, stats: map<string, RuleTotals>)
    requires AllListed(s, stats)
    ensures |s| == |stats|
  {
  }

  lemma TopOf(sorted: seq<RuleStats>, n: nat, stats: map<string, RuleTotals>)
    requires n <= |sorted| && Descending(sorted) && AllListed(sorted, stats)
    ensures Descending(sorted[..n]) && ListsRules(sorted[..n], stats) && Unbeaten(sorted[..n], stats)
  {
    var top := sorted[..n];
    assert forall l :: 0 <= l < n ==> top[l] == sorted[l];
    forall id, k | id in stats && 0 <= k < n && (forall l :: 0 <= l < n ==> top[l].id != id)
      ensures stats[id].hits <= top[k].hits
    {
      var l :| 0 <= l < |sorted| && sorted[l].id == id;
      assert k < l;
    }
  }

  /** Reads the rules off in no particular order. */
  method Collect(stats: map<string, RuleTotals>) returns (all: seq<RuleStats>)
    ensures AllListed(all, stats)
  {
    all := [];
    var todo := stats.Keys;
    while todo != {}
      invariant todo <= stats.Keys && |all| + |todo| == |stats.Keys|
      invariant ListsRules(all, stats)
      invariant forall i :: 0 <= i < |all| ==> all[i].id !in todo
      invariant forall id :: id in stats ==> id in todo || exists i :: 0 <= i < |all| && all[i].id == id
      decreases todo
    {
      var id :| id in todo;
      todo := todo - {id};
      ghost var before := all;
      all := all + [RuleStats(id, stats[id].hits, stats[id].totalLatency)];
      assert all[|before|].id == id && forall i :: 0 <= i < |before| ==> all[i] == before[i];
    }
  }

  lemma SameRules(a: seq<RuleStats>, b: seq<RuleStats>, stats: map<string, RuleTotals>)
    requires multiset(a) == multiset(b) && AllListed(a, stats)
    ensures AllListed(b, stats)
  {
    assert |b| == |multiset(b)| == |multiset(a)| == |a|;
    forall x ensures x in a <==> x in b {
      assert x in multiset(a) <==> x in multiset(b);
    }
    forall id | id in stats ensures exists i :: 0 <= i < |b| && b[i].id == id {
      var i :| 0 <= i < |a| && a[i].id == id;
      assert a[i] in b;
    }
    forall i | 0 <= i < |b| ensures b[i].id in stats && stats[b[i].id] == RuleTotals(b[i].hits, b[i].totalLatency) {
      assert b[i] in a;
    }
    forall i, j | 0 <= i < j < |b| ensures b[i].id != b[j].id {
      if b[i].id == b[j].id {
        SharedID(a, b, stats, i, j);
      }
    }
  }

  lemma SharedID(a: seq<RuleStats>, b: seq<RuleStats>, stats: map<string, RuleTotals>, i: nat, j: nat)
    requires multiset(a) == multiset(b) && ListsRules(a, stats)
    requires i < j < |b|
    ensures b[i] != b[j]
  {
    assert b == b[..i] + [b[i]] + b[i + 1..j] + [b[j]] + b[j + 1..];
    assert b[i] == b[j] ==> multiset(b)[b[i]] >= 2;
    assert b[i] in multiset(a);
    SingleEntry(a, b[i]);
  }

  lemma {:induction false} SingleEntry(a: seq<RuleStats>, x: RuleStats)
    requires forall i, j :: 0 <= i < j < |a| ==> a[i].id != a[j].id
    ensures multiset(a)[x] <= 1
  {
    if a != [] {
      assert a == [a[0]] + a[1..];
      SingleEntry(a[1..], x);
      if a[0] == x {
        assert x !in a[1..];
      }
    }
  }
}
