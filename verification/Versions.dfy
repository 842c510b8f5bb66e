/**
 The version store: a ring buffer of the newest configurations, proved to be a window on an
 unbounded log.  Hashes and times come from outside.
 */
module Versions {
  import opened Text
  import opened Config
  import opened Diff

  datatype Version = Version(
    number: nat,
    hash: string,
    loadedAt: int,
    source: string,
    rulesCount: nat,
    changes: Option<Changes>,
    config: Config)

  // ---------- positions in the ring ----------

  lemma MultipleBound(d: int, m: nat)
    requires m > 0
    ensures d >= 1 ==> d * m >= m
    ensures d <= -1 ==> d * m + m <= 0
  {
  }

  lemma ModUnique(q: int, m: nat, r: int)
    requires m > 0 && 0 <= r < m
    ensures (q * m + r) % m == r
  {
    var x := q * m + r;
    var k, t := x / m, x % m;
    assert x == k * m + t;
    assert (q - k) * m == t - r;
    MultipleBound(q - k, m);
  }

  /** Stepping back i slots from the slot of entry n gives the slot of entry n - i. */
  lemma StepBack(n: int, i: int, m: nat)
    requires m > 0 && 0 <= i < m && i <= n
    ensures (n % m - i + m) % m == (n - i) % m
  {
    var r, q := n % m, n / m;
    assert n == q * m + r;
    if r - i >= 0 {
      ModUnique(q, m, r - i);
      ModUnique(1, m, r - i);
    } else {
      assert n - i == (q - 1) * m + (r - i + m);
      ModUnique(q - 1, m, r - i + m);
      ModUnique(0, m, r - i + m);
    }
  }

  lemma StepOn(n: int, m: nat)
    requires m > 0 && n >= 0
    ensures (n % m + 1) % m == (n + 1) % m
  {
    var r, q := n % m, n / m;
    assert n == q * m + r;
    if r + 1 < m {
      ModUnique(q, m, r + 1);
      ModUnique(0, m, r + 1);
    } else {
      assert n + 1 == (q + 1) * m + 0;
      ModUnique(q + 1, m, 0);
      ModUnique(1, m, 0);
    }
  }

  /** Entries fewer than m apart have different slots. */
  lemma SlotsDiffer(a: int, b: int, m: nat)
    requires m > 0 && 0 <= a < b < a + m
    ensures a % m != b % m
  {
    var d := b - a;
    if a % m + d < m {
      ModUnique(a / m, m, a % m + d);
      assert b == (a / m) * m + (a % m + d);
    } else {
      ModUnique(a / m + 1, m, a % m + d - m);
      assert b == (a / m + 1) * m + (a % m + d - m);
    }
  }

  // ---------- the log ----------

  /** Version numbers count up from one, and each entry records the difference from the one before it. */
  ghost predicate WellLogged(log: seq<Version>)
  {
    && (forall i :: 0 <= i < |log| ==> log[i].number == i + 1 && log[i].rulesCount == |log[i].config.rules|)
    && (|log| > 0 ==> log[0].changes == None)
    && forall i :: 1 <= i < |log| ==> log[i].changes.Some? && IsDiff(log[i - 1].config, log[i].config, log[i].changes.value)
  }

  /** The ring holds the newest entries of the log, entry i in slot (i + 1) % max. */
  ghost predicate Mirrors(ring: seq<Option<Version>>, log: seq<Version>)
  {
    && |ring| > 0
    && forall i :: 0 <= i < |log| && |log| - |ring| <= i ==> ring[(i + 1) % |ring|] == Some(log[i])
  }

  lemma MirrorsAppend(ring: seq<Option<Version>>, log: seq<Version>, v: Version)
    requires Mirrors(ring, log)
    ensures Mirrors(ring[(|log| + 1) % |ring| := Some(v)], log + [v])
  {
    var m := |ring|;
    var ring', log' := ring[(|log| + 1) % m := Some(v)], log + [v];
    forall i | 0 <= i < |log'| && |log'| - m <= i ensures ring'[(i + 1) % m] == Some(log'[i]) {
      if i < |log| {
        SlotsDiffer(i + 1, |log| + 1, m);
      }
    }
  }

  lemma WellLoggedAppend(log: seq<Version>, v: Version)
    requires WellLogged(log) && v.number == |log| + 1 && v.rulesCount == |v.config.rules|
    requires log == [] ==> v.changes == None
    requires log != [] ==> v.changes.Some? && IsDiff(log[|log| - 1].config, v.config, v.changes.value)
    ensures WellLogged(log + [v])
  {
    hide IsDiff;
  }

  class Store {
    const versions: array<Option<Version>>
    const maxVersions: nat
    var current: nat
    var count: nat
    var nextVersion: nat
    ghost var log: seq<Version>

    ghost predicate Valid()
      reads this, versions
    {
      && versions.Length == maxVersions >= 1
      && Mirrors(versions[..], log) && WellLogged(log)
      && current == |log| % maxVersions
      && count == (if |log| < maxVersions then |log| else maxVersions)
      && nextVersion == |log| + 1
    }

    constructor (maxVersions: int)
      ensures Valid() && fresh(versions) && log == []
      ensures this.maxVersions == if maxVersions < 1 then 10 else maxVersions
    {
      var max: nat := if maxVersions < 1 then 10 else maxVersions;
      versions := new Option<Version>[max](_ => None);
      this.maxVersions := max;
      current, count, nextVersion := 0, 0, 1;
      log := [];
    }

    /** The slot read on the i-th step back from the newest entry. */
    lemma SlotHolds(i: nat)
      requires Valid() && i < count
      ensures (current - i + maxVersions) % maxVersions < versions.Length
      ensures versions[(current - i + maxVersions) % maxVersions] == Some(log[|log| - 1 - i])
      ensures log[|log| - 1 - i].number == |log| - i && i < maxVersions
      ensures log[|log| - 1 - i].rulesCount == |log[|log| - 1 - i].config.rules|
    {
      StepBack(|log|, i, maxVersions);
      assert versions[..][(|log| - 1 - i + 1) % maxVersions] == Some(log[|log| - 1 - i]);
    }

    /** getCurrentLocked */
    method Current() returns (v: Option<Version>)
      requires Valid()
      ensures v == if log == [] then None else Some(log[|log| - 1])
    {
      if count == 0 {
        return None;
      }
      SlotHolds(0);
      ModUnique(1, maxVersions, current);
      v := versions[current];
    }

    method Previous() returns (v: Option<Version>)
      requires Valid()
      ensures v == if |log| >= 2 && maxVersions >= 2 then Some(log[|log| - 2]) else None
    {
      if count < 2 {
        return None;
      }
      SlotHolds(1);
      v := versions[(current - 1 + maxVersions) % maxVersions];
    }

    /** Get: a scan from the newest entry back; it finds exactly the maxVersions newest versions. */
    method Get(version: int) returns (found: Option<Version>)
      requires Valid()
      ensures found == if 1 <= version <= |log| && |log| - version < maxVersions then Some(log[version - 1]) else None
    {
      hide Mirrors, WellLogged;
      for i := 0 to count
        invariant !(|log| - i < version <= |log|)
      {
        SlotHolds(i);
        var idx := (current - i + maxVersions) % maxVersions;
        if versions[idx].Some? && versions[idx].value.number == version {
          return versions[idx];
        }
      }
      return None;
    }

    /** List: all entries until there are more than maxVersions, then the newest maxVersions, newest first. */
    method List() returns (result: seq<Version>)
      requires Valid()
      ensures |log| <= maxVersions ==> |result| == |log|
      ensures |log| >= maxVersions ==> |result| == maxVersions
      ensures forall k :: 0 <= k < |result| ==> result[k] == log[|log| - 1 - k] && result[k].number == |log| - k
    {
      result := [];
      for i := 0 to count
        invariant |result| == i
        invariant forall k :: 0 <= k < i ==> result[k] == log[|log| - 1 - k] && result[k].number == |log| - k
      {
        SlotHolds(i);
        var idx := (current - i + maxVersions) % maxVersions;
        if versions[idx].Some? {
          result := result + [versions[idx].value];
        }
      }
    }

    /** Puts an entry in the next slot of the ring. */
    method Push(v: Version)
      requires Valid() && WellLogged(log + [v])
      modifies this, versions
      ensures Valid() && log == old(log) + [v]
    {
      StepOn(|log|, maxVersions);
      MirrorsAppend(versions[..], log, v);
      ghost var ring := versions[..];
      current := (current + 1) % maxVersions;
      versions[current] := Some(v);
      assert versions[..] == ring[current := Some(v)];
      if count < maxVersions {
        count := count + 1;
      }
      nextVersion := nextVersion + 1;
      log := log + [v];
    }

    method Add(cfg: Config, source: string, hash: string, now: int) returns (version: Version)
      requires Valid()
      modifies this, versions
      ensures Valid() && log == old(log) + [version]
      ensures version.number == |old(log)| + 1
      ensures version.config == cfg && version.source == source && version.hash == hash && version.loadedAt == now
      ensures version.rulesCount == |cfg.rules|
      ensures if old(log) == [] then version.changes.None?
              else version.changes.Some? && IsDiff(old(log)[|old(log)| - 1].config, cfg, version.changes.value)
    {
      var changes: Option<Changes> := None;
      var prev := Current();
      if prev.Some? {
        var c := CalculateChanges(prev.value.config, cfg);
        changes := Some(c);
      }
      version := Version(nextVersion, hash, now, source, |cfg.rules|, changes, cfg);
      WellLoggedAppend(log, version);
      Push(version);
    }

    /**
     Rollback to a retained version appends a copy of its configuration under a fresh number, even when
     the slot it then overwrites is that version's own; for any other version nothing changes.
     */
    method Rollback(version: int, now: int) returns (rolledBack: Option<Version>)
      requires Valid()
      modifies this, versions
      ensures Valid()
      ensures rolledBack.Some? <==> 1 <= version <= |old(log)| && |old(log)| - version < maxVersions
      ensures rolledBack.None? ==> log == old(log)
      ensures rolledBack.Some? ==>
                var entry, target := rolledBack.value, old(log)[version - 1];
                && log == old(log) + [entry] && entry.number == |old(log)| + 1
                && entry.config == target.config && entry.hash == target.hash && entry.rulesCount == target.rulesCount
                && entry.source == "rollback:" + target.source && entry.loadedAt == now
                && entry.changes.Some? && IsDiff(old(log)[|old(log)| - 1].config, target.config, entry.changes.value)
    {
      hide Mirrors, WellLogged, IsDiff;
      for i := 0 to count
        invariant Valid() && log == old(log) && count == old(count)
        invariant !(|log| - i < version <= |log|)
      {
        SlotHolds(i);
        var idx := (current - i + maxVersions) % maxVersions;
        if versions[idx].Some? && versions[idx].value.number == version {
          var target := versions[idx].value;
          var latest := Current();
          var c := CalculateChanges(latest.value.config, target.config);
          var entry := Version(nextVersion, target.hash, now, "rollback:" + target.source, target.rulesCount,
                               Some(c), target.config);
          WellLoggedAppend(log, entry);
          Push(entry);
          return Some(entry);
        }
      }
      return None;
    }
  }
}
