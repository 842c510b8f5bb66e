/** What holds of every merge: who survives, that nothing is lost or counted twice, and that the result is valid. */
module MergeLaws {
  import opened Text
  import opened Glob
  import opened Config
  import opened MergeFold

  function Merged(policy: string, sources: seq<Contribution>, items: seq<Item>): Merge
  {
    MergeAll(policy, Start(sources), items)
  }

  // ---------- winners ----------

  lemma {:induction false} KeyHasWinner(policy: string, s: seq<Item>, key: string) returns (i: nat)
    requires HasKey(s, key)
    ensures i < |s| && Wins(policy, s, i) && PathKey(s[i].rule) == key
  {
    var init, x := s[..|s| - 1], s[|s| - 1];
    assert s == init + [x];
    WinsLast(policy, init, x);
    HasKeyAppend(init, x, key);
    if PathKey(x.rule) == key && (policy == "priority" || !HasKey(init, key)) {
      i := |init|;
    } else {
      i := KeyHasWinner(policy, init, key);
      WinsBefore(policy, init, x, i);
    }
  }

  /** Every supplied key survives the merge, through exactly one rule. */
  lemma SuppliedKeySurvives(policy: string, sources: seq<Contribution>, items: seq<Item>, key: string)
    requires Known(policy)
    ensures DistinctKeys(Merged(policy, sources, items).rules)
    ensures HasKey(Supplied(items), key) <==>
            exists k :: 0 <= k < |Merged(policy, sources, items).rules|
                        && PathKey(Merged(policy, sources, items).rules[k]) == key
  {
    hide Wins, HasKey;
    var s := Supplied(items);
    MergeDescribes(policy, sources, items);
    WinnersDistinct(policy, s);
    WinnersMeaning(policy, s);
    var ws := Winners(policy, s);
    if HasKey(s, key) {
      var i := KeyHasWinner(policy, s, key);
      var k :| 0 <= k < |ws| && ws[k] == i;
      assert PathKey(Merged(policy, sources, items).rules[k]) == key;
    }
    if k :| 0 <= k < |ws| && PathKey(Merged(policy, sources, items).rules[k]) == key {
      HasKeyAt(s, ws[k]);
    }
  }

  predicate PriorityOrdered(items: seq<Item>)
  {
    forall i, j :: 0 <= i < j < |items| ==> items[i].source.priority <= items[j].source.priority
  }

  lemma {:induction false} SuppliedOrdered(items: seq<Item>)
    requires PriorityOrdered(items)
    ensures PriorityOrdered(Supplied(items))
    ensures forall it :: it in Supplied(items) <==> it in items && Allowed(it)
  {
    if items != [] {
      var init, x := items[..|items| - 1], items[|items| - 1];
      assert items == init + [x];
      SuppliedOrdered(init);
      forall i | 0 <= i < |Supplied(init)| ensures Supplied(init)[i].source.priority <= x.source.priority {
        assert Supplied(init)[i] in init;
      }
    }
  }

  /**
   Under "priority", with sources merged in ascending priority, each surviving rule comes from a source
   of maximal priority among all those supplying an allowed rule for its key.
   */
  lemma PriorityWinnerIsMaximal(sources: seq<Contribution>, items: seq<Item>, k: nat)
    requires PriorityOrdered(items) && k < |Merged("priority", sources, items).rules|
    ensures exists it :: it in items && Allowed(it) && Prefixed(it) == Merged("priority", sources, items).rules[k]
                         && forall o :: o in items && Allowed(o) && PathKey(o.rule) == PathKey(it.rule)
                                        ==> o.source.priority <= it.source.priority
  {
    hide Wins, Winners, HasKey, Allowed;
    var s := Supplied(items);
    MergeDescribes("priority", sources, items);
    WinnersMeaning("priority", s);
    SuppliedOrdered(items);
    var i := Winners("priority", s)[k];
    assert i in Winners("priority", s);
    forall o | o in items && Allowed(o) && PathKey(o.rule) == PathKey(s[i].rule)
      ensures o.source.priority <= s[i].source.priority
    {
      var j :| 0 <= j < |s| && s[j] == o;
      WinnerOutranks(s, i, j);
    }
    assert s[i] in s;
  }

  lemma WinnerOutranks(s: seq<Item>, i: nat, j: nat)
    requires PriorityOrdered(s) && i < |s| && Wins("priority", s, i)
    requires j < |s| && PathKey(s[j].rule) == PathKey(s[i].rule)
    ensures s[j].source.priority <= s[i].source.priority
  {
  }

  /** Under "first" and "error" each surviving rule is the earliest allowed one with its key. */
  lemma FirstWinnerIsEarliest(policy: string, sources: seq<Contribution>, items: seq<Item>, k: nat)
    requires (policy == "first" || policy == "error") && k < |Merged(policy, sources, items).rules|
    ensures exists i :: 0 <= i < |Supplied(items)| && Prefixed(Supplied(items)[i]) == Merged(policy, sources, items).rules[k]
                        && forall j :: 0 <= j < i ==> PathKey(Supplied(items)[j].rule) != PathKey(Supplied(items)[i].rule)
  {
    MergeDescribes(policy, sources, items);
    WinnersMeaning(policy, Supplied(items));
    assert Winners(policy, Supplied(items))[k] in Winners(policy, Supplied(items));
  }

  /** The order in which sources reported back shows only in the report's list of sources. */
  lemma {:induction false} ArrivalIrrelevant(policy: string, a: seq<Contribution>, b: seq<Contribution>, items: seq<Item>)
    ensures Merged(policy, a, items).(sources := []) == Merged(policy, b, items).(sources := [])
  {
    if items != [] {
      ArrivalIrrelevant(policy, a, b, items[..|items| - 1]);
    }
  }

  // ---------- conservation ----------

  lemma StepConserves(policy: string, m: Merge, it: Item)
    requires Known(policy) && SameKeys(m) && DistinctKeys(m.rules)
    requires PathKey(it.rule) in m.pathToSource ==> exists k :: 0 <= k < |m.rules| && PathKey(m.rules[k]) == PathKey(it.rule)
    ensures var m' := Step(policy, m, it);
            |m'.rules| + |m'.conflicts| + |m'.warnings| == |m.rules| + |m.conflicts| + |m.warnings| + 1
  {
    if PathKey(it.rule) in m.pathToSource {
      WithoutRemovesOne(m.rules, PathKey(it.rule));
    }
  }

  /** Every rule fetched ends up merged, in a conflict, or in a warning, exactly once. */
  lemma {:induction false} NothingLost(policy: string, sources: seq<Contribution>, items: seq<Item>)
    requires Known(policy)
    ensures var m := Merged(policy, sources, items);
            |m.rules| + |m.conflicts| + |m.warnings| == |items|
  {
    if items != [] {
      var init, it := items[..|items| - 1], items[|items| - 1];
      NothingLost(policy, sources, init);
      MergeDescribes(policy, sources, init);
      SuppliedKeySurvives(policy, sources, init, PathKey(it.rule));
      hide HasKey, Step, MergeAll, DistinctKeys;
      StepConserves(policy, Merged(policy, sources, init), it);
      LastStep(policy, sources, items);
    }
  }

  lemma LastStep(policy: string, sources: seq<Contribution>, items: seq<Item>)
    requires items != []
    ensures Merged(policy, sources, items) == Step(policy, Merged(policy, sources, items[..|items| - 1]), items[|items| - 1])
  {
  }

  /** Rules credited to sources in the report. */
  function Credited(cs: seq<Contribution>): nat
  {
    if cs == [] then 0 else |cs[0].ruleIDs| + Credited(cs[1..])
  }

  predicate Named(cs: seq<Contribution>, name: string)
  {
    exists c :: c in cs && c.name == name
  }

  lemma {:induction false} CreditCounts(cs: seq<Contribution>, name: string, id: string)
    ensures Credited(Credit(cs, name, id)) == Credited(cs) + if Named(cs, name) then 1 else 0
    ensures forall n :: Named(Credit(cs, name, id), n) <==> Named(cs, n)
  {
    if cs != [] {
      CreditCounts(cs[1..], name, id);
      var ds := Credit(cs, name, id);
      assert ds[0].name == cs[0].name;
      assert ds[1..] == if cs[0].name == name then cs[1..] else Credit(cs[1..], name, id);
      assert forall c :: c in cs <==> c == cs[0] || c in cs[1..];
      assert forall c :: c in ds <==> c == ds[0] || c in ds[1..];
      assert ds[0] in ds && cs[0] in cs;
      forall n ensures Named(ds, n) <==> Named(cs, n) {
        assert Named(ds, n) <==> ds[0].name == n || Named(ds[1..], n);
        assert Named(cs, n) <==> cs[0].name == n || Named(cs[1..], n);
      }
    }
  }

  lemma StepCredits(policy: string, m: Merge, it: Item)
    requires Known(policy) && SameKeys(m) && Named(m.sources, it.source.name) && DistinctKeys(m.rules)
    requires PathKey(it.rule) in m.pathToSource ==> exists k :: 0 <= k < |m.rules| && PathKey(m.rules[k]) == PathKey(it.rule)
    ensures var m' := Step(policy, m, it);
            && (forall n :: Named(m'.sources, n) <==> Named(m.sources, n))
            && Credited(m'.sources) - |m'.rules| - Displaced(policy, m')
               == Credited(m.sources) - |m.rules| - Displaced(policy, m)
  {
    CreditCounts(m.sources, it.source.name, Prefixed(it).id);
    if PathKey(it.rule) in m.pathToSource {
      WithoutRemovesOne(m.rules, PathKey(it.rule));
    }
  }

  /** Rules that were merged and later displaced: one per conflict under "priority", none otherwise. */
  function Displaced(policy: string, m: Merge): nat
  {
    if policy == "priority" then |m.conflicts| else 0
  }

  /**
   The report credits sources with every rule that was ever accepted; under "priority" that includes
   the rules displaced afterwards, so credits exceed merged rules by the number of conflicts.
   */
  lemma {:induction false} CreditsCountAccepted(policy: string, sources: seq<Contribution>, items: seq<Item>)
    requires Known(policy) && Credited(sources) == 0
    requires forall it :: it in items ==> Named(sources, it.source.name)
    ensures var m := Merged(policy, sources, items);
            && Credited(m.sources) == |m.rules| + Displaced(policy, m)
            && forall n :: Named(m.sources, n) <==> Named(sources, n)
  {
    if items != [] {
      var init, it := items[..|items| - 1], items[|items| - 1];
      assert items == init + [it];
      CreditsCountAccepted(policy, sources, init);
      MergeDescribes(policy, sources, init);
      SuppliedKeySurvives(policy, sources, init, PathKey(it.rule));
      hide HasKey, Step, MergeAll, DistinctKeys, Named, Credited;
      StepCredits(policy, Merged(policy, sources, init), it);
      LastStep(policy, sources, items);
    }
  }

  // ---------- other policies ----------

  /** Any other policy string lets conflicting rules through: distinct keys are guaranteed by the three policies alone. */
  lemma DistinctExactlyWhenKnown(policy: string)
    ensures (forall sources, items :: DistinctKeys(Merged(policy, sources, items).rules)) <==> Known(policy)
  {
    if Known(policy) {
      forall sources, items ensures DistinctKeys(Merged(policy, sources, items).rules) {
        SuppliedKeySurvives(policy, sources, items, "");
      }
    } else {
      var it := Item(Source("s", "file", "", 0, []),
                     Rule("r", Matcher(Exact, "/a", "", ""), Response(404, "", "", "", false, None, map[]), 0, None));
      var items := [it, it];
      assert items[..1] == [it] && [it][..0] == [];
      assert Merged(policy, [], []) == Start([]);
      assert Merged(policy, [], [it]) == Accept(Start([]), it);
      assert Merged(policy, [], items) == Accept(Accept(Start([]), it), it);
      var rules := Merged(policy, [], items).rules;
      assert rules == [it.rule, it.rule] && PathKey(rules[0]) == PathKey(rules[1]);
      assert !DistinctKeys(Merged(policy, [], items).rules);
    }
  }

  // ---------- the merged configuration is valid ----------

  lemma {:induction false} SuppliedIDs(items: seq<Item>)
    requires forall i, j :: 0 <= i < j < |items| ==> Prefixed(items[i]).id != Prefixed(items[j]).id
    ensures forall i, j :: 0 <= i < j < |Supplied(items)| ==>
                             Prefixed(Supplied(items)[i]).id != Prefixed(Supplied(items)[j]).id
    ensures forall it :: it in Supplied(items) ==> it in items
  {
    if items != [] {
      var init, x := items[..|items| - 1], items[|items| - 1];
      assert items == init + [x];
      SuppliedIDs(init);
      forall i | 0 <= i < |Supplied(init)| ensures Prefixed(Supplied(init)[i]).id != Prefixed(x).id {
        assert Supplied(init)[i] in init;
      }
    }
  }

  /** Merging rules with distinct prefixed IDs, each fine on its own, gives rules that pass validation. */
  lemma MergeAcceptable(lib: Library, policy: string, sources: seq<Contribution>, items: seq<Item>)
    requires Known(policy)
    requires forall i, j :: 0 <= i < j < |items| ==> Prefixed(items[i]).id != Prefixed(items[j]).id
    requires forall i :: 0 <= i < |items| ==> RuleError(lib, items[i].rule).None?
    ensures Acceptable(lib, Merged(policy, sources, items).rules)
  {
    hide Wins, Winners, HasKey, Allowed, Acceptable, RuleError;
    var s := Supplied(items);
    MergeDescribes(policy, sources, items);
    WinnersMeaning(policy, s);
    SuppliedIDs(items);
    forall i | 0 <= i < |s| ensures RuleError(lib, s[i].rule).None? {
      assert s[i] in items;
    }
    PickedAcceptable(lib, s, Winners(policy, s));
  }

  lemma PickedAcceptable(lib: Library, s: seq<Item>, ws: seq<nat>)
    requires Increasing(ws) && forall k :: 0 <= k < |ws| ==> ws[k] < |s|
    requires forall i, j :: 0 <= i < j < |s| ==> Prefixed(s[i]).id != Prefixed(s[j]).id
    requires forall i :: 0 <= i < |s| ==> RuleError(lib, s[i].rule).None?
    ensures Acceptable(lib, Picked(s, ws))
  {
    forall k | 0 <= k < |ws| ensures RuleError(lib, Picked(s, ws)[k]).None? {
      PrefixKeepsError(lib, s[ws[k]]);
    }
    hide RuleError, Prefixed;
    assert DistinctIDs(Picked(s, ws));
  }

  lemma PrefixKeepsError(lib: Library, it: Item)
    ensures RuleError(lib, Prefixed(it)).None? <==> RuleError(lib, it.rule).None?
  {
  }

  lemma SlashLengths(p: string, a: string, q: string, b: string)
    requires SlashFree(p) && SlashFree(q) && |p| < |q|
    ensures p + "/" + a != q + "/" + b
  {
    assert (p + "/" + a)[|p|] == '/';
    assert (q + "/" + b)[|p|] == q[|p|];
  }

  /** IDs under different slash-free prefixes never meet. */
  lemma PrefixesSeparate(p: string, a: string, q: string, b: string)
    requires SlashFree(p) && SlashFree(q)
    ensures p + "/" + a == q + "/" + b <==> p == q && a == b
  {
    if |p| < |q| {
      SlashLengths(p, a, q, b);
    } else if |q| < |p| {
      SlashLengths(q, b, p, a);
    } else if p + "/" + a == q + "/" + b {
      assert p == (p + "/" + a)[..|p|] == q;
      assert a == (p + "/" + a)[|p| + 1..] == b;
    }
  }
}
