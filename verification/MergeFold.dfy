/**
 Merging rules from several sources, as a fold over the rules in merge order (the inner loop of
 fetchAndMerge): path conflicts, the three conflict policies, skipped and displaced rules.
 */
module MergeFold {
  import opened Text
  import opened Config

  datatype Source = Source(name: string, kind: string, prefix: string, priority: int, allowedPaths: seq<string>)

  /** One rule of one source, in the order the merge meets them. */
  datatype Item = Item(source: Source, rule: Rule)

  datatype Conflict = Conflict(path: string, sources: seq<string>, ruleIDs: seq<string>, winner: Option<string>)

  datatype Warning = Warning(source: string, ruleID: string, path: string)

  datatype Contribution = Contribution(
    name: string, kind: string, prefix: string, ruleCount: nat, ruleIDs: seq<string>, error: Option<string>)

  datatype Merge = Merge(
    rules: seq<Rule>,
    pathToSource: map<string, string>,
    pathToRuleID: map<string, string>,
    conflicts: seq<Conflict>,
    warnings: seq<Warning>,
    sources: seq<Contribution>)

  function PathKey(r: Rule): string
  {
    var key := if r.matcher.path == "" then r.matcher.pattern else r.matcher.path;
    if r.matcher.host != "" then r.matcher.host + ":" + key else key
  }

  function Prefixed(it: Item): Rule
  {
    if it.source.prefix != "" then it.rule.(id := it.source.prefix + "/" + it.rule.id) else it.rule
  }

  predicate Allowed(it: Item)
  {
    it.source.allowedPaths == [] ||
    exists k :: 0 <= k < |it.source.allowedPaths| && Under(it.source.allowedPaths[k], it.rule)
  }

  predicate Under(prefix: string, r: Rule)
  {
    prefix <= r.matcher.path || prefix <= r.matcher.pattern
  }

  /** removeRuleByPath */
  function Without(rules: seq<Rule>, key: string): seq<Rule>
  {
    if rules == [] then []
    else if PathKey(rules[0]) == key then Without(rules[1..], key)
    else [rules[0]] + Without(rules[1..], key)
  }

  /** The first contribution under a name is credited with a rule. */
  function Credit(cs: seq<Contribution>, name: string, id: string): seq<Contribution>
  {
    if cs == [] then []
    else if cs[0].name == name then [cs[0].(ruleIDs := cs[0].ruleIDs + [id])] + cs[1..]
    else [cs[0]] + Credit(cs[1..], name, id)
  }

  function Accept(m: Merge, it: Item): Merge
  {
    var rule := Prefixed(it);
    m.(rules := m.rules + [rule],
       pathToSource := m.pathToSource[PathKey(rule) := it.source.name],
       pathToRuleID := m.pathToRuleID[PathKey(rule) := rule.id],
       sources := Credit(m.sources, it.source.name, rule.id))
  }

  function ConflictOf(m: Merge, it: Item, winner: Option<string>): Conflict
    requires PathKey(it.rule) in m.pathToSource && PathKey(it.rule) in m.pathToRuleID
  {
    var key := PathKey(it.rule);
    Conflict(key, [m.pathToSource[key], it.source.name], [m.pathToRuleID[key], Prefixed(it).id], winner)
  }

  predicate SameKeys(m: Merge)
  {
    m.pathToSource.Keys == m.pathToRuleID.Keys
  }

  function Step(policy: string, m: Merge, it: Item): (m': Merge)
    requires SameKeys(m)
    ensures SameKeys(m')
  {
    var key := PathKey(it.rule);
    if !Allowed(it) then m.(warnings := m.warnings + [Warning(it.source.name, it.rule.id, it.rule.matcher.path)])
    else if key !in m.pathToSource then Accept(m, it)
    else if policy == "error" then m.(conflicts := m.conflicts + [ConflictOf(m, it, None)])
    else if policy == "priority" then
      Accept(m.(conflicts := m.conflicts + [ConflictOf(m, it, Some(it.source.name))], rules := Without(m.rules, key)), it)
    else if policy == "first" then
      m.(conflicts := m.conflicts + [ConflictOf(m, it, Some(m.pathToSource[key]))])
    else Accept(m, it)
  }

  function Start(sources: seq<Contribution>): Merge
  {
    Merge([], map[], map[], [], [], sources)
  }

  function MergeAll(policy: string, m: Merge, items: seq<Item>): (m': Merge)
    requires SameKeys(m)
    ensures SameKeys(m')
  {
    if items == [] then m else Step(policy, MergeAll(policy, m, items[..|items| - 1]), items[|items| - 1])
  }

  lemma {:induction false} MergeConcat(policy: string, m: Merge, a: seq<Item>, b: seq<Item>)
    requires SameKeys(m)
    ensures MergeAll(policy, m, a + b) == MergeAll(policy, MergeAll(policy, m, a), b)
  {
    if b == [] {
      assert a + b == a;
    } else {
      assert (a + b)[..|a + b| - 1] == a + b[..|b| - 1];
      MergeConcat(policy, m, a, b[..|b| - 1]);
    }
  }

  // ---------- who wins ----------

  predicate Known(policy: string)
  {
    policy == "error" || policy == "priority" || policy == "first"
  }

  function Supplied(items: seq<Item>): seq<Item>
  {
    if items == [] then []
    else
      var rest, it := Supplied(items[..|items| - 1]), items[|items| - 1];
      if Allowed(it) then rest + [it] else rest
  }

  predicate HasKey(s: seq<Item>, key: string)
  {
    exists i :: 0 <= i < |s| && PathKey(s[i].rule) == key
  }

  /** Under "priority" the latest supplier of a key wins, under the other policies the earliest. */
  predicate Wins(policy: string, s: seq<Item>, i: int)
  {
    && 0 <= i < |s|
    && if policy == "priority" then forall j :: i < j < |s| ==> PathKey(s[j].rule) != PathKey(s[i].rule)
       else forall j :: 0 <= j < i ==> PathKey(s[j].rule) != PathKey(s[i].rule)
  }

  /** The positions of the winners, in merge order. */
  function Winners(policy: string, s: seq<Item>): (ws: seq<nat>)
    ensures forall k :: 0 <= k < |ws| ==> ws[k] < |s|
  {
    if s == [] then []
    else
      var init, n := s[..|s| - 1], |s| - 1;
      var ws, key := Winners(policy, init), PathKey(s[n].rule);
      if policy == "priority" then OtherKeys(ws, init, key) + [n]
      else if HasKey(init, key) then ws
      else ws + [n]
  }

  function OtherKeys(ws: seq<nat>, s: seq<Item>, key: string): (os: seq<nat>)
    requires forall k :: 0 <= k < |ws| ==> ws[k] < |s|
    ensures forall k :: 0 <= k < |os| ==> os[k] < |s|
    ensures forall i :: i in os <==> i in ws && PathKey(s[i].rule) != key
  {
    if ws == [] then []
    else
      assert forall i :: i in ws <==> i == ws[0] || i in ws[1..];
      if PathKey(s[ws[0]].rule) == key then OtherKeys(ws[1..], s, key)
      else [ws[0]] + OtherKeys(ws[1..], s, key)
  }

  function Picked(s: seq<Item>, ws: seq<nat>): (rs: seq<Rule>)
    requires forall k :: 0 <= k < |ws| ==> ws[k] < |s|
    ensures |rs| == |ws| && forall k :: 0 <= k < |ws| ==> rs[k] == Prefixed(s[ws[k]])
  {
    seq(|ws|, k requires 0 <= k < |ws| => Prefixed(s[ws[k]]))
  }

  predicate DistinctKeys(rules: seq<Rule>)
  {
    forall i, j :: 0 <= i < j < |rules| ==> PathKey(rules[i]) != PathKey(rules[j])
  }

  /** The side indexes hold, for each supplied key, the winner's source and rule ID, and nothing else. */
  ghost predicate Indexes(toSource: map<string, string>, toRuleID: map<string, string>, policy: string, s: seq<Item>)
  {
    && toSource.Keys == toRuleID.Keys
    && (forall k :: k in toSource <==> HasKey(s, k))
    && forall i :: Wins(policy, s, i) ==>
         && PathKey(s[i].rule) in toSource
         && toSource[PathKey(s[i].rule)] == s[i].source.name
         && toRuleID[PathKey(s[i].rule)] == Prefixed(s[i]).id
  }

  /** The merged rules are the winners in merge order, and the two side indexes describe exactly them. */
  ghost predicate Describes(m: Merge, policy: string, s: seq<Item>)
  {
    m.rules == Picked(s, Winners(policy, s)) && Indexes(m.pathToSource, m.pathToRuleID, policy, s)
  }

  predicate Increasing(ws: seq<nat>)
  {
    forall k, l :: 0 <= k < l < |ws| ==> ws[k] < ws[l]
  }

  lemma {:induction false} OtherKeysIncreasing(ws: seq<nat>, s: seq<Item>, key: string)
    requires forall k :: 0 <= k < |ws| ==> ws[k] < |s|
    requires Increasing(ws)
    ensures Increasing(OtherKeys(ws, s, key))
  {
    if ws != [] {
      OtherKeysIncreasing(ws[1..], s, key);
      var os := OtherKeys(ws[1..], s, key);
      forall l | 0 <= l < |os| ensures ws[0] < os[l] {
        assert os[l] in ws[1..];
      }
    }
  }

  lemma WinsBefore(policy: string, s: seq<Item>, x: Item, i: int)
    requires i < |s|
    ensures Wins(policy, s + [x], i) <==>
            Wins(policy, s, i) && (policy == "priority" ==> PathKey(s[i].rule) != PathKey(x.rule))
  {
    var t := s + [x];
    assert t[|s|] == x && forall j :: 0 <= j < |s| ==> t[j] == s[j];
  }

  lemma WinsLast(policy: string, s: seq<Item>, x: Item)
    ensures Wins(policy, s + [x], |s|) <==> policy == "priority" || !HasKey(s, PathKey(x.rule))
  {
    var t := s + [x];
    assert t[|s|] == x && forall j :: 0 <= j < |s| ==> t[j] == s[j];
  }

  lemma HasKeyAt(s: seq<Item>, i: nat)
    requires i < |s|
    ensures HasKey(s, PathKey(s[i].rule))
  {
  }

  lemma HasKeyAppend(s: seq<Item>, x: Item, key: string)
    ensures HasKey(s + [x], key) <==> HasKey(s, key) || PathKey(x.rule) == key
  {
    var t := s + [x];
    assert t[|s|] == x && forall j :: 0 <= j < |s| ==> t[j] == s[j];
  }

  /** The winners of a supply with one more item. */
  lemma WinnersAppend(policy: string, s: seq<Item>, x: Item)
    ensures Winners(policy, s + [x]) ==
            if policy == "priority" then OtherKeys(Winners(policy, s), s, PathKey(x.rule)) + [|s|]
            else if HasKey(s, PathKey(x.rule)) then Winners(policy, s)
            else Winners(policy, s) + [|s|]
  {
    assert (s + [x])[..|s|] == s && (s + [x])[|s|] == x;
  }

  lemma {:induction false} WinnersMeaning(policy: string, s: seq<Item>)
    ensures Increasing(Winners(policy, s))
    ensures forall i :: i in Winners(policy, s) <==> Wins(policy, s, i)
  {
    if s != [] {
      var init, x := s[..|s| - 1], s[|s| - 1];
      assert s == init + [x];
      WinnersMeaning(policy, init);
      WinnersAppend(policy, init, x);
      IncreasingAppend(policy, init, x);
      hide Wins, HasKey, OtherKeys, Winners, Increasing;
      forall i ensures i in Winners(policy, s) <==> Wins(policy, s, i) {
        MeaningAt(policy, init, x, i);
      }
    }
  }

  lemma IncreasingAppend(policy: string, s: seq<Item>, x: Item)
    requires Increasing(Winners(policy, s))
    ensures Increasing(Winners(policy, s + [x]))
  {
    WinnersAppend(policy, s, x);
    OtherKeysIncreasing(Winners(policy, s), s, PathKey(x.rule));
    hide HasKey, Winners, OtherKeys;
  }

  lemma MeaningAt(policy: string, s: seq<Item>, x: Item, i: int)
    requires forall i :: i in Winners(policy, s) <==> Wins(policy, s, i)
    ensures i in Winners(policy, s + [x]) <==> Wins(policy, s + [x], i)
  {
    WinnersAppend(policy, s, x);
    WinsLast(policy, s, x);
    hide Wins, HasKey, Winners, OtherKeys;
    if i < |s| {
      WinsBefore(policy, s, x, i);
    } else {
      NotWinning(policy, s, i);
      if i > |s| {
        NotWinning(policy, s + [x], i);
      }
    }
  }

  lemma NotWinning(policy: string, s: seq<Item>, i: int)
    requires i >= |s|
    ensures !Wins(policy, s, i) && i !in Winners(policy, s)
  {
  }

  /** No two merged rules share a path key. */
  lemma WinnersDistinct(policy: string, s: seq<Item>)
    ensures DistinctKeys(Picked(s, Winners(policy, s)))
  {
    WinnersMeaning(policy, s);
    var ws := Winners(policy, s);
    forall k, l | 0 <= k < l < |ws| ensures PathKey(Prefixed(s[ws[k]])) != PathKey(Prefixed(s[ws[l]])) {
      assert ws[k] in ws && ws[l] in ws;
    }
  }

  lemma {:induction false} PickedWithout(s: seq<Item>, ws: seq<nat>, key: string)
    requires forall k :: 0 <= k < |ws| ==> ws[k] < |s|
    ensures Without(Picked(s, ws), key) == Picked(s, OtherKeys(ws, s, key))
  {
    if ws == [] {
    } else if PathKey(s[ws[0]].rule) == key {
      PickedWithout(s, ws[1..], key);
      assert Picked(s, ws)[1..] == Picked(s, ws[1..]);
    } else {
      PickedWithout(s, ws[1..], key);
      assert Picked(s, ws)[1..] == Picked(s, ws[1..]);
      PickedCons(s, ws[0], OtherKeys(ws[1..], s, key));
    }
  }

  lemma PickedCons(s: seq<Item>, i: nat, ws: seq<nat>)
    requires i < |s| && forall k :: 0 <= k < |ws| ==> ws[k] < |s|
    ensures Picked(s, [i] + ws) == [Prefixed(s[i])] + Picked(s, ws)
  {
  }

  lemma PickedSnoc(s: seq<Item>, x: Item, ws: seq<nat>)
    requires forall k :: 0 <= k < |ws| ==> ws[k] < |s|
    ensures Picked(s + [x], ws) == Picked(s, ws)
    ensures Picked(s + [x], ws + [|s|]) == Picked(s, ws) + [Prefixed(x)]
  {
  }

  lemma {:induction false} WithoutAppend(rules: seq<Rule>, r: Rule, key: string)
    ensures Without(rules + [r], key) == Without(rules, key) + if PathKey(r) == key then [] else [r]
  {
    if rules != [] {
      assert (rules + [r])[1..] == rules[1..] + [r];
      WithoutAppend(rules[1..], r, key);
    } else {
      assert rules + [r] == [r] && [r][1..] == [];
    }
  }

  lemma {:induction false} WithoutAbsent(rules: seq<Rule>, key: string)
    requires forall i :: 0 <= i < |rules| ==> PathKey(rules[i]) != key
    ensures Without(rules, key) == rules
  {
    if rules != [] {
      WithoutAbsent(rules[1..], key);
    }
  }

  /** Removing by path removes exactly one rule when keys are distinct and one has the path. */
  lemma {:induction false} WithoutRemovesOne(rules: seq<Rule>, key: string)
    requires DistinctKeys(rules) && exists i :: 0 <= i < |rules| && PathKey(rules[i]) == key
    ensures |Without(rules, key)| == |rules| - 1
  {
    if PathKey(rules[0]) == key {
      WithoutAbsent(rules[1..], key);
    } else {
      var i :| 0 <= i < |rules| && PathKey(rules[i]) == key;
      assert rules[1..][i - 1] == rules[i];
      WithoutRemovesOne(rules[1..], key);
    }
  }

  lemma StepRules(policy: string, m: Merge, s: seq<Item>, it: Item)
    requires Known(policy) && Describes(m, policy, s) && Allowed(it)
    ensures Step(policy, m, it).rules == Picked(s + [it], Winners(policy, s + [it]))
  {
    hide Wins, HasKey, OtherKeys, Winners, Without;
    var ws, key := Winners(policy, s), PathKey(it.rule);
    WinnersAppend(policy, s, it);
    PickedWithout(s, ws, key);
    PickedSnoc(s, it, ws);
    PickedSnoc(s, it, OtherKeys(ws, s, key));
    if !HasKey(s, key) {
      NothingRemoved(ws, s, key);
    }
  }

  lemma {:induction false} NothingRemoved(ws: seq<nat>, s: seq<Item>, key: string)
    requires forall k :: 0 <= k < |ws| ==> ws[k] < |s|
    requires !HasKey(s, key)
    ensures OtherKeys(ws, s, key) == ws
  {
    if ws != [] {
      NothingRemoved(ws[1..], s, key);
    }
  }

  lemma AcceptIndexes(toSource: map<string, string>, toRuleID: map<string, string>, policy: string, s: seq<Item>, it: Item)
    requires Indexes(toSource, toRuleID, policy, s)
    requires policy == "priority" || !HasKey(s, PathKey(it.rule))
    ensures var key := PathKey(it.rule);
            Indexes(toSource[key := it.source.name], toRuleID[key := Prefixed(it).id], policy, s + [it])
  {
    hide HasKey;
    var key := PathKey(it.rule);
    assert forall i :: Wins(policy, s + [it], i) ==> 0 <= i <= |s|;
    hide Wins;
    forall i | Wins(policy, s + [it], i) && i < |s|
      ensures Wins(policy, s, i) && PathKey(s[i].rule) != key
    {
      WinsBefore(policy, s, it, i);
      HasKeyAt(s, i);
    }
    forall k ensures HasKey(s + [it], k) <==> HasKey(s, k) || key == k {
      HasKeyAppend(s, it, k);
    }
  }

  lemma SkipIndexes(toSource: map<string, string>, toRuleID: map<string, string>, policy: string, s: seq<Item>, it: Item)
    requires Indexes(toSource, toRuleID, policy, s)
    requires policy != "priority" && HasKey(s, PathKey(it.rule))
    ensures Indexes(toSource, toRuleID, policy, s + [it])
  {
    hide HasKey;
    WinsLast(policy, s, it);
    assert forall i :: Wins(policy, s + [it], i) ==> 0 <= i <= |s|;
    hide Wins;
    forall i | Wins(policy, s + [it], i) ensures 0 <= i < |s| && Wins(policy, s, i) {
      if i < |s| {
        WinsBefore(policy, s, it, i);
      }
    }
    forall k ensures HasKey(s + [it], k) <==> HasKey(s, k) {
      HasKeyAppend(s, it, k);
    }
  }

  /** One allowed rule keeps the description, under each of the three policies. */
  lemma StepDescribes(policy: string, m: Merge, s: seq<Item>, it: Item)
    requires Known(policy) && Describes(m, policy, s) && Allowed(it)
    ensures Describes(Step(policy, m, it), policy, s + [it])
  {
    StepRules(policy, m, s, it);
    if HasKey(s, PathKey(it.rule)) && policy != "priority" {
      SkipIndexes(m.pathToSource, m.pathToRuleID, policy, s, it);
    } else {
      AcceptIndexes(m.pathToSource, m.pathToRuleID, policy, s, it);
    }
    hide Wins, HasKey, Winners, Without, Picked;
    assert PathKey(it.rule) in m.pathToSource <==> HasKey(s, PathKey(it.rule));
  }

  /** Throughout the fold, under each of the three policies, the merge state describes the winners so far. */
  lemma {:induction false} MergeDescribes(policy: string, sources: seq<Contribution>, items: seq<Item>)
    requires Known(policy)
    ensures Describes(MergeAll(policy, Start(sources), items), policy, Supplied(items))
  {
    if items != [] {
      var init, it := items[..|items| - 1], items[|items| - 1];
      MergeDescribes(policy, sources, init);
      if Allowed(it) {
        StepDescribes(policy, MergeAll(policy, Start(sources), init), Supplied(init), it);
      }
    }
  }
}
