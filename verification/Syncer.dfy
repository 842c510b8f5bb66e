/**
 fetchAndMerge: results arrive from the sources in any order, are put in merge order, and are merged
 rule by rule.  The order of arrival and the order an unstable sort picks among sources of one
 priority are arguments.
 */
module Syncer {
  import opened Text
  import opened Glob
  import opened Config
  import opened CycleKeys
  import opened MergeFold
  import opened MergeLaws
  import opened MergeKeys

  datatype Fetched = Failed(error: string) | Nothing | Got(config: Config)

  datatype MergeError = NoSources | PathConflicts(count: nat) | Invalid(error: ValidationError)

  datatype Result = Ok(config: Config) | Err(error: MergeError)

  datatype Report = Report(
    sources: seq<Contribution>, totalRules: nat, conflicts: seq<Conflict>, warnings: seq<Warning>)

  // ---------- collecting ----------

  function ContributionOf(s: Source, f: Fetched): Contribution
  {
    match f
    case Failed(e) => Contribution(s.name, s.kind, s.prefix, 0, [], Some(e))
    case Nothing => Contribution(s.name, s.kind, s.prefix, 0, [], Some("source returned nil config without error"))
    case Got(c) => Contribution(s.name, s.kind, s.prefix, |c.rules|, [], None)
  }

  /** Every source reports back once, in any order. */
  predicate Arrival(arrival: seq<nat>, n: nat)
  {
    && |arrival| == n && Distinct(arrival)
    && (forall k :: 0 <= k < n ==> arrival[k] < n)
    && forall i :: 0 <= i < n ==> i in arrival
  }

  function Contributions(sources: seq<Source>, fetched: seq<Fetched>, arrival: seq<nat>): seq<Contribution>
    requires |sources| == |fetched| && forall i :: 0 <= i < |arrival| ==> arrival[i] < |sources|
  {
    if arrival == [] then []
    else
      var i := arrival[|arrival| - 1];
      Contributions(sources, fetched, arrival[..|arrival| - 1]) + [ContributionOf(sources[i], fetched[i])]
  }

  function Kept(f: Fetched): Option<Config>
  {
    if f.Got? then Some(f.config) else None
  }

  /** The collection loop. What is kept per source does not depend on the order of arrival. */
  method Collect(sources: seq<Source>, fetched: seq<Fetched>, arrival: seq<nat>)
    returns (configs: seq<Option<Config>>, contributions: seq<Contribution>)
    requires |sources| == |fetched| && Arrival(arrival, |sources|)
    ensures |configs| == |sources| && forall i :: 0 <= i < |sources| ==> configs[i] == Kept(fetched[i])
    ensures contributions == Contributions(sources, fetched, arrival)
  {
    configs := seq(|sources|, _ => None);
    contributions := [];
    for k := 0 to |arrival|
      invariant |configs| == |sources|
      invariant forall j :: 0 <= j < k ==> configs[arrival[j]] == Kept(fetched[arrival[j]])
      invariant forall i :: 0 <= i < |configs| ==> configs[i] == None || configs[i] == Kept(fetched[i])
      invariant contributions == Contributions(sources, fetched, arrival[..k])
    {
      var i := arrival[k];
      assert arrival[..k + 1][..k] == arrival[..k];
      var kept, contribution := Receive(sources[i], fetched[i]);
      if kept.Some? {
        configs := configs[i := kept];
      }
      contributions := contributions + [contribution];
    }
    assert arrival[..|arrival|] == arrival;
    forall i | 0 <= i < |sources| ensures configs[i] == Kept(fetched[i]) {
      assert i in arrival;
      var j :| 0 <= j < |arrival| && arrival[j] == i;
    }
  }

  /** What one result leaves behind. */
  method Receive(source: Source, f: Fetched) returns (kept: Option<Config>, contribution: Contribution)
    ensures kept == Kept(f) && contribution == ContributionOf(source, f)
  {
    kept := None;
    contribution := Contribution(source.name, source.kind, source.prefix, 0, [], None);
    match f
    case Failed(e) => contribution := contribution.(error := Some(e));
    case Nothing => contribution := contribution.(error := Some("source returned nil config without error"));
    case Got(c) =>
      kept := Some(c);
      contribution := contribution.(ruleCount := |c.rules|);
  }

  // ---------- merge order ----------

  /** A possible outcome of sort.Slice on the sources that delivered: lower priority first, ties in any order. */
  predicate MergeOrder(order: seq<nat>, sources: seq<Source>, fetched: seq<Fetched>)
    requires |sources| == |fetched|
  {
    && Distinct(order)
    && (forall k :: 0 <= k < |order| ==> order[k] < |sources| && fetched[order[k]].Got?)
    && (forall i :: 0 <= i < |sources| && fetched[i].Got? ==> i in order)
    && forall k, l :: 0 <= k < l < |order| ==> sources[order[k]].priority <= sources[order[l]].priority
  }

  predicate Delivered(order: seq<nat>, sources: seq<Source>, fetched: seq<Fetched>)
  {
    |sources| == |fetched| && forall k :: 0 <= k < |order| ==> order[k] < |sources| && fetched[order[k]].Got?
  }

  function SourceItems(s: Source, rules: seq<Rule>): (items: seq<Item>)
    ensures |items| == |rules| && forall i :: 0 <= i < |rules| ==> items[i] == Item(s, rules[i])
  {
    seq(|rules|, i requires 0 <= i < |rules| => Item(s, rules[i]))
  }

  function Items(sources: seq<Source>, fetched: seq<Fetched>, order: seq<nat>): seq<Item>
    requires Delivered(order, sources, fetched)
  {
    if order == [] then []
    else
      var i := order[|order| - 1];
      Items(sources, fetched, order[..|order| - 1]) + SourceItems(sources[i], fetched[i].config.rules)
  }

  function ServerOf(sources: seq<Source>, fetched: seq<Fetched>, order: seq<nat>): ServerConfig
    requires Delivered(order, sources, fetched)
  {
    if order == [] then ServerConfig(0, 0)
    else
      var s := ServerOf(sources, fetched, order[..|order| - 1]);
      if s.port == 0 && fetched[order[|order| - 1]].config.server.port != 0
      then fetched[order[|order| - 1]].config.server else s
  }

  function DefaultsOf(sources: seq<Source>, fetched: seq<Fetched>, order: seq<nat>): DefaultConfig
    requires Delivered(order, sources, fetched)
  {
    if order == [] then DefaultConfig(0, false)
    else
      var d := DefaultsOf(sources, fetched, order[..|order| - 1]);
      if d.statusCode == 0 && fetched[order[|order| - 1]].config.defaults.statusCode != 0
      then fetched[order[|order| - 1]].config.defaults else d
  }

  // ---------- merging one rule ----------

  method IsAllowed(it: Item) returns (allowed: bool)
    ensures allowed == Allowed(it)
  {
    if |it.source.allowedPaths| == 0 {
      return true;
    }
    allowed := false;
    for i := 0 to |it.source.allowedPaths|
      invariant !allowed
      invariant forall k :: 0 <= k < i ==> !Under(it.source.allowedPaths[k], it.rule)
    {
      var p := it.source.allowedPaths[i];
      if p <= it.rule.matcher.path || p <= it.rule.matcher.pattern {
        allowed := true;
        break;
      }
    }
  }

  /** removeRuleByPath */
  method RemoveRuleByPath(rules: seq<Rule>, key: string) returns (result: seq<Rule>)
    ensures result == Without(rules, key)
  {
    result := [];
    for i := 0 to |rules|
      invariant result == Without(rules[..i], key)
    {
      assert rules[..i + 1] == rules[..i] + [rules[i]];
      WithoutAppend(rules[..i], rules[i], key);
      var rulePathKey := rules[i].matcher.path;
      if rulePathKey == "" {
        rulePathKey := rules[i].matcher.pattern;
      }
      if rules[i].matcher.host != "" {
        rulePathKey := rules[i].matcher.host + ":" + rulePathKey;
      }
      if rulePathKey != key {
        result := result + [rules[i]];
      }
    }
    assert rules[..|rules|] == rules;
  }

  method CreditSource(cs: seq<Contribution>, name: string, id: string) returns (result: seq<Contribution>)
    ensures result == Credit(cs, name, id)
  {
    for i := 0 to |cs|
      invariant forall k :: 0 <= k < i ==> cs[k].name != name
    {
      if cs[i].name == name {
        CreditAt(cs, name, id, i);
        return cs[i := cs[i].(ruleIDs := cs[i].ruleIDs + [id])];
      }
    }
    CreditAt(cs, name, id, |cs|);
    return cs;
  }

  lemma {:induction false} CreditAt(cs: seq<Contribution>, name: string, id: string, i: nat)
    requires i <= |cs| && forall k :: 0 <= k < i ==> cs[k].name != name
    requires i < |cs| ==> cs[i].name == name
    ensures Credit(cs, name, id) == if i < |cs| then cs[i := cs[i].(ruleIDs := cs[i].ruleIDs + [id])] else cs
  {
    if cs != [] {
      assert cs == [cs[0]] + cs[1..];
      if i > 0 {
        CreditAt(cs[1..], name, id, i - 1);
        if i < |cs| {
          var c := cs[i].(ruleIDs := cs[i].ruleIDs + [id]);
          assert [cs[0]] + cs[1..][i - 1 := c] == cs[i := c];
        }
      }
    }
  }

  /** The body of the merge loop, statement by statement. */
  method MergeRule(policy: string, m0: Merge, it: Item) returns (m: Merge)
    requires SameKeys(m0)
    ensures m == Step(policy, m0, it)
  {
    m := m0;
    var src := it.source;
    var rule := it.rule;
    var originalID := rule.id;
    if src.prefix != "" {
      rule := rule.(id := src.prefix + "/" + rule.id);
    }
    var allowed := IsAllowed(it);
    if !allowed {
      m := m.(warnings := m.warnings + [Warning(src.name, originalID, rule.matcher.path)]);
      return;
    }
    var pathKey := rule.matcher.path;
    if pathKey == "" {
      pathKey := rule.matcher.pattern;
    }
    if rule.matcher.host != "" {
      pathKey := rule.matcher.host + ":" + pathKey;
    }
    if pathKey in m.pathToSource {
      var existing := m.pathToSource[pathKey];
      var conflict := Conflict(pathKey, [existing, src.name], [m.pathToRuleID[pathKey], rule.id], None);
      if policy == "error" {
        m := m.(conflicts := m.conflicts + [conflict]);
        return;
      } else if policy == "priority" {
        conflict := conflict.(winner := Some(src.name));
        var kept := RemoveRuleByPath(m.rules, pathKey);
        m := m.(conflicts := m.conflicts + [conflict], rules := kept);
      } else if policy == "first" {
        conflict := conflict.(winner := Some(existing));
        m := m.(conflicts := m.conflicts + [conflict]);
        return;
      }
    }
    var credited := CreditSource(m.sources, src.name, rule.id);
    m := m.(pathToSource := m.pathToSource[pathKey := src.name],
            pathToRuleID := m.pathToRuleID[pathKey := rule.id],
            rules := m.rules + [rule],
            sources := credited);
  }

  // ---------- the whole merge ----------

  class Syncer {
    const policy: string
    const validateBeforePush: bool
    const sources: seq<Source>
    var lastReport: Option<Report>

    constructor (policy: string, validateBeforePush: bool, sources: seq<Source>)
      ensures this.policy == (if policy == "" then "error" else policy)
      ensures this.validateBeforePush == validateBeforePush && this.sources == sources && lastReport == None
    {
      this.policy := if policy == "" then "error" else policy;
      this.validateBeforePush := validateBeforePush;
      this.sources := sources;
      lastReport := None;
    }

    function MergeOf(fetched: seq<Fetched>, arrival: seq<nat>, order: seq<nat>): Merge
      requires |sources| == |fetched| && Arrival(arrival, |sources|) && Delivered(order, sources, fetched)
    {
      MergeAll(policy, Start(Contributions(sources, fetched, arrival)), Items(sources, fetched, order))
    }

    function MergedConfig(fetched: seq<Fetched>, arrival: seq<nat>, order: seq<nat>): Config
      requires |sources| == |fetched| && Arrival(arrival, |sources|) && Delivered(order, sources, fetched)
    {
      Config("merged", ServerOf(sources, fetched, order), DefaultsOf(sources, fetched, order), None, None,
             MergeOf(fetched, arrival, order).rules)
    }

    /** The two nested merge loops. */
    method MergeSources(configs: seq<Option<Config>>, start: seq<Contribution>, ghost fetched: seq<Fetched>, order: seq<nat>)
      returns (m: Merge, server: ServerConfig, defaults: DefaultConfig)
      requires |configs| == |sources| && Delivered(order, sources, fetched)
      requires forall i :: 0 <= i < |sources| && fetched[i].Got? ==> configs[i] == Some(fetched[i].config)
      ensures m == MergeAll(policy, Start(start), Items(sources, fetched, order))
      ensures server == ServerOf(sources, fetched, order) && defaults == DefaultsOf(sources, fetched, order)
    {
      m, server, defaults := Start(start), ServerConfig(0, 0), DefaultConfig(0, false);
      for k := 0 to |order|
        invariant m == MergeAll(policy, Start(start), Items(sources, fetched, order[..k]))
        invariant server == ServerOf(sources, fetched, order[..k]) && defaults == DefaultsOf(sources, fetched, order[..k])
      {
        var source, config := sources[order[k]], configs[order[k]].value;
        ghost var before := Items(sources, fetched, order[..k]);
        assert order[..k + 1][..k] == order[..k];
        if server.port == 0 && config.server.port != 0 {
          server := config.server;
        }
        if defaults.statusCode == 0 && config.defaults.statusCode != 0 {
          defaults := config.defaults;
        }
        m := MergeSource(source, config.rules, m);
        MergeConcat(policy, Start(start), before, SourceItems(source, config.rules));
      }
      assert order[..|order|] == order;
    }

    method MergeSource(source: Source, rules: seq<Rule>, m0: Merge) returns (m: Merge)
      requires SameKeys(m0)
      ensures m == MergeAll(policy, m0, SourceItems(source, rules))
    {
      m := m0;
      for i := 0 to |rules|
        invariant m == MergeAll(policy, m0, SourceItems(source, rules[..i]))
      {
        assert SourceItems(source, rules[..i + 1])[..i] == SourceItems(source, rules[..i]);
        m := MergeRule(policy, m, Item(source, rules[i]));
      }
      assert rules[..|rules|] == rules;
    }

    /** fetchAndMerge */
    method FetchAndMerge(lib: Library, fetched: seq<Fetched>, arrival: seq<nat>, order: seq<nat>)
      returns (result: Result)
      requires |sources| == |fetched| && Arrival(arrival, |sources|) && MergeOrder(order, sources, fetched)
      modifies this
      ensures var m, c := MergeOf(fetched, arrival, order), MergedConfig(fetched, arrival, order);
              if sources == [] then
                result == Err(NoSources) && lastReport == old(lastReport)
              else if policy == "error" && m.conflicts != [] then
                && result == Err(PathConflicts(|m.conflicts|))
                && lastReport == Some(Report(m.sources, 0, m.conflicts, m.warnings))
              else if validateBeforePush && !(c.rules != [] && Acceptable(lib, c.rules)) then
                result.Err? && result.error.Invalid? && lastReport == old(lastReport)
              else
                && result == Ok(if validateBeforePush then c.(rules := WithPatterns(c.rules)) else c)
                && lastReport == Some(Report(m.sources, |m.rules|, m.conflicts, m.warnings))
      ensures policy == "error" && sources != [] && AllPlaced(Supplied(Items(sources, fetched, order))) ==>
                (result.Err? && result.error.PathConflicts? <==> !Apart(Supplied(Items(sources, fetched, order))))
      ensures result.Ok? ==> result.config.version == "merged" && result.config.stats.None? && result.config.auth.None?
    {
      hide MergeAll, Items, ServerOf, DefaultsOf, Contributions, Acceptable, FirstError;
      if |sources| == 0 {
        return Err(NoSources);
      }
      if policy == "error" && AllPlaced(Supplied(Items(sources, fetched, order))) {
        ConflictIffSamePlace(policy, Contributions(sources, fetched, arrival), Items(sources, fetched, order));
      }
      var configs, contributions := Collect(sources, fetched, arrival);
      var m, server, defaults := MergeSources(configs, contributions, fetched, order);
      if policy == "error" && |m.conflicts| > 0 {
        lastReport := Some(Report(m.sources, 0, m.conflicts, m.warnings));
        return Err(PathConflicts(|m.conflicts|));
      }
      var merged := Config("merged", server, defaults, None, None, m.rules);
      if validateBeforePush {
        var checked, error := Validate(lib, merged);
        if error.Some? {
          return Err(Invalid(error.value));
        }
        merged := checked;
      }
      lastReport := Some(Report(m.sources, |m.rules|, m.conflicts, m.warnings));
      result := Ok(merged);
    }
  }

  // ---------- consequences for whole merges ----------

  lemma {:induction false} ContributionsInOrder(sources: seq<Source>, fetched: seq<Fetched>, arrival: seq<nat>)
    requires |sources| == |fetched| && forall i :: 0 <= i < |arrival| ==> arrival[i] < |sources|
    ensures |Contributions(sources, fetched, arrival)| == |arrival|
    ensures forall k :: 0 <= k < |arrival| ==>
              Contributions(sources, fetched, arrival)[k] == ContributionOf(sources[arrival[k]], fetched[arrival[k]])
  {
    hide ContributionOf;
    if arrival != [] {
      ContributionsInOrder(sources, fetched, arrival[..|arrival| - 1]);
    }
  }

  /** One contribution per source, in order of arrival, with what came of fetching it. */
  lemma ContributionsArrive(sources: seq<Source>, fetched: seq<Fetched>, arrival: seq<nat>)
    requires |sources| == |fetched| && forall i :: 0 <= i < |arrival| ==> arrival[i] < |sources|
    ensures |Contributions(sources, fetched, arrival)| == |arrival|
    ensures forall k :: 0 <= k < |arrival| ==>
              var c, s, f := Contributions(sources, fetched, arrival)[k], sources[arrival[k]], fetched[arrival[k]];
              && c.name == s.name && c.kind == s.kind && c.prefix == s.prefix && c.ruleIDs == []
              && (f.Got? ==> c.error.None? && c.ruleCount == |f.config.rules|)
              && (f.Failed? ==> c.error == Some(f.error) && c.ruleCount == 0)
              && (f.Nothing? ==> c.error.Some? && c.ruleCount == 0)
  {
    hide Contributions;
    ContributionsInOrder(sources, fetched, arrival);
  }

  /** The server settings are those of the first source in merge order that has a port. */
  lemma {:induction false} FirstServer(sources: seq<Source>, fetched: seq<Fetched>, order: seq<nat>, k: nat)
    requires Delivered(order, sources, fetched) && k <= |order|
    requires forall l :: 0 <= l < k ==> fetched[order[l]].config.server.port == 0
    requires k < |order| ==> fetched[order[k]].config.server.port != 0
    ensures ServerOf(sources, fetched, order) ==
            if k < |order| then fetched[order[k]].config.server else ServerConfig(0, 0)
  {
    if order != [] {
      var init := order[..|order| - 1];
      FirstServer(sources, fetched, init, if k < |init| then k else |init|);
    }
  }

  /** The defaults are those of the first source in merge order that has a status code. */
  lemma {:induction false} FirstDefaults(sources: seq<Source>, fetched: seq<Fetched>, order: seq<nat>, k: nat)
    requires Delivered(order, sources, fetched) && k <= |order|
    requires forall l :: 0 <= l < k ==> fetched[order[l]].config.defaults.statusCode == 0
    requires k < |order| ==> fetched[order[k]].config.defaults.statusCode != 0
    ensures DefaultsOf(sources, fetched, order) ==
            if k < |order| then fetched[order[k]].config.defaults else DefaultConfig(0, false)
  {
    if order != [] {
      var init := order[..|order| - 1];
      FirstDefaults(sources, fetched, init, if k < |init| then k else |init|);
    }
  }

  lemma {:induction false} ItemsOrdered(sources: seq<Source>, fetched: seq<Fetched>, order: seq<nat>)
    requires Delivered(order, sources, fetched)
    requires forall k, l :: 0 <= k < l < |order| ==> sources[order[k]].priority <= sources[order[l]].priority
    ensures PriorityOrdered(Items(sources, fetched, order))
    ensures forall it :: it in Items(sources, fetched, order) ==>
              exists k :: 0 <= k < |order| && it.source == sources[order[k]] && it.rule in fetched[order[k]].config.rules
  {
    if order != [] {
      var init, i := order[..|order| - 1], order[|order| - 1];
      ItemsOrdered(sources, fetched, init);
      var a, b := Items(sources, fetched, init), SourceItems(sources[i], fetched[i].config.rules);
      forall k | 0 <= k < |a| ensures a[k].source.priority <= sources[i].priority {
        assert a[k] in a;
      }
      forall it | it in a + b
        ensures exists k :: 0 <= k < |order| && it.source == sources[order[k]] && it.rule in fetched[order[k]].config.rules
      {
        if it in a {
          var k :| 0 <= k < |init| && it.source == sources[init[k]] && it.rule in fetched[init[k]].config.rules;
          assert order[k] == init[k];
        } else {
          assert it in b && order[|order| - 1] == i;
        }
      }
    }
  }

  /** In a finished "priority" merge every rule comes from a source of maximal priority for its key. */
  lemma PriorityMerge(sources: seq<Source>, fetched: seq<Fetched>, arrival: seq<nat>, order: seq<nat>, k: nat)
    requires |sources| == |fetched| && Arrival(arrival, |sources|) && MergeOrder(order, sources, fetched)
    requires k < |Merged("priority", Contributions(sources, fetched, arrival), Items(sources, fetched, order)).rules|
    ensures var items := Items(sources, fetched, order);
            exists it :: it in items && Allowed(it)
                         && Prefixed(it) == Merged("priority", Contributions(sources, fetched, arrival), items).rules[k]
                         && forall o :: o in items && Allowed(o) && PathKey(o.rule) == PathKey(it.rule)
                                        ==> o.source.priority <= it.source.priority
  {
    ItemsOrdered(sources, fetched, order);
    PriorityWinnerIsMaximal(Contributions(sources, fetched, arrival), Items(sources, fetched, order), k);
  }

  /** Sources with non-empty, slash-free, pairwise different prefixes. */
  predicate SeparatePrefixes(sources: seq<Source>)
  {
    && (forall i :: 0 <= i < |sources| ==> sources[i].prefix != "" && SlashFree(sources[i].prefix))
    && forall i, j :: 0 <= i < j < |sources| ==> sources[i].prefix != sources[j].prefix
  }

  ghost predicate AllValid(lib: Library, fetched: seq<Fetched>)
  {
    forall i :: 0 <= i < |fetched| && fetched[i].Got? ==> PassedValidation(lib, fetched[i].config)
  }

  ghost predicate FromSources(items: seq<Item>, sources: seq<Source>, order: seq<nat>)
  {
    forall i :: 0 <= i < |items| ==>
      exists k :: 0 <= k < |order| && order[k] < |sources| && items[i].source == sources[order[k]]
  }

  predicate DistinctPrefixed(items: seq<Item>)
  {
    forall i, j :: 0 <= i < j < |items| ==> Prefixed(items[i]).id != Prefixed(items[j]).id
  }

  lemma {:induction false} ItemsFine(lib: Library, sources: seq<Source>, fetched: seq<Fetched>, order: seq<nat>)
    requires Delivered(order, sources, fetched) && AllValid(lib, fetched)
    ensures FromSources(Items(sources, fetched, order), sources, order)
    ensures forall i :: 0 <= i < |Items(sources, fetched, order)| ==>
                          RuleError(lib, Items(sources, fetched, order)[i].rule).None?
  {
    hide RuleError;
    if order != [] {
      var init, s := order[..|order| - 1], order[|order| - 1];
      ItemsFine(lib, sources, fetched, init);
      var a: seq<Item>, b: seq<Item> := Items(sources, fetched, init), SourceItems(sources[s], fetched[s].config.rules);
      forall i | 0 <= i < |a + b|
        ensures exists k :: 0 <= k < |order| && order[k] < |sources| && (a + b)[i].source == sources[order[k]]
      {
        if i < |a| {
          var k :| 0 <= k < |init| && init[k] < |sources| && a[i].source == sources[init[k]];
          assert order[k] == init[k];
        } else {
          assert order[|order| - 1] == s;
        }
      }
    }
  }

  lemma AppendDistinct(a: seq<Item>, s: Source, rules: seq<Rule>)
    requires DistinctPrefixed(a) && DistinctIDs(rules)
    requires s.prefix != "" && SlashFree(s.prefix)
    requires forall i :: 0 <= i < |a| ==> a[i].source.prefix != s.prefix
                                          && a[i].source.prefix != "" && SlashFree(a[i].source.prefix)
    ensures DistinctPrefixed(a + SourceItems(s, rules))
  {
    var b := SourceItems(s, rules);
    forall i, j | 0 <= i < |a| && 0 <= j < |b| ensures Prefixed(a[i]).id != Prefixed(b[j]).id {
      PrefixesSeparate(a[i].source.prefix, a[i].rule.id, s.prefix, b[j].rule.id);
    }
    forall i, j | 0 <= i < j < |b| ensures Prefixed(b[i]).id != Prefixed(b[j]).id {
      PrefixesSeparate(s.prefix, b[i].rule.id, s.prefix, b[j].rule.id);
    }
  }

  lemma {:induction false} ItemsDistinct(lib: Library, sources: seq<Source>, fetched: seq<Fetched>, order: seq<nat>)
    requires Delivered(order, sources, fetched) && Distinct(order)
    requires SeparatePrefixes(sources) && AllValid(lib, fetched)
    ensures DistinctPrefixed(Items(sources, fetched, order))
  {
    hide RuleError, Prefixed;
    if order != [] {
      var init, s := order[..|order| - 1], order[|order| - 1];
      ItemsDistinct(lib, sources, fetched, init);
      ItemsFine(lib, sources, fetched, init);
      var a := Items(sources, fetched, init);
      forall i | 0 <= i < |a|
        ensures a[i].source.prefix != "" && SlashFree(a[i].source.prefix) && a[i].source.prefix != sources[s].prefix
      {
        var k :| 0 <= k < |init| && init[k] < |sources| && a[i].source == sources[init[k]];
        assert order[k] == init[k] && order[k] != s;
      }
      AppendDistinct(a, sources[s], fetched[s].config.rules);
    }
  }

  /** When every fetched configuration is valid and prefixes keep sources apart, a merge that keeps any rule is valid. */
  lemma MergedPassesValidation(lib: Library, policy: string, sources: seq<Source>, fetched: seq<Fetched>,
                               arrival: seq<nat>, order: seq<nat>)
    requires Known(policy)
    requires |sources| == |fetched| && Arrival(arrival, |sources|) && MergeOrder(order, sources, fetched)
    requires SeparatePrefixes(sources) && AllValid(lib, fetched)
    ensures var rules := Merged(policy, Contributions(sources, fetched, arrival), Items(sources, fetched, order)).rules;
            Acceptable(lib, rules) && DistinctKeys(rules)
  {
    hide Items, Contributions, Prefixed, RuleError, Merged;
    ItemsDistinct(lib, sources, fetched, order);
    ItemsFine(lib, sources, fetched, order);
    MergeAcceptable(lib, policy, Contributions(sources, fetched, arrival), Items(sources, fetched, order));
    SuppliedKeySurvives(policy, Contributions(sources, fetched, arrival), Items(sources, fetched, order), "");
  }
}
