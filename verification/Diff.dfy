/** The difference between two configurations (calculateChanges), and how good a patch it is. */
module Diff {
  import opened Text
  import opened Config
  import opened CycleKeys

  datatype Changes = Changes(
    added: seq<string>,
    removed: seq<string>,
    modified: seq<string>,
    serverChanged: bool,
    statsChanged: bool,
    authChanged: bool)

  type RuleMap = map<string, Rule>

  function MapOf(rules: seq<Rule>): RuleMap
  {
    if rules == [] then map[] else MapOf(rules[..|rules| - 1])[rules[|rules| - 1].id := rules[|rules| - 1]]
  }

  /** rulesEqual: path and query preservation, headers and compiled patterns are not compared. */
  predicate RulesEqual(a: Rule, b: Rule)
  {
    && a.id == b.id && a.priority == b.priority
    && a.matcher.kind == b.matcher.kind && a.matcher.path == b.matcher.path
    && a.matcher.pattern == b.matcher.pattern && a.matcher.host == b.matcher.host
    && a.response.status == b.response.status
    && a.response.GetLocation() == b.response.GetLocation()
    && a.response.body == b.response.body
  }

  predicate StatsEqual(a: Option<StatsConfig>, b: Option<StatsConfig>)
  {
    a == b
  }

  /** authEqual compares only whether authentication is on. */
  predicate AuthEqual(a: Option<AuthConfig>, b: Option<AuthConfig>)
  {
    if a.None? || b.None? then a == b else a.value.enabled == b.value.enabled
  }

  ghost predicate Lists(s: seq<string>, ids: set<string>)
  {
    Distinct(s) && forall id :: id in s <==> id in ids
  }

  function ChangedIDs(before: RuleMap, after: RuleMap): set<string>
  {
    set id | id in before && id in after && !RulesEqual(before[id], after[id])
  }

  ghost predicate IsDiff(before: Config, after: Config, c: Changes)
  {
    && Lists(c.added, MapOf(after.rules).Keys - MapOf(before.rules).Keys)
    && Lists(c.removed, MapOf(before.rules).Keys - MapOf(after.rules).Keys)
    && Lists(c.modified, ChangedIDs(MapOf(before.rules), MapOf(after.rules)))
    && c.serverChanged == (before.server != after.server)
    && c.statsChanged == !StatsEqual(before.stats, after.stats)
    && c.authChanged == !AuthEqual(before.auth, after.auth)
  }

  method BuildMap(rules: seq<Rule>) returns (m: RuleMap)
    ensures m == MapOf(rules)
  {
    m := map[];
    for i := 0 to |rules|
      invariant m == MapOf(rules[..i])
    {
      assert rules[..i + 1][..i] == rules[..i];
      m := m[rules[i].id := rules[i]];
    }
    assert rules[..|rules|] == rules;
  }

  /** calculateChanges; maps are walked in no particular order. */
  method CalculateChanges(before: Config, after: Config) returns (changes: Changes)
    ensures IsDiff(before, after, changes)
  {
    var oldRules := BuildMap(before.rules);
    var newRules := BuildMap(after.rules);
    var added, modified := NewAndModified(oldRules, newRules);
    var removed: seq<string> := [];
    var todo := oldRules.Keys;
    while todo != {}
      invariant todo <= oldRules.Keys
      invariant Lists(removed, oldRules.Keys - newRules.Keys - todo)
      decreases todo
    {
      var id :| id in todo;
      todo := todo - {id};
      if id !in newRules {
        removed := removed + [id];
      }
    }
    changes := Changes(added, removed, modified, before.server != after.server,
                       !StatsEqual(before.stats, after.stats), !AuthEqual(before.auth, after.auth));
  }

  /** The loop over the new rules. */
  method NewAndModified(oldRules: RuleMap, newRules: RuleMap) returns (added: seq<string>, modified: seq<string>)
    ensures Lists(added, newRules.Keys - oldRules.Keys)
    ensures Lists(modified, ChangedIDs(oldRules, newRules))
  {
    added, modified := [], [];
    var todo := newRules.Keys;
    while todo != {}
      invariant todo <= newRules.Keys
      invariant Lists(added, newRules.Keys - oldRules.Keys - todo)
      invariant Lists(modified, ChangedIDs(oldRules, newRules) - todo)
      decreases todo
    {
      var id :| id in todo;
      todo := todo - {id};
      if id !in oldRules {
        added := added + [id];
      } else if !RulesEqual(oldRules[id], newRules[id]) {
        modified := modified + [id];
      }
    }
  }

  // ---------- what the comparison looks at ----------

  /** Two rules count as equal exactly when they agree in everything but these: how the destination is spelled, what is
      preserved of the request, headers, and the compiled pattern. */
  lemma RulesEqualMeaning(a: Rule, b: Rule)
    ensures RulesEqual(a, b) <==>
            && (if a.response.location != "" then a.response.location else a.response.to)
               == (if b.response.location != "" then b.response.location else b.response.to)
            && b == a.(compiled := b.compiled,
                       response := a.response.(location := b.response.location, to := b.response.to,
                                               preservePath := b.response.preservePath,
                                               preserveQuery := b.response.preserveQuery,
                                               headers := b.response.headers))
  {
  }

  /** The flags: server and statistics settings differ at all, authentication is there or on in only one of the two. */
  lemma FlagsMeaning(before: Config, after: Config, c: Changes)
    requires IsDiff(before, after, c)
    ensures c.serverChanged <==> before.server != after.server
    ensures c.statsChanged <==> before.stats != after.stats
    ensures c.authChanged <==>
            || before.auth.Some? != after.auth.Some?
            || (before.auth.Some? && before.auth.value.enabled != after.auth.value.enabled)
  {
  }

  lemma {:induction false} MapKeys(rules: seq<Rule>, id: string)
    ensures id in MapOf(rules) <==> exists i :: 0 <= i < |rules| && rules[i].id == id
  {
    if rules != [] {
      var init := rules[..|rules| - 1];
      MapKeys(init, id);
      assert forall i :: 0 <= i < |init| ==> init[i] == rules[i];
    }
  }

  /** Of rules with one ID the map holds the last. */
  lemma {:induction false} MapHoldsLast(rules: seq<Rule>, i: nat)
    requires i < |rules| && forall j :: i < j < |rules| ==> rules[j].id != rules[i].id
    ensures rules[i].id in MapOf(rules) && MapOf(rules)[rules[i].id] == rules[i]
  {
    if i < |rules| - 1 {
      MapHoldsLast(rules[..|rules| - 1], i);
    }
  }

  /** Between configurations without repeated IDs: which IDs are listed, in terms of the two lists of rules. */
  lemma ChangesMeaning(before: Config, after: Config, c: Changes)
    requires IsDiff(before, after, c) && DistinctIDs(before.rules) && DistinctIDs(after.rules)
    ensures forall i, j :: 0 <= i < j < |c.added| ==> c.added[i] != c.added[j]
    ensures forall i, j :: 0 <= i < j < |c.removed| ==> c.removed[i] != c.removed[j]
    ensures forall i, j :: 0 <= i < j < |c.modified| ==> c.modified[i] != c.modified[j]
    ensures forall id :: id in c.added <==>
              (exists b :: b in after.rules && b.id == id) && !exists a :: a in before.rules && a.id == id
    ensures forall id :: id in c.removed <==>
              (exists a :: a in before.rules && a.id == id) && !exists b :: b in after.rules && b.id == id
    ensures forall id :: id in c.modified <==>
              exists a, b :: a in before.rules && b in after.rules && a.id == id && b.id == id && !RulesEqual(a, b)
  {
    hide RulesEqual, MapOf;
    InMap(before.rules);
    InMap(after.rules);
    var o, n := MapOf(before.rules), MapOf(after.rules);
    forall id ensures id in c.modified <==>
                exists a, b :: a in before.rules && b in after.rules && a.id == id && b.id == id && !RulesEqual(a, b)
    {
      if id in c.modified {
        assert o[id] in before.rules && n[id] in after.rules;
      }
    }
  }

  lemma InMap(rules: seq<Rule>)
    requires DistinctIDs(rules)
    ensures forall id :: id in MapOf(rules) <==> exists r :: r in rules && r.id == id
    ensures forall r :: r in rules ==> r.id in MapOf(rules) && MapOf(rules)[r.id] == r
    ensures forall id :: id in MapOf(rules) ==> MapOf(rules)[id] in rules && MapOf(rules)[id].id == id
  {
    hide MapOf;
    forall r | r in rules ensures r.id in MapOf(rules) && MapOf(rules)[r.id] == r {
      var i :| 0 <= i < |rules| && rules[i] == r;
      MapHoldsLast(rules, i);
    }
    forall id ensures id in MapOf(rules) ==> exists r :: r in rules && r.id == id {
      MapKeys(rules, id);
      if id in MapOf(rules) {
        var i :| 0 <= i < |rules| && rules[i].id == id;
        assert rules[i] in rules;
      }
    }
  }

  // ---------- the diff as a patch ----------

  /** Drop the removed rules; take the new rule for every added or modified ID. */
  function Patch(m: RuleMap, after: RuleMap, c: Changes): RuleMap
  {
    (m - set id | id in c.removed) + map id | id in after && (id in c.added || id in c.modified) :: after[id]
  }

  /** Patching the old rule map gives the new one, up to the fields rulesEqual looks at. */
  lemma PatchCorrect(before: Config, after: Config, c: Changes)
    requires IsDiff(before, after, c)
    ensures var p, n := Patch(MapOf(before.rules), MapOf(after.rules), c), MapOf(after.rules);
            p.Keys == n.Keys && forall id :: id in n ==> RulesEqual(p[id], n[id])
  {
    var o, n := MapOf(before.rules), MapOf(after.rules);
    var p := Patch(o, n, c);
    forall id | id in n ensures id in p && RulesEqual(p[id], n[id]) {
      assert id in c.added || id in o;
    }
  }

  /** A rule that differs only where rulesEqual does not look. */
  predicate Overlooked(o: RuleMap, n: RuleMap, id: string)
  {
    id in o && id in n && RulesEqual(o[id], n[id]) && o[id] != n[id]
  }

  /** The patch gives exactly the new rules when, and only when, no shared rule changed in an overlooked field alone. */
  lemma PatchExactIff(before: Config, after: Config, c: Changes)
    requires IsDiff(before, after, c)
    ensures Patch(MapOf(before.rules), MapOf(after.rules), c) == MapOf(after.rules) <==>
            forall id :: !Overlooked(MapOf(before.rules), MapOf(after.rules), id)
  {
    PatchCorrect(before, after, c);
    var o, n := MapOf(before.rules), MapOf(after.rules);
    var p := Patch(o, n, c);
    forall id | id in n ensures p[id] == n[id] <==> !Overlooked(o, n, id) {
      assert id in o <==> id !in c.added;
    }
    if forall id :: !Overlooked(o, n, id) {
      assert p == n;
    }
  }

  /** Turning preserve_path on or off goes unrecorded. */
  lemma PreservePathOverlooked(r: Rule)
    ensures RulesEqual(r, r.(response := r.response.(preservePath := !r.response.preservePath)))
    ensures r != r.(response := r.response.(preservePath := !r.response.preservePath))
  {
  }

  /** The reverse diff swaps added with removed and keeps the rest. */
  lemma ReverseDiff(a: Config, b: Config, c: Changes, d: Changes)
    requires IsDiff(a, b, c) && IsDiff(b, a, d)
    ensures forall id :: (id in c.added <==> id in d.removed) && (id in c.removed <==> id in d.added)
                         && (id in c.modified <==> id in d.modified)
    ensures c.serverChanged == d.serverChanged && c.statsChanged == d.statsChanged && c.authChanged == d.authChanged
  {
    forall id ensures id in c.modified <==> id in d.modified {
      assert id in ChangedIDs(MapOf(a.rules), MapOf(b.rules)) <==> id in ChangedIDs(MapOf(b.rules), MapOf(a.rules));
    }
  }

  /** Added, removed and modified IDs never overlap. */
  lemma DiffDisjoint(before: Config, after: Config, c: Changes, id: string)
    requires IsDiff(before, after, c)
    ensures !(id in c.added && id in c.removed)
    ensures !(id in c.added && id in c.modified) && !(id in c.removed && id in c.modified)
    ensures id in c.added || id in c.modified ==> id in MapOf(after.rules)
  {
  }
}
