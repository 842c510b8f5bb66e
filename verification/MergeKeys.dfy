/**
 What makes two rules conflict in a merge: host and path together, and nothing else; and what a merge of rules that
 do not conflict, or do, leaves behind, in terms of the rules' fields.
 */
module MergeKeys {
  import opened Text
  import opened Glob
  import opened Config
  import opened MergeFold
  import opened MergeLaws
  import R = Router

  /** What a rule matches on besides its host: its path, or its pattern if it has no path. */
  function Place(r: Rule): string
  {
    if r.matcher.path == "" then r.matcher.pattern else r.matcher.path
  }

  /** The rule's host has no slash, and its path or pattern begins with one. */
  predicate Placed(r: Rule)
  {
    SlashFree(r.matcher.host) && "/" <= Place(r)
  }

  /** Two rules have one key exactly when they have one host and one path or pattern. */
  lemma KeyIffPlace(a: Rule, b: Rule)
    ensures a.matcher.host == b.matcher.host ==> (PathKey(a) == PathKey(b) <==> Place(a) == Place(b))
    ensures Placed(a) && Placed(b) ==>
              (PathKey(a) == PathKey(b) <==> a.matcher.host == b.matcher.host && Place(a) == Place(b))
  {
    KeyRest(a);
    KeyRest(b);
    if Placed(a) && Placed(b) {
      assert PathKey(a) == R.MatchKey(a.matcher.host, Place(a));
      assert PathKey(b) == R.MatchKey(b.matcher.host, Place(b));
      R.KeyInjective(a.matcher.host, Place(a), b.matcher.host, Place(b));
    }
  }

  lemma KeyRest(r: Rule)
    ensures PathKey(r)[if r.matcher.host == "" then 0 else |r.matcher.host| + 1..] == Place(r)
  {
  }

  /** Without slashes to tell them apart a host and a pattern can look like a pattern. */
  lemma PlacesCollide(a: Rule, b: Rule)
    requires a.matcher.host == "h" && a.matcher.path == "" && a.matcher.pattern == "^x"
    requires b.matcher.host == "" && b.matcher.path == "" && b.matcher.pattern == "h:^x"
    ensures PathKey(a) == PathKey(b)
  {
  }

  // ---------- who takes part ----------

  /** The rule's path or pattern lies under an allowed path, if its source restricts it to some. */
  lemma {:induction false} SuppliedAre(items: seq<Item>)
    ensures forall it :: it in Supplied(items) <==>
              it in items && (it.source.allowedPaths == [] ||
                exists p :: p in it.source.allowedPaths && (p <= it.rule.matcher.path || p <= it.rule.matcher.pattern))
  {
    if items != [] {
      var init, x := items[..|items| - 1], items[|items| - 1];
      assert items == init + [x];
      SuppliedAre(init);
      AllowedMeaning(x);
      hide Allowed;
      assert forall it :: it in items <==> it in init || it == x;
    }
  }

  lemma AllowedMeaning(it: Item)
    ensures Allowed(it) <==>
            (it.source.allowedPaths == [] ||
             exists p :: p in it.source.allowedPaths && (p <= it.rule.matcher.path || p <= it.rule.matcher.pattern))
  {
    if p :| p in it.source.allowedPaths && (p <= it.rule.matcher.path || p <= it.rule.matcher.pattern) {
      var k :| 0 <= k < |it.source.allowedPaths| && it.source.allowedPaths[k] == p;
      assert Under(it.source.allowedPaths[k], it.rule);
    }
    if Allowed(it) && it.source.allowedPaths != [] {
      var k :| 0 <= k < |it.source.allowedPaths| && Under(it.source.allowedPaths[k], it.rule);
      assert it.source.allowedPaths[k] in it.source.allowedPaths;
    }
  }

  /** The rule as merged: its ID behind the source's prefix, everything else as it was. */
  lemma PrefixedMeaning(it: Item)
    ensures it.source.prefix == "" ==> Prefixed(it) == it.rule
    ensures it.source.prefix != "" ==> Prefixed(it).id == it.source.prefix + "/" + it.rule.id
    ensures Prefixed(it).(id := it.rule.id) == it.rule
  {
  }

  /** The rules a source was not allowed to supply, each named in a warning under the ID it came with. */
  lemma {:induction false} WarningsName(policy: string, sources: seq<Contribution>, items: seq<Item>)
    ensures forall w :: w in Merged(policy, sources, items).warnings <==>
              exists it :: it in items && it !in Supplied(items)
                           && w.source == it.source.name && w.ruleID == it.rule.id && w.path == it.rule.matcher.path
  {
    if items != [] {
      var init, x := items[..|items| - 1], items[|items| - 1];
      assert items == init + [x];
      WarningsName(policy, sources, init);
      SuppliedAllowed(items);
      SuppliedAllowed(init);
      LastStep(policy, sources, items);
      var m, m' := Merged(policy, sources, init), Merged(policy, sources, items);
      assert m'.warnings == m.warnings + if Allowed(x) then [] else [Warning(x.source.name, x.rule.id, x.rule.matcher.path)];
      hide Allowed, Step, MergeAll, Supplied;
      assert forall it :: it in items <==> it in init || it == x;
      forall w ensures w in m'.warnings <==>
                exists it :: it in items && it !in Supplied(items)
                             && w.source == it.source.name && w.ruleID == it.rule.id && w.path == it.rule.matcher.path
      {
        if w in m'.warnings && w !in m.warnings {
          assert w == Warning(x.source.name, x.rule.id, x.rule.matcher.path) && x in items && x !in Supplied(items);
        }
      }
    }
  }

  lemma {:induction false} SuppliedAllowed(items: seq<Item>)
    ensures forall it :: it in Supplied(items) <==> it in items && Allowed(it)
  {
    if items != [] {
      var init, x := items[..|items| - 1], items[|items| - 1];
      assert items == init + [x];
      SuppliedAllowed(init);
      hide Allowed;
      assert forall it :: it in items <==> it in init || it == x;
    }
  }

  // ---------- merges without conflict ----------

  /** No two supplied rules have both one host and one path or pattern. */
  predicate Apart(s: seq<Item>)
  {
    forall i, j :: 0 <= i < j < |s| ==>
      s[i].rule.matcher.host != s[j].rule.matcher.host || Place(s[i].rule) != Place(s[j].rule)
  }

  predicate AllPlaced(s: seq<Item>)
  {
    forall i :: 0 <= i < |s| ==> Placed(s[i].rule)
  }

  lemma ApartKeys(s: seq<Item>, x: Item)
    requires AllPlaced(s + [x]) && Apart(s)
    ensures Apart(s + [x]) <==> !HasKey(s, PathKey(x.rule))
  {
    hide PathKey, Place, Placed;
    var t := s + [x];
    assert forall i :: 0 <= i < |s| ==> t[i] == s[i];
    assert t[|s|] == x;
    forall i | 0 <= i < |s|
      ensures PathKey(s[i].rule) == PathKey(x.rule) <==>
              s[i].rule.matcher.host == x.rule.matcher.host && Place(s[i].rule) == Place(x.rule)
    {
      assert Placed(t[i].rule) && Placed(t[|s|].rule);
      KeyIffPlace(s[i].rule, x.rule);
    }
  }

  /** A merge records a conflict exactly when two supplied rules have both one host and one path or pattern. */
  lemma {:induction false} ConflictIffSamePlace(policy: string, sources: seq<Contribution>, items: seq<Item>)
    requires Known(policy) && AllPlaced(Supplied(items))
    ensures Merged(policy, sources, items).conflicts == [] <==> Apart(Supplied(items))
  {
    if items != [] {
      var init, x := items[..|items| - 1], items[|items| - 1];
      assert items == init + [x];
      var s := Supplied(init);
      assert Supplied(items) == if Allowed(x) then s + [x] else s;
      assert forall i :: 0 <= i < |s| ==> Supplied(items)[i] == s[i];
      ConflictIffSamePlace(policy, sources, init);
      MergeDescribes(policy, sources, init);
      LastStep(policy, sources, items);
      if Allowed(x) {
        StepConflicts(policy, Merged(policy, sources, init), s, x);
        if Apart(s) {
          ApartKeys(s, x);
        } else {
          assert !Apart(s + [x]) by {
            var i, j :| 0 <= i < j < |s| && s[i].rule.matcher.host == s[j].rule.matcher.host
                        && Place(s[i].rule) == Place(s[j].rule);
            assert (s + [x])[i] == s[i] && (s + [x])[j] == s[j];
          }
        }
      }
    }
  }

  /** The conflict a rule runs into: with the winner so far of its key, resolved as the policy says. */
  lemma StepConflicts(policy: string, m: Merge, s: seq<Item>, x: Item)
    requires Known(policy) && Describes(m, policy, s) && Allowed(x)
    ensures !HasKey(s, PathKey(x.rule)) ==> Step(policy, m, x).conflicts == m.conflicts
    ensures HasKey(s, PathKey(x.rule)) ==>
              exists w :: && Wins(policy, s, w) && PathKey(s[w].rule) == PathKey(x.rule)
                          && Step(policy, m, x).conflicts == m.conflicts + [Conflict(PathKey(x.rule),
                               [s[w].source.name, x.source.name], [Prefixed(s[w]).id, Prefixed(x).id],
                               if policy == "priority" then Some(x.source.name)
                               else if policy == "first" then Some(s[w].source.name) else None)]
  {
    if HasKey(s, PathKey(x.rule)) {
      var w := KeyHasWinner(policy, s, PathKey(x.rule));
      assert PathKey(s[w].rule) in m.pathToSource;
    }
  }

  /** Rules that no other supplied rule shares host and path with all survive, in merge order, under their own IDs. */
  lemma ApartAllSurvive(policy: string, sources: seq<Contribution>, items: seq<Item>)
    requires Known(policy) && AllPlaced(Supplied(items)) && Apart(Supplied(items))
    ensures Merged(policy, sources, items).conflicts == []
    ensures var s, rules := Supplied(items), Merged(policy, sources, items).rules;
            && |rules| == |s|
            && forall k :: 0 <= k < |s| ==>
                 && rules[k].id == (if s[k].source.prefix == "" then s[k].rule.id
                                    else s[k].source.prefix + "/" + s[k].rule.id)
                 && rules[k].matcher == s[k].rule.matcher && rules[k].response == s[k].rule.response
                 && rules[k].priority == s[k].rule.priority && rules[k].compiled == s[k].rule.compiled
  {
    ConflictIffSamePlace(policy, sources, items);
    MergeDescribes(policy, sources, items);
    ApartWin(policy, Supplied(items));
  }

  lemma {:induction false} ApartWin(policy: string, s: seq<Item>)
    requires AllPlaced(s) && Apart(s)
    ensures |Winners(policy, s)| == |s| && forall k :: 0 <= k < |s| ==> Winners(policy, s)[k] == k
  {
    if s != [] {
      var init, x := s[..|s| - 1], s[|s| - 1];
      assert s == init + [x];
      ApartWin(policy, init);
      ApartKeys(init, x);
      WinnersAppend(policy, init, x);
      NothingRemoved(Winners(policy, init), init, PathKey(x.rule));
    }
  }

  /** In any merge two supplied rules for different hosts, alone with their host and path, both survive. */
  lemma HostsKeepApart(policy: string, sources: seq<Contribution>, items: seq<Item>, i: nat)
    requires Known(policy) && AllPlaced(Supplied(items)) && i < |Supplied(items)|
    requires forall j :: 0 <= j < |Supplied(items)| && j != i ==>
               Supplied(items)[j].rule.matcher.host != Supplied(items)[i].rule.matcher.host
               || Place(Supplied(items)[j].rule) != Place(Supplied(items)[i].rule)
    ensures Prefixed(Supplied(items)[i]) in Merged(policy, sources, items).rules
  {
    hide PathKey, Place, Placed;
    var s := Supplied(items);
    MergeDescribes(policy, sources, items);
    WinnersMeaning(policy, s);
    forall j | 0 <= j < |s| && j != i ensures PathKey(s[j].rule) != PathKey(s[i].rule) {
      KeyIffPlace(s[i].rule, s[j].rule);
    }
    var ws := Winners(policy, s);
    assert i in ws;
    var k :| 0 <= k < |ws| && ws[k] == i;
    assert Merged(policy, sources, items).rules[k] == Prefixed(s[i]);
  }
}
