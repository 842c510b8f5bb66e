/**
 Which of several fitting rules answers a request: what stage of the search, priority, path length and
 position in the configuration each decide, and when the answer has the highest priority.
 */
module Precedence {
  import opened Text
  import opened Glob
  import opened Config
  import opened RuleOrder
  import opened Router

  /** The stage of the search that finds a rule: exact for its host, exact for any host, prefix, pattern. */
  function Stage(r: Rule): nat
  {
    match r.matcher.kind
    case Exact => if r.matcher.host != "" then 0 else 1
    case Prefix => 2
    case _ => 3
  }

  lemma FitStages(lib: Library, r: Rule, host: string, path: string)
    ensures ExactFits(r, host, path) ==> Stage(r) == (if host == "" then 1 else 0) && r.matcher.kind.Exact?
    ensures ExactFits(r, "", path) ==> Stage(r) == 1 && r.matcher.kind.Exact?
    ensures PrefixFits(r, host, path) ==> Stage(r) == 2 && r.matcher.kind.Prefix?
    ensures PatternFits(lib, r, host, path) ==> Stage(r) == 3 && IsPattern(r)
  {
  }

  /** The answer stands at i: no rule of an earlier stage fits, and of its own stage it is the last one that fits if
      it is exact, the first one otherwise. */
  predicate AnswersFrom(lib: Library, sorted: seq<Rule>, host: string, path: string, i: nat)
    requires i < |sorted|
  {
    && Fits(lib, sorted[i], host, path)
    && (forall k :: 0 <= k < |sorted| && Fits(lib, sorted[k], host, path) ==> Stage(sorted[i]) <= Stage(sorted[k]))
    && forall k :: 0 <= k < |sorted| && Fits(lib, sorted[k], host, path) && Stage(sorted[k]) == Stage(sorted[i]) ==>
         if sorted[i].matcher.kind.Exact? then k <= i else i <= k
  }

  lemma ExactFrom(lib: Library, sorted: seq<Rule>, host: string, path: string, i: nat)
    requires i < |sorted|
    requires || (ExactFits(sorted[i], host, path) && forall k :: i < k < |sorted| ==> !ExactFits(sorted[k], host, path))
             || ((forall k :: 0 <= k < |sorted| ==> !ExactFits(sorted[k], host, path))
                 && ExactFits(sorted[i], "", path) && forall k :: i < k < |sorted| ==> !ExactFits(sorted[k], "", path))
    ensures AnswersFrom(lib, sorted, host, path, i)
  {
    hide Stage, ExactFits, PrefixFits, PatternFits;
    forall k | 0 <= k < |sorted| && Fits(lib, sorted[k], host, path)
      ensures Stage(sorted[i]) <= Stage(sorted[k]) && (Stage(sorted[k]) == Stage(sorted[i]) ==> k <= i)
    {
      FitStages(lib, sorted[i], host, path);
      FitStages(lib, sorted[k], host, path);
    }
    FitStages(lib, sorted[i], host, path);
  }

  lemma ListFrom(lib: Library, sorted: seq<Rule>, host: string, path: string, i: nat)
    requires i < |sorted|
    requires forall k :: 0 <= k < |sorted| ==> !ExactFits(sorted[k], host, path) && !ExactFits(sorted[k], "", path)
    requires || (PrefixFits(sorted[i], host, path) && forall k :: 0 <= k < i ==> !PrefixFits(sorted[k], host, path))
             || ((forall k :: 0 <= k < |sorted| ==> !PrefixFits(sorted[k], host, path))
                 && PatternFits(lib, sorted[i], host, path)
                 && forall k :: 0 <= k < i ==> !PatternFits(lib, sorted[k], host, path))
    ensures AnswersFrom(lib, sorted, host, path, i)
  {
    hide Stage, ExactFits, PrefixFits, PatternFits;
    FitStages(lib, sorted[i], host, path);
    forall k | 0 <= k < |sorted| && Fits(lib, sorted[k], host, path)
      ensures Stage(sorted[i]) <= Stage(sorted[k]) && (Stage(sorted[k]) == Stage(sorted[i]) ==> i <= k)
    {
      FitStages(lib, sorted[k], host, path);
    }
  }

  /** Whenever some rule of the sorted list fits, there is an answer, and this is where it stands. */
  lemma AnswerIndex(lib: Library, sorted: seq<Rule>, host: string, path: string) returns (i: nat)
    requires KeySafe(sorted) && WellFormedRequest(host, path)
    requires exists r :: r in sorted && Fits(lib, r, host, path)
    ensures i < |sorted| && AnswersFrom(lib, sorted, host, path, i)
    ensures var hit := Find(lib, Lay(sorted), host, path);
            hit.Hit? && hit.rule == sorted[i] && (!IsPattern(sorted[i]) ==> hit.captures == [])
  {
    hide Find, LastExact, FirstPrefix, FirstPattern, Captures, AnswersFrom, ExactFits, PrefixFits, PatternFits, IsPattern;
    FindRefinesScan(lib, sorted, host, path);
    LastExactMeaning(sorted, host, path);
    LastExactMeaning(sorted, "", path);
    FirstPrefixMeaning(sorted, host, path);
    FirstPatternMeaning(lib, sorted, host, path);
    assert forall k :: 0 <= k < |sorted| ==> sorted[k] in sorted;
    var hit := Find(lib, Lay(sorted), host, path);
    if LastExact(sorted, host, path).Some? {
      i :| 0 <= i < |sorted| && hit.rule == sorted[i] && ExactFits(sorted[i], host, path)
        && forall k :: i < k < |sorted| ==> !ExactFits(sorted[k], host, path);
      ExactFrom(lib, sorted, host, path, i);
    } else if LastExact(sorted, "", path).Some? {
      i :| 0 <= i < |sorted| && hit.rule == sorted[i] && ExactFits(sorted[i], "", path)
        && forall k :: i < k < |sorted| ==> !ExactFits(sorted[k], "", path);
      ExactFrom(lib, sorted, host, path, i);
    } else if FirstPrefix(sorted, host, path).Some? {
      i :| 0 <= i < |sorted| && hit.rule == sorted[i] && PrefixFits(sorted[i], host, path)
        && forall k :: 0 <= k < i ==> !PrefixFits(sorted[k], host, path);
      ListFrom(lib, sorted, host, path, i);
    } else {
      i :| 0 <= i < |sorted| && hit.rule == sorted[i] && PatternFits(lib, sorted[i], host, path)
        && forall k :: 0 <= k < i ==> !PatternFits(lib, sorted[k], host, path);
      ListFrom(lib, sorted, host, path, i);
      FitStages(lib, sorted[i], host, path);
    }
  }

  /**
   The answer is of the earliest stage that has a fitting rule; among the fitting rules of that stage it has
   the LOWEST priority if the stage is an exact one, the highest otherwise.
   */
  lemma AnswerRank(lib: Library, rules: seq<Rule>, host: string, path: string)
    requires StableSorter(lib.sort) && KeySafe(rules) && WellFormedRequest(host, path)
    requires Find(lib, Build(lib, rules), host, path).Hit?
    ensures var a := Find(lib, Build(lib, rules), host, path).rule;
            && a in rules && Fits(lib, a, host, path)
            && (forall r :: r in rules && Fits(lib, r, host, path) ==> Stage(a) <= Stage(r))
            && forall r :: r in rules && Fits(lib, r, host, path) && Stage(r) == Stage(a) ==>
                 if a.matcher.kind.Exact? then a.priority <= r.priority else a.priority >= r.priority
  {
    hide Find, Fits, Stage;
    var sorted := lib.sort(rules);
    SortedKeySafe(lib, rules);
    SortMembers(lib.sort, rules);
    AnswersExactly(lib, rules, host, path);
    var i := AnswerIndex(lib, sorted, host, path);
    forall r | r in rules && Fits(lib, r, host, path)
      ensures Stage(sorted[i]) <= Stage(r)
      ensures Stage(r) == Stage(sorted[i]) ==>
                if sorted[i].matcher.kind.Exact? then sorted[i].priority <= r.priority else sorted[i].priority >= r.priority
    {
      assert r in sorted;
      var k :| 0 <= k < |sorted| && sorted[k] == r;
    }
  }

  /** Any exact rule beats any prefix rule, and that any pattern, whatever their priorities. */
  lemma KindBeatsPriority(lib: Library, rules: seq<Rule>, host: string, path: string, r: Rule)
    requires StableSorter(lib.sort) && KeySafe(rules) && WellFormedRequest(host, path)
    requires r in rules && Fits(lib, r, host, path)
    ensures var hit := Find(lib, Build(lib, rules), host, path);
            && hit.Hit?
            && (r.matcher.kind.Exact? ==> hit.rule.matcher.kind.Exact?)
            && (r.matcher.kind.Prefix? ==> !IsPattern(hit.rule))
  {
    hide Find, StableSorter;
    AnswersExactly(lib, rules, host, path);
    AnswerRank(lib, rules, host, path);
  }

  // ---------- when the priority field decides ----------

  /** No rule that fits the request has a higher priority than the answer. */
  predicate Honoured(lib: Library, rules: seq<Rule>, host: string, path: string)
  {
    var hit := Find(lib, Build(lib, rules), host, path);
    hit.Hit? ==> forall r :: r in rules && Fits(lib, r, host, path) ==> r.priority <= hit.rule.priority
  }

  /**
   Rule a keeps the higher-priority rule b from answering: nothing that fits is of an earlier stage than a, and
   a is exact or b has a higher priority than everything of a's stage.
   */
  predicate Inverted(lib: Library, rules: seq<Rule>, host: string, path: string, a: Rule, b: Rule)
  {
    && a in rules && b in rules && Fits(lib, a, host, path) && Fits(lib, b, host, path)
    && a.priority < b.priority
    && (forall c :: c in rules && Fits(lib, c, host, path) ==> Stage(a) <= Stage(c))
    && (a.matcher.kind.Exact? ||
        forall c :: c in rules && Fits(lib, c, host, path) && Stage(c) == Stage(a) ==> c.priority < b.priority)
  }

  /** A request is answered by priority exactly when no two of the rules that fit it are inverted. */
  lemma HonouredIff(lib: Library, rules: seq<Rule>, host: string, path: string)
    requires StableSorter(lib.sort) && KeySafe(rules) && WellFormedRequest(host, path)
    ensures Honoured(lib, rules, host, path) <==> forall a, b :: !Inverted(lib, rules, host, path, a, b)
  {
    hide Find, Fits, Stage, StableSorter;
    AnswersExactly(lib, rules, host, path);
    var hit := Find(lib, Build(lib, rules), host, path);
    if hit.Hit? {
      AnswerRank(lib, rules, host, path);
      forall r | r in rules && Fits(lib, r, host, path) && r.priority > hit.rule.priority
        ensures Inverted(lib, rules, host, path, hit.rule, r)
      {
        forall c | c in rules && Fits(lib, c, host, path) && Stage(c) == Stage(hit.rule) && !hit.rule.matcher.kind.Exact?
          ensures c.priority < r.priority
        {
        }
      }
      forall a, b | Inverted(lib, rules, host, path, a, b) ensures b.priority > hit.rule.priority {
        StageKind(a, hit.rule);
      }
    }
  }

  lemma StageKind(a: Rule, b: Rule)
    ensures Stage(a) == Stage(b) ==> (a.matcher.kind.Exact? <==> b.matcher.kind.Exact?)
  {
  }

  /** The documented order holds of every request exactly when no two rules are inverted for any. */
  lemma PriorityDecidesIff(lib: Library, rules: seq<Rule>)
    requires StableSorter(lib.sort) && KeySafe(rules)
    ensures (forall host, path :: WellFormedRequest(host, path) ==> Honoured(lib, rules, host, path)) <==>
            (forall host, path, a, b :: WellFormedRequest(host, path) ==> !Inverted(lib, rules, host, path, a, b))
  {
    hide Honoured, Inverted, StableSorter, WellFormedRequest, KeySafe;
    forall host, path | WellFormedRequest(host, path)
      ensures Honoured(lib, rules, host, path) <==> forall a, b :: !Inverted(lib, rules, host, path, a, b)
    {
      HonouredIff(lib, rules, host, path);
    }
  }

  /** Rule a comes first in the search, or may overwrite b in the map, though b has the higher priority. */
  predicate OutOfTurn(a: Rule, b: Rule)
  {
    a.priority < b.priority && (Stage(a) < Stage(b) || (Stage(a) == Stage(b) && a.matcher.kind.Exact?))
  }

  /** It is enough that no two rules fitting one request are out of turn; the converse fails when a third rule masks them. */
  lemma InTurnIsHonoured(lib: Library, rules: seq<Rule>, host: string, path: string)
    requires StableSorter(lib.sort) && KeySafe(rules) && WellFormedRequest(host, path)
    requires forall a, b :: a in rules && b in rules && Fits(lib, a, host, path) && Fits(lib, b, host, path)
                            ==> !OutOfTurn(a, b)
    ensures Honoured(lib, rules, host, path)
  {
    hide Honoured, Fits, StableSorter;
    forall a, b ensures !Inverted(lib, rules, host, path, a, b) {
    }
    HonouredIff(lib, rules, host, path);
  }

  // ---------- ties ----------

  /** Within one stage, the rule at p is chosen over the rule at q: exact rules by lowest priority and then by
      last position, the others by highest priority, prefixes by length, and then by first position. */
  predicate ChosenOver(rules: seq<Rule>, p: nat, q: nat)
    requires p < |rules| && q < |rules|
  {
    var a, b := rules[p], rules[q];
    if a.matcher.kind.Exact? then a.priority < b.priority || (a.priority == b.priority && q < p)
    else if a.matcher.kind.Prefix? then
      || a.priority > b.priority
      || (a.priority == b.priority && (|a.matcher.path| > |b.matcher.path|
                                       || (|a.matcher.path| == |b.matcher.path| && p < q)))
    else a.priority > b.priority || (a.priority == b.priority && p < q)
  }

  lemma PrecedesChooses(rules: seq<Rule>, p: nat, q: nat)
    requires p < |rules| && q < |rules| && Stage(rules[p]) == Stage(rules[q]) && p != q
    requires rules[p].matcher.kind.Exact? || rules[p].matcher.kind.Prefix? || IsPattern(rules[p])
    requires rules[q].matcher.kind.Exact? || rules[q].matcher.kind.Prefix? || IsPattern(rules[q])
    ensures (if rules[p].matcher.kind.Exact? then Precedes(rules, q, p) else Precedes(rules, p, q))
            <==> ChosenOver(rules, p, q)
  {
  }

  lemma FitsKind(lib: Library, r: Rule, host: string, path: string)
    ensures Fits(lib, r, host, path) ==> r.matcher.kind.Exact? || r.matcher.kind.Prefix? || IsPattern(r)
  {
  }

  /** Unless the configured rules are split, the answer is the one rule of the earliest fitting stage chosen over
      all others of that stage; a regular expression is never preferred to a glob for being one. */
  lemma AnswerChosen(lib: Library, rules: seq<Rule>, host: string, path: string) returns (p: nat)
    requires StableSorter(lib.sort) && KeySafe(rules) && WellFormedRequest(host, path)
    requires !Split(rules) && Find(lib, Build(lib, rules), host, path).Hit?
    ensures p < |rules| && rules[p] == Find(lib, Build(lib, rules), host, path).rule
    ensures Fits(lib, rules[p], host, path)
    ensures forall q: nat :: q < |rules| && Fits(lib, rules[q], host, path) && q != p ==>
                               Stage(rules[p]) < Stage(rules[q])
                               || (Stage(rules[p]) == Stage(rules[q]) && ChosenOver(rules, p, q))
  {
    hide Find, Fits, Stage, Split, ChosenOver;
    OrderIffUnsplit(rules);
    var order :| InOrder(rules, order);
    var sorted := lib.sort(rules);
    assert sorted == Arranged(rules, order);
    SortedKeySafe(lib, rules);
    SortMembers(lib.sort, rules);
    AnswersExactly(lib, rules, host, path);
    var i := AnswerIndex(lib, sorted, host, path);
    p := order[i];
    forall q: nat | q < |rules| && Fits(lib, rules[q], host, path) && q != p
      ensures Stage(rules[p]) < Stage(rules[q]) || (Stage(rules[p]) == Stage(rules[q]) && ChosenOver(rules, p, q))
    {
      assert q in order;
      var j :| 0 <= j < |order| && order[j] == q;
      assert sorted[j] == rules[q];
      if Stage(rules[p]) == Stage(rules[q]) {
        FitsKind(lib, rules[p], host, path);
        FitsKind(lib, rules[q], host, path);
        PrecedesChooses(rules, p, q);
      }
    }
  }

  /** Nothing but their positions tells the rules at p and q apart. */
  predicate Tied(rules: seq<Rule>, p: nat, q: nat)
    requires p < |rules| && q < |rules|
  {
    var a, b := rules[p], rules[q];
    && p != q && Stage(a) == Stage(b) && a.priority == b.priority
    && (a.matcher.kind.Prefix? ==> |a.matcher.path| == |b.matcher.path|)
  }

  /** Ties go by the order of the configuration exactly when the answer is not an exact rule or nothing ties with it. */
  lemma FileOrderIff(lib: Library, rules: seq<Rule>, host: string, path: string) returns (p: nat)
    requires StableSorter(lib.sort) && KeySafe(rules) && WellFormedRequest(host, path)
    requires !Split(rules) && Find(lib, Build(lib, rules), host, path).Hit?
    ensures p < |rules| && rules[p] == Find(lib, Build(lib, rules), host, path).rule
    ensures (forall q: nat :: q < |rules| && Fits(lib, rules[q], host, path) && Tied(rules, p, q) ==> p < q) <==>
            (!rules[p].matcher.kind.Exact? ||
             forall q: nat :: q < |rules| && Fits(lib, rules[q], host, path) ==> !Tied(rules, p, q))
  {
    hide Find, Fits, StableSorter, Split;
    p := AnswerChosen(lib, rules, host, path);
  }

  /** A pattern that fits the request, and no fitting one has a higher priority. */
  predicate TopPattern(lib: Library, rules: seq<Rule>, host: string, path: string, q: nat)
    requires q < |rules|
  {
    && PatternFits(lib, rules[q], host, path)
    && forall k :: 0 <= k < |rules| && PatternFits(lib, rules[k], host, path) ==> rules[k].priority <= rules[q].priority
  }

  predicate TopRegex(lib: Library, rules: seq<Rule>, host: string, path: string, q: nat)
    requires q < |rules|
  {
    TopPattern(lib, rules, host, path, q) && rules[q].matcher.kind.Regex?
  }

  /**
   Among the fitting patterns of the highest priority a regular expression answers whenever there is one, exactly
   when no glob of them stands before all their regular expressions.
   */
  lemma RegexFirstIff(lib: Library, rules: seq<Rule>, host: string, path: string)
    requires StableSorter(lib.sort) && KeySafe(rules) && WellFormedRequest(host, path)
    requires !Split(rules) && Find(lib, Build(lib, rules), host, path).Hit?
    requires IsPattern(Find(lib, Build(lib, rules), host, path).rule)
    requires exists k: nat :: k < |rules| && TopRegex(lib, rules, host, path, k)
    ensures Find(lib, Build(lib, rules), host, path).rule.matcher.kind.Regex? <==>
            forall g: nat :: g < |rules| && TopPattern(lib, rules, host, path, g) && rules[g].matcher.kind.Glob? ==>
                               exists k: nat :: k < g && TopRegex(lib, rules, host, path, k)
  {
    hide Find, StableSorter, Split, PatternFits;
    var p := AnswerChosen(lib, rules, host, path);
    FitStages(lib, rules[p], host, path);
    assert PatternFits(lib, rules[p], host, path) by {
      FitsByStage(lib, rules[p], host, path);
    }
    forall q: nat | q < |rules| && PatternFits(lib, rules[q], host, path) && q != p
      ensures rules[p].priority > rules[q].priority || (rules[p].priority == rules[q].priority && p < q)
    {
      FitStages(lib, rules[q], host, path);
    }
    assert TopPattern(lib, rules, host, path, p);
    if rules[p].matcher.kind.Regex? {
      assert TopRegex(lib, rules, host, path, p);
    } else {
      forall k: nat | k < |rules| && TopRegex(lib, rules, host, path, k) ensures p < k {
      }
    }
  }

  lemma FitsByStage(lib: Library, r: Rule, host: string, path: string)
    requires Fits(lib, r, host, path)
    ensures IsPattern(r) ==> PatternFits(lib, r, host, path)
    ensures r.matcher.kind.Prefix? ==> PrefixFits(r, host, path)
  {
  }

  // ---------- longest prefix first ----------

  /** The rank of a prefix rule for a request: priority first, then path length. */
  predicate Outranks(a: Rule, b: Rule)
  {
    a.priority > b.priority || (a.priority == b.priority && |a.matcher.path| >= |b.matcher.path|)
  }

  /** Over any list sorted by the comparison, a prefix answer outranks every prefix rule that fits the request. */
  lemma LongestPrefixInSorted(lib: Library, sorted: seq<Rule>, host: string, path: string, other: Rule)
    requires KeySafe(sorted) && WellFormedRequest(host, path) && Sorted(sorted)
    requires Find(lib, Lay(sorted), host, path).Hit?
    requires Find(lib, Lay(sorted), host, path).rule.matcher.kind.Prefix?
    requires other in sorted && PrefixFits(other, host, path)
    ensures Outranks(Find(lib, Lay(sorted), host, path).rule, other)
  {
    hide Find;
    assert Fits(lib, other, host, path);
    var i := AnswerIndex(lib, sorted, host, path);
    var j :| 0 <= j < |sorted| && sorted[j] == other;
    assert i <= j;
    if i < j {
      assert !Before(sorted[j], sorted[i]);
    }
  }

  /** Unless the configured rules are split, a prefix answer outranks every prefix rule that fits the request. */
  lemma LongestPrefixWins(lib: Library, rules: seq<Rule>, host: string, path: string, other: Rule)
    requires StableSorter(lib.sort) && KeySafe(rules) && WellFormedRequest(host, path)
    requires !Split(rules)
    requires Find(lib, Build(lib, rules), host, path).Hit?
    requires Find(lib, Build(lib, rules), host, path).rule.matcher.kind.Prefix?
    requires other in rules && PrefixFits(other, host, path)
    ensures Outranks(Find(lib, Build(lib, rules), host, path).rule, other)
  {
    hide Find, StableSorter;
    SortedKeySafe(lib, rules);
    SortMembers(lib.sort, rules);
    UnsplitSort(lib.sort, rules);
    LongestPrefixInSorted(lib, lib.sort(rules), host, path, other);
  }

  /** A prefix rule that fits the request and outranks all that do. */
  predicate Longest(rules: seq<Rule>, host: string, path: string, j: nat)
    requires j < |rules|
  {
    PrefixFits(rules[j], host, path) && forall o :: o in rules && PrefixFits(o, host, path) ==> Outranks(rules[j], o)
  }

  /** No shorter rule that fits the request is split from the one at j. */
  ghost predicate Unhindered(rules: seq<Rule>, host: string, path: string, j: nat)
    requires j < |rules|
  {
    forall i, k :: SplitAt(rules, i, k, j) ==> !PrefixFits(rules[i], host, path)
  }

  /**
   As insertion sort leaves the rules, a prefix answer outranks every prefix rule that fits the request exactly when
   some longest one is not split from any shorter one that fits.
   */
  lemma LongestPrefixIff(lib: Library, rules: seq<Rule>, host: string, path: string)
    requires StableSorter(lib.sort) && lib.sort(rules) == StableSort(rules)
    requires KeySafe(rules) && WellFormedRequest(host, path)
    requires Find(lib, Build(lib, rules), host, path).Hit?
    requires Find(lib, Build(lib, rules), host, path).rule.matcher.kind.Prefix?
    ensures (forall o :: o in rules && PrefixFits(o, host, path) ==>
                           Outranks(Find(lib, Build(lib, rules), host, path).rule, o)) <==>
            exists j: nat :: j < |rules| && Longest(rules, host, path, j) && Unhindered(rules, host, path, j)
  {
    hide Find, StableSorter, SplitAt, Outranks, PrefixFits;
    var p := FirstPrefixStands(lib, rules, host, path);
    hide Unhindered, Leads;
    NothingHinders(rules, host, path, p);
    if forall o :: o in rules && PrefixFits(o, host, path) ==> Outranks(rules[p], o) {
      assert Longest(rules, host, path, p);
    }
    forall j: nat, o | j < |rules| && Longest(rules, host, path, j) && Unhindered(rules, host, path, j)
                       && o in rules && PrefixFits(o, host, path)
      ensures Outranks(rules[p], o)
    {
      LeaderIsLongest(rules, host, path, p, j, o);
    }
  }

  /** Where a prefix answer stands among the configured rules: it leads every other prefix rule that fits. */
  lemma FirstPrefixStands(lib: Library, rules: seq<Rule>, host: string, path: string) returns (p: nat)
    requires StableSorter(lib.sort) && lib.sort(rules) == StableSort(rules)
    requires KeySafe(rules) && WellFormedRequest(host, path)
    requires Find(lib, Build(lib, rules), host, path).Hit?
    requires Find(lib, Build(lib, rules), host, path).rule.matcher.kind.Prefix?
    ensures p < |rules| && rules[p] == Find(lib, Build(lib, rules), host, path).rule
    ensures PrefixFits(rules[p], host, path)
    ensures forall q: nat :: q < |rules| && PrefixFits(rules[q], host, path) && q != p ==> Leads(rules, p, q)
  {
    hide Find, StableSorter, StableSort, StableOrder, Leads, PrefixFits;
    var sorted, order := lib.sort(rules), StableOrder(rules, |rules|);
    SortedPositions(rules);
    SortedKeySafe(lib, rules);
    SortMembers(lib.sort, rules);
    AnswersExactly(lib, rules, host, path);
    var i := AnswerIndex(lib, sorted, host, path);
    p := order[i];
    FitsByStage(lib, rules[p], host, path);
    FitStages(lib, rules[p], host, path);
    forall q: nat | q < |rules| && PrefixFits(rules[q], host, path) && q != p ensures Leads(rules, p, q) {
      FitStages(lib, rules[q], host, path);
      assert q in order;
      var j :| 0 <= j < |order| && order[j] == q;
      assert sorted[j] == rules[q];
      LeadsIsOrder(rules, i, j);
    }
  }

  lemma NothingHinders(rules: seq<Rule>, host: string, path: string, p: nat)
    requires p < |rules|
    requires forall q: nat :: q < |rules| && PrefixFits(rules[q], host, path) && q != p ==> Leads(rules, p, q)
    ensures Unhindered(rules, host, path, p)
  {
    hide Leads, SplitAt, PrefixFits;
    forall i, k | SplitAt(rules, i, k, p) ensures 0 <= i < |rules| && !PrefixFits(rules[i], host, path) {
      SplitLeads(rules, i, k, p);
      LeadsEitherWay(rules, i, p);
    }
  }

  lemma SplitLeads(rules: seq<Rule>, i: int, k: int, j: int)
    requires SplitAt(rules, i, k, j)
    ensures 0 <= i < |rules| && 0 <= j < |rules| && i != j && Leads(rules, i, j)
  {
    SplitParts(rules, i, k, j);
    ShortLeadsIffSplit(rules, i, j);
  }

  lemma LeaderIsLongest(rules: seq<Rule>, host: string, path: string, p: nat, j: nat, o: Rule)
    requires p < |rules| && j < |rules| && PrefixFits(rules[p], host, path) && (j != p ==> Leads(rules, p, j))
    requires Longest(rules, host, path, j) && Unhindered(rules, host, path, j)
    requires o in rules && PrefixFits(o, host, path)
    ensures Outranks(rules[p], o)
  {
    hide SplitAt;
    assert rules[p] in rules && Outranks(rules[j], o) && Outranks(rules[j], rules[p]);
    if ShortPrefix(rules[p], rules[j].priority, |rules[j].matcher.path|) {
      ShortLeadsIffSplit(rules, p, j);
    }
  }

  function PlainRule(id: string, kind: MatchType, host: string, path: string, priority: int): Rule
  {
    Rule(id, Matcher(kind, path, "", host), Response(301, "/", "", "", false, None, map[]), priority, None)
  }

  const SHORT := PlainRule("s", Prefix, "", "/a", 0)
  const EXACT := PlainRule("e", Exact, "", "/e", 0)
  const LONG := PlainRule("l", Prefix, "", "/a/b", 0)

  lemma SortSnoc(rules: seq<Rule>, x: Rule)
    requires StableSort(rules) == rules
    requires rules != [] ==> !Before(x, Last(rules))
    ensures StableSort(rules + [x]) == rules + [x]
  {
    assert (rules + [x])[..|rules|] == rules;
  }

  lemma SplitStays(lib: Library)
    requires InsertsShort(lib.sort)
    ensures lib.sort([SHORT, EXACT, LONG]) == [SHORT, EXACT, LONG]
  {
    hide InsertsShort;
    ShortSort(lib.sort, [SHORT, EXACT, LONG]);
    SortSnoc([], SHORT);
    assert [] + [SHORT] == [SHORT];
    SortSnoc([SHORT], EXACT);
    assert [SHORT] + [EXACT] == [SHORT, EXACT];
    SortSnoc([SHORT, EXACT], LONG);
    assert [SHORT, EXACT] + [LONG] == [SHORT, EXACT, LONG];
  }

  /** Three rules already in sorted order, of which the second does not fit: the first answers, not the third. */
  lemma FirstOfThree(lib: Library, a: Rule, b: Rule, c: Rule, host: string, path: string)
    requires lib.sort([a, b, c]) == [a, b, c]
    requires KeySafe([a, b, c]) && WellFormedRequest(host, path)
    requires PrefixFits(a, host, path) && !Fits(lib, b, host, path) && c.matcher.kind.Prefix?
    ensures Find(lib, Build(lib, [a, b, c]), host, path) == Hit(a, [])
  {
    hide Find, PrefixFits;
    var sorted := [a, b, c];
    FitStages(lib, a, host, path);
    FitStages(lib, c, host, path);
    assert a in sorted && Fits(lib, a, host, path);
    assert sorted[0] == a && sorted[1] == b && sorted[2] == c;
    var i := AnswerIndex(lib, sorted, host, path);
  }

  lemma ShortAndLong(lib: Library)
    ensures PrefixFits(SHORT, "h", "/a/b/c") && PrefixFits(LONG, "h", "/a/b/c") && !Fits(lib, EXACT, "h", "/a/b/c")
    ensures KeySafe([SHORT, EXACT, LONG]) && Split([SHORT, EXACT, LONG])
    ensures WellFormedRequest("h", "/a/b/c") && LONG.matcher.kind.Prefix? && !Outranks(SHORT, LONG)
  {
    assert SplitAt([SHORT, EXACT, LONG], 0, 1, 2);
  }

  /** A split list routes a request to the shorter of two prefix rules of one priority. */
  lemma SplitMissesLongest(lib: Library)
    requires InsertsShort(lib.sort)
    ensures Split([SHORT, EXACT, LONG]) && PrefixFits(LONG, "h", "/a/b/c")
    ensures Find(lib, Build(lib, [SHORT, EXACT, LONG]), "h", "/a/b/c") == Hit(SHORT, [])
    ensures !Outranks(SHORT, LONG)
  {
    hide *;
    SplitStays(lib);
    ShortAndLong(lib);
    FirstOfThree(lib, SHORT, EXACT, LONG, "h", "/a/b/c");
  }

  // ---------- exact rules with one key ----------

  /** All exact rules for this host and path share one priority. */
  predicate OnePriority(rules: seq<Rule>, host: string, path: string)
  {
    forall o, q | o in rules && q in rules && ExactFits(o, host, path) && ExactFits(q, host, path) ::
      o.priority == q.priority
  }

  /**
   Exact rules with one host and path overwrite each other in the map, so the one that answers has the
   LOWEST priority among them; it has the highest only when they all share one priority.
   */
  lemma ExactAnswerPriority(lib: Library, rules: seq<Rule>, host: string, path: string)
    requires StableSorter(lib.sort) && KeySafe(rules) && WellFormedRequest(host, path)
    requires Find(lib, Build(lib, rules), host, path).Hit?
    requires Find(lib, Build(lib, rules), host, path).rule.matcher.kind.Exact?
    ensures var r := Find(lib, Build(lib, rules), host, path).rule;
            && ExactFits(r, r.matcher.host, path)
            && (forall o :: o in rules && ExactFits(o, r.matcher.host, path) ==> r.priority <= o.priority)
            && ((forall o :: o in rules && ExactFits(o, r.matcher.host, path) ==> r.priority >= o.priority) <==>
                OnePriority(rules, r.matcher.host, path))
  {
    hide Find, StableSorter;
    AnswerRank(lib, rules, host, path);
    var r := Find(lib, Build(lib, rules), host, path).rule;
    forall o | o in rules && ExactFits(o, r.matcher.host, path)
      ensures Fits(lib, o, host, path) && Stage(o) == Stage(r)
    {
    }
  }

  // ---------- inputs on which the documented order fails ----------

  const ONE := PlainRule("one", Exact, "", "/a", 0)
  const TWO := PlainRule("two", Exact, "", "/a", 0)

  /** Of two exact rules alike in all but position the second answers. */
  lemma LastExactAnswers(lib: Library)
    requires StableSorter(lib.sort)
    ensures Fits(lib, ONE, "h", "/a")
    ensures Find(lib, Build(lib, [ONE, TWO]), "h", "/a") == Hit(TWO, [])
  {
    hide Find, StableSorter;
    var rules := [ONE, TWO];
    assert TWO in rules && !Split(rules);
    AnswersExactly(lib, rules, "h", "/a");
    var p := AnswerChosen(lib, rules, "h", "/a");
    assert rules[0] == ONE && rules[1] == TWO;
  }

  const LOW_EXACT := PlainRule("low", Exact, "", "/a", 0)
  const LOW_HOSTED := PlainRule("low", Exact, "h", "/a", 0)
  const HIGH_EXACT := PlainRule("high", Exact, "", "/a", 10)
  const HIGH_PREFIX := PlainRule("high", Prefix, "", "/a", 10)

  /** An exact rule of priority 0 answers although a prefix rule of priority 10 fits. */
  lemma LowExactBeatsHighPrefix(lib: Library)
    requires StableSorter(lib.sort)
    ensures Fits(lib, HIGH_PREFIX, "h", "/a")
    ensures Find(lib, Build(lib, [HIGH_PREFIX, LOW_EXACT]), "h", "/a") == Hit(LOW_EXACT, [])
  {
    hide Find, StableSorter;
    var rules := [HIGH_PREFIX, LOW_EXACT];
    assert LOW_EXACT in rules;
    AnswersExactly(lib, rules, "h", "/a");
    KindBeatsPriority(lib, rules, "h", "/a", LOW_EXACT);
  }

  /** An exact rule naming the host answers although one for any host has the higher priority. */
  lemma LowHostedBeatsHighExact(lib: Library)
    requires StableSorter(lib.sort)
    ensures Fits(lib, HIGH_EXACT, "h", "/a")
    ensures Find(lib, Build(lib, [HIGH_EXACT, LOW_HOSTED]), "h", "/a") == Hit(LOW_HOSTED, [])
  {
    hide Find, StableSorter;
    var rules := [HIGH_EXACT, LOW_HOSTED];
    assert LOW_HOSTED in rules;
    AnswersExactly(lib, rules, "h", "/a");
    AnswerRank(lib, rules, "h", "/a");
  }

  function PatternRule(id: string, kind: MatchType, priority: int): Rule
  {
    Rule(id, Matcher(kind, "", "", ""), Response(301, "/", "", "", false, None, map[]), priority, Some("^/a$"))
  }

  const GLOB := PatternRule("glob", MatchType.Glob, 0)
  const REGEX := PatternRule("regex", Regex, 0)

  lemma SlashAMeaning(lib: Library, path: string)
    requires HonoursFragment(lib)
    ensures lib.submatch("^/a$", path) == if path == "/a" then Some([path]) else None
  {
    CompilePreservesMeaning("/a");
    assert "/a"[1..] == "a" && "a"[1..] == "";
    assert Compiled("/a") == "^/a$";
    assert Denotes("/a", path, false) <==> path == "/a" by {
      if path != "" && path[1..] != "" {
        assert path == [path[0], path[1]] + path[2..];
      }
    }
  }

  /** Of a glob and a regular expression with one priority the one written first answers, here the glob. */
  lemma GlobBeforeRegex(lib: Library)
    requires StableSorter(lib.sort) && HonoursFragment(lib)
    ensures Fits(lib, REGEX, "h", "/a")
    ensures Find(lib, Build(lib, [GLOB, REGEX]), "h", "/a") == Hit(GLOB, [])
  {
    hide Find, StableSorter, HonoursFragment;
    var rules := [GLOB, REGEX];
    SlashAMeaning(lib, "/a");
    assert GLOB in rules && REGEX in rules;
    AnswersExactly(lib, rules, "h", "/a");
    assert !Split(rules);
    var p := AnswerChosen(lib, rules, "h", "/a");
    assert rules[0] == GLOB;
  }

  const FIRST_EXACT := PlainRule("x", Exact, "", "/a", 9)
  const LOW_PREFIX := PlainRule("p", Prefix, "", "/a", 0)
  const HIGH_GLOB := PatternRule("g", MatchType.Glob, 5)

  /** A prefix rule out of turn with a glob that fits the same request does no harm when an exact rule masks both. */
  lemma InversionCanBeMasked(lib: Library)
    requires StableSorter(lib.sort) && HonoursFragment(lib)
    ensures var rules := [FIRST_EXACT, LOW_PREFIX, HIGH_GLOB];
            && Fits(lib, LOW_PREFIX, "h", "/a") && Fits(lib, HIGH_GLOB, "h", "/a") && OutOfTurn(LOW_PREFIX, HIGH_GLOB)
            && forall host, path :: WellFormedRequest(host, path) ==> Honoured(lib, rules, host, path)
  {
    hide Find, StableSorter, HonoursFragment;
    var rules := [FIRST_EXACT, LOW_PREFIX, HIGH_GLOB];
    SlashAMeaning(lib, "/a");
    assert FIRST_EXACT in rules;
    forall host, path | WellFormedRequest(host, path) ensures Honoured(lib, rules, host, path) {
      SlashAMeaning(lib, path);
      HonouredIff(lib, rules, host, path);
    }
  }
}
