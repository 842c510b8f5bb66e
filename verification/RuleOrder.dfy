/**
 The order in which the router lays rules out: by priority, and between two prefix rules of one
 priority by path length.  The comparison is not a weak order once a priority class mixes prefix
 rules with others, and this module says exactly what that costs: for insertion sort, and for any
 sort that keeps ties in order.
 */
module RuleOrder {
  import opened Config

  /** The comparison given to sort.SliceStable. */
  predicate Before(a: Rule, b: Rule)
  {
    if a.priority != b.priority then a.priority > b.priority
    else a.matcher.kind.Prefix? && b.matcher.kind.Prefix? && |a.matcher.path| > |b.matcher.path|
  }

  /** Moves x left past the rules it must precede, as stable insertion does. */
  function Insert(sorted: seq<Rule>, x: Rule): (r: seq<Rule>)
    ensures multiset(r) == multiset(sorted) + multiset{x}
  {
    if sorted == [] then [x]
    else
      var n := |sorted| - 1;
      assert sorted == sorted[..n] + [sorted[n]];
      if Before(x, sorted[n]) then Insert(sorted[..n], x) + [sorted[n]] else sorted + [x]
  }

  function StableSort(rules: seq<Rule>): (r: seq<Rule>)
    ensures multiset(r) == multiset(rules)
  {
    if rules == [] then []
    else
      var n := |rules| - 1;
      assert rules == rules[..n] + [rules[n]];
      Insert(StableSort(rules[..n]), rules[n])
  }

  predicate PriorityOrdered(rules: seq<Rule>)
  {
    forall i, j :: 0 <= i < j < |rules| ==> rules[i].priority >= rules[j].priority
  }

  /** Two prefix rules of the same priority stand longest path first. */
  predicate LongestFirst(rules: seq<Rule>)
  {
    forall i, j :: 0 <= i < j < |rules| && ShortPrefix(rules[i], rules[j].priority, |rules[j].matcher.path|)
                   ==> !rules[j].matcher.kind.Prefix?
  }

  /** A prefix rule of priority p whose path is shorter than len. */
  predicate ShortPrefix(r: Rule, p: int, len: int)
  {
    r.priority == p && r.matcher.kind.Prefix? && |r.matcher.path| < len
  }

  /** A rule of priority p that is not a prefix rule. */
  predicate Blocker(r: Rule, p: int)
  {
    r.priority == p && !r.matcher.kind.Prefix?
  }

  /** A prefix rule at j, a shorter one of its priority before it, and a non-prefix rule of that priority between them. */
  predicate SplitAt(rules: seq<Rule>, i: int, k: int, j: int)
  {
    && 0 <= i < k < j < |rules|
    && rules[j].matcher.kind.Prefix?
    && ShortPrefix(rules[i], rules[j].priority, |rules[j].matcher.path|)
    && Blocker(rules[k], rules[j].priority)
  }

  predicate Split(rules: seq<Rule>)
  {
    exists i, k, j :: 0 <= i < |rules| && 0 <= k < |rules| && 0 <= j < |rules| && SplitAt(rules, i, k, j)
  }

  /** No priority class holds both prefix rules and others. */
  predicate Unmixed(rules: seq<Rule>)
  {
    forall i, j :: 0 <= i < |rules| && 0 <= j < |rules| && rules[i].priority == rules[j].priority
                   ==> (rules[i].matcher.kind.Prefix? <==> rules[j].matcher.kind.Prefix?)
  }

  /** In an unmixed list the comparison is a strict weak order, which is what the library asks of it. */
  lemma BeforeIsWeakOrder(rules: seq<Rule>, a: Rule, b: Rule, c: Rule)
    requires Unmixed(rules) && a in rules && b in rules && c in rules
    requires !Before(a, b) && !Before(b, c)
    ensures !Before(a, c)
  {
    var i :| 0 <= i < |rules| && rules[i] == a;
    var j :| 0 <= j < |rules| && rules[j] == b;
    var k :| 0 <= k < |rules| && rules[k] == c;
  }

  predicate Sorted(rules: seq<Rule>)
  {
    forall i, j :: 0 <= i < j < |rules| ==> !Before(rules[j], rules[i])
  }

  /** Sorted by the comparison means: priorities fall, and within a priority prefixes stand longest first. */
  lemma SortedMeaning(rules: seq<Rule>)
    ensures Sorted(rules) <==> PriorityOrdered(rules) && LongestFirst(rules)
  {
    if Sorted(rules) {
      forall i, j | 0 <= i < j < |rules|
        ensures rules[i].priority >= rules[j].priority
        ensures ShortPrefix(rules[i], rules[j].priority, |rules[j].matcher.path|) ==> !rules[j].matcher.kind.Prefix?
      {
        assert !Before(rules[j], rules[i]);
      }
    } else {
      var i, j :| 0 <= i < j < |rules| && Before(rules[j], rules[i]);
      assert rules[i].priority >= rules[j].priority ==>
          ShortPrefix(rules[i], rules[j].priority, |rules[j].matcher.path|) && rules[j].matcher.kind.Prefix?;
    }
  }

  lemma UnmixedIsUnsplit(rules: seq<Rule>)
    requires Unmixed(rules)
    ensures !Split(rules)
  {
    forall i, k, j ensures !SplitAt(rules, i, k, j) {
    }
  }

  lemma SameMembers(a: seq<Rule>, b: seq<Rule>)
    requires multiset(a) == multiset(b)
    ensures |a| == |b|
    ensures forall r :: r in a <==> r in b
  {
    forall r ensures r in a <==> r in b {
      assert r in a <==> r in multiset(a);
      assert r in b <==> r in multiset(b);
    }
    assert |a| == |multiset(a)| == |multiset(b)| == |b|;
  }

  function Last(rules: seq<Rule>): Rule
    requires rules != []
  {
    rules[|rules| - 1]
  }

  function Init(rules: seq<Rule>): seq<Rule>
    requires rules != []
  {
    rules[..|rules| - 1]
  }

  // ---------- whatever the sorting algorithm ----------

  /** What stability asks of two positions: they keep their order unless the later rule comes before the earlier. */
  predicate Precedes(rules: seq<Rule>, p: nat, q: nat)
    requires p < |rules| && q < |rules|
  {
    if p < q then !Before(rules[q], rules[p]) else Before(rules[p], rules[q])
  }

  /** Of two positions exactly one precedes the other. */
  lemma PrecedesEitherWay(rules: seq<Rule>, p: nat, q: nat)
    requires p < |rules| && q < |rules|
    ensures p != q ==> (Precedes(rules, p, q) <==> !Precedes(rules, q, p))
    ensures !Precedes(rules, p, p)
  {
  }

  /** Three positions that precede each other in a ring are a split, and nothing else is. */
  lemma RingIsSplit(rules: seq<Rule>, p: nat, q: nat, r: nat)
    requires p < |rules| && q < |rules| && r < |rules|
    ensures Precedes(rules, p, q) && Precedes(rules, q, r) && Precedes(rules, r, p) <==>
            SplitAt(rules, p, q, r) || SplitAt(rules, q, r, p) || SplitAt(rules, r, p, q)
  {
  }

  /** Every position listed precedes all those listed after it. */
  predicate Chain(rules: seq<Rule>, order: seq<nat>)
  {
    && (forall i :: 0 <= i < |order| ==> order[i] < |rules|)
    && forall i, j :: 0 <= i < j < |order| ==> Precedes(rules, order[i], order[j])
  }

  /** All positions of the list, in the order stability asks for. */
  predicate InOrder(rules: seq<Rule>, order: seq<nat>)
  {
    Chain(rules, order) && forall p: nat :: p < |rules| ==> p in order
  }

  function Arranged(rules: seq<Rule>, order: seq<nat>): (arranged: seq<Rule>)
    requires forall i :: 0 <= i < |order| ==> order[i] < |rules|
    ensures |arranged| == |order| && forall i :: 0 <= i < |order| ==> arranged[i] == rules[order[i]]
  {
    seq(|order|, i requires 0 <= i < |order| => rules[order[i]])
  }

  /** There is at most one such order. */
  lemma {:induction false} UniqueOrder(rules: seq<Rule>, a: seq<nat>, b: seq<nat>)
    requires Chain(rules, a) && Chain(rules, b)
    requires forall p: nat :: p in a <==> p in b
    ensures a == b
    decreases |a|
  {
    HasMember(a);
    HasMember(b);
    if a != [] && b != [] {
      assert a[0] in b && b[0] in a;
      PrecedesEitherWay(rules, a[0], b[0]);
      forall p: nat ensures p in a[1..] <==> p in b[1..] {
        InTail(rules, a, p);
        InTail(rules, b, p);
      }
      UniqueOrder(rules, a[1..], b[1..]);
    }
  }

  lemma HasMember(order: seq<nat>)
    ensures order == [] || exists p: nat :: p in order
  {
    if order != [] {
      assert order[0] in order;
    }
  }

  lemma InTail(rules: seq<Rule>, order: seq<nat>, p: nat)
    requires Chain(rules, order) && order != []
    ensures p in order[1..] <==> p in order && p != order[0]
  {
    if p in order[1..] {
      var i :| 0 <= i < |order[1..]| && order[1..][i] == p;
      PrecedesEitherWay(rules, order[0], order[i + 1]);
    }
  }

  /** Stable insertion on positions. */
  function Place(rules: seq<Rule>, order: seq<nat>, x: nat): (r: seq<nat>)
    requires x < |rules| && forall i :: 0 <= i < |order| ==> order[i] < |rules|
    ensures forall p: nat :: p in r <==> p in order || p == x
    ensures forall i :: 0 <= i < |r| ==> r[i] < |rules|
  {
    if order == [] then [x]
    else
      var n := |order| - 1;
      assert order == order[..n] + [order[n]];
      if Before(rules[x], rules[order[n]]) then Place(rules, order[..n], x) + [order[n]] else order + [x]
  }

  /** The positions of the first n rules as insertion sort leaves them. */
  function StableOrder(rules: seq<Rule>, n: nat): (order: seq<nat>)
    requires n <= |rules|
    ensures forall p: nat :: p in order <==> p < n
    ensures forall i :: 0 <= i < |order| ==> order[i] < |rules|
  {
    if n == 0 then [] else Place(rules, StableOrder(rules, n - 1), n - 1)
  }

  lemma ArrangedSnoc(rules: seq<Rule>, order: seq<nat>, p: nat)
    requires p < |rules| && forall i :: 0 <= i < |order| ==> order[i] < |rules|
    ensures Arranged(rules, order + [p]) == Arranged(rules, order) + [rules[p]]
  {
  }

  lemma {:induction false} PlaceInserts(rules: seq<Rule>, order: seq<nat>, x: nat)
    requires x < |rules| && forall i :: 0 <= i < |order| ==> order[i] < |rules|
    ensures Arranged(rules, Place(rules, order, x)) == Insert(Arranged(rules, order), rules[x])
  {
    hide Arranged;
    if order == [] {
      assert Arranged(rules, [x]) == [rules[x]];
    } else {
      var n := |order| - 1;
      var init := order[..n];
      assert order == init + [order[n]];
      PlaceInserts(rules, init, x);
      ArrangedSnoc(rules, init, order[n]);
      ArrangedSnoc(rules, order, x);
      ArrangedSnoc(rules, Place(rules, init, x), order[n]);
      assert Arranged(rules, order)[..n] == Arranged(rules, init);
    }
  }

  lemma {:induction false} StableOrderSorts(rules: seq<Rule>, n: nat)
    requires n <= |rules|
    ensures Arranged(rules, StableOrder(rules, n)) == StableSort(rules[..n])
  {
    hide Arranged, Insert, Place;
    if n > 0 {
      StableOrderSorts(rules, n - 1);
      PlaceInserts(rules, StableOrder(rules, n - 1), n - 1);
      assert rules[..n][..n - 1] == rules[..n - 1];
    }
  }

  // ---------- where insertion sort puts every rule ----------

  /** The longer prefix rule at q gets past the shorter one at p: no other kind of rule of their priority is between. */
  predicate Overtakes(rules: seq<Rule>, p: nat, q: nat)
    requires p < q < |rules|
  {
    && rules[q].matcher.kind.Prefix?
    && ShortPrefix(rules[p], rules[q].priority, |rules[q].matcher.path|)
    && forall k :: p < k < q ==> !Blocker(rules[k], rules[q].priority)
  }

  /** Insertion sort puts the rule at p before the rule at q. */
  predicate Leads(rules: seq<Rule>, p: nat, q: nat)
    requires p < |rules| && q < |rules|
  {
    || rules[p].priority > rules[q].priority
    || (rules[p].priority == rules[q].priority && p != q
        && if p < q then !Overtakes(rules, p, q) else Overtakes(rules, q, p))
  }

  predicate LeadsAll(rules: seq<Rule>, order: seq<nat>)
  {
    && (forall i :: 0 <= i < |order| ==> order[i] < |rules|)
    && forall i, j :: 0 <= i < j < |order| ==> Leads(rules, order[i], order[j])
  }

  /** A rule that need not go before the last one need not go before any that the last one follows. */
  lemma StopsThere(rules: seq<Rule>, y: nat, last: nat, x: nat)
    requires y < x && last < x < |rules| && (y == last || Leads(rules, y, last))
    requires !Before(rules[x], rules[last])
    ensures Leads(rules, y, x)
  {
    if y != last && rules[y].priority == rules[last].priority == rules[x].priority && Overtakes(rules, y, x) {
      assert !Blocker(rules[last], rules[x].priority) || last < y;
      assert y < last ==> Overtakes(rules, y, last);
    }
  }

  /** A rule of another kind keeps the place of its position within its priority. */
  lemma BlockersStay(rules: seq<Rule>, p: nat, q: nat)
    requires p < |rules| && q < |rules| && Leads(rules, p, q) && rules[p].priority == rules[q].priority
    ensures !rules[p].matcher.kind.Prefix? || !rules[q].matcher.kind.Prefix? ==> p < q
  {
  }

  /** Everything x has passed on its way left is shorter and was not protected by a rule of another kind. */
  lemma PassedOvertaken(rules: seq<Rule>, order: seq<nat>, passed: seq<nat>, x: nat, j: nat)
    requires x < |rules| && LeadsAll(rules, order + passed) && j < |passed|
    requires forall p: nat :: p < x ==> p in order + passed
    requires forall i :: 0 <= i < |order| ==> order[i] < x
    requires forall i :: 0 <= i < |passed| ==> passed[i] < x && Before(rules[x], rules[passed[i]])
    ensures Leads(rules, x, passed[j])
  {
    var all, q := order + passed, passed[j];
    assert all[|order| + j] == q;
    if rules[q].priority == rules[x].priority {
      forall k: nat | q < k < x ensures !Blocker(rules[k], rules[x].priority) {
        assert k in all;
        var i :| 0 <= i < |all| && all[i] == k;
        if rules[k].priority == rules[x].priority {
          if i < |order| + j {
            BlockersStay(rules, k, q);
          } else {
            assert passed[i - |order|] == k;
          }
        }
      }
    }
  }

  lemma {:induction false} PlaceLeads(rules: seq<Rule>, order: seq<nat>, passed: seq<nat>, x: nat)
    requires x < |rules| && LeadsAll(rules, order + passed)
    requires forall p: nat :: p < x ==> p in order + passed
    requires forall i :: 0 <= i < |order| ==> order[i] < x
    requires forall i :: 0 <= i < |passed| ==> passed[i] < x && Before(rules[x], rules[passed[i]])
    ensures forall i :: 0 <= i < |order| ==> order[i] < |rules|
    ensures LeadsAll(rules, Place(rules, order, x) + passed)
    decreases |order|
  {
    hide Leads, Before;
    var all, n := order + passed, |order| - 1;
    assert forall i :: 0 <= i < |order| ==> all[i] == order[i];
    if n >= 0 && Before(rules[x], rules[order[n]]) {
      assert order[..n] + ([order[n]] + passed) == all;
      PlaceLeads(rules, order[..n], [order[n]] + passed, x);
      assert Place(rules, order[..n], x) + ([order[n]] + passed) == Place(rules, order, x) + passed;
    } else {
      assert Place(rules, order, x) == order + [x];
      forall j | 0 <= j < |passed| ensures Leads(rules, x, passed[j]) {
        PassedOvertaken(rules, order, passed, x, j);
      }
      forall i | 0 <= i < |order| ensures Leads(rules, order[i], x) {
        assert i < n ==> Leads(rules, all[i], all[n]);
        StopsThere(rules, order[i], order[n], x);
      }
      LeadsAround(rules, order, x, passed);
    }
  }

  lemma LeadsAround(rules: seq<Rule>, order: seq<nat>, x: nat, passed: seq<nat>)
    requires x < |rules| && LeadsAll(rules, order + passed)
    requires forall i :: 0 <= i < |order| ==> order[i] < |rules| && Leads(rules, order[i], x)
    requires forall j :: 0 <= j < |passed| ==> passed[j] < |rules| && Leads(rules, x, passed[j])
    ensures LeadsAll(rules, order + [x] + passed)
  {
    hide Leads;
    var all, r := order + passed, order + [x] + passed;
    forall i, j | 0 <= i < j < |r| ensures r[i] < |rules| && r[j] < |rules| && Leads(rules, r[i], r[j]) {
      var i', j' := if i < |order| then i else i - 1, if j < |order| then j else j - 1;
      if i != |order| && j != |order| {
        assert all[i'] == r[i] && all[j'] == r[j] && i' < j';
      }
    }
    assert forall i :: 0 <= i < |r| && i != |order| ==> r[i] == all[if i < |order| then i else i - 1];
  }

  lemma PlaceOne(rules: seq<Rule>, order: seq<nat>, x: nat)
    requires x < |rules| && LeadsAll(rules, order)
    requires forall p: nat :: p in order <==> p < x
    ensures forall i :: 0 <= i < |order| ==> order[i] < |rules|
    ensures LeadsAll(rules, Place(rules, order, x))
  {
    hide Leads, Place, Before;
    forall i | 0 <= i < |order| ensures order[i] < x {
      assert order[i] in order;
    }
    assert order + [] == order && Place(rules, order, x) + [] == Place(rules, order, x);
    PlaceLeads(rules, order, [], x);
  }

  lemma StableOrderStep(rules: seq<Rule>, n: nat)
    requires n < |rules|
    ensures StableOrder(rules, 0) == []
    ensures StableOrder(rules, n + 1) == Place(rules, StableOrder(rules, n), n)
  {
    hide Place;
  }

  /** Insertion sort, position by position: which rule comes before which is decided by Leads alone. */
  lemma {:induction false} InsertionLeads(rules: seq<Rule>, n: nat)
    requires n <= |rules|
    ensures LeadsAll(rules, StableOrder(rules, n))
  {
    hide StableOrder, Leads, Place;
    if n == 0 {
      NoneLead(rules);
    } else {
      StableOrderStep(rules, n - 1);
      InsertionLeads(rules, n - 1);
      hide LeadsAll;
      PlaceOne(rules, StableOrder(rules, n - 1), n - 1);
    }
  }

  lemma NoneLead(rules: seq<Rule>)
    ensures LeadsAll(rules, StableOrder(rules, 0))
  {
  }

  /** The rule at p stands before the rule at q in the sorted list exactly when it leads it. */
  lemma LeadsIsOrder(rules: seq<Rule>, a: nat, b: nat)
    requires a < |StableOrder(rules, |rules|)| && b < |StableOrder(rules, |rules|)|
    ensures Leads(rules, StableOrder(rules, |rules|)[a], StableOrder(rules, |rules|)[b]) <==> a < b
  {
    InsertionLeads(rules, |rules|);
    var order := StableOrder(rules, |rules|);
    LeadsEitherWay(rules, order[a], order[b]);
  }

  /** Of two positions at most one leads the other. */
  lemma LeadsEitherWay(rules: seq<Rule>, p: nat, q: nat)
    requires p < |rules| && q < |rules|
    ensures p != q ==> (Leads(rules, p, q) <==> !Leads(rules, q, p))
    ensures !Leads(rules, p, p)
  {
  }

  lemma SortedPositions(rules: seq<Rule>)
    ensures StableSort(rules) == Arranged(rules, StableOrder(rules, |rules|))
  {
    StableOrderSorts(rules, |rules|);
    assert rules[..|rules|] == rules;
  }

  /** Whatever the classes hold, higher priorities come first. */
  lemma SortedByPriority(rules: seq<Rule>)
    ensures PriorityOrdered(StableSort(rules))
  {
    SortedPositions(rules);
    InsertionLeads(rules, |rules|);
  }

  /** The sorted list is longest-prefix-first in every class exactly when the given list has no split. */
  lemma LongestFirstIffUnsplit(rules: seq<Rule>)
    ensures LongestFirst(StableSort(rules)) <==> !Split(rules)
  {
    hide Leads, SplitAt, StableOrder, StableSort;
    SortedPositions(rules);
    var order := StableOrder(rules, |rules|);
    forall a, b | 0 <= a < |order| && 0 <= b < |order| && rules[order[b]].matcher.kind.Prefix?
                  && ShortPrefix(rules[order[a]], rules[order[b]].priority, |rules[order[b]].matcher.path|)
      ensures a < b <==> exists k :: order[a] < k < order[b] && SplitAt(rules, order[a], k, order[b])
    {
      LeadsIsOrder(rules, a, b);
      ShortLeadsIffSplit(rules, order[a], order[b]);
    }
    forall i, k, j | 0 <= i < |rules| && 0 <= k < |rules| && 0 <= j < |rules| && SplitAt(rules, i, k, j)
      ensures !LongestFirst(StableSort(rules))
    {
      assert i in order && j in order;
      var a :| 0 <= a < |order| && order[a] == i;
      var b :| 0 <= b < |order| && order[b] == j;
      SplitParts(rules, i, k, j);
      assert a < b;
    }
    if !LongestFirst(StableSort(rules)) {
      var a, b :| 0 <= a < b < |order|
        && ShortPrefix(rules[order[a]], rules[order[b]].priority, |rules[order[b]].matcher.path|)
        && rules[order[b]].matcher.kind.Prefix?;
      var k :| order[a] < k < order[b] && SplitAt(rules, order[a], k, order[b]);
    }
  }

  lemma SplitParts(rules: seq<Rule>, i: int, k: int, j: int)
    requires SplitAt(rules, i, k, j)
    ensures 0 <= i < k < j < |rules| && rules[j].matcher.kind.Prefix?
    ensures ShortPrefix(rules[i], rules[j].priority, |rules[j].matcher.path|)
  {
  }

  /** A shorter prefix rule leads a longer one of its priority exactly when the two are split. */
  lemma ShortLeadsIffSplit(rules: seq<Rule>, p: nat, q: nat)
    requires p < |rules| && q < |rules| && rules[q].matcher.kind.Prefix?
    requires ShortPrefix(rules[p], rules[q].priority, |rules[q].matcher.path|)
    ensures Leads(rules, p, q) <==> exists k :: p < k < q && SplitAt(rules, p, k, q)
  {
    if p < q && !Overtakes(rules, p, q) {
      var k :| p < k < q && Blocker(rules[k], rules[q].priority);
      assert SplitAt(rules, p, k, q);
    }
  }

  /** Without a split, what insertion decides is what stability and the comparison ask. */
  lemma InsertionInOrder(rules: seq<Rule>)
    requires !Split(rules)
    ensures InOrder(rules, StableOrder(rules, |rules|))
  {
    hide Leads, Precedes, StableOrder, Split;
    var order := StableOrder(rules, |rules|);
    InsertionLeads(rules, |rules|);
    forall i, j | 0 <= i < j < |order| ensures Precedes(rules, order[i], order[j]) {
      UnsplitLeads(rules, order[i], order[j]);
    }
  }

  lemma UnsplitLeads(rules: seq<Rule>, p: nat, q: nat)
    requires !Split(rules) && p < |rules| && q < |rules| && Leads(rules, p, q)
    ensures Precedes(rules, p, q)
  {
    if p < q && rules[p].priority == rules[q].priority && Before(rules[q], rules[p]) {
      var k :| p < k < q && Blocker(rules[k], rules[q].priority);
      assert SplitAt(rules, p, k, q);
    }
  }

  // ---------- when there is an arrangement to find ----------

  /** Stability and the comparison can both be met exactly when the list is not split. */
  lemma OrderIffUnsplit(rules: seq<Rule>)
    ensures (exists order :: InOrder(rules, order)) <==> !Split(rules)
  {
    if !Split(rules) {
      InsertionInOrder(rules);
    }
    forall order | InOrder(rules, order) ensures !Split(rules) {
      OrderedIsUnsplit(rules, order);
    }
  }

  lemma OrderedIsUnsplit(rules: seq<Rule>, order: seq<nat>)
    requires InOrder(rules, order)
    ensures !Split(rules)
  {
    forall i, k, j | 0 <= i < |rules| && 0 <= k < |rules| && 0 <= j < |rules| ensures !SplitAt(rules, i, k, j) {
      RingIsSplit(rules, i, k, j);
      assert i in order && k in order && j in order;
      var a :| 0 <= a < |order| && order[a] == i;
      var b :| 0 <= b < |order| && order[b] == k;
      var c :| 0 <= c < |order| && order[c] == j;
      PrecedesEitherWay(rules, i, k);
      PrecedesEitherWay(rules, k, j);
      PrecedesEitherWay(rules, j, i);
    }
  }

  /** An unsplit list has one stable arrangement; it is longest-prefix-first, and insertion sort finds it. */
  lemma InOrderIsStableSort(rules: seq<Rule>, order: seq<nat>)
    requires InOrder(rules, order)
    ensures Arranged(rules, order) == StableSort(rules)
    ensures Sorted(StableSort(rules))
  {
    OrderedIsUnsplit(rules, order);
    InsertionInOrder(rules);
    UniqueOrder(rules, order, StableOrder(rules, |rules|));
    StableOrderSorts(rules, |rules|);
    assert rules[..|rules|] == rules;
    SortedByPriority(rules);
    LongestFirstIffUnsplit(rules);
    SortedMeaning(StableSort(rules));
  }

  /**
   What the router relies on in sort.SliceStable: it rearranges the rules, puts higher priorities
   first, and finds the arrangement that meets both stability and the comparison where there is one.
   */
  ghost predicate StableSorter(sort: seq<Rule> -> seq<Rule>)
  {
    forall rules ::
      && multiset(sort(rules)) == multiset(rules)
      && PriorityOrdered(sort(rules))
      && forall order :: InOrder(rules, order) ==> sort(rules) == Arranged(rules, order)
  }

  /** Lists of up to twenty rules are sorted by plain insertion. */
  ghost predicate InsertsShort(sort: seq<Rule> -> seq<Rule>)
  {
    forall rules :: |rules| <= 20 ==> sort(rules) == StableSort(rules)
  }

  lemma ShortSort(sort: seq<Rule> -> seq<Rule>, rules: seq<Rule>)
    requires InsertsShort(sort) && |rules| <= 20
    ensures sort(rules) == StableSort(rules)
  {
  }

  lemma InsertionIsStable()
    ensures StableSorter(StableSort) && InsertsShort(StableSort)
  {
    forall rules
      ensures PriorityOrdered(StableSort(rules))
      ensures forall order :: InOrder(rules, order) ==> StableSort(rules) == Arranged(rules, order)
    {
      SortedByPriority(rules);
      forall order | InOrder(rules, order) ensures StableSort(rules) == Arranged(rules, order) {
        InOrderIsStableSort(rules, order);
      }
    }
  }

  /** Every stable sorter agrees with insertion on unsplit lists, and the result is sorted by the comparison. */
  lemma UnsplitSort(sort: seq<Rule> -> seq<Rule>, rules: seq<Rule>)
    requires StableSorter(sort) && !Split(rules)
    ensures sort(rules) == StableSort(rules) && Sorted(sort(rules))
  {
    OrderIffUnsplit(rules);
    var order :| InOrder(rules, order);
    InOrderIsStableSort(rules, order);
  }

  lemma SortMembers(sort: seq<Rule> -> seq<Rule>, rules: seq<Rule>)
    requires StableSorter(sort)
    ensures |sort(rules)| == |rules|
    ensures forall r :: r in sort(rules) <==> r in rules
  {
    SameMembers(sort(rules), rules);
  }
}
