/**
 findCycles: three-colour depth-first search over the rule graph.  It reports a cycle whenever an
 edge reaches a node still on the stack, once per key.
 */
module CycleSearch {
  import opened CycleKeys

  type Graph = map<Node, seq<Node>>

  function Succ(adj: Graph, u: Node): seq<Node>
  {
    if u in adj then adj[u] else []
  }

  predicate Edge(adj: Graph, u: Node, v: Node)
  {
    v in Succ(adj, u)
  }

  ghost predicate WellFormed(adj: Graph, n: nat)
  {
    forall u: Node, v: Node :: Edge(adj, u, v) ==> u < n && v < n
  }

  predicate Walk(adj: Graph, w: seq<Node>)
  {
    forall i :: 0 <= i < |w| - 1 ==> Edge(adj, w[i], w[i + 1])
  }

  predicate ClosedWalk(adj: Graph, w: seq<Node>)
  {
    |w| >= 2 && w[0] == w[|w| - 1] && Walk(adj, w)
  }

  predicate SimpleCycle(adj: Graph, c: seq<Node>)
  {
    ClosedWalk(adj, c) && Distinct(Open(c))
  }

  predicate InRange(c: seq<Node>, n: nat)
  {
    forall i :: 0 <= i < |c| ==> c[i] < n
  }

  predicate OnWalk(w: seq<Node>, u: Node, v: Node)
  {
    exists i :: 0 <= i < |w| - 1 && w[i] == u && w[i + 1] == v
  }

  /** Every edge out of a ranked node goes to a node of smaller rank, unless it is among the exempt ones. */
  ghost predicate Ranked(adj: Graph, rank: map<Node, nat>, exempt: set<(Node, Node)>)
  {
    forall u, v :: u in rank && Edge(adj, u, v) ==> (u, v) in exempt || (v in rank && rank[v] < rank[u])
  }

  /** A rank for all n nodes, below n and falling along every edge: the graph has no cycle. */
  ghost predicate Ranking(adj: Graph, n: nat, rank: map<Node, nat>)
  {
    && (forall u: Node :: u < n ==> u in rank && rank[u] < n)
    && Ranked(adj, rank, {})
  }

  /** A closed walk cannot fall in rank along all its edges. */
  lemma {:induction false} WalkFalls(adj: Graph, w: seq<Node>, rank: map<Node, nat>, exempt: set<(Node, Node)>)
    returns (at: nat)
    requires |w| >= 2 && Walk(adj, w) && Ranked(adj, rank, exempt)
    requires forall i :: 0 <= i < |w| ==> w[i] in rank
    ensures rank[w[|w| - 1]] < rank[w[0]] || (at < |w| - 1 && (w[at], w[at + 1]) in exempt)
  {
    at := 0;
    if (w[0], w[1]) !in exempt && |w| > 2 {
      assert Edge(adj, w[0], w[1]);
      forall i | 0 <= i < |w[1..]| - 1 ensures Edge(adj, w[1..][i], w[1..][i + 1]) {
        assert Edge(adj, w[i + 1], w[i + 2]);
      }
      at := WalkFalls(adj, w[1..], rank, exempt);
      at := at + 1;
    } else {
      assert Edge(adj, w[0], w[1]);
    }
  }

  lemma RankedHasNoCycle(adj: Graph, n: nat, rank: map<Node, nat>, w: seq<Node>)
    requires WellFormed(adj, n) && Ranking(adj, n, rank)
    ensures !ClosedWalk(adj, w)
  {
    if ClosedWalk(adj, w) {
      ClosedInRange(adj, n, w);
      var at := WalkFalls(adj, w, rank, {});
      assert false;
    }
  }

  lemma ClosedInRange(adj: Graph, n: nat, w: seq<Node>)
    requires WellFormed(adj, n) && ClosedWalk(adj, w)
    ensures InRange(w, n)
  {
    forall i | 0 <= i < |w| ensures w[i] < n {
      var j := if i == 0 then |w| - 2 else i - 1;
      assert Edge(adj, w[j], w[j + 1]);
    }
  }

  // ---------- what the search has found ----------

  /** A simple cycle whose closing edge is (u, v). */
  ghost predicate Closes(adj: Graph, e: seq<Node>, n: nat, u: Node, v: Node)
  {
    SimpleCycle(adj, e) && InRange(e, n) && e[|e| - 2] == u && e[|e| - 1] == v
  }

  ghost predicate Reports(adj: Graph, ids: seq<string>, cycles: seq<seq<Node>>, keys: seq<string>)
  {
    && |keys| == |cycles| && Distinct(keys)
    && forall i :: 0 <= i < |cycles| ==>
         SimpleCycle(adj, cycles[i]) && InRange(cycles[i], |ids|) && IsKey(cycles[i], ids, keys[i])
  }

  /** For each edge that reached a gray node: the cycle it closed, and which reported cycle has that cycle's key. */
  type BackEdges = map<(Node, Node), (seq<Node>, nat)>

  ghost predicate Accounted(adj: Graph, ids: seq<string>, keys: seq<string>, back: BackEdges)
  {
    forall e :: e in back ==>
      && Closes(adj, back[e].0, |ids|, e.0, e.1)
      && back[e].1 < |keys| && IsKey(back[e].0, ids, keys[back[e].1])
  }

  /** All that has been found: the reported cycles, their keys, and where each back edge went. */
  datatype Finds = Finds(adj: Graph, ids: seq<string>, cycles: seq<seq<Node>>, keys: seq<string>, back: BackEdges)
  {
    ghost predicate Sound()
    {
      match this
      case Finds(adj, ids, cycles, keys, back) =>
        WellFormed(adj, |ids|) && Reports(adj, ids, cycles, keys) && Accounted(adj, ids, keys, back)
    }
  }

  lemma AddFind(f: Finds, cycle: seq<Node>, u: Node, v: Node, key: string) returns (g: Finds)
    requires f.Sound() && Closes(f.adj, cycle, |f.ids|, u, v) && IsKey(cycle, f.ids, key)
    ensures g.Sound() && g.adj == f.adj && g.ids == f.ids && g.back.Keys == f.back.Keys + {(u, v)}
    ensures if key in f.keys then g.cycles == f.cycles && g.keys == f.keys
            else g.cycles == f.cycles + [cycle] && g.keys == f.keys + [key]
  {
    hide IsKey, Walk, WellFormed;
    var cycles, keys := f.cycles, f.keys;
    if key !in keys {
      cycles, keys := cycles + [cycle], keys + [key];
    }
    assert key in keys;
    var i: nat :| 0 <= i < |keys| && keys[i] == key;
    g := Finds(f.adj, f.ids, cycles, keys, f.back[(u, v) := (cycle, i)]);
  }

  datatype Color = White | Gray | Black

  class CycleSearch {
    const ids: seq<string>
    const adj: Graph
    const color: array<Color>
    var cycles: seq<seq<Node>>
    var seen: set<string>
    ghost var finds: Finds
    ghost var rank: map<Node, nat>  // the order in which nodes turned black

    /** The stack holds the gray nodes, and everything below the black ones is black or accounted for. */
    ghost predicate Colored(stack: seq<Node>)
      reads this`rank, this`finds, color
    {
      && color.Length == |ids|
      && ColorsAgree(color[..], stack, rank)
      && Distinct(stack) && Walk(adj, stack)
      && Ranked(adj, rank, finds.back.Keys)
    }

    ghost predicate Logged()
      reads this`cycles, this`seen, this`finds
    {
      && finds.Sound() && finds.adj == adj && finds.ids == ids && finds.cycles == cycles
      && forall k :: k in seen <==> k in finds.keys
    }

    /** The edge u -> v has been followed. */
    ghost predicate Settled(u: Node, v: Node)
      reads this`rank, this`finds
    {
      (u, v) in finds.back.Keys || v in rank.Keys
    }

    ghost function Whites(): set<Node>
      reads color
    {
      set i | 0 <= i < color.Length && color[i] == White
    }

    constructor (ids: seq<string>, adj: Graph)
      requires WellFormed(adj, |ids|)
      ensures Colored([]) && Logged() && fresh(color) && this.ids == ids && this.adj == adj && rank == map[]
    {
      this.ids := ids;
      this.adj := adj;
      color := new Color[|ids|](_ => White);
      cycles := [];
      seen := {};
      finds := Finds(adj, ids, [], [], map[]);
      rank := map[];
    }

    /** Records the cycle an edge u -> v closes when v is on the stack. */
    method Close(stack: seq<Node>, u: Node, v: Node)
      requires Colored(stack) && Logged()
      requires stack != [] && stack[|stack| - 1] == u && v in stack && Edge(adj, u, v)
      modifies this`cycles, this`seen, this`finds
      ensures Colored(stack) && Logged()
      ensures finds.back.Keys == old(finds.back.Keys) + {(u, v)}
    {
      assert InRange(stack, |ids|) by {
        assert forall i :: 0 <= i < |stack| ==> stack[i] in stack;
      }
      var cycle := ExtractCycle(stack, v);
      hide Closes, ColorsAgree;
      if cycle.Some? {
        ClosingCycle(adj, stack, |ids|, v, cycle.value);
        Log(cycle.value, u, v);
      }
    }

    /** Reports a cycle unless one with its key has been reported. */
    method Log(cycle: seq<Node>, ghost u: Node, ghost v: Node)
      requires Logged() && Closes(adj, cycle, |ids|, u, v)
      modifies this`cycles, this`seen, this`finds
      ensures Logged() && finds.back.Keys == old(finds.back.Keys) + {(u, v)}
    {
      hide Finds.Sound, IsKey;
      var key := CycleKey(cycle, ids);
      ghost var next := AddFind(finds, cycle, u, v, key);
      if key !in seen {
        seen := seen + {key};
        cycles := cycles + [cycle];
      }
      finds := next;
    }

    /** Puts a white node on the stack. */
    method Enter(u: Node, stack: seq<Node>)
      requires Colored(stack) && Logged() && u < |ids| && color[u] == White
      requires stack != [] ==> Edge(adj, stack[|stack| - 1], u)
      modifies color
      ensures Colored(stack + [u]) && Logged()
      ensures u in old(Whites()) && Whites() == old(Whites()) - {u}
    {
      hide Logged, ColorsAgree, Ranked, Walk, Distinct;
      ghost var before := color[..];
      color[u] := Gray;
      assert color[..] == before[u := Gray];
      Shade(before, stack, u, rank);
      if stack != [] {
        ExtendWalk(adj, stack, u);
      } else {
        SingleWalk(adj, u);
      }
    }

    /** Takes a node off the stack once every edge out of it is accounted for. */
    method Leave(u: Node, stack: seq<Node>)
      requires Colored(stack + [u]) && Logged() && u < |ids|
      requires forall v :: Edge(adj, u, v) ==> Settled(u, v)
      modifies color, this`rank
      ensures Colored(stack) && Logged()
      ensures rank.Keys == old(rank.Keys) + {u} && Whites() == old(Whites())
    {
      hide Logged;
      ghost var before := color[..];
      color[u] := Black;
      assert color[..] == before[u := Black];
      assert (stack + [u])[|stack|] == u && before[u] == Gray;
      hide ColorsAgree, Ranked, Walk, Distinct;
      Blacken(adj, before, stack, u, rank, finds.back.Keys);
      Unstack(adj, stack, u);
      rank := rank[u := |rank|];
    }

    /** One edge u -> v out of the top of the stack. */
    method Follow(u: Node, v: Node, stack: seq<Node>)
      requires Colored(stack) && Logged() && stack != [] && stack[|stack| - 1] == u && Edge(adj, u, v)
      modifies this, color
      ensures Colored(stack) && Logged()
      ensures Settled(u, v)
      ensures old(finds.back.Keys) <= finds.back.Keys && old(rank.Keys) <= rank.Keys && Whites() <= old(Whites())
      decreases Whites(), 1
    {
      match color[v]
      case Gray => Close(stack, u, v);
      case White => Dfs(v, stack);
      case Black =>
    }

    /** All edges out of the top of the stack, in order. */
    method FollowAll(u: Node, stack: seq<Node>)
      requires Colored(stack) && Logged() && stack != [] && stack[|stack| - 1] == u
      modifies this, color
      ensures Colored(stack) && Logged()
      ensures forall v :: Edge(adj, u, v) ==> Settled(u, v)
      ensures old(finds.back.Keys) <= finds.back.Keys && old(rank.Keys) <= rank.Keys && Whites() <= old(Whites())
      decreases Whites(), 2
    {
      hide Colored, Logged;
      var next := Succ(adj, u);
      for i := 0 to |next|
        invariant Colored(stack) && Logged()
        invariant old(finds.back.Keys) <= finds.back.Keys && old(rank.Keys) <= rank.Keys && Whites() <= old(Whites())
        invariant forall k :: 0 <= k < i ==> Settled(u, next[k])
      {
        Follow(u, next[i], stack);
      }
      forall v | Edge(adj, u, v) ensures Settled(u, v) {
        ghost var k :| 0 <= k < |next| && next[k] == v;
      }
    }

    method Dfs(u: Node, stack: seq<Node>)
      requires Colored(stack) && Logged() && u < |ids| && color[u] == White
      requires stack != [] ==> Edge(adj, stack[|stack| - 1], u)
      modifies this, color
      ensures Colored(stack) && Logged() && u in rank.Keys
      ensures old(finds.back.Keys) <= finds.back.Keys && old(rank.Keys) <= rank.Keys && Whites() <= old(Whites())
      decreases Whites(), 0
    {
      hide Colored, Logged, Whites;
      Enter(u, stack);
      FollowAll(u, stack + [u]);
      Leave(u, stack);
    }

    lemma Done()
      requires Colored([]) && Logged() && forall k :: 0 <= k < |ids| ==> k in rank.Keys
      ensures Finished(finds, rank) && finds.adj == adj && finds.ids == ids && finds.cycles == cycles
    {
      RanksBounded(color[..], rank);
      forall u: Node | u < |ids| ensures u in rank && rank[u] < |ids| {
        assert u in rank.Keys;
      }
    }

    /** Starts a search at u unless it has been visited. */
    method Root(u: Node)
      requires Colored([]) && Logged() && u < |ids|
      modifies this, color
      ensures Colored([]) && Logged() && u in rank.Keys && old(rank.Keys) <= rank.Keys
    {
      if color[u] == White {
        Dfs(u, []);
      }
    }
  }

  ghost predicate ColorsAgree(color: seq<Color>, stack: seq<Node>, rank: map<Node, nat>)
  {
    && (forall i :: 0 <= i < |color| ==> (color[i] == Gray <==> i in stack))
    && (forall i :: i in stack ==> i < |color|)
    && (forall i :: i in rank <==> 0 <= i < |color| && color[i] == Black)
    && (forall i :: i in rank ==> rank[i] < |rank|)
  }

  /** A white node put on the stack is gray from now on. */
  lemma Shade(color: seq<Color>, stack: seq<Node>, u: Node, rank: map<Node, nat>)
    requires ColorsAgree(color, stack, rank) && Distinct(stack) && u < |color| && color[u] == White
    ensures ColorsAgree(color[u := Gray], stack + [u], rank) && Distinct(stack + [u])
  {
    assert forall i :: i in stack + [u] <==> i in stack || i == u;
  }

  lemma SingleWalk(adj: Graph, u: Node)
    ensures Walk(adj, [] + [u])
  {
  }

  /** Turning the top of the stack black ranks it above everything ranked so far. */
  lemma Blacken(adj: Graph, color: seq<Color>, stack: seq<Node>, u: Node, rank: map<Node, nat>, back: set<(Node, Node)>)
    requires ColorsAgree(color, stack + [u], rank) && Distinct(stack + [u]) && Ranked(adj, rank, back)
    requires forall v :: Edge(adj, u, v) ==> (u, v) in back || v in rank
    requires u < |color|
    ensures ColorsAgree(color[u := Black], stack, rank[u := |rank|])
    ensures Ranked(adj, rank[u := |rank|], back)
  {
    BlackAgrees(color, stack, u, rank);
    OnTop(color, stack, u, rank);
    hide ColorsAgree, Distinct;
    var rank' := rank[u := |rank|];
    forall x, v | x in rank' && Edge(adj, x, v) ensures (x, v) in back || (v in rank' && rank'[v] < rank'[x]) {
      if x != u {
        assert (x, v) in back || (v in rank && rank[v] < rank[x]);
      }
    }
  }

  lemma OnTop(color: seq<Color>, stack: seq<Node>, u: Node, rank: map<Node, nat>)
    requires ColorsAgree(color, stack + [u], rank)
    ensures u !in rank && forall i :: i in rank ==> rank[i] < |rank|
  {
    assert (stack + [u])[|stack|] == u;
  }

  lemma BlackAgrees(color: seq<Color>, stack: seq<Node>, u: Node, rank: map<Node, nat>)
    requires ColorsAgree(color, stack + [u], rank) && Distinct(stack + [u]) && u < |color|
    ensures ColorsAgree(color[u := Black], stack, rank[u := |rank|])
  {
    assert (stack + [u])[|stack|] == u && color[u] == Gray;
    assert forall i :: i in stack + [u] <==> i in stack || i == u;
    assert forall i :: 0 <= i < |stack| ==> (stack + [u])[i] == stack[i];
    var rank' := rank[u := |rank|];
    assert rank'.Keys == rank.Keys + {u};
    assert |rank'| == |rank'.Keys| == |rank| + 1;
  }

  /** What extractCycle returns for a stack that is a simple walk and an edge from its top to v. */
  lemma ClosingCycle(adj: Graph, stack: seq<Node>, n: nat, v: Node, cycle: seq<Node>)
    requires stack != [] && Walk(adj, stack) && Distinct(stack) && InRange(stack, n)
    requires Edge(adj, stack[|stack| - 1], v)
    requires exists i :: 0 <= i < |stack| && stack[i] == v && cycle == stack[i..] + [v]
    ensures Closes(adj, cycle, n, stack[|stack| - 1], v)
  {
    var i :| 0 <= i < |stack| && stack[i] == v && cycle == stack[i..] + [v];
    assert Open(cycle) == stack[i..];
    assert cycle[|cycle| - 2] == stack[|stack| - 1];
    SuffixWalk(adj, stack, i);
    ExtendWalk(adj, stack[i..], v);
  }

  lemma SuffixWalk(adj: Graph, stack: seq<Node>, i: nat)
    requires Walk(adj, stack) && Distinct(stack) && i < |stack|
    ensures Walk(adj, stack[i..]) && Distinct(stack[i..])
  {
    forall k | 0 <= k < |stack[i..]| - 1 ensures Edge(adj, stack[i..][k], stack[i..][k + 1]) {
      assert Edge(adj, stack[i + k], stack[i + k + 1]);
    }
  }

  lemma ExtendWalk(adj: Graph, w: seq<Node>, v: Node)
    requires Walk(adj, w) && w != [] && Edge(adj, w[|w| - 1], v)
    ensures Walk(adj, w + [v])
  {
    forall k | 0 <= k < |w| ensures Edge(adj, (w + [v])[k], (w + [v])[k + 1]) {
      if k < |w| - 1 {
        assert Edge(adj, w[k], w[k + 1]);
      }
    }
  }

  lemma Unstack(adj: Graph, stack: seq<Node>, u: Node)
    requires Walk(adj, stack + [u]) && Distinct(stack + [u])
    ensures Walk(adj, stack) && Distinct(stack)
  {
    forall i | 0 <= i < |stack| - 1 ensures Edge(adj, stack[i], stack[i + 1]) {
      assert Edge(adj, (stack + [u])[i], (stack + [u])[i + 1]);
    }
    assert forall i :: 0 <= i < |stack| ==> (stack + [u])[i] == stack[i];
  }

  // ---------- findCycles ----------

  predicate NoRepeats(cycles: seq<seq<Node>>)
  {
    forall i, j :: 0 <= i < j < |cycles| && |cycles[i]| >= 2 && |cycles[j]| >= 2 ==>
                     !IsRotation(Open(cycles[i]), Open(cycles[j]))
  }

  /** Some edge of the walk lies on a reported cycle. */
  predicate SharesEdge(w: seq<Node>, cycles: seq<seq<Node>>)
  {
    exists k, i :: 0 <= k < |w| - 1 && 0 <= i < |cycles| && OnWalk(cycles[i], w[k], w[k + 1])
  }

  /** What a finished search amounts to: every node is black. */
  ghost predicate Finished(f: Finds, rank: map<Node, nat>)
  {
    && f.Sound()
    && Ranked(f.adj, rank, f.back.Keys)
    && (forall u: Node :: u < |f.ids| ==> u in rank && rank[u] < |f.ids|)
  }

  lemma FinishedFindsBack(f: Finds, rank: map<Node, nat>, w: seq<Node>) returns (at: nat)
    requires Finished(f, rank) && ClosedWalk(f.adj, w)
    ensures at < |w| - 1 && (w[at], w[at + 1]) in f.back
  {
    ClosedInRange(f.adj, |f.ids|, w);
    at := WalkFalls(f.adj, w, rank, f.back.Keys);
  }

  lemma FinishedDecides(f: Finds, rank: map<Node, nat>)
    requires Finished(f, rank)
    ensures f.cycles != [] <==> exists w :: ClosedWalk(f.adj, w)
    ensures f.cycles == [] ==> Ranking(f.adj, |f.ids|, rank)
  {
    if f.cycles != [] {
      assert ClosedWalk(f.adj, f.cycles[0]);
    } else {
      assert f.back.Keys == {};
      forall w ensures !ClosedWalk(f.adj, w) {
        RankedHasNoCycle(f.adj, |f.ids|, rank, w);
      }
    }
  }

  lemma FinishedNoRepeats(f: Finds)
    requires f.Sound() && UsableIDs(f.ids)
    ensures NoRepeats(f.cycles)
  {
    forall i, j | 0 <= i < j < |f.cycles| ensures !IsRotation(Open(f.cycles[i]), Open(f.cycles[j])) {
      KeyIffRotation(f.cycles[i], f.cycles[j], f.ids, f.keys[i], f.keys[j]);
    }
  }

  /** The closing edge of a cycle lies on every rotation of it. */
  lemma RotationKeepsEdge(c: seq<Node>, d: seq<Node>)
    requires |c| >= 2 && |d| >= 2 && c[0] == c[|c| - 1] && d[0] == d[|d| - 1]
    requires IsRotation(Open(c), Open(d))
    ensures OnWalk(d, c[|c| - 2], c[|c| - 1])
  {
    var a, b := Open(c), Open(d);
    var k :| 0 <= k < |a| && b == Rot(a, k);
    var at := |a| - 1 - k;
    assert d[at] == b[at] == a[|a| - 1];
    assert d[at + 1] == if k == 0 then d[0] else b[at + 1];
  }

  /** Deduplication drops no cycle the search closed but rotations of a reported one. */
  lemma ClosedIsReported(f: Finds, u: Node, v: Node)
    requires f.Sound() && UsableIDs(f.ids) && (u, v) in f.back
    ensures var (e, i) := f.back[(u, v)];
            && Closes(f.adj, e, |f.ids|, u, v) && i < |f.cycles| && SimpleCycle(f.adj, f.cycles[i])
            && IsRotation(Open(e), Open(f.cycles[i]))
  {
    var (e, i) := f.back[(u, v)];
    assert Closes(f.adj, e, |f.ids|, u, v) && i < |f.keys| && IsKey(e, f.ids, f.keys[i]);
    KeyIffRotation(e, f.cycles[i], f.ids, f.keys[i], f.keys[i]);
  }

  /** Cutting the reported cycles cuts every cycle. */
  lemma FinishedCovers(f: Finds, rank: map<Node, nat>, w: seq<Node>)
    requires Finished(f, rank) && UsableIDs(f.ids) && ClosedWalk(f.adj, w)
    ensures SharesEdge(w, f.cycles)
  {
    var at := FinishedFindsBack(f, rank, w);
    ClosedIsReported(f, w[at], w[at + 1]);
    var (e, i) := f.back[(w[at], w[at + 1])];
    RotationKeepsEdge(e, f.cycles[i]);
  }

  lemma FinishedAnswers(f: Finds, rank: map<Node, nat>)
    requires Finished(f, rank)
    ensures forall i :: 0 <= i < |f.cycles| ==> SimpleCycle(f.adj, f.cycles[i])
    ensures f.cycles != [] <==> exists w :: ClosedWalk(f.adj, w)
    ensures f.cycles == [] ==> Ranking(f.adj, |f.ids|, rank)
    ensures UsableIDs(f.ids) ==> NoRepeats(f.cycles)
    ensures UsableIDs(f.ids) ==> forall w :: ClosedWalk(f.adj, w) ==> SharesEdge(w, f.cycles)
  {
    FinishedDecides(f, rank);
    if UsableIDs(f.ids) {
      FinishedNoRepeats(f);
      forall w | ClosedWalk(f.adj, w) ensures SharesEdge(w, f.cycles) {
        FinishedCovers(f, rank, w);
      }
    }
  }

  /** findCycles: searches from every node not yet visited. */
  method FindCycles(ids: seq<string>, adj: Graph) returns (cycles: seq<seq<Node>>, ghost rank: map<Node, nat>)
    requires WellFormed(adj, |ids|)
    ensures forall i :: 0 <= i < |cycles| ==> SimpleCycle(adj, cycles[i])
    ensures cycles != [] <==> exists w :: ClosedWalk(adj, w)
    ensures cycles == [] ==> Ranking(adj, |ids|, rank)
    ensures UsableIDs(ids) ==> NoRepeats(cycles)
    ensures UsableIDs(ids) ==> forall w :: ClosedWalk(adj, w) ==> SharesEdge(w, cycles)
  {
    hide *;
    var search := new CycleSearch(ids, adj);
    for i := 0 to |ids|
      invariant search.Colored([]) && search.Logged()
      invariant forall k :: 0 <= k < i ==> k in search.rank.Keys
    {
      search.Root(i);
    }
    search.Done();
    FinishedAnswers(search.finds, search.rank);
    cycles, rank := search.cycles, search.rank;
  }

  lemma RanksBounded(color: seq<Color>, rank: map<Node, nat>)
    requires ColorsAgree(color, [], rank)
    ensures |rank| <= |color|
  {
    assert rank.Keys <= Below(|color|);
    SubsetSize(rank.Keys, Below(|color|));
  }

  ghost function Below(n: nat): (nodes: set<Node>)
    ensures |nodes| == n && forall i: Node :: i in nodes <==> i < n
  {
    if n == 0 then {} else Below(n - 1) + {n - 1}
  }

  lemma {:induction false} SubsetSize<T>(a: set<T>, b: set<T>)
    requires a <= b
    ensures |a| <= |b|
  {
    if a != {} {
      var x :| x in a;
      SubsetSize(a - {x}, b - {x});
    }
  }
}
