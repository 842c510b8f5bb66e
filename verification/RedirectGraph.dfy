/**
 The linter's view of redirect rules: which local path a destination names, which rules it thinks
 a path would match, and the graph built from the two (collectLocalHosts, extractDestinationPath,
 pathMatchesRule, buildRedirectGraph).
 */
module RedirectGraph {
  import opened Text
  import opened Config
  import opened LintGlob
  import opened CycleKeys
  import opened CycleSearch

  /** A parsed URL reference: its scheme, its host with and without port, and its path; any of them may be "". */
  datatype Url = Url(scheme: string, host: string, hostname: string, path: string)

  /** url.Parse; None is a parse error. */
  type UrlParser = string -> Option<Url>

  function LocalHosts(rules: seq<Rule>): set<string>
  {
    set r | r in rules && r.matcher.host != "" :: r.matcher.host
  }

  function LocalPath(u: Url): string
  {
    if u.path == "" then "/" else u.path
  }

  /** extractDestinationPath: "" means the destination is taken to leave the service. */
  function DestinationPath(parse: UrlParser, dest: string, localHosts: set<string>): string
  {
    if "/" <= dest then dest
    else match parse(dest)
      case None => ""
      case Some(u) =>
        if |localHosts| == 0 then ""
        else if u.hostname in localHosts then LocalPath(u)
        else ""
  }

  /** pathMatchesRule; an uncompiled regular expression is compiled on the spot. Hosts are ignored. */
  predicate PathMatchesRule(lib: Library, path: string, rule: Rule)
  {
    match rule.matcher.kind
    case Exact => path == rule.matcher.path
    case Prefix => rule.matcher.path <= path
    case Regex =>
      if rule.compiled.Some? then lib.submatch(rule.compiled.value, path).Some?
      else lib.compiles(rule.matcher.pattern) && lib.submatch(rule.matcher.pattern, path).Some?
    case Glob => GlobMatchesPath(rule.matcher.pattern, path)
    case Other(_) => false
  }

  /** The local path the linter reads off rule i, or "". */
  function Target(lib: Library, parse: UrlParser, rules: seq<Rule>, localHosts: set<string>, i: nat): string
    requires i < |rules|
  {
    DestinationPath(parse, rules[i].response.GetLocation(), localHosts)
  }

  /** The linter draws an edge from i to j. */
  predicate Leads(lib: Library, parse: UrlParser, rules: seq<Rule>, localHosts: set<string>, i: nat, j: nat)
    requires i < |rules| && j < |rules|
  {
    var path := Target(lib, parse, rules, localHosts, i);
    path != "" && i != j && PathMatchesRule(lib, path, rules[j])
  }

  ghost predicate IsGraph(lib: Library, parse: UrlParser, rules: seq<Rule>, localHosts: set<string>, adj: Graph)
  {
    && WellFormed(adj, |rules|)
    && forall i, j :: 0 <= i < |rules| && 0 <= j < |rules| ==>
         (Edge(adj, i, j) <==> Leads(lib, parse, rules, localHosts, i, j))
  }

  /** buildRedirectGraph; rules that lead nowhere get no entry, and a rule never leads to itself. */
  method BuildRedirectGraph(lib: Library, parse: UrlParser, rules: seq<Rule>, localHosts: set<string>)
    returns (adj: Graph)
    ensures IsGraph(lib, parse, rules, localHosts, adj)
    ensures forall i :: i in adj ==> Distinct(adj[i])
  {
    hide PathMatchesRule, DestinationPath, Distinct;
    adj := map[];
    for i := 0 to |rules|
      invariant forall k :: k in adj ==> k < i && Distinct(adj[k])
      invariant forall k: Node, v: Node :: Edge(adj, k, v) ==> v < |rules|
      invariant forall k, j :: 0 <= k < i && 0 <= j < |rules| ==>
                                 (Edge(adj, k, j) <==> Leads(lib, parse, rules, localHosts, k, j))
    {
      var dest := rules[i].response.GetLocation();
      var destPath := DestinationPath(parse, dest, localHosts);
      if destPath == "" {
        continue;
      }
      ghost var before := adj;
      adj := AddEdges(lib, adj, i, destPath, rules);
      forall k: Node, v: Node ensures k != i ==> (Edge(adj, k, v) <==> Edge(before, k, v)) {
      }
    }
  }

  lemma EmptyDistinct()
    ensures Distinct<Node>([])
  {
  }

  lemma ExtendDistinct(s: seq<Node>, x: Node)
    requires Distinct(s) && x !in s
    ensures Distinct(s + [x])
    ensures forall v: Node :: v in s + [x] <==> v in s || v == x
  {
    assert forall k :: 0 <= k < |s| ==> s[k] in s;
  }

  /** The inner loop: an edge from i to every other rule the path matches. */
  method AddEdges(lib: Library, adj0: Graph, i: nat, path: string, rules: seq<Rule>) returns (adj: Graph)
    requires i !in adj0
    ensures forall k :: k in adj0 ==> k in adj && adj[k] == adj0[k]
    ensures forall k :: k in adj ==> k in adj0 || k == i
    ensures i in adj ==> Distinct(adj[i])
    ensures forall v: Node :: v in Succ(adj, i) <==> v < |rules| && v != i && PathMatchesRule(lib, path, rules[v])
  {
    hide PathMatchesRule, Distinct;
    EmptyDistinct();
    adj := adj0;
    for j := 0 to |rules|
      invariant forall k :: k in adj0 ==> k in adj && adj[k] == adj0[k]
      invariant forall k :: k in adj ==> k in adj0 || k == i
      invariant Distinct(Succ(adj, i))
      invariant forall v: Node :: v in Succ(adj, i) <==> v < j && v != i && PathMatchesRule(lib, path, rules[v])
    {
      if i == j {
        continue;
      }
      if PathMatchesRule(lib, path, rules[j]) {
        ghost var before := adj;
        ExtendDistinct(Succ(adj, i), j);
        adj := adj[i := Succ(adj, i) + [j]];
        assert Succ(adj, i) == Succ(before, i) + [j];
      }
    }
  }

  function RuleIDs(rules: seq<Rule>): (ids: seq<string>)
    ensures |ids| == |rules| && forall i :: 0 <= i < |rules| ==> ids[i] == rules[i].id
  {
    seq(|rules|, i requires 0 <= i < |rules| => rules[i].id)
  }
}
