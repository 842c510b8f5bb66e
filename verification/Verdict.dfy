/**
 When a reported cycle is a real one.  Where every rule is exact, for any host and alone with its path, and redirects
 go to plain local paths, the linter's graph is the service: all chains are finite exactly when it reports no cycle
 and no rule redirects to itself.
 */
module Verdict {
  import opened Text
  import opened Glob
  import opened Config
  import opened CycleKeys
  import opened CycleSearch
  import opened RedirectGraph
  import opened Serving
  import opened Chains
  import opened CleanLint
  import R = Router

  predicate OnePerPath(rules: seq<Rule>)
  {
    && (forall r :: r in rules ==> r.matcher.kind.Exact? && r.matcher.host == "")
    && forall i, j :: 0 <= i < |rules| && 0 <= j < |rules| && rules[i].matcher.path == rules[j].matcher.path ==> i == j
  }

  ghost predicate PlainExactSite(site: Site)
  {
    && HonoursFragment(site.lib) && WellFormedSite(site) && OnePerPath(site.rules)
    && forall r :: r in RedirectRules(site.rules) ==>
                     "/" <= r.response.GetLocation() && PlainDestination(site, r.response.GetLocation())
  }

  lemma PlainExactIsConstant(site: Site)
    requires PlainExactSite(site)
    ensures ConstantSite(site)
  {
    hide HonoursFragment, WellFormedSite, PlainDestination;
  }

  lemma PathFits(lib: Library, rules: seq<Rule>, r: Rule, host: string, q: Rule)
    requires OnePerPath(rules) && r in rules && q in rules
    ensures R.Fits(lib, q, host, r.matcher.path) <==> q == r
  {
    var i :| 0 <= i < |rules| && rules[i] == r;
    var j :| 0 <= j < |rules| && rules[j] == q;
  }

  /** A client at a redirect rule's path goes to its destination. */
  lemma GoesToDestination(site: Site, r: Rule, host: string)
    requires PlainExactSite(site) && r in RedirectRules(site.rules) && SlashFree(host)
    ensures Next(site, Visit(host, r.matcher.path)) == Some(Visit(host, r.response.GetLocation()))
    ensures LintPath(site, r) == r.response.GetLocation() && site.normal(LintPath(site, r)) == LintPath(site, r)
  {
    hide R.Fits, HonoursFragment;
    var v, d := Visit(host, r.matcher.path), r.response.GetLocation();
    forall q | q in site.rules ensures R.Fits(site.lib, q, host, v.path) <==> q == r {
      PathFits(site.lib, site.rules, r, host, q);
    }
    assert R.WellFormedRequest(host, v.path) by {
      var i :| 0 <= i < |site.rules| && site.rules[i] == r;
    }
    OnlyFitServes(site, v, r);
    BarePath(d, "");
    assert d + "" == d;
  }

  function PathOf(site: Site, i: nat): string
    requires i < |RedirectRules(site.rules)|
  {
    RedirectRules(site.rules)[i].matcher.path
  }

  ghost predicate Drawn(site: Site, adj: Graph)
  {
    IsGraph(site.lib, site.parse, RedirectRules(site.rules), LocalHosts(site.rules), adj)
  }

  /** Every edge of the graph is a redirect clients follow. */
  lemma EdgeIsHop(site: Site, adj: Graph, i: nat, j: nat, host: string)
    requires PlainExactSite(site) && Drawn(site, adj) && Edge(adj, i, j) && SlashFree(host)
    ensures i < |RedirectRules(site.rules)| && j < |RedirectRules(site.rules)|
    ensures Next(site, Visit(host, PathOf(site, i))) == Some(Visit(host, PathOf(site, j)))
    ensures site.normal(PathOf(site, j)) == PathOf(site, j)
  {
    hide PlainExactSite, Next, DestinationPath;
    var rs := RedirectRules(site.rules);
    assert Leads(site.lib, site.parse, rs, LocalHosts(site.rules), i, j);
    assert rs[j] in rs && rs[i] in rs;
    ExactKind(site, rs[j]);
    GoesToDestination(site, rs[i], host);
    assert Target(site.lib, site.parse, rs, LocalHosts(site.rules), i) == LintPath(site, rs[i]);
  }

  lemma ExactKind(site: Site, r: Rule)
    requires PlainExactSite(site) && r in RedirectRules(site.rules)
    ensures r.matcher.kind.Exact? && R.SlashLed(r.matcher.path)
  {
    var i :| 0 <= i < |site.rules| && site.rules[i] == r;
  }

  /** Clients go round a closed walk of the graph forever. */
  lemma {:induction false} RoundForever(site: Site, adj: Graph, w: seq<Node>, i: nat, host: string, n: nat)
    requires PlainExactSite(site) && Drawn(site, adj) && ClosedWalk(adj, w) && i < |w| - 1 && SlashFree(host)
    ensures w[i] < |RedirectRules(site.rules)| && !EndsWithin(site, Visit(host, PathOf(site, w[i])), n)
    decreases n
  {
    hide PlainExactSite, Drawn, Next, PathOf;
    assert Edge(adj, w[i], w[i + 1]);
    EdgeIsHop(site, adj, w[i], w[i + 1], host);
    if n > 0 {
      RoundForever(site, adj, w, if i + 1 == |w| - 1 then 0 else i + 1, host, n - 1);
    }
  }

  lemma ReportedIsEndless(site: Site, adj: Graph, w: seq<Node>, host: string) returns (v: Visit)
    requires PlainExactSite(site) && Drawn(site, adj) && ClosedWalk(adj, w) && SlashFree(host) && site.reaches(host)
    ensures WellFormedVisit(site, v) && !Finite(site, v)
  {
    hide PlainExactSite, Drawn, EndsWithin;
    var i := if |w| == 2 then 0 else 1;
    assert Edge(adj, w[0], w[1]);
    EdgeIsHop(site, adj, w[0], w[1], host);
    assert w[i] == w[1];
    v := Visit(host, PathOf(site, w[1]));
    ExactKind(site, RedirectRules(site.rules)[w[1]]);
    forall n: nat ensures !EndsWithin(site, v, n) {
      RoundForever(site, adj, w, i, host, n);
    }
  }

  /** The verdict on such rules is exact, whether or not it is clean. */
  lemma ExactVerdict(site: Site, adj: Graph, rank: map<Node, nat>, host: string)
    requires PlainExactSite(site) && Drawn(site, adj) && SlashFree(host) && site.reaches(host)
    requires (exists w :: ClosedWalk(adj, w)) || Clean(site, adj, rank)
    ensures (forall v :: WellFormedVisit(site, v) ==> Finite(site, v)) <==>
            !(exists w :: ClosedWalk(adj, w)) && NoneAnswersItself(site)
  {
    hide PlainExactSite, Drawn, Clean, ClosedWalk, WellFormedVisit, Finite, NoneAnswersItself;
    if exists w :: ClosedWalk(adj, w) {
      var w :| ClosedWalk(adj, w);
      var v := ReportedIsEndless(site, adj, w, host);
    } else {
      PlainExactIsConstant(site);
      ConstantChainsFiniteIff(site, adj, rank);
    }
  }
}
