/**
 What a clean lint result is worth: when the linter finds no cycle and can read every redirect
 rule, clients that follow redirects stop, after at most as many steps as there are redirect rules.
 */
module Chains {
  import opened Text
  import opened Config
  import opened CycleKeys
  import opened CycleSearch
  import opened RedirectGraph
  import opened Serving
  import R = Router

  function RedirectRules(rules: seq<Rule>): (rs: seq<Rule>)
    ensures forall r :: r in rs <==> r in rules && r.response.IsRedirect()
  {
    if rules == [] then []
    else
      var rest := RedirectRules(rules[1..]);
      assert forall r :: r in rules <==> r == rules[0] || r in rules[1..];
      if rules[0].response.IsRedirect() then [rules[0]] + rest else rest
  }

  /** Rule r redirects visit v to visit w of this service. */
  predicate Sends(site: Site, v: Visit, r: Rule, w: Visit)
  {
    Serve(site, v).Forward? && Serve(site, v).rule == r && Next(site, v) == Some(w)
  }

  function LintPath(site: Site, r: Rule): string
  {
    DestinationPath(site.parse, r.response.GetLocation(), LocalHosts(site.rules))
  }

  /** What the linter sees r's destination match covers every redirect rule that fits r's output. */
  predicate Seen(site: Site, r: Rule, w: Visit)
  {
    forall q :: q in RedirectRules(site.rules) && R.Fits(site.lib, q, w.host, w.path) ==>
                  LintPath(site, r) != "" && PathMatchesRule(site.lib, LintPath(site, r), q)
  }

  /** The linter reads r right: r's outputs are visits to this service, and it sees whatever they match. */
  ghost predicate Legible(site: Site, r: Rule)
  {
    forall v, w :: WellFormedVisit(site, v) && Sends(site, v, r, w) ==> WellFormedVisit(site, w) && Seen(site, r, w)
  }

  /** No rule answers its own output. */
  ghost predicate NoSelfRoute(site: Site)
  {
    forall v, r, w :: WellFormedVisit(site, v) && Sends(site, v, r, w) ==>
                        !(Serve(site, w).Forward? && Serve(site, w).rule == r)
  }

  // ---------- one hop falls in rank ----------

  function IndexOf(rs: seq<Rule>, r: Rule): (i: nat)
    requires r in rs
    ensures i < |rs| && rs[i] == r
  {
    if rs[0] == r then 0 else 1 + IndexOf(rs[1..], r)
  }

  lemma ForwardFits(site: Site, v: Visit)
    requires WellFormedSite(site) && WellFormedVisit(site, v) && Serve(site, v).Forward?
    ensures Serve(site, v).rule in RedirectRules(site.rules)
    ensures R.Fits(site.lib, Serve(site, v).rule, v.host, v.path)
    ensures R.Find(site.lib, R.Build(site.lib, site.rules), v.host, v.path).Hit?
    ensures Serve(site, v).rule == R.Find(site.lib, R.Build(site.lib, site.rules), v.host, v.path).rule
  {
    R.AnswersExactly(site.lib, site.rules, v.host, v.path);
  }

  ghost predicate Clean(site: Site, adj: Graph, rank: map<Node, nat>)
  {
    var rs := RedirectRules(site.rules);
    IsGraph(site.lib, site.parse, rs, LocalHosts(site.rules), adj) && Ranking(adj, |rs|, rank)
  }

  lemma HopFalls(site: Site, adj: Graph, rank: map<Node, nat>, v: Visit, r: Rule, w: Visit)
    requires WellFormedSite(site) && WellFormedVisit(site, v) && Clean(site, adj, rank)
    requires Legible(site, r) && Sends(site, v, r, w) && r in RedirectRules(site.rules)
    requires Serve(site, w).Forward? && Serve(site, w).rule != r
    ensures var rs, q := RedirectRules(site.rules), Serve(site, w).rule;
            && q in rs
            && IndexOf(rs, q) in rank && IndexOf(rs, r) in rank
            && rank[IndexOf(rs, q)] < rank[IndexOf(rs, r)]
  {
    hide R.Fits, Serve, Next, WellFormedVisit, Leads;
    ForwardFits(site, w);
    var rs, q := RedirectRules(site.rules), Serve(site, w).rule;
    var i, j := IndexOf(rs, r), IndexOf(rs, q);
    SeenLeads(site, v, r, w, q, i, j);
    assert Edge(adj, i, j);
  }

  lemma SeenLeads(site: Site, v: Visit, r: Rule, w: Visit, q: Rule, i: nat, j: nat)
    requires WellFormedVisit(site, v) && Legible(site, r) && Sends(site, v, r, w)
    requires q in RedirectRules(site.rules) && R.Fits(site.lib, q, w.host, w.path) && q != r
    requires i < |RedirectRules(site.rules)| && RedirectRules(site.rules)[i] == r
    requires j < |RedirectRules(site.rules)| && RedirectRules(site.rules)[j] == q
    ensures Leads(site.lib, site.parse, RedirectRules(site.rules), LocalHosts(site.rules), i, j)
  {
    hide R.Fits, Serve, Next, WellFormedVisit, PathMatchesRule, DestinationPath, RedirectRules;
    assert Target(site.lib, site.parse, RedirectRules(site.rules), LocalHosts(site.rules), i) == LintPath(site, r);
  }

  lemma {:induction false} ChainEnds(site: Site, adj: Graph, rank: map<Node, nat>, v: Visit, n: nat)
    requires WellFormedSite(site) && WellFormedVisit(site, v) && Clean(site, adj, rank)
    requires forall r :: r in RedirectRules(site.rules) ==> Legible(site, r)
    requires NoSelfRoute(site)
    requires Serve(site, v).Forward? ==>
               var rs, r := RedirectRules(site.rules), Serve(site, v).rule;
               r in rs && IndexOf(rs, r) in rank && rank[IndexOf(rs, r)] < n
    ensures EndsWithin(site, v, n)
    decreases n
  {
    if Next(site, v).Some? {
      var r, w := Serve(site, v).rule, Next(site, v).value;
      assert Sends(site, v, r, w);
      ForwardFits(site, v);
      if Serve(site, w).Forward? {
        HopFalls(site, adj, rank, v, r, w);
      }
      ChainEnds(site, adj, rank, w, n - 1);
    }
  }

  /** A clean lint bounds every chain by the number of redirect rules. */
  lemma CleanLintBoundsChains(site: Site, adj: Graph, rank: map<Node, nat>, v: Visit)
    requires WellFormedSite(site) && WellFormedVisit(site, v) && Clean(site, adj, rank)
    requires forall r :: r in RedirectRules(site.rules) ==> Legible(site, r)
    requires NoSelfRoute(site)
    ensures EndsWithin(site, v, |RedirectRules(site.rules)|)
  {
    if Serve(site, v).Forward? {
      ForwardFits(site, v);
    }
    ChainEnds(site, adj, rank, v, |RedirectRules(site.rules)|);
  }
}
