/**
 checkCircularRedirects, end to end, and the loops it does not report.
 */
module Linter {
  import opened Text
  import opened Glob
  import opened Config
  import opened RuleOrder
  import opened CycleKeys
  import opened CycleSearch
  import opened RedirectGraph
  import opened Serving
  import opened PrefixLoops
  import opened Chains
  import opened CleanLint
  import opened Verdict
  import opened LintMeaning
  import R = Router

  lemma {:induction false} RedirectRulesAppend(a: seq<Rule>, r: Rule)
    ensures RedirectRules(a + [r]) == RedirectRules(a) + (if r.response.IsRedirect() then [r] else [])
  {
    if a != [] {
      assert (a + [r])[1..] == a[1..] + [r];
      RedirectRulesAppend(a[1..], r);
    } else {
      assert a + [r] == [r] && [r][1..] == [];
    }
  }

  /**
   The cycles of the redirect graph and the flagged prefix rules, as positions among the redirect rules.
   When both lists are empty and the rules are tame at a site that serves them, every client stops within as
   many redirects as there are redirect rules; with constant destinations the verdict is exact up to rules
   that answer their own destination.
   */
  method CheckCircularRedirects(lib: Library, parse: UrlParser, rules: seq<Rule>, ghost site: Site)
    returns (redirectRules: seq<Rule>, chains: seq<seq<Node>>, flagged: seq<nat>, ghost adj: Graph)
    requires site.lib == lib && site.parse == parse && site.rules == rules
    ensures redirectRules == RedirectRules(rules)
    ensures IsGraph(lib, parse, redirectRules, LocalHosts(rules), adj)
    ensures HonoursFragment(lib) && rules != [] && Acceptable(lib, rules) && WithPatterns(rules) == rules ==>
              DrawnByMatches(lib, parse, rules, adj)
    ensures forall i :: 0 <= i < |chains| ==> SimpleCycle(adj, chains[i])
    ensures chains != [] <==> exists w :: ClosedWalk(adj, w)
    ensures UsableIDs(RuleIDs(redirectRules)) ==>
              NoRepeats(chains) && forall w :: ClosedWalk(adj, w) ==> SharesEdge(w, chains)
    ensures forall i :: 0 <= i < |redirectRules| ==>
                          (i in flagged <==> Flagged(parse, LocalHosts(rules), redirectRules[i]))
    ensures chains == [] && flagged == [] && TameSite(site) ==>
              forall v :: WellFormedVisit(site, v) ==> EndsWithin(site, v, |redirectRules|)
    ensures chains == [] && ConstantSite(site) ==>
              ((forall v :: WellFormedVisit(site, v) ==> Finite(site, v)) <==> NoneAnswersItself(site))
    ensures PlainExactSite(site) && (exists host :: SlashFree(host) && site.reaches(host)) ==>
              ((forall v :: WellFormedVisit(site, v) ==> Finite(site, v)) <==> chains == [] && NoneAnswersItself(site))
  {
    redirectRules := [];
    for i := 0 to |rules|
      invariant redirectRules == RedirectRules(rules[..i])
    {
      assert rules[..i + 1] == rules[..i] + [rules[i]];
      RedirectRulesAppend(rules[..i], rules[i]);
      if rules[i].response.IsRedirect() {
        redirectRules := redirectRules + [rules[i]];
      }
    }
    assert rules[..|rules|] == rules;
    hide *;
    var localHosts := CollectLocalHosts(rules);
    var graph := BuildRedirectGraph(lib, parse, redirectRules, localHosts);
    adj := graph;
    IsGraphWellFormed(lib, parse, redirectRules, localHosts, adj);
    if HonoursFragment(lib) && rules != [] && Acceptable(lib, rules) && WithPatterns(rules) == rules {
      EdgesOfValidated(lib, parse, rules, adj);
    }
    ghost var rank;
    chains, rank := FindCycles(RuleIDs(redirectRules), graph);
    flagged := CheckPrefixSelfLoops(parse, redirectRules, localHosts);
    if chains == [] {
      CleanFrom(site, adj, rank);
    }
    if chains == [] && ConstantSite(site) {
      ConstantChainsFiniteIff(site, adj, rank);
    }
    if PlainExactSite(site) && exists host :: SlashFree(host) && site.reaches(host) {
      ghost var host :| SlashFree(host) && site.reaches(host);
      ExactVerdict(site, adj, rank, host);
    }
    if chains == [] && flagged == [] && TameSite(site) {
      NothingFlagged(site, flagged);
      forall v | WellFormedVisit(site, v) ensures EndsWithin(site, v, |redirectRules|) {
        TameChainsBounded(site, adj, rank, v);
      }
    }
  }

  lemma IsGraphWellFormed(lib: Library, parse: UrlParser, rs: seq<Rule>, localHosts: set<string>, adj: Graph)
    requires IsGraph(lib, parse, rs, localHosts, adj)
    ensures WellFormed(adj, |RuleIDs(rs)|)
  {
  }

  lemma NothingFlagged(site: Site, flagged: seq<nat>)
    requires flagged == []
    requires forall i :: 0 <= i < |RedirectRules(site.rules)| ==>
               (i in flagged <==> Flagged(site.parse, LocalHosts(site.rules), RedirectRules(site.rules)[i]))
    ensures forall r :: r in RedirectRules(site.rules) ==> !Flagged(site.parse, LocalHosts(site.rules), r)
  {
    hide Flagged, LocalHosts, RedirectRules;
    forall r | r in RedirectRules(site.rules) ensures !Flagged(site.parse, LocalHosts(site.rules), r) {
      var i := IndexOf(RedirectRules(site.rules), r);
    }
  }

  lemma CleanFrom(site: Site, adj: Graph, rank: map<Node, nat>)
    requires IsGraph(site.lib, site.parse, RedirectRules(site.rules), LocalHosts(site.rules), adj)
    requires Ranking(adj, |RuleIDs(RedirectRules(site.rules))|, rank)
    ensures Clean(site, adj, rank)
  {
  }

  /** collectLocalHosts */
  method CollectLocalHosts(rules: seq<Rule>) returns (hosts: set<string>)
    ensures hosts == LocalHosts(rules)
    ensures forall h :: h in hosts <==> h != "" && exists r :: r in rules && r.matcher.host == h
  {
    hosts := {};
    for i := 0 to |rules|
      invariant forall h :: h in hosts <==> exists k :: 0 <= k < i && rules[k].matcher.host == h && h != ""
    {
      if rules[i].matcher.host != "" {
        hosts := hosts + {rules[i].matcher.host};
      }
    }
    forall h ensures h in hosts <==> h in LocalHosts(rules) {
    }
  }

  // ---------- loops a clean lint leaves in place ----------

  function Redirecting(id: string, kind: MatchType, path: string, to: string, preserve: bool): Rule
  {
    Rule(id, Matcher(kind, path, "", ""), Response(301, to, "", "", preserve, None, map[]), 0, None)
  }

  lemma {:induction false} PingPong(site: Site, v: Visit, w: Visit, n: nat)
    requires Next(site, v) == Some(w) && Next(site, w) == Some(v)
    ensures !EndsWithin(site, v, n)
    decreases n
  {
    if n > 0 {
      PingPong(site, w, v, n - 1);
    }
  }

  lemma BothRedirect(a: Rule, b: Rule)
    requires a.response.IsRedirect() && b.response.IsRedirect()
    ensures RedirectRules([a, b]) == [a, b] && RedirectRules([a]) == [a]
  {
    RedirectRulesAppend([], a);
    assert [] + [a] == [a];
    RedirectRulesAppend([a], b);
    assert [a] + [b] == [a, b];
  }

  lemma OneOfTwoServes(site: Site, v: Visit, r: Rule, other: Rule)
    requires site.rules == [r, other] || site.rules == [other, r]
    requires StableSorter(site.lib.sort) && R.KeySafe(site.rules) && R.WellFormedRequest(v.host, v.path)
    requires r.matcher.host == "" && r.response.IsRedirect() && !R.IsPattern(r)
    requires R.Fits(site.lib, r, v.host, v.path) && !R.Fits(site.lib, other, v.host, v.path)
    ensures r.matcher.kind.Prefix? ==> r.matcher.path <= v.path
    ensures Serve(site, v) == Forward(r, Destination(site.lib, R.Hit(r, []), v.path))
  {
    hide R.Fits, R.KeySafe, R.WellFormedRequest, Destination, StableSorter, Serve, R.IsPattern;
    OnlyFitServes(site, v, r);
  }

  const SELF := Redirecting("self", Exact, "/a", "/a", false)

  /** A rule redirecting its own path to itself: the graph builder skips i -> i and only prefix rules are checked apart. */
  lemma SelfRedirectUnreported(site: Site, n: nat)
    requires StableSorter(site.lib.sort) && site.rules == [SELF] && site.normal("/a") == "/a"
    ensures Clean(site, map[], map[0 := 0])
    ensures !Flagged(site.parse, LocalHosts([SELF]), SELF)
    ensures !EndsWithin(site, Visit("h", "/a"), n)
  {
    var v := Visit("h", "/a");
    hide EndsWithin, RedirectRules, StableSorter;
    BothRedirect(SELF, SELF);
    assert site.rules == [SELF];
    OnlyFitServes(site, v, SELF);
    PlainNext(site, v, "/a");
    PingPong(site, v, v, n);
  }

  const HERE := Redirecting("here", Exact, "/a", "https://h/a", false)

  /** An absolute URL back to a host that no rule names: the linter takes it to leave the service. */
  lemma UnnamedHostUnreported(site: Site, n: nat)
    requires StableSorter(site.lib.sort) && site.rules == [HERE] && site.normal("/a") == "/a"
    requires site.parse("https://h/a") == site.browse("https://h/a") == Some(Url("https", "h", "h", "/a"))
    requires site.reaches("h")
    ensures Clean(site, map[], map[0 := 0])
    ensures !Flagged(site.parse, LocalHosts([HERE]), HERE)
    ensures !EndsWithin(site, Visit("h", "/a"), n)
  {
    var v := Visit("h", "/a");
    hide EndsWithin, RedirectRules, StableSorter;
    BothRedirect(HERE, HERE);
    assert site.rules == [HERE];
    OnlyFitServes(site, v, HERE);
    assert "https://h/a"[0] == 'h';
    assert Next(site, v) == Some(v);
    PingPong(site, v, v, n);
  }

  const NEAR := Redirecting("near", Exact, "/a", "a", false)

  /** A relative reference without a leading slash: the linter takes it to leave the service too. */
  lemma RelativeUnreported(site: Site, n: nat)
    requires StableSorter(site.lib.sort) && site.rules == [NEAR] && site.normal("/a") == "/a"
    requires site.parse("a") == site.browse("a") == Some(Url("", "", "", "a")) && site.resolve("/a", "a") == "/a"
    ensures Clean(site, map[], map[0 := 0])
    ensures !Flagged(site.parse, LocalHosts([NEAR]), NEAR)
    ensures !EndsWithin(site, Visit("h", "/a"), n)
  {
    var v := Visit("h", "/a");
    hide EndsWithin, RedirectRules, StableSorter;
    BothRedirect(NEAR, NEAR);
    assert site.rules == [NEAR];
    OnlyFitServes(site, v, NEAR);
    assert "a"[0] == 'a';
    assert Next(site, v) == Some(v);
    PingPong(site, v, v, n);
  }

  const ODD := Redirecting("odd", Prefix, "/", "https://h/50%-off", false)

  /** A URL the linter cannot parse, though clients follow it, back to the service. */
  lemma UnparsedUnreported(site: Site, n: nat)
    requires StableSorter(site.lib.sort) && site.rules == [ODD] && site.normal("/50%-off") == "/50%-off"
    requires site.parse("https://h/50%-off").None? && site.reaches("h")
    requires site.browse("https://h/50%-off") == Some(Url("https", "h", "h", "/50%-off"))
    ensures Clean(site, map[], map[0 := 0])
    ensures !Flagged(site.parse, LocalHosts([ODD]), ODD)
    ensures !EndsWithin(site, Visit("h", "/50%-off"), n)
  {
    var v := Visit("h", "/50%-off");
    hide EndsWithin, RedirectRules, StableSorter;
    BothRedirect(ODD, ODD);
    assert site.rules == [ODD];
    assert "/" <= "/50%-off";
    OnlyFitServes(site, v, ODD);
    assert "https://h/50%-off"[0] == 'h';
    assert Next(site, v) == Some(v);
    PingPong(site, v, v, n);
  }

  const OVER := Redirecting("over", Exact, "/a", "//h/b", false)
  const BACKOVER := Redirecting("backover", Exact, "/b", "//h/a", false)

  lemma NamedNext(site: Site, path: string, to: string, r: Rule, other: Rule)
    requires StableSorter(site.lib.sort) && (site.rules == [r, other] || site.rules == [other, r])
    requires r == Redirecting(r.id, Exact, path, "//h" + to, false) && path != other.matcher.path
    requires other.matcher.kind.Exact? && R.KeySafe(site.rules) && R.WellFormedRequest("h", path)
    requires site.browse("//h" + to) == Some(Url("", "h", "h", to)) && to != "" && site.reaches("h")
    requires site.normal(to) == to
    ensures Next(site, Visit("h", path)) == Some(Visit("h", to))
  {
    hide StableSorter, R.KeySafe, R.WellFormedRequest, Serve;
    OneOfTwoServes(site, Visit("h", path), r, other);
    assert "//" <= "//h" + to;
  }

  /** Two slashes name a host: the linter takes the whole destination for a path that no rule matches. */
  lemma SchemeRelativeUnreported(site: Site, n: nat)
    requires StableSorter(site.lib.sort) && site.rules == [OVER, BACKOVER] && site.reaches("h")
    requires site.normal("/a") == "/a" && site.normal("/b") == "/b"
    requires site.browse("//h/a") == Some(Url("", "h", "h", "/a")) && site.browse("//h/b") == Some(Url("", "h", "h", "/b"))
    ensures Clean(site, map[], map[0 := 0, 1 := 0])
    ensures !EndsWithin(site, Visit("h", "/a"), n)
  {
    hide EndsWithin, Next, RedirectRules, StableSorter;
    BothRedirect(OVER, BACKOVER);
    assert "//h" + "/a" == "//h/a" && "//h" + "/b" == "//h/b";
    assert "/a"[1] == 'a' && "/b"[1] == 'b' && "//h/a"[1] == '/' && "//h/b"[1] == '/';
    NamedNext(site, "/a", "/b", OVER, BACKOVER);
    NamedNext(site, "/b", "/a", BACKOVER, OVER);
    PingPong(site, Visit("h", "/a"), Visit("h", "/b"), n);
  }

  const OUT := Redirecting("out", Prefix, "/a", "/b", true)
  const BACK := Redirecting("back", Prefix, "/b/c", "/a/c", true)

  lemma PreservedOut(site: Site)
    requires StableSorter(site.lib.sort) && site.rules == [BACK, OUT] && site.normal("/b/c") == "/b/c"
    ensures Next(site, Visit("h", "/a/c")) == Some(Visit("h", "/b/c"))
  {
    hide StableSorter, Serve, Next;
    assert "/a/c"[1] == 'a' && "/b/c"[1] == 'b';
    assert "/a/c" == "/a" + "/c" && "/a/c"[|"/a"|..] == "/c" && "/b/c" == "/b" + "/c";
    OneOfTwoServes(site, Visit("h", "/a/c"), OUT, BACK);
    PlainNext(site, Visit("h", "/a/c"), "/b/c");
  }

  lemma PreservedBack(site: Site)
    requires StableSorter(site.lib.sort) && site.rules == [BACK, OUT] && site.normal("/a/c") == "/a/c"
    ensures Next(site, Visit("h", "/b/c")) == Some(Visit("h", "/a/c"))
  {
    hide StableSorter, Serve, Next;
    assert "/b/c"[1] == 'b' && "/a"[1] == 'a';
    assert "/b/c"[|"/b/c"|..] == "" && "/a/c" + "" == "/a/c";
    OneOfTwoServes(site, Visit("h", "/b/c"), BACK, OUT);
    PlainNext(site, Visit("h", "/b/c"), "/a/c");
  }

  /** Two preserve_path rules passing longer paths back and forth: neither written destination shows it. */
  lemma PreservedCycleUnreported(site: Site, n: nat)
    requires StableSorter(site.lib.sort) && site.rules == [BACK, OUT]
    requires site.normal("/a/c") == "/a/c" && site.normal("/b/c") == "/b/c"
    ensures Clean(site, map[0 := [1]], map[0 := 1, 1 := 0])
    ensures !Flagged(site.parse, LocalHosts(site.rules), OUT) && !Flagged(site.parse, LocalHosts(site.rules), BACK)
    ensures !EndsWithin(site, Visit("h", "/a/c"), n)
  {
    hide EndsWithin, Next, RedirectRules, StableSorter;
    BothRedirect(BACK, OUT);
    assert "/b"[1] == 'b' && "/a/c"[1] == 'a' && "/a/c" == "/a" + "/c";
    PreservedOut(site);
    PreservedBack(site);
    PingPong(site, Visit("h", "/a/c"), Visit("h", "/b/c"), n);
  }

  const THERE := Redirecting("there", Exact, "/a", "/b?x", false)
  const AGAIN := Redirecting("again", Exact, "/b", "/a?x", false)

  lemma QueryNext(site: Site, v: Visit, d: string)
    requires Serve(site, v).Forward? && Serve(site, v).destination == d + ("?" + "x")
    requires |d| > 1 && d[0] == '/' && d[1] != '/' && Bare(d) && site.normal(d) == d
    ensures Next(site, v) == Some(Visit(v.host, d))
  {
    CutAtQuery(d, "x");
    BarePath(d, "");
    assert d + "" == d;
  }

  lemma QueryThere(site: Site)
    requires StableSorter(site.lib.sort) && site.rules == [THERE, AGAIN] && site.normal("/b") == "/b"
    ensures Next(site, Visit("h", "/a")) == Some(Visit("h", "/b"))
  {
    hide StableSorter, Serve, Next;
    assert "/a"[1] == 'a' && "/b"[1] == 'b';
    OneOfTwoServes(site, Visit("h", "/a"), THERE, AGAIN);
    assert "/b" + ("?" + "x") == "/b?x";
    QueryNext(site, Visit("h", "/a"), "/b");
  }

  lemma QueryAgain(site: Site)
    requires StableSorter(site.lib.sort) && site.rules == [THERE, AGAIN] && site.normal("/a") == "/a"
    ensures Next(site, Visit("h", "/b")) == Some(Visit("h", "/a"))
  {
    hide StableSorter, Serve, Next;
    assert "/a"[1] == 'a' && "/b"[1] == 'b';
    OneOfTwoServes(site, Visit("h", "/b"), AGAIN, THERE);
    assert "/a" + ("?" + "x") == "/a?x";
    QueryNext(site, Visit("h", "/b"), "/a");
  }

  /** A query in a local destination hides the rule it leads to. */
  lemma QueryCycleUnreported(site: Site, n: nat)
    requires StableSorter(site.lib.sort) && site.rules == [THERE, AGAIN]
    requires site.normal("/a") == "/a" && site.normal("/b") == "/b"
    ensures Clean(site, map[], map[0 := 0, 1 := 0])
    ensures !EndsWithin(site, Visit("h", "/a"), n)
  {
    hide EndsWithin, Next, RedirectRules, StableSorter;
    BothRedirect(THERE, AGAIN);
    QueryThere(site);
    QueryAgain(site);
    PingPong(site, Visit("h", "/a"), Visit("h", "/b"), n);
  }
}
