/**
 What the linter's graph says of the service: for validated rules, which edges it draws in terms of what the
 rules match, and where its reading is wider than the router's.
 */
module LintMeaning {
  import opened Text
  import opened Glob
  import opened Config
  import opened LintGlob
  import opened CycleSearch
  import opened RedirectGraph
  import opened Chains
  import R = Router

  /** What a rule matches, read off the rule as it was written. */
  ghost predicate Written(lib: Library, q: Rule, path: string)
  {
    match q.matcher.kind
    case Exact => path == q.matcher.path
    case Prefix => q.matcher.path <= path
    case Regex => lib.submatch(q.matcher.pattern, path).Some?
    case Glob => Denotes(q.matcher.pattern, path, false)
    case Other(_) => false
  }

  lemma ValidatedCompiled(lib: Library, c: Config, q: Rule)
    requires PassedValidation(lib, c) && q in c.rules
    ensures RuleError(lib, q).None? && WithPattern(q) == q
  {
    var i :| 0 <= i < |c.rules| && c.rules[i] == q;
    assert WithPatterns(c.rules)[i] == WithPattern(q);
  }

  /** A validated rule fits the requests for its host, or for any, that it was written to match. */
  lemma ValidatedFits(lib: Library, c: Config, q: Rule, host: string, path: string)
    requires HonoursFragment(lib) && PassedValidation(lib, c) && q in c.rules
    ensures R.Fits(lib, q, host, path) <==>
            (q.matcher.host == "" || q.matcher.host == host) && Written(lib, q, path)
  {
    hide HonoursFragment;
    ValidatedCompiled(lib, c, q);
    if q.matcher.kind.Glob? {
      GlobRulesCompile(lib, q.matcher.pattern, path);
    }
  }

  /**
   The linter takes a validated rule to match exactly what it was written to match, but for its host and unless it
   is a glob; a glob it reads by its ending alone.
   */
  lemma LinterReads(lib: Library, c: Config, q: Rule, path: string)
    requires HonoursFragment(lib) && PassedValidation(lib, c) && q in c.rules
    ensures !q.matcher.kind.Glob? ==>
              (PathMatchesRule(lib, path, q) <==> R.Fits(lib, q, q.matcher.host, path))
    ensures q.matcher.kind.Glob? ==>
              (PathMatchesRule(lib, path, q) <==>
               exists w :: (q.matcher.pattern == w + "/**" && w <= path)
                           || (q.matcher.pattern == w + "/*" && (w == "" || w + "/" <= path)))
  {
    ValidatedFits(lib, c, q, q.matcher.host, path);
    ValidatedCompiled(lib, c, q);
    if q.matcher.kind.Glob? {
      ReadByAnyEnding(q.matcher.pattern, path);
    }
  }

  lemma ReadByAnyEnding(pattern: string, path: string)
    ensures GlobMatchesPath(pattern, path) <==>
            exists w :: (pattern == w + "/**" && w <= path) || (pattern == w + "/*" && (w == "" || w + "/" <= path))
  {
    hide GlobMatchesPath;
    NoOtherEnding(pattern, path);
    forall w | pattern == w + "/**" || pattern == w + "/*"
      ensures pattern == w + "/**" ==> (GlobMatchesPath(pattern, path) <==> w <= path)
      ensures pattern == w + "/*" ==> (GlobMatchesPath(pattern, path) <==> w == "" || w + "/" <= path)
    {
      ReadByEnding(w, path);
    }
  }

  /** The path the linter reads off a destination: local, or of a URL to a host that some rule names. */
  ghost predicate ReadsAs(parse: UrlParser, rules: seq<Rule>, dest: string, path: string)
  {
    if "/" <= dest then path == dest
    else
      && parse(dest).Some?
      && (exists r :: r in rules && r.matcher.host != "" && r.matcher.host == parse(dest).value.hostname)
      && path == if parse(dest).value.path == "" then "/" else parse(dest).value.path
  }

  lemma DestinationRead(parse: UrlParser, rules: seq<Rule>, dest: string, path: string)
    ensures path != "" && DestinationPath(parse, dest, LocalHosts(rules)) == path <==> ReadsAs(parse, rules, dest, path)
  {
    if parse(dest).Some? {
      var h := parse(dest).value.hostname;
      assert h in LocalHosts(rules) <==> exists r :: r in rules && r.matcher.host != "" && r.matcher.host == h;
      if h in LocalHosts(rules) {
        assert |LocalHosts(rules)| > 0;
      }
    }
  }

  /**
   The edges of the graph over a validated configuration's redirect rules: from i to another j whenever the path read
   off i's destination is one rule j matches, or, for a glob, one that agrees with its ending.
   */
  ghost predicate DrawnByMatches(lib: Library, parse: UrlParser, rules: seq<Rule>, adj: Graph)
  {
    var rs := RedirectRules(rules);
    forall i: nat, j: nat :: i < |rs| && j < |rs| ==>
      (Edge(adj, i, j) <==>
       i != j && exists path :: ReadsAs(parse, rules, rs[i].response.GetLocation(), path) && Taken(lib, rs[j], path))
  }

  ghost predicate Taken(lib: Library, q: Rule, path: string)
  {
    if q.matcher.kind.Glob? then
      exists w :: (q.matcher.pattern == w + "/**" && w <= path)
                  || (q.matcher.pattern == w + "/*" && (w == "" || w + "/" <= path))
    else R.Fits(lib, q, q.matcher.host, path)
  }

  lemma EdgesByMatches(lib: Library, parse: UrlParser, c: Config, adj: Graph)
    requires HonoursFragment(lib) && PassedValidation(lib, c)
    requires IsGraph(lib, parse, RedirectRules(c.rules), LocalHosts(c.rules), adj)
    ensures DrawnByMatches(lib, parse, c.rules, adj)
  {
    hide HonoursFragment, PassedValidation, PathMatchesRule, R.Fits, DestinationPath, ReadsAs, Taken;
    var rs := RedirectRules(c.rules);
    forall i: nat, j: nat | i < |rs| && j < |rs|
      ensures Edge(adj, i, j) <==>
              i != j && exists path :: ReadsAs(parse, c.rules, rs[i].response.GetLocation(), path) && Taken(lib, rs[j], path)
    {
      assert rs[j] in rs;
      var target := Target(lib, parse, rs, LocalHosts(c.rules), i);
      forall path
        ensures path != "" && target == path <==> ReadsAs(parse, c.rules, rs[i].response.GetLocation(), path)
        ensures PathMatchesRule(lib, path, rs[j]) <==> Taken(lib, rs[j], path)
      {
        DestinationRead(parse, c.rules, rs[i].response.GetLocation(), path);
        TakenIsRead(lib, c, rs[j], path);
      }
      assert Edge(adj, i, j) <==> Leads(lib, parse, rs, LocalHosts(c.rules), i, j);
    }
  }

  /** The same of a list of rules that validation accepts and leaves as it is. */
  lemma EdgesOfValidated(lib: Library, parse: UrlParser, rules: seq<Rule>, adj: Graph)
    requires HonoursFragment(lib) && rules != [] && Acceptable(lib, rules) && WithPatterns(rules) == rules
    requires IsGraph(lib, parse, RedirectRules(rules), LocalHosts(rules), adj)
    ensures DrawnByMatches(lib, parse, rules, adj)
  {
    hide HonoursFragment, Acceptable, IsGraph, DrawnByMatches;
    EdgesByMatches(lib, parse, Config("", ServerConfig(0, 0), DefaultConfig(0, false), None, None, rules), adj);
  }

  lemma TakenIsRead(lib: Library, c: Config, q: Rule, path: string)
    requires HonoursFragment(lib) && PassedValidation(lib, c) && q in c.rules
    ensures PathMatchesRule(lib, path, q) <==> Taken(lib, q, path)
  {
    hide HonoursFragment, PassedValidation, PathMatchesRule, R.Fits;
    LinterReads(lib, c, q, path);
  }
}
