/**
 Which redirect rules the linter can read, checkable rule by rule, and what checkCircularRedirects
 returning nothing then promises.  For rules with constant destinations the promise is exact.
 */
module CleanLint {
  import opened Text
  import opened Glob
  import opened Config
  import opened LintGlob
  import opened CycleKeys
  import opened CycleSearch
  import opened RedirectGraph
  import opened Serving
  import opened PrefixLoops
  import opened Chains
  import R = Router

  // ---------- conditions on single rules ----------

  /** The linter over-approximates what the rule matches. */
  predicate Readable(q: Rule)
  {
    q.matcher.kind.Glob? ==> Understood(q.matcher.pattern) && q.compiled == Some(Compiled(q.matcher.pattern))
  }

  /** After validation a glob is readable exactly when the linter understands its shape. */
  lemma ValidatedReadable(lib: Library, c: Config, q: Rule)
    requires PassedValidation(lib, c) && q in c.rules && q.matcher.kind.Glob?
    ensures Readable(q) <==> Understood(q.matcher.pattern)
  {
    var i :| 0 <= i < |c.rules| && c.rules[i] == q;
    assert WithPatterns(c.rules)[i] == WithPattern(q);
  }

  ghost predicate CaptureFree(lib: Library, r: Rule)
  {
    r.compiled.Some? ==>
      forall p :: lib.submatch(r.compiled.value, p).Some? ==> |lib.submatch(r.compiled.value, p).value| <= 1
  }

  /** Every path the rule answers is sent to the one destination written in the rule. */
  ghost predicate ConstantDestination(lib: Library, r: Rule)
  {
    match r.matcher.kind
    case Exact => true
    case Prefix => !r.response.preservePath
    case Regex => CaptureFree(lib, r)
    case Glob => Readable(r)
    case Other(_) => true
  }

  /**
   A destination the linter and a client read alike: a bare local path that normalisation leaves alone, or one that
   clients do not follow, or a URL that is not relative and, if its host reaches this service, one the linter can
   parse too, to a host that some rule names and the path that clients request.
   */
  predicate PlainDestination(site: Site, d: string)
  {
    && d != ""
    && if "/" <= d then LocalReference(d) && Bare(d) && site.normal(d) == d
       else site.browse(d).Some? ==> PlainUrl(site, d, site.browse(d).value)
  }

  predicate PlainUrl(site: Site, d: string, u: Url)
  {
    && !Relative(u)
    && (site.reaches(u.host) ==>
          && site.parse(d).Some? && site.parse(d).value.hostname in LocalHosts(site.rules)
          && site.normal(LocalPath(u)) == LocalPath(u) == LocalPath(site.parse(d).value))
  }

  /** A preserve_path rule whose outputs no redirect rule tells apart beyond the written destination. */
  ghost predicate PreservesPlainly(site: Site, r: Rule)
  {
    && PlainPreserve(r) && Keeps(site, r)
    && forall q :: q in RedirectRules(site.rules) ==>
         (q.matcher.kind.Exact? || q.matcher.kind.Prefix?) && !(r.response.GetLocation() < q.matcher.path)
  }

  // ---------- those conditions make rules legible ----------

  lemma ConstantForward(site: Site, v: Visit)
    requires HonoursFragment(site.lib) && WellFormedSite(site) && WellFormedVisit(site, v) && Serve(site, v).Forward?
    requires ConstantDestination(site.lib, Serve(site, v).rule)
    ensures Serve(site, v).destination == Serve(site, v).rule.response.GetLocation()
  {
    hide R.Find, R.AllowedHost, R.WellFormedRequest;
    ForwardFits(site, v);
    R.AnswersExactly(site.lib, site.rules, v.host, v.path);
    var r := Serve(site, v).rule;
    if r.matcher.kind.Glob? {
      GlobRulesCompile(site.lib, r.matcher.pattern, v.path);
    }
  }

  lemma ReadableFits(site: Site, q: Rule, host: string, path: string)
    requires HonoursFragment(site.lib) && Readable(q) && R.Fits(site.lib, q, host, path)
    ensures PathMatchesRule(site.lib, path, q)
  {
    if q.matcher.kind.Glob? {
      GlobRulesCompile(site.lib, q.matcher.pattern, path);
      UnderstoodIsSound(q.matcher.pattern, path);
    }
  }

  /** A client at the root of a host. */
  function At(host: string): Visit
  {
    Visit(host, "/")
  }

  /** A plain destination takes every client to the path the linter reads off it. */
  lemma PlainFollow(site: Site, v: Visit, r: Rule)
    requires WellFormedSite(site) && SlashFree(v.host) && site.reaches(v.host)
    requires PlainDestination(site, r.response.GetLocation())
    ensures var w := Follow(site, v, r.response.GetLocation());
            w.Some? ==> WellFormedVisit(site, w.value) && w.value.path == LintPath(site, r) && w.value.path != ""
    ensures Follow(site, v, r.response.GetLocation()) == Follow(site, At(v.host), r.response.GetLocation())
  {
    var d := r.response.GetLocation();
    if "/" <= d {
      BarePath(d, "");
      assert d + "" == d;
    }
  }

  lemma ConstantIsLegible(site: Site, r: Rule)
    requires HonoursFragment(site.lib) && WellFormedSite(site)
    requires forall q :: q in RedirectRules(site.rules) ==> Readable(q)
    requires ConstantDestination(site.lib, r) && PlainDestination(site, r.response.GetLocation())
    ensures Legible(site, r)
  {
    hide ConstantDestination, Serve, Follow, R.Fits, R.WellFormedRequest, HonoursFragment, WellFormedSite, Readable;
    hide PathMatchesRule, DestinationPath, PlainDestination;
    forall v, w | WellFormedVisit(site, v) && Sends(site, v, r, w)
      ensures WellFormedVisit(site, w) && Seen(site, r, w)
    {
      ConstantForward(site, v);
      HostSlashFree(site, v);
      PlainFollow(site, v, r);
      forall q | q in RedirectRules(site.rules) && R.Fits(site.lib, q, w.host, w.path)
        ensures LintPath(site, r) != "" && PathMatchesRule(site.lib, LintPath(site, r), q)
      {
        ReadableFits(site, q, w.host, w.path);
      }
    }
  }

  lemma HostSlashFree(site: Site, v: Visit)
    requires WellFormedVisit(site, v)
    ensures SlashFree(v.host) && site.reaches(v.host)
  {
  }

  /** A preserve_path rule sends clients where Applied says. */
  lemma PreserveForward(site: Site, v: Visit, r: Rule, w: Visit)
    requires WellFormedSite(site) && WellFormedVisit(site, v) && Sends(site, v, r, w)
    requires r.matcher.kind.Prefix? && r.response.preservePath
    ensures R.PrefixFits(r, v.host, v.path) && Applied(site, r, v) == Some(w)
  {
    hide R.Find, R.AllowedHost, R.WellFormedRequest, Follow;
    R.AnswersExactly(site.lib, site.rules, v.host, v.path);
    PrefixHitFits(site.lib, site.rules, v.host, v.path);
  }

  lemma ExtensionMatches(lib: Library, d: string, path: string, q: Rule, host: string)
    requires d <= path && R.Fits(lib, q, host, path)
    requires (q.matcher.kind.Exact? || q.matcher.kind.Prefix?) && !(d < q.matcher.path)
    ensures PathMatchesRule(lib, d, q)
  {
    PrefixesNest(q.matcher.path, d, path);
    PrefixesNest(d, q.matcher.path, path);
  }

  lemma PreserveIsLegible(site: Site, r: Rule)
    requires WellFormedSite(site) && PreservesPlainly(site, r)
    ensures Legible(site, r)
  {
    hide Serve, R.Fits, WellFormedVisit, PathMatchesRule, Sends, WellFormedSite, Applied, Bare;
    forall v, w | WellFormedVisit(site, v) && Sends(site, v, r, w)
      ensures WellFormedVisit(site, w) && Seen(site, r, w)
    {
      PreserveForward(site, v, r, w);
      forall q | q in RedirectRules(site.rules) && R.Fits(site.lib, q, w.host, w.path)
        ensures LintPath(site, r) != "" && PathMatchesRule(site.lib, LintPath(site, r), q)
      {
        ExtensionMatches(site.lib, r.response.GetLocation(), w.path, q, w.host);
      }
    }
  }

  // ---------- constant destinations: an exact answer ----------

  /** The router sends rule r's own destination back to r. */
  predicate AnswersItself(site: Site, r: Rule, host: string)
  {
    var w := Follow(site, At(host), r.response.GetLocation());
    w.Some? && Serve(site, w.value).Forward? && Serve(site, w.value).rule == r
  }

  lemma {:induction false} Spins(site: Site, w: Visit, n: nat)
    requires Next(site, w) == Some(w)
    ensures !EndsWithin(site, w, n)
    decreases n
  {
    if n > 0 {
      Spins(site, w, n - 1);
    }
  }

  lemma AnsweringItselfSpins(site: Site, r: Rule, host: string) returns (w: Visit)
    requires HonoursFragment(site.lib) && WellFormedSite(site) && SlashFree(host) && site.reaches(host)
    requires ConstantDestination(site.lib, r) && PlainDestination(site, r.response.GetLocation())
    requires AnswersItself(site, r, host)
    ensures WellFormedVisit(site, w) && Next(site, w) == Some(w)
  {
    PlainFollow(site, At(host), r);
    w := Follow(site, At(host), r.response.GetLocation()).value;
    ConstantForward(site, w);
  }

  /** Following redirects from v stops. */
  ghost predicate Finite(site: Site, v: Visit)
  {
    exists n: nat :: EndsWithin(site, v, n)
  }

  /** Every redirect rule has one destination, which clients and linter read alike, and a pattern the linter can read. */
  ghost predicate ConstantSite(site: Site)
  {
    && HonoursFragment(site.lib) && WellFormedSite(site)
    && forall r :: r in RedirectRules(site.rules) ==>
         ConstantDestination(site.lib, r) && PlainDestination(site, r.response.GetLocation()) && Readable(r)
  }

  /** No rule is the router's answer to its own destination. */
  ghost predicate NoneAnswersItself(site: Site)
  {
    forall r, host :: r in RedirectRules(site.rules) && SlashFree(host) && site.reaches(host) ==>
                        !AnswersItself(site, r, host)
  }

  /**
   After a clean lint, with constant destinations, every chain is finite exactly when no rule is the
   router's answer to its own destination, the one case the graph builder skips; and then every chain
   ends within as many redirects as there are redirect rules.
   */
  lemma ConstantChainsFiniteIff(site: Site, adj: Graph, rank: map<Node, nat>)
    requires ConstantSite(site) && Clean(site, adj, rank)
    ensures (forall v :: WellFormedVisit(site, v) ==> Finite(site, v)) <==> NoneAnswersItself(site)
    ensures NoneAnswersItself(site) ==>
              forall v :: WellFormedVisit(site, v) ==> EndsWithin(site, v, |RedirectRules(site.rules)|)
  {
    hide ConstantDestination, PlainDestination, Readable, Legible, HonoursFragment, WellFormedSite;
    hide Serve, Follow, EndsWithin;
    var rs := RedirectRules(site.rules);
    forall r, host | r in rs && SlashFree(host) && site.reaches(host)
      ensures AnswersItself(site, r, host) ==> exists v :: WellFormedVisit(site, v) && !Finite(site, v)
    {
      if AnswersItself(site, r, host) {
        var w := AnsweringItselfSpins(site, r, host);
        forall n: nat ensures !EndsWithin(site, w, n) {
          Spins(site, w, n);
        }
      }
    }
    if NoneAnswersItself(site) {
      ConstantNoSelfRoute(site);
      forall r | r in rs ensures Legible(site, r) {
        ConstantIsLegible(site, r);
      }
      forall v | WellFormedVisit(site, v) ensures EndsWithin(site, v, |rs|) {
        CleanLintBoundsChains(site, adj, rank, v);
      }
    }
  }

  lemma ConstantNoSelfRoute(site: Site)
    requires ConstantSite(site) && NoneAnswersItself(site)
    ensures NoSelfRoute(site)
  {
    hide ConstantDestination, Serve, Follow, HonoursFragment, WellFormedSite;
    forall v, r, w | WellFormedVisit(site, v) && Sends(site, v, r, w)
      ensures !(Serve(site, w).Forward? && Serve(site, w).rule == r)
    {
      ForwardFits(site, v);
      ConstantForward(site, v);
      HostSlashFree(site, v);
      PlainFollow(site, v, r);
      assert !AnswersItself(site, r, v.host);
    }
  }

  // ---------- mixed rules ----------

  /** Conditions on one redirect rule, beyond what the linter checks, that make its verdict binding. */
  ghost predicate Tame(site: Site, r: Rule)
  {
    && Readable(r)
    && ((ConstantDestination(site.lib, r) && PlainDestination(site, r.response.GetLocation())
         && !PathMatchesRule(site.lib, LintPath(site, r), r))
        || PreservesPlainly(site, r))
  }

  ghost predicate TameSite(site: Site)
  {
    HonoursFragment(site.lib) && WellFormedSite(site) && forall r :: r in RedirectRules(site.rules) ==> Tame(site, r)
  }

  lemma TameNoSelfRoute(site: Site, v: Visit, r: Rule, w: Visit)
    requires TameSite(site) && !Flagged(site.parse, LocalHosts(site.rules), r)
    requires WellFormedVisit(site, v) && Sends(site, v, r, w)
    ensures !(Serve(site, w).Forward? && Serve(site, w).rule == r)
  {
    hide ConstantDestination, Serve, Follow, HonoursFragment, WellFormedVisit, R.Fits, PathMatchesRule, WellFormedSite;
    hide PlainDestination, Keeps, Legible;
    ForwardFits(site, v);
    HostSlashFree(site, v);
    TameIsLegible(site, r);
    assert WellFormedVisit(site, w) by {
      LegibleOutput(site, v, r, w);
    }
    if R.Fits(site.lib, r, w.host, w.path) {
      if PreservesPlainly(site, r) {
        PreserveForward(site, v, r, w);
        KeptPath(site, r, v, w);
        ExtensionMatches(site.lib, r.response.GetLocation(), w.path, r, w.host);
        FlagReads(site, r);
      } else {
        ConstantForward(site, v);
        PlainFollow(site, v, r);
        ReadableFits(site, r, w.host, w.path);
      }
    }
    if Serve(site, w).Forward? {
      ForwardFits(site, w);
    }
  }

  lemma LegibleOutput(site: Site, v: Visit, r: Rule, w: Visit)
    requires Legible(site, r) && WellFormedVisit(site, v) && Sends(site, v, r, w)
    ensures WellFormedVisit(site, w)
  {
  }

  lemma KeptPath(site: Site, r: Rule, v: Visit, w: Visit)
    requires Keeps(site, r) && WellFormedVisit(site, v) && R.PrefixFits(r, v.host, v.path) && Applied(site, r, v) == Some(w)
    ensures r.response.GetLocation() <= w.path
  {
  }

  lemma TameIsLegible(site: Site, r: Rule)
    requires TameSite(site) && r in RedirectRules(site.rules)
    ensures Legible(site, r)
  {
    hide ConstantDestination, PlainDestination, HonoursFragment, WellFormedSite, Legible;
    if PreservesPlainly(site, r) {
      PreserveIsLegible(site, r);
    } else {
      ConstantIsLegible(site, r);
    }
  }

  lemma FlagReads(site: Site, r: Rule)
    requires PreservesPlainly(site, r)
    ensures PathMatchesRule(site.lib, r.response.GetLocation(), r) <==> Flagged(site.parse, LocalHosts(site.rules), r)
  {
    hide Keeps;
  }

  /** A clean graph and no flag bound every chain when each rule is tame, preserve_path included. */
  lemma TameChainsBounded(site: Site, adj: Graph, rank: map<Node, nat>, v: Visit)
    requires TameSite(site) && WellFormedVisit(site, v) && Clean(site, adj, rank)
    requires forall r :: r in RedirectRules(site.rules) ==> !Flagged(site.parse, LocalHosts(site.rules), r)
    ensures EndsWithin(site, v, |RedirectRules(site.rules)|)
  {
    hide Tame, Serve, Follow, HonoursFragment, WellFormedVisit, Flagged, Legible, WellFormedSite, Clean;
    forall r | r in RedirectRules(site.rules) ensures Legible(site, r) {
      TameIsLegible(site, r);
    }
    forall v', r, w | WellFormedVisit(site, v') && Sends(site, v', r, w)
      ensures !(Serve(site, w).Forward? && Serve(site, w).rule == r)
    {
      ForwardFits(site, v');
      TameNoSelfRoute(site, v', r, w);
    }
    CleanLintBoundsChains(site, adj, rank, v);
  }
}
