/**
 Prefix rules with preserve_path that redirect into their own match space (checkPrefixSelfLoops),
 and exactly which of them go on forever.
 */
module PrefixLoops {
  import opened Text
  import opened Glob
  import opened Config
  import opened RedirectGraph
  import opened Serving
  import R = Router

  predicate Flagged(parse: UrlParser, localHosts: set<string>, r: Rule)
  {
    var destPath := DestinationPath(parse, r.response.GetLocation(), localHosts);
    r.matcher.kind.Prefix? && r.response.preservePath && destPath != "" && r.matcher.path <= destPath
  }

  /** checkPrefixSelfLoops: the positions of the flagged rules, in order. */
  method CheckPrefixSelfLoops(parse: UrlParser, rules: seq<Rule>, localHosts: set<string>) returns (flagged: seq<nat>)
    ensures forall i :: 0 <= i < |rules| ==> (i in flagged <==> Flagged(parse, localHosts, rules[i]))
    ensures forall k :: 0 <= k < |flagged| ==> flagged[k] < |rules|
    ensures forall k, l :: 0 <= k < l < |flagged| ==> flagged[k] < flagged[l]
  {
    flagged := [];
    for i := 0 to |rules|
      invariant forall k :: 0 <= k < i ==> (k in flagged <==> Flagged(parse, localHosts, rules[k]))
      invariant forall k :: 0 <= k < |flagged| ==> flagged[k] < i
      invariant forall k, l :: 0 <= k < l < |flagged| ==> flagged[k] < flagged[l]
    {
      var rule := rules[i];
      if !rule.matcher.kind.Prefix? || !rule.response.preservePath {
        continue;
      }
      var destPath := DestinationPath(parse, rule.response.GetLocation(), localHosts);
      if destPath == "" {
        continue;
      }
      if rule.matcher.path <= destPath {
        flagged := flagged + [i];
      }
    }
  }

  /** Where a client goes when prefix rule r answers visit v. */
  function Applied(site: Site, r: Rule, v: Visit): Option<Visit>
    requires r.matcher.path <= v.path
  {
    Follow(site, v, r.response.GetLocation() + v.path[|r.matcher.path|..])
  }

  /** Rule r can be applied n times over to its own output, starting from v. */
  predicate Reapplies(site: Site, r: Rule, v: Visit, n: nat)
    decreases n
  {
    n > 0 ==>
      && R.PrefixFits(r, v.host, v.path)
      && Applied(site, r, v).Some?
      && Reapplies(site, r, Applied(site, r, v).value, n - 1)
  }

  predicate PlainPreserve(r: Rule)
  {
    && r.matcher.kind.Prefix? && r.response.preservePath
    && LocalReference(r.response.GetLocation()) && Bare(r.response.GetLocation())
  }

  /** Wherever r fits, clients end up where its host still fits, below path p, with no more than the suffix appended. */
  ghost predicate StaysUnder(site: Site, r: Rule, p: string)
  {
    forall v :: WellFormedVisit(site, v) && R.PrefixFits(r, v.host, v.path) ==>
      var w := Applied(site, r, v);
      && w.Some? && WellFormedVisit(site, w.value) && R.HostFits(r, w.value.host)
      && p <= w.value.path && |w.value.path| <= |p| + |v.path| - |r.matcher.path|
  }

  /** The rule keeps clients below its destination, read as a path. */
  ghost predicate Keeps(site: Site, r: Rule)
  {
    StaysUnder(site, r, r.response.GetLocation())
  }

  /** Normalisation leaves alone what the rule makes of visits to this service. */
  ghost predicate Steady(site: Site, r: Rule)
  {
    forall v :: WellFormedVisit(site, v) && R.PrefixFits(r, v.host, v.path) ==>
      var next := RequestPath(r.response.GetLocation() + v.path[|r.matcher.path|..]);
      site.normal(next) == next
  }

  /** A plain preserve_path rule keeps to its destination unless normalisation interferes or the destination is the root. */
  lemma SteadyKeeps(site: Site, r: Rule)
    requires PlainPreserve(r) && r.response.GetLocation() != "/" && Steady(site, r)
    ensures Keeps(site, r)
  {
    var d := r.response.GetLocation();
    forall v | WellFormedVisit(site, v) && R.PrefixFits(r, v.host, v.path)
      ensures Applied(site, r, v).Some? && WellFormedVisit(site, Applied(site, r, v).value)
      ensures Applied(site, r, v).value.host == v.host && d <= Applied(site, r, v).value.path
      ensures |Applied(site, r, v).value.path| <= |d| + |v.path| - |r.matcher.path|
    {
      var suffix := v.path[|r.matcher.path|..];
      assert (d + suffix)[0] == d[0] && (d + suffix)[1] == d[1];
      BarePath(d, suffix);
      RequestPathStops(suffix);
    }
  }

  lemma LocalApplied(site: Site, r: Rule, v: Visit, d: string)
    requires r.matcher.path <= v.path && r.response.GetLocation() + v.path[|r.matcher.path|..] == d
    requires LocalReference(d) && Bare(d)
    ensures Applied(site, r, v) == Some(Visit(v.host, site.normal(d)))
  {
    BarePath(d, "");
    assert d + "" == d;
  }

  /** Dots after a prefix that ends mid-segment become a dot segment behind a destination that ends with a slash. */
  lemma DotSegmentEscapes(site: Site, r: Rule)
    requires PlainPreserve(r) && r.matcher.path == "/a" && r.response.GetLocation() == "/b/"
    requires R.HostFits(r, "h") && site.reaches("h") && site.normal("/a../x") == "/a../x" && site.normal("/b/../x") == "/x"
    ensures Applied(site, r, Visit("h", "/a../x")) == Some(Visit("h", "/x"))
    ensures !Keeps(site, r)
  {
    hide Applied;
    var v := Visit("h", "/a../x");
    assert "/a../x" == "/a" + "../x" && v.path[|"/a"|..] == "../x" && "/b/" + "../x" == "/b/../x";
    assert LocalReference("/b/../x") by {
      assert "/b/../x"[1] == 'b';
    }
    LocalApplied(site, r, v, "/b/../x");
    assert WellFormedVisit(site, v);
    assert !("/b/" <= "/x");
  }

  lemma {:induction false} GoesOn(site: Site, r: Rule, p: string, v: Visit, n: nat)
    requires r.matcher.kind.Prefix? && StaysUnder(site, r, p) && r.matcher.path <= p
    requires WellFormedVisit(site, v) && R.PrefixFits(r, v.host, v.path)
    ensures Reapplies(site, r, v, n)
    decreases n
  {
    hide WellFormedVisit, Applied;
    if n > 0 {
      var w := Applied(site, r, v).value;
      assert r.matcher.path <= w.path by {
        assert w.path == p + w.path[|p|..];
      }
      GoesOn(site, r, p, w, n - 1);
    }
  }

  /** A rule that sends clients elsewhere either misses its output at once or makes it shorter every time. */
  lemma {:induction false} Shrinks(site: Site, r: Rule, p: string, v: Visit, n: nat)
    requires StaysUnder(site, r, p) && !(r.matcher.path <= p)
    requires WellFormedVisit(site, v) && |v.path| < n
    ensures !Reapplies(site, r, v, n)
    decreases n
  {
    hide WellFormedVisit, Applied;
    if R.PrefixFits(r, v.host, v.path) {
      var w := Applied(site, r, v).value;
      if R.PrefixFits(r, w.host, w.path) {
        PrefixesNest(r.matcher.path, p, w.path);
        Shrinks(site, r, p, w, n - 1);
      } else {
        Misses(site, r, w, n - 1);
      }
    }
  }

  lemma PrefixesNest(a: string, b: string, s: string)
    requires a <= s && b <= s
    ensures a <= b || |b| < |a|
  {
    assert a == s[..|a|] && b == s[..|b|];
  }

  lemma Misses(site: Site, r: Rule, v: Visit, n: nat)
    requires !R.PrefixFits(r, v.host, v.path)
    ensures n > 0 ==> !Reapplies(site, r, v, n)
  {
  }

  /** A rule whose outputs stay under p goes on forever exactly when p is under its prefix; otherwise it stops. */
  lemma EndlessIff(site: Site, r: Rule, p: string, v: Visit)
    requires r.matcher.kind.Prefix? && StaysUnder(site, r, p)
    requires WellFormedVisit(site, v) && R.PrefixFits(r, v.host, v.path)
    ensures (forall n :: Reapplies(site, r, v, n)) <==> r.matcher.path <= p
    ensures !(r.matcher.path <= p) ==> !Reapplies(site, r, v, |v.path| + 1)
  {
    hide StaysUnder, Reapplies, WellFormedVisit;
    if r.matcher.path <= p {
      forall n ensures Reapplies(site, r, v, n) {
        GoesOn(site, r, p, v, n);
      }
    } else {
      Shrinks(site, r, p, v, |v.path| + 1);
    }
  }

  /** A flagged rule that keeps to its destination matches what clients make of its output forever. */
  lemma FlaggedForever(site: Site, r: Rule, v: Visit, n: nat)
    requires r.matcher.kind.Prefix? && Keeps(site, r) && r.matcher.path <= r.response.GetLocation()
    requires WellFormedVisit(site, v) && R.PrefixFits(r, v.host, v.path)
    ensures Reapplies(site, r, v, n)
  {
    GoesOn(site, r, r.response.GetLocation(), v, n);
  }

  lemma UnflaggedStops(site: Site, r: Rule, v: Visit, n: nat)
    requires Keeps(site, r) && !(r.matcher.path <= r.response.GetLocation())
    requires WellFormedVisit(site, v) && |v.path| < n
    ensures !Reapplies(site, r, v, n)
  {
    Shrinks(site, r, r.response.GetLocation(), v, n);
  }

  /**
   For rules that keep to a local destination the flag is exact, at every visit they fit: a flagged rule applies
   to its own output forever; an unflagged one stops within |path| + 1 steps.
   */
  lemma FlagIsExact(site: Site, r: Rule, v: Visit)
    requires PlainPreserve(r) && Keeps(site, r)
    requires WellFormedVisit(site, v) && R.PrefixFits(r, v.host, v.path)
    ensures Flagged(site.parse, LocalHosts(site.rules), r) <==> forall n :: Reapplies(site, r, v, n)
    ensures !Flagged(site.parse, LocalHosts(site.rules), r) ==> !Reapplies(site, r, v, |v.path| + 1)
  {
    hide Reapplies, WellFormedVisit, StaysUnder;
    EndlessIff(site, r, r.response.GetLocation(), v);
  }

  // ---------- destinations that name a host ----------

  /** Clients take the destination, with any suffix, to the named host and the suffix appended to p. */
  ghost predicate Names(site: Site, r: Rule, host: string, p: string)
  {
    && SlashFree(host) && host != "" && "/" <= p && Bare(p)
    && forall v :: WellFormedVisit(site, v) && R.PrefixFits(r, v.host, v.path) ==>
         var suffix := v.path[|r.matcher.path|..];
         var d, next := r.response.GetLocation() + suffix, RequestPath(p + suffix);
         && !LocalReference(d) && site.browse(d).Some? && site.browse(d).value.host == host
         && LocalPath(site.browse(d).value) == next && site.normal(next) == next
  }

  lemma NamedApplied(site: Site, r: Rule, host: string, p: string, v: Visit)
    requires Names(site, r, host, p) && WellFormedVisit(site, v) && R.PrefixFits(r, v.host, v.path)
    ensures var next := RequestPath(p + v.path[|r.matcher.path|..]);
            && Applied(site, r, v) == (if site.reaches(host) then Some(Visit(host, next)) else None)
            && (site.reaches(host) ==> WellFormedVisit(site, Visit(host, next)))
            && p <= next && |next| <= |p| + |v.path| - |r.matcher.path|
    ensures "/" <= p
  {
    var suffix := v.path[|r.matcher.path|..];
    BarePath(p, suffix);
    RequestPathStops(suffix);
    assert (p + RequestPath(suffix))[0] == '/';
  }

  /**
   A preserve_path rule whose destination names a host is endless exactly when that host reaches the service, is one
   the rule is for, and the destination's path is under the prefix.  The flag of a destination that begins with two
   slashes asks instead whether the prefix begins it: for prefix "/" it is raised whatever the host.
   */
  lemma NamedEndlessIff(site: Site, r: Rule, host: string, p: string, v: Visit)
    requires r.matcher.kind.Prefix? && r.response.preservePath && Names(site, r, host, p)
    requires WellFormedVisit(site, v) && R.PrefixFits(r, v.host, v.path)
    ensures (forall n :: Reapplies(site, r, v, n)) <==>
            site.reaches(host) && R.HostFits(r, host) && r.matcher.path <= p
    ensures "//" <= r.response.GetLocation() ==>
              (Flagged(site.parse, LocalHosts(site.rules), r) <==> r.matcher.path <= r.response.GetLocation())
    ensures "//" <= r.response.GetLocation() && r.matcher.path == "/" ==>
              && Flagged(site.parse, LocalHosts(site.rules), r)
              && ((forall n :: Reapplies(site, r, v, n)) <==> site.reaches(host) && R.HostFits(r, host))
  {
    hide Names, WellFormedVisit, Applied;
    NamedApplied(site, r, host, p, v);
    if !site.reaches(host) {
      assert !Reapplies(site, r, v, 1);
    } else if !R.HostFits(r, host) {
      assert !Reapplies(site, r, Applied(site, r, v).value, 1);
      assert !Reapplies(site, r, v, 2);
    } else {
      forall u | WellFormedVisit(site, u) && R.PrefixFits(r, u.host, u.path)
        ensures var w := Applied(site, r, u);
                && w.Some? && WellFormedVisit(site, w.value) && w.value.host == host
                && p <= w.value.path && |w.value.path| <= |p| + |u.path| - |r.matcher.path|
      {
        NamedApplied(site, r, host, p, u);
      }
      EndlessIff(site, r, p, v);
    }
  }

  /** A scheme-relative destination is flagged as a local path, though clients leave when its host is another service. */
  lemma SchemeRelativeFlagged(site: Site, r: Rule, v: Visit)
    requires r.matcher.kind.Prefix? && r.response.preservePath
    requires r.matcher.path == "/" && r.response.GetLocation() == "//www.h/" && r.matcher.path <= v.path
    requires forall s :: site.browse("//www.h/" + s).Some? ==>
                           site.browse("//www.h/" + s).value.host == "www.h" && !site.reaches("www.h")
    ensures Flagged(site.parse, LocalHosts(site.rules), r)
    ensures Applied(site, r, v).None? && !Reapplies(site, r, v, 1)
  {
    var suffix := v.path[1..];
    assert "//" <= "//www.h/" + suffix;
  }
}
