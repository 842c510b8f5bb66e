/**
 Serving a request (handleRedirect), and what a client that follows the answer asks for next.
 */
module Serving {
  import opened Text
  import opened Config
  import opened RuleOrder
  import opened Templates
  import R = Router
  import opened RedirectGraph

  /**
   A configuration in service, with the library functions it relies on.  `reaches` holds of the hosts whose
   requests arrive at this service, whatever its rules say; `parse` is what the linter makes of a destination and
   `browse` what clients make of it, None when they do not follow it; `resolve` gives the path a reference without scheme,
   host or leading slash names when seen from a given path; `normal` is what client and HTTP library between
   them make of a requested path (dot segments, repeated slashes, percent escapes).
   */
  datatype Site = Site(
    lib: Library,
    parse: UrlParser,
    strip: string -> string,
    browse: UrlParser,
    reaches: string -> bool,
    resolve: (string, string) -> string,
    normal: string -> string,
    rules: seq<Rule>)

  datatype Visit = Visit(host: string, path: string)

  datatype Answer = Misdirected | NotFound | Final(rule: Rule) | Forward(rule: Rule, destination: string)

  /** The destination before any query string is appended. */
  function Destination(lib: Library, hit: R.Hit, path: string): string
    requires hit.Hit? && (hit.rule.matcher.kind.Prefix? ==> hit.rule.matcher.path <= path)
  {
    var rule := hit.rule;
    var base :=
      if hit.captures != [] && rule.compiled.Some? then
        lib.replaceAll(rule.compiled.value, path, rule.response.GetLocation())
      else rule.response.GetLocation();
    if rule.response.preservePath && rule.matcher.kind.Prefix? then base + path[|rule.matcher.path|..] else base
  }

  /** A prefix rule only answers paths under its prefix, so the suffix handleRedirect cuts is always there. */
  lemma PrefixHitFits(lib: Library, rules: seq<Rule>, host: string, path: string)
    ensures var hit := R.Find(lib, R.Build(lib, rules), host, path);
            hit.Hit? && hit.rule.matcher.kind.Prefix? ==> hit.rule.matcher.path <= path
  {
    var t := R.FileAll(lib.sort(rules));
    if R.MatchKey(host, path) in t.exact {
      R.FiledExact(lib.sort(rules), R.MatchKey(host, path));
    }
    if R.MatchKey("", path) in t.exact {
      R.FiledExact(lib.sort(rules), R.MatchKey("", path));
    }
    R.FirstPrefixMeaning(t.prefixes, host, path);
    R.FirstPatternMeaning(lib, t.patterns, host, path);
  }

  function Serve(site: Site, v: Visit): Answer
  {
    if !R.AllowedHost(site.strip, R.Build(site.lib, site.rules), v.host) then Misdirected
    else
      var hit := R.Find(site.lib, R.Build(site.lib, site.rules), v.host, v.path);
      if hit.Miss? then NotFound
      else if !hit.rule.response.IsRedirect() then Final(hit.rule)
      else
        PrefixHitFits(site.lib, site.rules, v.host, v.path);
        Forward(hit.rule, Destination(site.lib, hit, v.path))
  }

  function WithQuery(rule: Rule, destination: string, query: string): string
  {
    if rule.response.preserveQuery == Some(true) && query != "" then
      (if destination != "" && destination[|destination| - 1] != '?' then destination + "?" else destination) + query
    else destination
  }

  datatype Reply = Status(code: int, body: string) | RedirectTo(code: int, destination: string)

  function ReplyTo(a: Answer, query: string): Reply
  {
    match a
    case Misdirected => Status(421, "Misdirected Request")
    case NotFound => Status(404, "Not Found")
    case Final(rule) => Status(rule.response.status, rule.response.body)
    case Forward(rule, destination) => RedirectTo(rule.response.status, WithQuery(rule, destination, query))
  }

  // ---------- replies in terms of the rule that answers ----------

  /** Some rule is for any host, or for this one without its port. */
  predicate Admitted(site: Site, v: Visit)
  {
    exists r :: r in site.rules && (r.matcher.host == "" || r.matcher.host == site.strip(v.host))
  }

  lemma AdmittedMeaning(site: Site, v: Visit)
    requires StableSorter(site.lib.sort)
    ensures R.AllowedHost(site.strip, R.Build(site.lib, site.rules), v.host) <==> Admitted(site, v)
  {
    R.HostsLaid(site.lib.sort(site.rules));
    SortMembers(site.lib.sort, site.rules);
  }

  lemma ReplyStatus(site: Site, v: Visit, query: string)
    requires StableSorter(site.lib.sort)
    ensures var hit, reply := R.Find(site.lib, R.Build(site.lib, site.rules), v.host, v.path), ReplyTo(Serve(site, v), query);
            if !exists r :: r in site.rules && (r.matcher.host == "" || r.matcher.host == site.strip(v.host)) then
              reply == Status(421, "Misdirected Request")
            else if hit.Miss? then reply == Status(404, "Not Found")
            else if hit.rule.response.status < 300 || hit.rule.response.status > 399 then
              reply == Status(hit.rule.response.status, hit.rule.response.body)
            else reply.RedirectTo? && reply.code == hit.rule.response.status
  {
    hide R.Find, R.AllowedHost, StableSorter;
    AdmittedMeaning(site, v);
  }

  /** The visit is answered with a redirect by the rule of this hit. */
  ghost predicate Redirects(site: Site, v: Visit, hit: R.Hit)
  {
    && StableSorter(site.lib.sort) && Admitted(site, v)
    && R.Find(site.lib, R.Build(site.lib, site.rules), v.host, v.path) == hit
    && hit.Hit? && 300 <= hit.rule.response.status <= 399
  }

  /** Without captures, suffix or query the location is what the rule says. */
  lemma PlainReply(site: Site, v: Visit, hit: R.Hit, query: string)
    requires Redirects(site, v, hit) && hit.captures == []
    requires !(hit.rule.matcher.kind.Prefix? && hit.rule.response.preservePath)
    requires hit.rule.response.preserveQuery != Some(true) || query == ""
    ensures var rule := hit.rule.response;
            ReplyTo(Serve(site, v), query) == RedirectTo(rule.status, if rule.location != "" then rule.location else rule.to)
  {
    hide R.Find, R.AllowedHost, StableSorter, Admitted;
    AdmittedMeaning(site, v);
  }

  /** A preserve_path prefix rule appends what the path has behind the prefix. */
  lemma SuffixReply(site: Site, v: Visit, hit: R.Hit, query: string, suffix: string)
    requires Redirects(site, v, hit) && hit.captures == []
    requires hit.rule.matcher.kind.Prefix? && hit.rule.response.preservePath && v.path == hit.rule.matcher.path + suffix
    requires hit.rule.response.preserveQuery != Some(true) || query == ""
    ensures var rule := hit.rule.response;
            ReplyTo(Serve(site, v), query) ==
            RedirectTo(rule.status, (if rule.location != "" then rule.location else rule.to) + suffix)
  {
    hide R.Find, R.AllowedHost, StableSorter, Admitted;
    AdmittedMeaning(site, v);
  }

  /** The answering pattern matches the whole path, with groups to fill in, and no query is to be appended. */
  ghost predicate FillsIn(site: Site, v: Visit, hit: R.Hit, query: string)
  {
    && Redirects(site, v, hit) && R.IsPattern(hit.rule) && HonoursTemplates(site.lib)
    && hit.captures != [] && v.path != "" && hit.rule.compiled.Some?
    && site.lib.submatch(hit.rule.compiled.value, v.path) == Some([v.path] + hit.captures)
    && (hit.rule.response.preserveQuery != Some(true) || query == "")
  }

  /** Where a pattern matches the whole path, its captures go where the location names them. */
  lemma CapturesReply(site: Site, v: Visit, hit: R.Hit, query: string)
    requires FillsIn(site, v, hit, query)
    ensures var rule := hit.rule.response;
            var written := if rule.location != "" then rule.location else rule.to;
            && (Simple(written) ==>
                  ReplyTo(Serve(site, v), query) == RedirectTo(rule.status, Expand(written, [v.path] + hit.captures)))
            && (written == "/users/$1" ==>
                  ReplyTo(Serve(site, v), query) == RedirectTo(rule.status, "/users/" + hit.captures[0]))
  {
    hide R.Find, R.AllowedHost, StableSorter, Admitted, Expand;
    AdmittedMeaning(site, v);
    UsersExpands([v.path] + hit.captures);
  }

  lemma CapturesReplied(site: Site, v: Visit, query: string)
    ensures var hit, reply := R.Find(site.lib, R.Build(site.lib, site.rules), v.host, v.path), ReplyTo(Serve(site, v), query);
            FillsIn(site, v, hit, query) && Simple(hit.rule.response.GetLocation()) ==>
              && reply.RedirectTo? && reply.code == hit.rule.response.status
              && reply.destination == Expand(hit.rule.response.GetLocation(), [v.path] + hit.captures)
  {
    hide R.Find, Serve, ReplyTo, Simple, Expand;
    var hit := R.Find(site.lib, R.Build(site.lib, site.rules), v.host, v.path);
    if FillsIn(site, v, hit, query) {
      CapturesReply(site, v, hit, query);
    }
  }

  lemma UsersExpands(found: seq<string>)
    requires |found| >= 2
    ensures Simple("/users/$1") && Expand("/users/$1", found) == "/users/" + found[1]
  {
    hide Expand;
    var head, template := "/users/", "$1";
    assert head + template == "/users/$1" && template == ['$', '1'] + "";
    ExpandPlain(head, template, found);
    ExpandGroup(template, '1', "", found);
    ExpandStep("", found);
  }

  /** The query goes behind a question mark, which is not doubled, and only where the rule asks for it. */
  lemma QueryReply(site: Site, v: Visit, hit: R.Hit, query: string)
    requires Redirects(site, v, hit)
    ensures var bare, reply := ReplyTo(Serve(site, v), ""), ReplyTo(Serve(site, v), query);
            && bare.RedirectTo?
            && (hit.rule.response.preserveQuery == Some(true) && query != "" && bare.destination != "" ==>
                  exists d :: (bare.destination == d || bare.destination == d + "?")
                              && reply == RedirectTo(bare.code, d + "?" + query)
                              && (bare.destination == d ==> d[|d| - 1] != '?'))
            && (hit.rule.response.preserveQuery != Some(true) || query == "" ==> reply == bare)
  {
    hide R.Find, R.AllowedHost, StableSorter, Admitted, Destination;
    AdmittedMeaning(site, v);
    var bare, reply := ReplyTo(Serve(site, v), ""), ReplyTo(Serve(site, v), query);
    if hit.rule.response.preserveQuery == Some(true) && query != "" && bare.destination != "" {
      var b := bare.destination;
      var d := if b[|b| - 1] == '?' then b[..|b| - 1] else b;
      assert b == d || b == d + "?";
      assert reply == RedirectTo(bare.code, d + "?" + query);
    }
  }

  /** handleRedirect: host check, match, then the destination built up step by step. */
  method HandleRedirect(site: Site, router: R.Router, v: Visit, query: string) returns (reply: Reply)
    requires router.Serves(site.lib, site.rules)
    ensures reply == ReplyTo(Serve(site, v), query)
    ensures var hit := R.Find(site.lib, R.Build(site.lib, site.rules), v.host, v.path);
            FillsIn(site, v, hit, query) && Simple(hit.rule.response.GetLocation()) ==>
              && reply.RedirectTo? && reply.code == hit.rule.response.status
              && reply.destination == Expand(hit.rule.response.GetLocation(), [v.path] + hit.captures)
  {
    hide FillsIn, Simple, Expand;
    CapturesReplied(site, v, query);
    hide R.Find, R.AllowedHost, R.Build, R.Scan, R.KeySafe, R.WellFormedRequest;
    PrefixHitFits(site.lib, site.rules, v.host, v.path);
    var allowed := router.IsAllowedHost(site.lib, site.rules, site.strip, v.host);
    if !allowed {
      return Status(421, "Misdirected Request");
    }
    var hit := router.Match(site.lib, site.rules, v.host, v.path);
    if hit.Miss? {
      return Status(404, "Not Found");
    }
    var rule := hit.rule;
    if !rule.response.IsRedirect() {
      return Status(rule.response.status, rule.response.body);
    }
    var destination := rule.response.GetLocation();
    if |hit.captures| > 0 && rule.compiled.Some? {
      destination := site.lib.replaceAll(rule.compiled.value, v.path, destination);
    }
    if rule.response.preservePath && rule.matcher.kind.Prefix? {
      var suffix := v.path[|rule.matcher.path|..];
      destination := destination + suffix;
    }
    if rule.response.preserveQuery.Some? && rule.response.preserveQuery.value {
      if query != "" {
        if |destination| > 0 && destination[|destination| - 1] != '?' {
          destination := destination + "?";
        }
        destination := destination + query;
      }
    }
    reply := RedirectTo(rule.response.status, destination);
  }

  // ---------- the client ----------

  /** The path a client requests for a reference that starts with a slash: up to a query or a fragment. */
  function RequestPath(dest: string): string
  {
    if dest == "" || dest[0] == '?' || dest[0] == '#' then "" else [dest[0]] + RequestPath(dest[1..])
  }

  predicate Bare(s: string)
  {
    forall i :: 0 <= i < |s| ==> s[i] != '?' && s[i] != '#'
  }

  predicate LocalReference(dest: string)
  {
    "/" <= dest && !("//" <= dest)
  }

  /** No scheme and no host: the reference is relative to where it is found. */
  predicate Relative(u: Url)
  {
    u.scheme == "" && u.host == ""
  }

  /** Where a destination takes a client at v; None when it leaves the service. */
  function Follow(site: Site, v: Visit, dest: string): Option<Visit>
  {
    if LocalReference(dest) then Some(Visit(v.host, site.normal(RequestPath(dest))))
    else match site.browse(dest)
      case None => None
      case Some(u) =>
        if Relative(u) then Some(Visit(v.host, site.normal(site.resolve(v.path, dest))))
        else if site.reaches(u.host) then Some(Visit(u.host, site.normal(LocalPath(u))))
        else None
  }

  function Next(site: Site, v: Visit): Option<Visit>
  {
    match Serve(site, v)
    case Forward(rule, destination) => Follow(site, v, destination)
    case _ => None
  }

  /** Following redirects from v stops after at most n of them. */
  predicate EndsWithin(site: Site, v: Visit, n: nat)
    decreases n
  {
    match Next(site, v)
    case None => true
    case Some(v') => n > 0 && EndsWithin(site, v', n - 1)
  }

  /** A visit this service gets: slash-free host, slash-led path that normalisation leaves alone. */
  predicate WellFormedVisit(site: Site, v: Visit)
  {
    R.WellFormedRequest(v.host, v.path) && site.reaches(v.host) && site.normal(v.path) == v.path
  }

  /** URLs to this service have slash-free hosts and paths that are empty or start with a slash. */
  ghost predicate WellFormedSite(site: Site)
  {
    && StableSorter(site.lib.sort)
    && R.KeySafe(site.rules)
    && forall d :: site.browse(d).Some? && !Relative(site.browse(d).value) && site.reaches(site.browse(d).value.host) ==>
         R.WellFormedRequest(site.browse(d).value.host, LocalPath(site.browse(d).value))
  }

  /** The requested path is what comes before the first question mark or number sign. */
  lemma {:induction false} RequestPathStops(d: string)
    ensures RequestPath(d) <= d && '?' !in RequestPath(d) && '#' !in RequestPath(d)
    ensures |RequestPath(d)| < |d| ==> d[|RequestPath(d)|] == '?' || d[|RequestPath(d)|] == '#'
  {
    if d != "" && d[0] != '?' && d[0] != '#' {
      RequestPathStops(d[1..]);
      assert d == [d[0]] + d[1..];
      assert d[1..] == RequestPath(d[1..]) + d[1..][|RequestPath(d[1..])|..];
      assert d == RequestPath(d) + d[1..][|RequestPath(d[1..])|..];
    }
  }

  lemma {:induction false} BarePath(d: string, rest: string)
    requires Bare(d)
    ensures RequestPath(d + rest) == d + RequestPath(rest)
  {
    if d == "" {
      assert d + rest == rest;
    } else {
      assert (d + rest)[1..] == d[1..] + rest;
      BarePath(d[1..], rest);
      assert [d[0]] + d[1..] == d;
    }
  }

  /** What follows a question mark changes neither where clients take a URL to lead nor how they resolve it. */
  ghost predicate QueryBlind(site: Site)
  {
    forall d, query ::
      && site.browse(d + ("?" + query)) == site.browse(d)
      && forall path :: site.resolve(path, d + ("?" + query)) == site.resolve(path, d)
  }

  /** A destination with a query is some destination with a question mark and text after it. */
  lemma QueryShape(rule: Rule, destination: string, query: string) returns (d: string, tail: string)
    requires destination != "" && WithQuery(rule, destination, query) != destination
    ensures WithQuery(rule, destination, query) == d + ("?" + tail)
    ensures destination == d || destination == d + ("?" + "")
  {
    if destination[|destination| - 1] != '?' {
      d, tail := destination, query;
      assert destination + "?" + query == destination + ("?" + query);
    } else {
      d, tail := destination[..|destination| - 1], query;
      assert destination == d + "?" && destination + query == d + ("?" + query);
    }
  }

  /** Appending a query never changes the path a client goes on to request below the same host. */
  lemma QueryKeepsPath(rule: Rule, destination: string, query: string)
    requires destination != ""
    ensures RequestPath(WithQuery(rule, destination, query)) == RequestPath(destination)
  {
    hide WithQuery;
    if WithQuery(rule, destination, query) != destination {
      var d, tail := QueryShape(rule, destination, query);
      CutAtQuery(d, tail);
      CutAtQuery(d, "");
    }
  }

  /** Appending a query never changes where a client goes next, so chains may be followed without queries. */
  lemma QueryKeepsVisit(site: Site, v: Visit, rule: Rule, destination: string, query: string)
    requires QueryBlind(site) && destination != ""
    ensures Follow(site, v, WithQuery(rule, destination, query)) == Follow(site, v, destination)
  {
    hide WithQuery;
    if WithQuery(rule, destination, query) != destination {
      var d, tail := QueryShape(rule, destination, query);
      TailIgnored(site, v, d, tail);
      TailIgnored(site, v, d, "");
    }
  }

  /** The reply to a request, with whatever query it carries, leads a client where Next says. */
  lemma ReplyLeadsToNext(site: Site, v: Visit, query: string)
    requires QueryBlind(site) && Serve(site, v).Forward? && Serve(site, v).destination != ""
    ensures var reply := ReplyTo(Serve(site, v), query);
            reply.RedirectTo? && Follow(site, v, reply.destination) == Next(site, v)
  {
    hide Serve, Follow;
    QueryKeepsVisit(site, v, Serve(site, v).rule, Serve(site, v).destination, query);
  }

  lemma TailIgnored(site: Site, v: Visit, d: string, tail: string)
    requires QueryBlind(site)
    ensures Follow(site, v, d + ("?" + tail)) == Follow(site, v, d)
  {
    CutAtQuery(d, tail);
    var e := d + ("?" + tail);
    assert forall i :: 0 <= i < |d| ==> e[i] == d[i];
    assert e[|d|] == '?';
    assert LocalReference(e) <==> LocalReference(d);
  }

  lemma {:induction false} CutAtQuery(d: string, query: string)
    ensures RequestPath(d + ("?" + query)) == RequestPath(d)
  {
    if d == "" {
      assert d + ("?" + query) == "?" + query;
    } else {
      assert (d + ("?" + query))[1..] == d[1..] + ("?" + query);
      CutAtQuery(d[1..], query);
    }
  }

  // ---------- single answers ----------

  /** When r alone fits a request, r serves it. */
  lemma OnlyFitServes(site: Site, v: Visit, r: Rule)
    requires StableSorter(site.lib.sort) && R.KeySafe(site.rules) && R.WellFormedRequest(v.host, v.path)
    requires r in site.rules && r.matcher.host == "" && r.response.IsRedirect() && !R.IsPattern(r)
    requires forall q :: q in site.rules ==> (R.Fits(site.lib, q, v.host, v.path) <==> q == r)
    ensures r.matcher.kind.Prefix? ==> r.matcher.path <= v.path
    ensures Serve(site, v) == Forward(r, Destination(site.lib, R.Hit(r, []), v.path))
  {
    hide R.Find, R.Fits, R.WellFormedRequest, Destination, StableSorter, R.FileAll, R.NoteAll, R.IsPattern, R.KeySafe;
    R.AnswersExactly(site.lib, site.rules, v.host, v.path);
    PrefixHitFits(site.lib, site.rules, v.host, v.path);
    SortMembers(site.lib.sort, site.rules);
    R.HostsLaid(site.lib.sort(site.rules));
  }

  lemma PlainNext(site: Site, v: Visit, d: string)
    requires Serve(site, v).Forward? && Serve(site, v).destination == d
    requires |d| > 1 && d[0] == '/' && d[1] != '/' && Bare(d) && site.normal(d) == d
    ensures Next(site, v) == Some(Visit(v.host, d))
  {
    BarePath(d, "");
    assert d + "" == d;
  }
}
