/**
 The router: an index over the sorted rules (a map for exact rules, lists for prefix and pattern
 rules, a host allowlist) that must answer as a plain scan of those rules would.
 */
module Router {
  import opened Text
  import opened Glob
  import opened Config
  import opened RuleOrder

  /** buildMatchKey */
  function MatchKey(host: string, path: string): string
  {
    if host == "" then path else host + ":" + path
  }

  // ---------- which rules fit a request ----------

  predicate HostFits(r: Rule, host: string)
  {
    r.matcher.host == "" || r.matcher.host == host
  }

  predicate ExactFits(r: Rule, host: string, path: string)
  {
    r.matcher.kind.Exact? && r.matcher.host == host && r.matcher.path == path
  }

  predicate PrefixFits(r: Rule, host: string, path: string)
  {
    r.matcher.kind.Prefix? && HostFits(r, host) && r.matcher.path <= path
  }

  predicate IsPattern(r: Rule)
  {
    r.matcher.kind.Regex? || r.matcher.kind.Glob?
  }

  predicate PatternFits(lib: Library, r: Rule, host: string, path: string)
  {
    IsPattern(r) && HostFits(r, host) && r.compiled.Some? && lib.submatch(r.compiled.value, path).Some?
  }

  predicate Fits(lib: Library, r: Rule, host: string, path: string)
  {
    ExactFits(r, host, path) || ExactFits(r, "", path) || PrefixFits(r, host, path) || PatternFits(lib, r, host, path)
  }

  /** The groups of a match, without the full match. */
  function Captures(m: seq<string>): seq<string>
  {
    if |m| > 1 then m[1..] else []
  }

  // ---------- the simple form: a scan ----------

  datatype Hit = Miss | Hit(rule: Rule, captures: seq<string>)

  function LastExact(rules: seq<Rule>, host: string, path: string): Option<Rule>
  {
    if rules == [] then None
    else if ExactFits(Last(rules), host, path) then Some(Last(rules))
    else LastExact(Init(rules), host, path)
  }

  function FirstPrefix(rules: seq<Rule>, host: string, path: string): Option<Rule>
  {
    if rules == [] then None
    else if PrefixFits(rules[0], host, path) then Some(rules[0])
    else FirstPrefix(rules[1..], host, path)
  }

  function FirstPattern(lib: Library, rules: seq<Rule>, host: string, path: string): Hit
  {
    if rules == [] then Miss
    else if PatternFits(lib, rules[0], host, path) then
      Hit(rules[0], Captures(lib.submatch(rules[0].compiled.value, path).value))
    else FirstPattern(lib, rules[1..], host, path)
  }

  /** The last exact rule for this host, else the last for any host, else the first prefix, else the first pattern. */
  function Scan(lib: Library, sorted: seq<Rule>, host: string, path: string): Hit
  {
    match LastExact(sorted, host, path)
    case Some(r) => Hit(r, [])
    case None =>
      match LastExact(sorted, "", path)
      case Some(r) => Hit(r, [])
      case None =>
        match FirstPrefix(sorted, host, path)
        case Some(r) => Hit(r, [])
        case None => FirstPattern(lib, sorted, host, path)
  }

  // ---------- the fast form: an index ----------

  datatype Tables = Tables(exact: map<string, Rule>, prefixes: seq<Rule>, patterns: seq<Rule>)

  datatype Hosts = Hosts(named: set<string>, any: bool)

  datatype Index = Index(tables: Tables, hosts: Hosts)

  function File(t: Tables, r: Rule): Tables
  {
    match r.matcher.kind
    case Exact => t.(exact := t.exact[MatchKey(r.matcher.host, r.matcher.path) := r])
    case Prefix => t.(prefixes := t.prefixes + [r])
    case Regex => t.(patterns := t.patterns + [r])
    case Glob => t.(patterns := t.patterns + [r])
    case Other(_) => t
  }

  function FileAll(sorted: seq<Rule>): Tables
  {
    if sorted == [] then Tables(map[], [], []) else File(FileAll(Init(sorted)), Last(sorted))
  }

  function Note(h: Hosts, r: Rule): Hosts
  {
    if r.matcher.host == "" then h.(any := true) else h.(named := h.named + {r.matcher.host})
  }

  function NoteAll(sorted: seq<Rule>): Hosts
  {
    if sorted == [] then Hosts({}, false) else Note(NoteAll(Init(sorted)), Last(sorted))
  }

  function Lay(sorted: seq<Rule>): Index
  {
    Index(FileAll(sorted), NoteAll(sorted))
  }

  function Build(lib: Library, rules: seq<Rule>): Index
  {
    Lay(lib.sort(rules))
  }

  function FiledUnder(exact: map<string, Rule>, host: string, path: string): Option<Rule>
  {
    if host != "" && MatchKey(host, path) in exact then Some(exact[MatchKey(host, path)])
    else if MatchKey("", path) in exact then Some(exact[MatchKey("", path)])
    else None
  }

  function Find(lib: Library, ix: Index, host: string, path: string): Hit
  {
    match FiledUnder(ix.tables.exact, host, path)
    case Some(r) => Hit(r, [])
    case None =>
      match FirstPrefix(ix.tables.prefixes, host, path)
      case Some(r) => Hit(r, [])
      case None => FirstPattern(lib, ix.tables.patterns, host, path)
  }

  /** `strip` removes a port from a host (net.SplitHostPort, falling back to the host itself). */
  predicate AllowedHost(strip: string -> string, ix: Index, host: string)
  {
    ix.hosts.any || strip(host) in ix.hosts.named
  }

  // ---------- keys ----------

  predicate SlashLed(path: string)
  {
    path != "" && path[0] == '/'
  }

  predicate WellFormedRequest(host: string, path: string)
  {
    SlashFree(host) && SlashLed(path)
  }

  /** Exact rules name a host without slashes and a path that begins with one. */
  predicate KeySafe(rules: seq<Rule>)
  {
    forall i :: 0 <= i < |rules| && rules[i].matcher.kind.Exact?
                ==> WellFormedRequest(rules[i].matcher.host, rules[i].matcher.path)
  }

  lemma KeyLengths(h1: string, p1: string, h2: string, p2: string)
    requires WellFormedRequest(h1, p1) && WellFormedRequest(h2, p2)
    requires |h1| < |h2|
    ensures MatchKey(h1, p1) != MatchKey(h2, p2)
  {
    var at := if h1 == "" then 0 else |h1| + 1;
    assert MatchKey(h1, p1)[at] == '/';
    assert MatchKey(h2, p2)[at] != '/';
  }

  lemma KeyInjective(h1: string, p1: string, h2: string, p2: string)
    requires WellFormedRequest(h1, p1) && WellFormedRequest(h2, p2)
    ensures MatchKey(h1, p1) == MatchKey(h2, p2) <==> h1 == h2 && p1 == p2
  {
    if |h1| < |h2| {
      KeyLengths(h1, p1, h2, p2);
    } else if |h2| < |h1| {
      KeyLengths(h2, p2, h1, p1);
    } else if h1 != "" && MatchKey(h1, p1) == MatchKey(h2, p2) {
      assert h1 == MatchKey(h1, p1)[..|h1|] == h2;
      assert p1 == MatchKey(h1, p1)[|h1| + 1..] == p2;
    }
  }

  /** Without slash-led paths keys collide: a rule for path "h:/x" answers host h asking for "/x". */
  lemma KeysCollide()
    ensures MatchKey("", "h:/x") == MatchKey("h", "/x")
  {
  }

  // ---------- the index refines the scan ----------

  lemma {:induction false} ExactRefines(sorted: seq<Rule>, host: string, path: string)
    requires KeySafe(sorted) && WellFormedRequest(host, path)
    ensures MatchKey(host, path) in FileAll(sorted).exact <==> LastExact(sorted, host, path).Some?
    ensures MatchKey(host, path) in FileAll(sorted).exact ==>
              LastExact(sorted, host, path) == Some(FileAll(sorted).exact[MatchKey(host, path)])
  {
    if sorted != [] {
      var r := Last(sorted);
      ExactRefines(Init(sorted), host, path);
      if r.matcher.kind.Exact? {
        KeyInjective(r.matcher.host, r.matcher.path, host, path);
      }
    }
  }

  lemma {:induction false} FirstPrefixAppend(rules: seq<Rule>, r: Rule, host: string, path: string)
    ensures FirstPrefix(rules + [r], host, path) ==
            if FirstPrefix(rules, host, path).Some? then FirstPrefix(rules, host, path)
            else if PrefixFits(r, host, path) then Some(r) else None
  {
    if rules != [] {
      assert (rules + [r])[1..] == rules[1..] + [r];
      FirstPrefixAppend(rules[1..], r, host, path);
    }
  }

  lemma {:induction false} FirstPatternAppend(lib: Library, rules: seq<Rule>, r: Rule, host: string, path: string)
    ensures FirstPattern(lib, rules + [r], host, path) ==
            if FirstPattern(lib, rules, host, path).Hit? then FirstPattern(lib, rules, host, path)
            else FirstPattern(lib, [r], host, path)
  {
    if rules != [] {
      assert (rules + [r])[1..] == rules[1..] + [r];
      FirstPatternAppend(lib, rules[1..], r, host, path);
    } else {
      assert rules + [r] == [r];
    }
  }

  lemma {:induction false} ListsRefine(lib: Library, sorted: seq<Rule>, host: string, path: string)
    ensures FirstPrefix(FileAll(sorted).prefixes, host, path) == FirstPrefix(sorted, host, path)
    ensures FirstPattern(lib, FileAll(sorted).patterns, host, path) == FirstPattern(lib, sorted, host, path)
  {
    if sorted != [] {
      var init, r := Init(sorted), Last(sorted);
      assert sorted == init + [r];
      ListsRefine(lib, init, host, path);
      FirstPrefixAppend(init, r, host, path);
      FirstPatternAppend(lib, init, r, host, path);
      FirstPrefixAppend(FileAll(init).prefixes, r, host, path);
      FirstPatternAppend(lib, FileAll(init).patterns, r, host, path);
    }
  }

  /** The index answers every well-formed request as the scan of the same sorted list does. */
  lemma FindRefinesScan(lib: Library, sorted: seq<Rule>, host: string, path: string)
    requires KeySafe(sorted) && WellFormedRequest(host, path)
    ensures Find(lib, Lay(sorted), host, path) == Scan(lib, sorted, host, path)
  {
    ExactRefines(sorted, host, path);
    ExactRefines(sorted, "", path);
    ListsRefine(lib, sorted, host, path);
  }

  // ---------- what the scan returns ----------

  lemma {:induction false} LastExactMeaning(rules: seq<Rule>, host: string, path: string)
    ensures LastExact(rules, host, path).None? <==> forall r :: r in rules ==> !ExactFits(r, host, path)
    ensures LastExact(rules, host, path).Some? ==>
              exists i :: 0 <= i < |rules| && LastExact(rules, host, path) == Some(rules[i])
                          && ExactFits(rules[i], host, path)
                          && forall k :: i < k < |rules| ==> !ExactFits(rules[k], host, path)
  {
    if rules != [] {
      LastExactMeaning(Init(rules), host, path);
      assert rules == Init(rules) + [Last(rules)];
      if ExactFits(Last(rules), host, path) {
        assert Last(rules) in rules;
      } else if LastExact(rules, host, path).Some? {
        var i :| 0 <= i < |Init(rules)| && LastExact(rules, host, path) == Some(Init(rules)[i])
          && ExactFits(Init(rules)[i], host, path)
          && forall k :: i < k < |Init(rules)| ==> !ExactFits(Init(rules)[k], host, path);
        assert forall k :: i < k < |rules| ==> !ExactFits(rules[k], host, path);
        assert rules[i] == Init(rules)[i] && rules[i] in rules;
      }
    }
  }

  lemma {:induction false} FirstPrefixMeaning(rules: seq<Rule>, host: string, path: string)
    ensures FirstPrefix(rules, host, path).None? <==> forall r :: r in rules ==> !PrefixFits(r, host, path)
    ensures FirstPrefix(rules, host, path).Some? ==>
              exists i :: 0 <= i < |rules| && FirstPrefix(rules, host, path) == Some(rules[i])
                          && PrefixFits(rules[i], host, path)
                          && forall k :: 0 <= k < i ==> !PrefixFits(rules[k], host, path)
  {
    if rules != [] {
      FirstPrefixMeaning(rules[1..], host, path);
      assert rules == [rules[0]] + rules[1..];
      if PrefixFits(rules[0], host, path) {
        assert rules[0] in rules;
      } else if FirstPrefix(rules, host, path).Some? {
        var i :| 0 <= i < |rules[1..]| && FirstPrefix(rules, host, path) == Some(rules[1..][i])
          && PrefixFits(rules[1..][i], host, path)
          && forall k :: 0 <= k < i ==> !PrefixFits(rules[1..][k], host, path);
        assert forall k :: 1 <= k < i + 1 ==> rules[k] == rules[1..][k - 1];
        assert rules[i + 1] == rules[1..][i] && rules[i + 1] in rules;
      }
    }
  }

  lemma {:induction false} FirstPatternMeaning(lib: Library, rules: seq<Rule>, host: string, path: string)
    ensures FirstPattern(lib, rules, host, path).Miss? <==> forall r :: r in rules ==> !PatternFits(lib, r, host, path)
    ensures FirstPattern(lib, rules, host, path).Hit? ==>
              var hit := FirstPattern(lib, rules, host, path);
              && PatternFits(lib, hit.rule, host, path)
              && hit.captures == Captures(lib.submatch(hit.rule.compiled.value, path).value)
              && exists i :: 0 <= i < |rules| && hit.rule == rules[i]
                             && forall k :: 0 <= k < i ==> !PatternFits(lib, rules[k], host, path)
  {
    if rules != [] {
      FirstPatternMeaning(lib, rules[1..], host, path);
      assert forall r :: r in rules <==> r == rules[0] || r in rules[1..];
      var hit := FirstPattern(lib, rules, host, path);
      if hit.Hit? && !PatternFits(lib, rules[0], host, path) {
        var i :| 0 <= i < |rules[1..]| && hit.rule == rules[1..][i]
          && forall k :: 0 <= k < i ==> !PatternFits(lib, rules[1..][k], host, path);
        assert forall k :: 1 <= k < i + 1 ==> rules[k] == rules[1..][k - 1];
        assert rules[i + 1] == hit.rule;
      }
    }
  }

  /** A request goes unanswered exactly when no configured rule fits it; an answer is a rule that does. */
  lemma AnswersExactly(lib: Library, rules: seq<Rule>, host: string, path: string)
    requires StableSorter(lib.sort) && KeySafe(rules) && WellFormedRequest(host, path)
    ensures var hit := Find(lib, Build(lib, rules), host, path);
            && (hit.Miss? <==> forall r :: r in rules ==> !Fits(lib, r, host, path))
            && (hit.Hit? ==> hit.rule in rules && Fits(lib, hit.rule, host, path))
            && (hit.Hit? && !IsPattern(hit.rule) ==> hit.captures == [])
            && (hit.Hit? && IsPattern(hit.rule) ==>
                  PatternFits(lib, hit.rule, host, path) &&
                  hit.captures == Captures(lib.submatch(hit.rule.compiled.value, path).value))
  {
    hide Find, LastExact, FirstPrefix, FirstPattern, Captures, StableSorter;
    var sorted := lib.sort(rules);
    SortedKeySafe(lib, rules);
    SortMembers(lib.sort, rules);
    FindRefinesScan(lib, sorted, host, path);
    LastExactMeaning(sorted, host, path);
    LastExactMeaning(sorted, "", path);
    FirstPrefixMeaning(sorted, host, path);
    FirstPatternMeaning(lib, sorted, host, path);
  }

  /**
   The same in terms of the rules' fields and the library alone: which rules a miss rules out, and of a hit what its
   rule says and which groups it carries, namely all that the match found behind the full match.
   */
  lemma AnswersInFields(lib: Library, rules: seq<Rule>, host: string, path: string)
    requires StableSorter(lib.sort) && KeySafe(rules) && WellFormedRequest(host, path)
    ensures Find(lib, Build(lib, rules), host, path).Miss? <==>
            forall r :: r in rules && (r.matcher.host == host || r.matcher.host == "") ==>
              && !(r.matcher.kind.Exact? && r.matcher.path == path)
              && !(r.matcher.kind.Prefix? && r.matcher.path <= path)
              && !((r.matcher.kind.Regex? || r.matcher.kind.Glob?)
                   && r.compiled.Some? && lib.submatch(r.compiled.value, path).Some?)
    ensures Find(lib, Build(lib, rules), host, path).Hit? ==>
              var Hit(r, groups) := Find(lib, Build(lib, rules), host, path);
              && r in rules && (r.matcher.host == host || r.matcher.host == "")
              && match r.matcher.kind
                 case Exact => r.matcher.path == path && groups == []
                 case Prefix => r.matcher.path <= path && groups == []
                 case Other(_) => false
                 case _ =>
                   && r.compiled.Some? && lib.submatch(r.compiled.value, path).Some?
                   && var found := lib.submatch(r.compiled.value, path).value;
                      if found == [] then groups == [] else found == [found[0]] + groups
  {
    hide Find, KeySafe, StableSorter;
    AnswersExactly(lib, rules, host, path);
    var hit := Find(lib, Build(lib, rules), host, path);
    if hit.Hit? && IsPattern(hit.rule) {
      GroupsFollow(lib.submatch(hit.rule.compiled.value, path).value);
    }
  }

  lemma GroupsFollow(found: seq<string>)
    ensures if found == [] then Captures(found) == [] else found == [found[0]] + Captures(found)
  {
  }

  lemma {:induction false} FiledExact(sorted: seq<Rule>, key: string)
    requires key in FileAll(sorted).exact
    ensures FileAll(sorted).exact[key].matcher.kind.Exact?
  {
    if key in FileAll(Init(sorted)).exact {
      FiledExact(Init(sorted), key);
    }
  }

  lemma SortedKeySafe(lib: Library, rules: seq<Rule>)
    requires StableSorter(lib.sort) && KeySafe(rules)
    ensures KeySafe(lib.sort(rules))
  {
    SortMembers(lib.sort, rules);
    forall i | 0 <= i < |lib.sort(rules)| && lib.sort(rules)[i].matcher.kind.Exact?
      ensures WellFormedRequest(lib.sort(rules)[i].matcher.host, lib.sort(rules)[i].matcher.path)
    {
      assert lib.sort(rules)[i] in rules;
    }
  }

  // ---------- early rejection ----------

  lemma {:induction false} HostsLaid(sorted: seq<Rule>)
    ensures NoteAll(sorted).any <==> exists r :: r in sorted && r.matcher.host == ""
    ensures forall h :: h in NoteAll(sorted).named <==> h != "" && exists r :: r in sorted && r.matcher.host == h
  {
    if sorted != [] {
      HostsLaid(Init(sorted));
      assert sorted == Init(sorted) + [Last(sorted)];
      assert forall r :: r in sorted <==> r in Init(sorted) || r == Last(sorted);
      assert Last(sorted) in sorted;
    }
  }

  /** Rejecting a host before routing hides a rule from the request. */
  ghost predicate Hides(lib: Library, strip: string -> string, rules: seq<Rule>, host: string, path: string)
  {
    !AllowedHost(strip, Build(lib, rules), host) && Find(lib, Build(lib, rules), host, path).Hit?
  }

  predicate Strippable(strip: string -> string, rules: seq<Rule>, r: Rule)
  {
    || (exists o :: o in rules && o.matcher.host == "")
    || (exists o :: o in rules && o.matcher.host != "" && o.matcher.host == strip(r.matcher.host))
  }

  /**
   Early rejection never hides a rule exactly when every rule that some request fits still names an
   allowed host once its port is stripped; rules whose hosts carry no port are always so.
   */
  lemma RejectionTransparent(lib: Library, strip: string -> string, rules: seq<Rule>)
    requires StableSorter(lib.sort) && KeySafe(rules)
    ensures (forall host, path :: WellFormedRequest(host, path) ==> !Hides(lib, strip, rules, host, path)) <==>
            (forall r, path | r in rules && WellFormedRequest(r.matcher.host, path)
                              && Fits(lib, r, r.matcher.host, path) :: Strippable(strip, rules, r))
  {
    SortMembers(lib.sort, rules);
    HostsLaid(lib.sort(rules));
    forall host, path, r | WellFormedRequest(host, path) && r in rules && Fits(lib, r, host, path) && r.matcher.host != ""
      ensures r.matcher.host == host && Fits(lib, r, r.matcher.host, path)
    {
    }
    forall host, path | WellFormedRequest(host, path)
      ensures Hides(lib, strip, rules, host, path) ==>
                exists r :: r in rules && WellFormedRequest(r.matcher.host, path)
                            && Fits(lib, r, r.matcher.host, path) && !Strippable(strip, rules, r)
    {
      AnswersExactly(lib, rules, host, path);
    }
    forall r, path | r in rules && WellFormedRequest(r.matcher.host, path) && Fits(lib, r, r.matcher.host, path)
      ensures !Strippable(strip, rules, r) ==> Hides(lib, strip, rules, r.matcher.host, path)
    {
      AnswersExactly(lib, rules, r.matcher.host, path);
    }
  }

  lemma PortlessHostsTransparent(lib: Library, strip: string -> string, rules: seq<Rule>, host: string, path: string)
    requires StableSorter(lib.sort) && KeySafe(rules) && WellFormedRequest(host, path)
    requires forall r :: r in rules ==> strip(r.matcher.host) == r.matcher.host
    ensures !AllowedHost(strip, Build(lib, rules), host) ==> Find(lib, Build(lib, rules), host, path).Miss?
  {
    assert forall r, p :: r in rules && Fits(lib, r, r.matcher.host, p) ==> Strippable(strip, rules, r);
    RejectionTransparent(lib, strip, rules);
    assert !Hides(lib, strip, rules, host, path);
  }

  // ---------- the class ----------

  class Router {
    var exactMatches: map<string, Rule>
    var prefixMatches: seq<Rule>
    var regexMatches: seq<Rule>
    var allowedHosts: set<string>
    var allowAnyHost: bool

    function View(): Index
      reads this
    {
      Index(Tables(exactMatches, prefixMatches, regexMatches), Hosts(allowedHosts, allowAnyHost))
    }

    ghost predicate Serves(lib: Library, rules: seq<Rule>)
      reads this
    {
      View() == Build(lib, rules)
    }

    constructor (lib: Library, rules: seq<Rule>)
      ensures Serves(lib, rules)
    {
      exactMatches := map[];
      prefixMatches := [];
      regexMatches := [];
      allowedHosts := {};
      allowAnyHost := false;
      new;
      hide MatchKey;
      var sortedRules := lib.sort(rules);
      for i := 0 to |sortedRules|
        invariant Tables(exactMatches, prefixMatches, regexMatches) == FileAll(sortedRules[..i])
        invariant allowedHosts == {} && !allowAnyHost
      {
        var rule := sortedRules[i];
        assert Init(sortedRules[..i + 1]) == sortedRules[..i];
        match rule.matcher.kind
        case Exact =>
          var key := MatchKey(rule.matcher.host, rule.matcher.path);
          exactMatches := exactMatches[key := rule];
        case Prefix => prefixMatches := prefixMatches + [rule];
        case Regex => regexMatches := regexMatches + [rule];
        case Glob => regexMatches := regexMatches + [rule];
        case Other(_) =>
      }
      assert sortedRules[..|sortedRules|] == sortedRules;
      for i := 0 to |sortedRules|
        invariant Tables(exactMatches, prefixMatches, regexMatches) == FileAll(sortedRules)
        invariant Hosts(allowedHosts, allowAnyHost) == NoteAll(sortedRules[..i])
      {
        assert Init(sortedRules[..i + 1]) == sortedRules[..i];
        if sortedRules[i].matcher.host == "" {
          allowAnyHost := true;
        } else {
          allowedHosts := allowedHosts + {sortedRules[i].matcher.host};
        }
      }
    }

    /** IsAllowedHost: some rule is for any host, or for this one without its port. */
    method IsAllowedHost(ghost lib: Library, ghost rules: seq<Rule>, strip: string -> string, host: string)
      returns (allowed: bool)
      requires Serves(lib, rules)
      ensures allowed == AllowedHost(strip, Build(lib, rules), host)
      ensures StableSorter(lib.sort) ==>
                (allowed <==> exists r :: r in rules && (r.matcher.host == "" || r.matcher.host == strip(host)))
    {
      HostsLaid(lib.sort(rules));
      if StableSorter(lib.sort) {
        SortMembers(lib.sort, rules);
      }
      if allowAnyHost {
        return true;
      }
      allowed := strip(host) in allowedHosts;
    }

    /** matchExact: the entry for host and path, else for the path alone; that is the last such rule of the sorted list. */
    method MatchExact(ghost lib: Library, ghost rules: seq<Rule>, host: string, path: string) returns (rule: Option<Rule>)
      requires Serves(lib, rules)
      ensures rule == FiledUnder(exactMatches, host, path)
      ensures KeySafe(rules) && StableSorter(lib.sort) && WellFormedRequest(host, path) ==>
                rule == if LastExact(lib.sort(rules), host, path).Some? then LastExact(lib.sort(rules), host, path)
                        else LastExact(lib.sort(rules), "", path)
    {
      if KeySafe(rules) && StableSorter(lib.sort) && WellFormedRequest(host, path) {
        SortedKeySafe(lib, rules);
        ExactRefines(lib.sort(rules), host, path);
        ExactRefines(lib.sort(rules), "", path);
      }
      if host != "" {
        var key := MatchKey(host, path);
        if key in exactMatches {
          return Some(exactMatches[key]);
        }
      }
      var key := MatchKey("", path);
      if key in exactMatches {
        return Some(exactMatches[key]);
      }
      return None;
    }

    method MatchPrefix(host: string, path: string) returns (found: Option<Rule>)
      requires forall i :: 0 <= i < |prefixMatches| ==> prefixMatches[i].matcher.kind.Prefix?
      ensures found == FirstPrefix(prefixMatches, host, path)
      ensures found.Some? ==>
                && found.value in prefixMatches && found.value.matcher.path <= path
                && (found.value.matcher.host == "" || found.value.matcher.host == host)
    {
      for i := 0 to |prefixMatches|
        invariant FirstPrefix(prefixMatches, host, path) == FirstPrefix(prefixMatches[i..], host, path)
      {
        var rule := prefixMatches[i];
        assert prefixMatches[i..][1..] == prefixMatches[i + 1..];
        if rule.matcher.host != "" && rule.matcher.host != host {
          continue;
        }
        if rule.matcher.path <= path {
          return Some(rule);
        }
      }
      return None;
    }

    method MatchRegex(lib: Library, host: string, path: string) returns (hit: Hit)
      requires forall i :: 0 <= i < |regexMatches| ==> IsPattern(regexMatches[i])
      ensures hit == FirstPattern(lib, regexMatches, host, path)
      ensures hit.Hit? ==>
                && hit.rule in regexMatches && hit.rule.compiled.Some?
                && lib.submatch(hit.rule.compiled.value, path).Some?
                && var found := lib.submatch(hit.rule.compiled.value, path).value;
                   if found == [] then hit.captures == [] else found == [found[0]] + hit.captures
    {
      for i := 0 to |regexMatches|
        invariant FirstPattern(lib, regexMatches, host, path) == FirstPattern(lib, regexMatches[i..], host, path)
      {
        var rule := regexMatches[i];
        assert regexMatches[i..][1..] == regexMatches[i + 1..];
        if rule.matcher.host != "" && rule.matcher.host != host {
          continue;
        }
        if rule.compiled.None? {
          continue;
        }
        var matches := lib.submatch(rule.compiled.value, path);
        if matches.Some? {
          if |matches.value| > 1 {
            return Hit(rule, matches.value[1..]);
          }
          return Hit(rule, []);
        }
      }
      return Miss;
    }

    /** Router.Match: the three stages in turn; on well-formed requests, a scan of the sorted rules. */
    method Match(lib: Library, ghost rules: seq<Rule>, host: string, path: string) returns (hit: Hit)
      requires Serves(lib, rules)
      ensures hit == Find(lib, Build(lib, rules), host, path)
      ensures KeySafe(rules) && StableSorter(lib.sort) && WellFormedRequest(host, path) ==>
                hit == Scan(lib, lib.sort(rules), host, path)
      ensures hit.Hit? && IsPattern(hit.rule) ==>
                && hit.rule.compiled.Some? && lib.submatch(hit.rule.compiled.value, path).Some?
                && var found := lib.submatch(hit.rule.compiled.value, path).value;
                   if found == [] then hit.captures == [] else found == [found[0]] + hit.captures
    {
      FiledKinds(lib.sort(rules), host, path);
      LaidKinds(lib.sort(rules));
      if KeySafe(rules) && StableSorter(lib.sort) && WellFormedRequest(host, path) {
        SortedKeySafe(lib, rules);
        FindRefinesScan(lib, lib.sort(rules), host, path);
      }
      var exact := MatchExact(lib, rules, host, path);
      if exact.Some? {
        return Hit(exact.value, []);
      }
      var prefix := MatchPrefix(host, path);
      if prefix.Some? {
        return Hit(prefix.value, []);
      }
      hit := MatchRegex(lib, host, path);
    }
  }

  lemma FiledKinds(sorted: seq<Rule>, host: string, path: string)
    ensures var filed := FiledUnder(FileAll(sorted).exact, host, path);
            filed.Some? ==> filed.value.matcher.kind.Exact?
  {
    if MatchKey(host, path) in FileAll(sorted).exact {
      FiledExact(sorted, MatchKey(host, path));
    }
    if MatchKey("", path) in FileAll(sorted).exact {
      FiledExact(sorted, MatchKey("", path));
    }
  }

  lemma {:induction false} LaidKinds(sorted: seq<Rule>)
    ensures forall i :: 0 <= i < |FileAll(sorted).prefixes| ==> FileAll(sorted).prefixes[i].matcher.kind.Prefix?
    ensures forall i :: 0 <= i < |FileAll(sorted).patterns| ==> IsPattern(FileAll(sorted).patterns[i])
  {
    if sorted != [] {
      LaidKinds(Init(sorted));
    }
  }
}
