/**
 Configurations as already-decoded values, and their validation.  What the standard library does is
 an argument, a Library: of its regular expressions only the fragment the glob compiler emits has a
 fixed meaning, and of its sorting only what any stable sort owes (RuleOrder.StableSorter).
 */
module Config {
  import opened Text
  import opened Glob

  datatype MatchType = Exact | Prefix | Regex | Glob | Other(name: string)

  datatype Matcher = Matcher(kind: MatchType, path: string, pattern: string, host: string)

  datatype Response = Response(
    status: int,
    location: string,
    to: string,
    body: string,
    preservePath: bool,
    preserveQuery: Option<bool>,
    headers: map<string, string>)
  {
    /** The destination; `to` is the older spelling of `location`. */
    function GetLocation(): string
    {
      if location != "" then location else to
    }

    predicate IsRedirect()
    {
      300 <= status < 400
    }
  }

  /** `compiled` is the source text of the compiled expression, set by validation. */
  datatype Rule = Rule(id: string, matcher: Matcher, response: Response, priority: int, compiled: Option<string>)

  datatype ServerConfig = ServerConfig(port: int, managementPort: int)
  datatype DefaultConfig = DefaultConfig(statusCode: int, preserveQuery: bool)
  datatype StatsConfig = StatsConfig(enabled: bool, bufferSize: int, samplingRate: real)
  datatype AuthConfig = AuthConfig(enabled: bool, allowIPs: seq<string>)

  datatype Config = Config(
    version: string,
    server: ServerConfig,
    defaults: DefaultConfig,
    stats: Option<StatsConfig>,
    auth: Option<AuthConfig>,
    rules: seq<Rule>)

  /**
   The standard library: which expressions compile, the submatches (full match first) a compiled
   expression finds in a path, replacement of every match by an expanded template, and
   sort.SliceStable under the router's comparison.
   */
  datatype Library = Library(
    compiles: string -> bool,
    submatch: (string, string) -> Option<seq<string>>,
    replaceAll: (string, string, string) -> string,
    sort: seq<Rule> -> seq<Rule>)

  /** The library gives the anchored fragment its standard meaning; it has no capture groups. */
  ghost predicate HonoursFragment(lib: Library)
  {
    forall source :: Parse(source).Some? ==>
      && lib.compiles(source)
      && forall path :: lib.submatch(source, path) ==
                        if Matches(Parse(source).value, path) then Some([path]) else None
  }

  // ---------- validation ----------

  datatype ValidationError =
    | NoRules
    | DuplicateID(id: string)
    | InvalidStatus(id: string, status: int)
    | MissingDestination(id: string)
    | MissingPath(id: string)
    | MissingPattern(id: string)
    | InvalidPattern(id: string)
    | UnknownMatchType(id: string)

  /** What is wrong with one rule on its own. */
  function RuleError(lib: Library, rule: Rule): Option<ValidationError>
  {
    if rule.response.status < 100 || rule.response.status >= 600 then
      Some(InvalidStatus(rule.id, rule.response.status))
    else if rule.response.IsRedirect() && rule.response.GetLocation() == "" then
      Some(MissingDestination(rule.id))
    else match rule.matcher.kind
      case Exact => if rule.matcher.path == "" then Some(MissingPath(rule.id)) else None
      case Prefix => if rule.matcher.path == "" then Some(MissingPath(rule.id)) else None
      case Regex =>
        if rule.matcher.pattern == "" then Some(MissingPattern(rule.id))
        else if !lib.compiles(rule.matcher.pattern) then Some(InvalidPattern(rule.id))
        else None
      case Glob =>
        if rule.matcher.pattern == "" then Some(MissingPattern(rule.id))
        else if !lib.compiles(Compiled(rule.matcher.pattern)) then Some(InvalidPattern(rule.id))
        else None
      case Other(_) => Some(UnknownMatchType(rule.id))
  }

  /** A rule with its pattern compiled. */
  function WithPattern(rule: Rule): Rule
  {
    match rule.matcher.kind
    case Regex => rule.(compiled := Some(rule.matcher.pattern))
    case Glob => rule.(compiled := Some(Compiled(rule.matcher.pattern)))
    case _ => rule
  }

  function WithPatterns(rules: seq<Rule>): (compiled: seq<Rule>)
    ensures |compiled| == |rules|
    ensures forall i :: 0 <= i < |rules| ==> compiled[i] == WithPattern(rules[i])
  {
    seq(|rules|, i requires 0 <= i < |rules| => WithPattern(rules[i]))
  }

  ghost predicate DistinctIDs(rules: seq<Rule>)
  {
    forall i, j :: 0 <= i < j < |rules| ==> rules[i].id != rules[j].id
  }

  ghost predicate Acceptable(lib: Library, rules: seq<Rule>)
  {
    DistinctIDs(rules) && forall i :: 0 <= i < |rules| ==> RuleError(lib, rules[i]).None?
  }

  /** The error reported is that of the first rule that has one, a repeated ID taking precedence. */
  ghost predicate FirstError(lib: Library, rules: seq<Rule>, at: nat, e: ValidationError)
  {
    && at < |rules|
    && Acceptable(lib, rules[..at])
    && if exists k :: 0 <= k < at && rules[k].id == rules[at].id
       then e == DuplicateID(rules[at].id)
       else RuleError(lib, rules[at]) == Some(e)
  }

  ghost predicate PassedValidation(lib: Library, c: Config)
  {
    c.rules != [] && Acceptable(lib, c.rules) && c.rules == WithPatterns(c.rules)
  }

  /** Config.Validate: walks the rules once, compiling patterns in place, and stops at the first error. */
  method Validate(lib: Library, c: Config) returns (checked: Config, error: Option<ValidationError>)
    ensures error.None? <==> c.rules != [] && Acceptable(lib, c.rules)
    ensures error.None? ==> checked == c.(rules := WithPatterns(c.rules)) && PassedValidation(lib, checked)
    ensures error.Some? ==> if c.rules == [] then error.value == NoRules
                            else exists at :: FirstError(lib, c.rules, at, error.value)
    ensures error.None? ==> forall i, j :: 0 <= i < j < |c.rules| ==> c.rules[i].id != c.rules[j].id
    ensures error.Some? && error.value.DuplicateID? ==>
              exists i, j :: 0 <= i < j < |c.rules| && c.rules[i].id == c.rules[j].id == error.value.id
  {
    hide RuleError, WithPattern;
    checked := c;
    if |c.rules| == 0 {
      return checked, Some(NoRules);
    }
    var seenIDs: set<string> := {};
    for i := 0 to |c.rules|
      invariant |checked.rules| == |c.rules| && checked == c.(rules := checked.rules)
      invariant forall k :: 0 <= k < i ==> checked.rules[k] == WithPattern(c.rules[k])
      invariant forall k :: i <= k < |c.rules| ==> checked.rules[k] == c.rules[k]
      invariant seenIDs == set k | 0 <= k < i :: c.rules[k].id
      invariant Acceptable(lib, c.rules[..i])
    {
      var rule := checked.rules[i];
      error := None;
      if rule.id in seenIDs {
        ghost var k :| 0 <= k < i && c.rules[k].id == rule.id;
        assert c.rules[k].id == c.rules[i].id == rule.id;
        error := Some(DuplicateID(rule.id));
      } else {
        seenIDs := seenIDs + {rule.id};
        error := RuleError(lib, rule);
        NoRepetition(lib, rule);
      }
      if error.Some? {
        assert FirstError(lib, c.rules, i, error.value);
        assert c.rules[..i + 1][i] == c.rules[i];
        return;
      }
      checked := checked.(rules := checked.rules[i := WithPattern(rule)]);
    }
    error := None;
    assert c.rules[..|c.rules|] == c.rules;
    assert checked.rules == WithPatterns(c.rules);
    ValidationStable(lib, c.rules);
  }

  lemma NoRepetition(lib: Library, r: Rule)
    ensures RuleError(lib, r).Some? ==> !RuleError(lib, r).value.DuplicateID?
  {
  }

  /** Which rules are without fault, field by field. */
  lemma FaultFree(lib: Library, r: Rule)
    ensures RuleError(lib, r).None? <==>
            && 100 <= r.response.status <= 599
            && (300 <= r.response.status <= 399 ==> r.response.location != "" || r.response.to != "")
            && (r.matcher.kind.Exact? || r.matcher.kind.Prefix? ==> r.matcher.path != "")
            && (r.matcher.kind.Regex? ==> r.matcher.pattern != "" && lib.compiles(r.matcher.pattern))
            && (r.matcher.kind.Glob? ==> r.matcher.pattern != "" && lib.compiles(Compiled(r.matcher.pattern)))
            && !r.matcher.kind.Other?
  {
  }

  /** Which fault is reported: status before destination before match. */
  lemma FaultReported(lib: Library, r: Rule)
    ensures var badStatus := r.response.status <= 99 || 600 <= r.response.status;
            var noWhere := 300 <= r.response.status <= 399 && r.response.location == "" && r.response.to == "";
            var error, kind, pattern := RuleError(lib, r), r.matcher.kind, r.matcher.pattern;
            && (badStatus <==> error == Some(InvalidStatus(r.id, r.response.status)))
            && (noWhere <==> error == Some(MissingDestination(r.id)))
            && (!badStatus && !noWhere ==>
                  && ((kind.Exact? || kind.Prefix?) && r.matcher.path == "" <==> error == Some(MissingPath(r.id)))
                  && ((kind.Regex? || kind.Glob?) && pattern == "" <==> error == Some(MissingPattern(r.id)))
                  && (pattern != "" && ((kind.Regex? && !lib.compiles(pattern))
                                        || (kind.Glob? && !lib.compiles(Compiled(pattern))))
                      <==> error == Some(InvalidPattern(r.id)))
                  && (kind.Other? <==> error == Some(UnknownMatchType(r.id))))
  {
  }

  /** What validation leaves in a rule: its compiled pattern, and everything else as it was. */
  lemma OnlyPatternsChange(r: Rule)
    ensures WithPattern(r).(compiled := r.compiled) == r
    ensures r.matcher.kind.Regex? ==> WithPattern(r).compiled == Some(r.matcher.pattern)
    ensures r.matcher.kind.Exact? || r.matcher.kind.Prefix? ==> WithPattern(r) == r
  {
  }

  /** Validation reads nothing it writes: a validated configuration validates again, unchanged. */
  lemma ValidationStable(lib: Library, rules: seq<Rule>)
    requires Acceptable(lib, rules)
    ensures Acceptable(lib, WithPatterns(rules)) && WithPatterns(WithPatterns(rules)) == WithPatterns(rules)
  {
  }

  /** A glob never fails to compile, and once compiled finds exactly the paths it denotes, without captures. */
  lemma GlobRulesCompile(lib: Library, pattern: string, path: string)
    requires HonoursFragment(lib)
    ensures lib.compiles(Compiled(pattern))
    ensures lib.submatch(Compiled(pattern), path) ==
            if Denotes(pattern, path, false) then Some([path]) else None
  {
    CompilePreservesMeaning(pattern);
  }
}
