# The Redirector: verified model

This Dafny project models the path from a set of redirect rules to a served redirect in The
Redirector, and proves what that path promises. `dafny verify dfyconfig.toml` checks everything.

| files | part of the system |
|---|---|
| Text, Config, Glob | strings, configurations and their validation, the glob compiler |
| RuleOrder, Router, Precedence, Templates, Serving | rule order, the routing index, which fitting rule answers, and the client that follows the answer |
| LintGlob, RedirectGraph, CycleKeys, CycleSearch, PrefixLoops, Chains, LintMeaning, CleanLint, Verdict, Linter | the redirect-loop linter and what its verdict is worth |
| MergeFold, MergeLaws, MergeKeys, Syncer | merging rules from several sources |
| Diff, Versions, Swap, Server | version history, configuration diffs, reload and rollback |
| Stats | the statistics collector |

Objects the program updates in place are classes (`Router`, `CycleSearch`, `Syncer`, `Store`, `Server`,
`Collector`), its loops are loops, and each method is proved against a function or a log that the
lemmas then reason about.

## Main results

1. **A clean lint bounds redirect chains.** The depth-first search reports a cycle exactly when the
   rule graph has one, reports only simple cycles, never one twice, and every cycle of the graph shares
   an edge with a reported one. Over validated rules its edges are the matches of the router, hosts aside and globs
   by their ending. When it reports none and every redirect rule is one the linter reads right,
   any client stops after at most as many redirects as there are redirect rules, for every host, path and
   mix of exact, prefix, capture-free regex and glob rules. Which hosts reach the service, and what clients make
   of a destination, is independent of the rules and of the linter's parser: a URL is read right when clients do
   not follow it, its host does not reach the service, or the linter parses it to the path clients request and a
   host some rule names. With constant destinations read right the verdict is exact: after a clean lint all
   chains are finite if and only if no rule is the router's own answer to its destination, the case the graph
   builder skips. Where each rule is exact, for any host and alone with its path, it is exact whether clean or
   not: all chains are finite if and only if no cycle is reported and no rule redirects to itself. Seven lemmas
   give rule sets that lint clean and loop forever: a rule redirecting to itself, a URL back to a host no rule
   names, a URL the linter cannot parse, a destination without a leading slash, one with two, two
   `preserve_path` rules, and destinations with a query. The flag on `preserve_path` rules is exact, wherever the
   rule fits, when it keeps to its local destination; a rule whose destination names a host is endless if and
   only if that host reaches the service, the rule is for it, and the destination's path is under the prefix.
2. **The glob compiler preserves meaning**, for every pattern and path, against an independent parser and
   matcher for the emitted expressions; the paths on which every glob means what the documentation says are
   exactly those without a newline. The linter's simplified glob test is sound for exactly the patterns
   `w/**` and `w/*` with `w` free of wildcards.
3. **The routing index answers as a plain scan** of the sorted rules does; a request goes unanswered exactly
   when no rule fits it. The priority field decides a request exactly when no two rules that fit it are
   inverted. Keeping ties in order and meeting the router's comparison are possible together exactly when no
   non-prefix rule stands between a shorter and a longer prefix rule of its priority; then there is one such
   arrangement, every stable sort finds it, prefixes come longest first, and the answer is the rule a total
   order on stage, priority, length and position puts first. For insertion sort, which the library uses on up
   to twenty rules, the place of every rule is characterised; the sorted list is longest-prefix-first only
   without such a rule between, and a request gets its longest prefix if and only if some longest one is not
   split from any shorter one that fits. Early host rejection hides no rule exactly when every rule that fits
   some request still names an allowed host once its port is stripped.
4. **Merging**: under each of the three policies the merged rules are exactly the winners in merge order, no
   two share a path key, nothing is lost or counted twice, and valid sources with separate prefixes give a
   valid result. Among rules with slash-free hosts, and paths or patterns that begin with a slash, a conflict
   means one host and one path or pattern, so rules apart in either all survive. Distinct keys are guaranteed by
   those three policies and no other policy string.
5. **Reload and rollback**: in every interleaving the router belongs to the served configuration and nothing
   unvalidated is served or stored. The store's current configuration is the served one whenever the same
   operation last served and last recorded, and always when each operation's steps end before the next one's
   begin; an overlapping run where they differ is given.
6. **Version history** is a window on an unbounded log; the recorded differences are correct patches up to the
   fields the comparison looks at, and exact if and only if no shared rule changed in other fields alone.

## Where code and documentation differ

The model follows the code.

- docs/RULE_TYPES.md:256 puts the priority field first. The router tries exact rules for the host, exact rules
  for any host, prefix and then pattern rules whatever their priorities (`Precedence.LowExactBeatsHighPrefix`,
  `Precedence.LowHostedBeatsHighExact`), and among exact rules with one host and path the lowest priority
  answers (`Precedence.ExactAnswerPriority`). `Precedence.PriorityDecidesIff` says when the field decides all
  the same; a pair of rules in the wrong stages alone does not show it (`Precedence.InversionCanBeMasked`).
- docs/RULE_TYPES.md:257 puts regular expressions before globs; they share one list, in which the kind plays no
  part (`Precedence.GlobBeforeRegex`). `Precedence.RegexFirstIff` says when the order comes out all the same.
- docs/RULE_TYPES.md:258 promises longer prefixes first; the comparison does not deliver that when a priority
  class mixes kinds (`Precedence.SplitMissesLongest`, and exactly when in `Precedence.LongestPrefixIff`).
- docs/RULE_TYPES.md:259 lets the file order break ties; among exact rules with one host, path and priority the
  LAST one written answers (`Precedence.LastExactAnswers`). `Precedence.FileOrderIff` says when ties follow the file.
- docs/RULE_TYPES.md:66 lets `**` match any depth; a decoded newline in the path stops it
  (`Glob.NewlineStopsStars`, `Glob.NewlineFreeIff`).
- docs/SYNCER.md:226-236 lists the loops the linter reports; those in `Linter` named "Unreported" escape it.
- The comment at internal/lint/lint.go:461 takes every destination with a leading slash to be local; one with two
  slashes names a host (`PrefixLoops.SchemeRelativeFlagged`, `Linter.SchemeRelativeUnreported`).
- The comment at internal/versioning/version.go:150 says a rollback makes a previous version current without
  changing it; the code appends a copy under a fresh number.

## Model

| member | source | states |
|---|---|---|
| Glob.GlobToRegex | internal/config/config.go:395-431 | the index loop and builder produce the compilation of the pattern |
| Glob.BodyParses | internal/config/config.go:395-431 | everything emitted parses piece by piece; no piece is read as the star of the one before |
| Glob.CompilePreservesMeaning | internal/config/config.go:395-431 | every glob compiles into the anchored fragment, and the result matches exactly the paths the glob denotes |
| Glob.NewlineFreeIff | docs/RULE_TYPES.md:63-67 | the compiled meaning of every glob is the documented one on a path exactly when the path has no newline |
| Glob.NewlineStopsStars | docs/RULE_TYPES.md:63-67 | a path with a newline that the documented meaning accepts and the compiled one does not |
| Glob.WildcardsAlone | docs/RULE_TYPES.md:63-67 | what each wildcard stands for on its own, and that other characters stand for themselves |
| Config.Validate | internal/config/config.go:329-392 | succeeds exactly on non-empty rules with distinct IDs and no faulty rule, compiles every pattern, and otherwise reports the first error |
| Config.FaultFree | internal/config/config.go:346-389 | which rules have no fault, field by field |
| Config.FaultReported | internal/config/config.go:346-389 | which fault is reported of a rule that has several |
| Config.OnlyPatternsChange | internal/config/config.go:369-384 | validation sets the compiled pattern and changes nothing else |
| Config.ValidationStable | internal/config/config.go:329-392 | a validated configuration validates again, unchanged |
| Config.GlobRulesCompile | internal/config/config.go:374-384 | a glob rule never fails to compile and finds what it denotes, without captures |
| RuleOrder.SortedByPriority | internal/router/router.go:38-52 | sorting puts higher priorities first whatever kinds a class mixes |
| RuleOrder.BeforeIsWeakOrder | internal/router/router.go:41-52 | in an unmixed list incomparability is transitive, so the comparison is a strict weak order there |
| RuleOrder.SortedMeaning | internal/router/router.go:41-52 | a list is sorted by the comparison exactly when priorities fall and prefixes of one priority stand longest first |
| RuleOrder.RingIsSplit | internal/router/router.go:41-52 | three positions that must precede each other in a ring are exactly a short prefix, a non-prefix rule and a longer prefix of one priority |
| RuleOrder.OrderIffUnsplit | internal/router/router.go:38-52 | an arrangement that meets the comparison and keeps ties in order exists exactly when the list has no split |
| RuleOrder.UniqueOrder | internal/router/router.go:38-52 | there is never more than one |
| RuleOrder.UnsplitSort | internal/router/router.go:38-52 | on a list without a split every stable sort gives the one insertion gives, sorted by the comparison |
| RuleOrder.InsertionLeads | internal/router/router.go:38-52 | insertion sort orders any list by priority, then by length where no other kind of rule of the priority stands between, then by position |
| RuleOrder.LongestFirstIffUnsplit | internal/router/router.go:38-52 | as insertion sort leaves it, the list is longest-prefix-first in every priority exactly when the given list has no split |
| RuleOrder.UnmixedIsUnsplit | internal/router/router.go:46-51 | lists whose priority classes do not mix kinds have no split |
| Router.KeyInjective | internal/router/router.go:203-208 | lookup keys of well-formed host and path pairs are equal only for equal pairs |
| Router.KeysCollide | internal/router/router.go:203-208 | a key shared by two pairs when a path does not begin with a slash |
| Router.Router.constructor | internal/router/router.go:30-82 | the loops build the index of the rules as the library sorts them |
| Router.Router.IsAllowedHost | internal/router/router.go:87-94 | true exactly when some configured rule is for any host, or for this one without its port |
| Router.Router.MatchExact | internal/router/router.go:139-155 | the last rule of the sorted list for this host and path, else the last for the path and any host |
| Router.Router.MatchPrefix | internal/router/router.go:159-173 | the first host-compatible prefix rule of the list |
| Router.Router.MatchRegex | internal/router/router.go:177-200 | the first host-compatible compiled pattern that matches, with its groups |
| Router.Router.Match | internal/router/router.go:119-136 | the three stages in turn, which on well-formed requests is the scan of the sorted rules |
| Router.FindRefinesScan | internal/router/router.go:54-70 | for every sorted list and well-formed request the index and the scan give the same answer |
| Router.AnswersExactly | internal/router/router.go:119-200 | no answer exactly when no rule fits; an answer is a configured rule that fits, with the right captures |
| Router.AnswersInFields | internal/router/router.go:119-200 | the same in terms of the rules' fields, and that the captures are all groups found behind the full match |
| Precedence.AnswerRank | internal/router/router.go:119-200 | the answer is of the earliest stage with a fitting rule, and there of the lowest priority if exact, of the highest otherwise |
| Precedence.KindBeatsPriority | internal/router/router.go:119-136 | a fitting exact rule always beats prefix rules, and those always beat patterns |
| Precedence.HonouredIff | docs/RULE_TYPES.md:252-259 | a request is answered by the highest priority that fits exactly when no two fitting rules are inverted |
| Precedence.PriorityDecidesIff | docs/RULE_TYPES.md:252-259 | the same for all requests at once |
| Precedence.InTurnIsHonoured | docs/RULE_TYPES.md:252-259 | it is enough that no two rules fitting one request are out of turn |
| Precedence.InversionCanBeMasked | internal/router/router.go:119-136 | two rules out of turn that never cost a request its priority, since a third one answers first |
| Precedence.LowExactBeatsHighPrefix | docs/RULE_TYPES.md:256 | an exact rule of priority 0 answers although a prefix rule of priority 10 fits |
| Precedence.LowHostedBeatsHighExact | docs/RULE_TYPES.md:256 | an exact rule with a host answers although one of higher priority for any host fits |
| Precedence.GlobBeforeRegex | docs/RULE_TYPES.md:257 | a glob written before a regular expression of its priority answers |
| Precedence.RegexFirstIff | docs/RULE_TYPES.md:257 | among the top fitting patterns a regular expression answers whenever there is one exactly when no glob stands before all of them |
| Precedence.LastExactAnswers | docs/RULE_TYPES.md:259 | of two exact rules alike in all but position the second answers |
| Precedence.FileOrderIff | docs/RULE_TYPES.md:259 | ties go by position in the file exactly when the answer is not exact or nothing ties with it |
| Precedence.AnswerChosen | internal/router/router.go:38-82 | without a split the answer is the fitting rule that stage, then priority, length and position put first |
| Precedence.ExactAnswerPriority | internal/router/router.go:60-62 | the exact answer has the lowest priority of its key, and the highest only when all share one priority |
| Precedence.LongestPrefixInSorted | internal/router/router.go:159-173 | over any list sorted by the comparison a prefix answer has maximal priority and, within it, maximal length |
| Precedence.LongestPrefixWins | internal/router/router.go:38-52 | the same for every configured list without a split, whatever the stable sort |
| Precedence.LongestPrefixIff | docs/RULE_TYPES.md:258 | under insertion sort a prefix answer is a longest one exactly when some longest one is not split from a shorter one that fits |
| Precedence.SplitMissesLongest | internal/router/router.go:46-51 | a split list that answers with the shorter of two prefixes |
| Router.RejectionTransparent | internal/router/router.go:72-94 | early rejection hides no rule exactly when every usable rule's stripped host is allowed |
| Router.PortlessHostsTransparent | internal/router/router.go:84-94 | with port-free rule hosts a rejected host has no matching rule for any path |
| Serving.PrefixHitFits | internal/server/server.go:454-458 | the suffix cut from the path always exists |
| Serving.HandleRedirect | internal/server/server.go:338-485 | host check, match, and destination built from captures, suffix and query; captures end up where the location names them |
| Serving.ReplyStatus | internal/server/server.go:358-447 | 421 when no rule is for the host, 404 when none fits, else the rule's status, with its body if that is no redirect |
| Serving.PlainReply | internal/server/server.go:446-447 | the location as written when there is nothing to fill in or append |
| Serving.SuffixReply | internal/server/server.go:454-458 | what follows the prefix in the path follows the location |
| Serving.CapturesReply | internal/server/server.go:449-452 | where the pattern matches the whole path, `$n` in the location becomes the n-th capture |
| Serving.QueryReply | internal/server/server.go:460-469 | the query follows one question mark, and only where the rule asks for it |
| Serving.QueryKeepsPath | internal/server/server.go:460-469 | of a reference that starts with a slash the appended query leaves the path |
| Serving.QueryKeepsVisit | internal/server/server.go:460-469 | the appended query never changes where a client goes next, whatever kind of reference the destination is |
| Serving.ReplyLeadsToNext | internal/server/server.go:338-485 | the reply to a request with any query leads clients where the chain model says |
| LintGlob.UnderstoodIsSound | internal/lint/lint.go:539-553 | for `w/**` and `w/*` the linter accepts every path the compiled glob accepts |
| LintGlob.SoundOnlyOnUnderstood | internal/lint/lint.go:539-553 | and for no other pattern does it |
| LintGlob.ReadByEnding | internal/lint/lint.go:539-553 | the linter reads a glob by its ending and compares the rest as it stands |
| LintGlob.UnderstoodExactly | internal/lint/lint.go:539-553 | the paths an understood glob denotes, for comparison with those the linter takes |
| RedirectGraph.BuildRedirectGraph | internal/lint/lint.go:490-513 | an edge from i to j exactly when i differs from j and i's destination path matches j; no edge twice |
| LintMeaning.ValidatedFits | internal/router/router.go:139-200 | a validated rule fits, for its host or any, the paths it was written to match: equal, below, found by the expression, denoted by the glob |
| LintMeaning.LinterReads | internal/lint/lint.go:516-553 | the linter takes validated exact, prefix and regex rules to match what the router does, hosts aside, and globs by their ending |
| LintMeaning.EdgesByMatches | internal/lint/lint.go:460-513 | edges in those terms: from i to another j exactly when the path of i's destination, local or to a host some rule names, is one j is taken to match |
| Linter.CollectLocalHosts | internal/lint/lint.go:448-456 | exactly the non-empty hosts of the rules |
| CycleKeys.ExtractCycle | internal/lint/lint.go:610-620 | the part of the stack from the start node on, closed by it; nothing if it is not on the stack |
| CycleKeys.CycleKey | internal/lint/lint.go:624-645 | the IDs rotated to begin at the first smallest one, joined |
| CycleKeys.KeySpelled | internal/lint/lint.go:624-645 | the key lists the IDs in cycle order from the first one that no other is less than |
| Text.LessMeaning | internal/lint/lint.go:634 | less means ending first or having the smaller character at the first difference |
| Text.JoinInjective | internal/lint/lint.go:644 | joining with "->" is injective on lists of IDs free of "->" |
| CycleKeys.KeyIffRotation | internal/lint/lint.go:624-645 | keys of two cycles are equal exactly when one is a rotation of the other |
| CycleSearch.CycleSearch.Dfs | internal/lint/lint.go:574-596 | colours every node it reaches, accounts for every edge, and never whitens a node |
| CycleSearch.CycleSearch.Close | internal/lint/lint.go:580-589 | an edge to a gray node closes a simple cycle, reported once per key |
| CycleSearch.FindCycles | internal/lint/lint.go:557-606 | terminates; reports a cycle exactly when there is one, only simple cycles, none twice, sharing an edge with every cycle; if none, ranks the graph |
| CycleSearch.WalkFalls | internal/lint/lint.go:574-596 | along any walk rank falls unless an exempt edge is used |
| CycleSearch.ClosedIsReported | internal/lint/lint.go:582-589 | every cycle the search closes is a rotation of a reported one, so deduplication drops nothing else |
| CycleSearch.FinishedCovers | internal/lint/lint.go:557-606 | every closed walk of the graph uses an edge of a reported cycle |
| PrefixLoops.CheckPrefixSelfLoops | internal/lint/lint.go:649-681 | exactly the flagged rules, in order |
| PrefixLoops.FlaggedForever | internal/lint/lint.go:664-668 | a flagged rule that keeps to its destination matches what clients make of its output forever |
| PrefixLoops.UnflaggedStops | internal/lint/lint.go:664-668 | an unflagged one stops matching it, since the path shrinks each time |
| PrefixLoops.FlagIsExact | internal/lint/lint.go:649-681 | for such rules the flag is raised exactly on those that go on forever, at every visit under the prefix |
| PrefixLoops.SteadyKeeps | internal/server/server.go:454-458 | a rule keeps to a bare local destination other than the root when normalisation leaves its outputs alone |
| PrefixLoops.DotSegmentEscapes | internal/server/server.go:454-458 | a destination ending with a slash that dots in the suffix lead out of |
| PrefixLoops.NamedEndlessIff | internal/lint/lint.go:649-681 | a rule whose destination names a host goes on forever exactly when the host reaches the service, the rule is for it and the path is under the prefix, while the flag on one with two slashes only compares texts |
| PrefixLoops.SchemeRelativeFlagged | internal/lint/lint.go:460-464 | a scheme-relative destination to another service is flagged though clients leave |
| Chains.HopFalls | internal/lint/lint.go:490-513 | a redirect from one rule to another follows a graph edge, so its rank falls |
| Chains.CleanLintBoundsChains | internal/lint/lint.go:397-444 | a clean lint over legible rules bounds every chain by the number of redirect rules |
| CleanLint.ConstantForward | internal/server/server.go:446-458 | rules with constant destinations send every path to the destination as written |
| CleanLint.ConstantIsLegible | internal/lint/lint.go:516-536 | such rules are legible when other rules are readable and destinations plain, whatever parser clients use |
| CleanLint.PreserveIsLegible | internal/lint/lint.go:664-668 | a preserve_path rule that keeps to its destination is legible when no redirect rule's path extends that |
| CleanLint.ValidatedReadable | internal/lint/lint.go:539-553 | after validation a glob rule is readable exactly when its pattern is understood |
| CleanLint.ConstantChainsFiniteIff | internal/lint/lint.go:500-503 | with constant destinations a clean lint means finite chains exactly when no rule answers its own destination |
| CleanLint.TameChainsBounded | internal/lint/lint.go:397-444 | clean graph, no flag and tame rules bound every chain, preserve_path included |
| Verdict.EdgeIsHop | internal/lint/lint.go:490-513 | for exact rules each alone with its path every edge is a redirect clients follow |
| Verdict.ExactVerdict | internal/lint/lint.go:397-444 | for them all chains are finite exactly when no cycle is found and no rule redirects to itself |
| Linter.CheckCircularRedirects | internal/lint/lint.go:397-444 | all of the above for the rules of a configuration, from one call |
| Linter.SelfRedirectUnreported | internal/lint/lint.go:502-504 | a rule redirecting to itself lints clean and loops |
| Linter.UnnamedHostUnreported | internal/lint/lint.go:471-485 | a rule redirecting to its own path by a URL whose host no rule names lints clean and loops |
| Linter.UnparsedUnreported | internal/lint/lint.go:466-469 | a rule redirecting below its own prefix by a URL the linter cannot parse lints clean and loops |
| Linter.SchemeRelativeUnreported | internal/lint/lint.go:460-464 | two exact rules redirecting to each other by destinations with two slashes lint clean and loop |
| Linter.RelativeUnreported | internal/lint/lint.go:466-487 | a rule redirecting to its own path without a leading slash lints clean and loops |
| Linter.PreservedCycleUnreported | internal/lint/lint.go:490-513 | two preserve_path rules lint clean and loop |
| Linter.QueryCycleUnreported | internal/lint/lint.go:460-464 | two exact rules with queries in their destinations lint clean and loop |
| Syncer.Collect | internal/syncer/syncer.go:369-396 | what is kept of each source does not depend on the order of arrival |
| Syncer.ContributionsArrive | internal/syncer/syncer.go:371-395 | one contribution per source in order of arrival, with its rule count or error |
| Syncer.FirstServer | internal/syncer/syncer.go:430-433 | server settings come from the first source in merge order with a port |
| Syncer.FirstDefaults | internal/syncer/syncer.go:435-438 | defaults come from the first source in merge order with a status code |
| Syncer.IsAllowed | internal/syncer/syncer.go:448-457 | whether the rule's path or pattern lies under an allowed path |
| Syncer.RemoveRuleByPath | internal/syncer/syncer.go:547-562 | exactly the rules with another path key, in order |
| Syncer.CreditSource | internal/syncer/syncer.go:505-510 | only the first contribution of that name gains the rule ID |
| Syncer.MergeRule | internal/syncer/syncer.go:440-511 | the body of the merge loop, policy by policy, is one step of the fold |
| Syncer.Syncer.FetchAndMerge | internal/syncer/syncer.go:342-544 | result, errors and stored report of a whole merge; under "error" it fails for conflicts exactly when two rules share host and place |
| MergeFold.WithoutRemovesOne | internal/syncer/syncer.go:547-562 | with distinct keys a removal takes out exactly one rule |
| MergeFold.WinnersMeaning | internal/syncer/syncer.go:474-496 | the winners are the latest suppliers of each key under "priority", the earliest otherwise, in merge order |
| MergeFold.MergeDescribes | internal/syncer/syncer.go:432-503 | throughout the fold the rules are the winners and both side indexes describe exactly them |
| MergeKeys.KeyIffPlace | internal/syncer/syncer.go:467-473 | rules have one key exactly when they have one host and one path or pattern: for one host always, else for slash-free hosts and places that begin with a slash |
| MergeKeys.PlacesCollide | internal/syncer/syncer.go:467-473 | two patterns outside that hypothesis with one key |
| MergeKeys.SuppliedAre | internal/syncer/syncer.go:448-464 | the rules taking part are those whose path or pattern lies under an allowed path, if there are any |
| MergeKeys.PrefixedMeaning | internal/syncer/syncer.go:441-446 | a prefix changes the ID alone |
| MergeKeys.WarningsName | internal/syncer/syncer.go:458-463 | the warnings name exactly the rules not allowed, by the ID they came with |
| MergeKeys.StepConflicts | internal/syncer/syncer.go:475-496 | a conflict names winner so far and newcomer, in that order, and who wins |
| MergeKeys.ConflictIffSamePlace | internal/syncer/syncer.go:474-496 | a merge has a conflict exactly when two rules taking part have one host and one path or pattern |
| MergeKeys.ApartAllSurvive | internal/syncer/syncer.go:432-503 | without such a pair every rule taking part survives, in merge order, under its own ID |
| MergeKeys.HostsKeepApart | internal/syncer/syncer.go:467-473 | in any merge a rule alone with its host and place survives |
| MergeLaws.SuppliedKeySurvives | internal/syncer/syncer.go:432-503 | path keys are distinct, and a key survives exactly when some allowed rule supplied it |
| MergeLaws.PriorityWinnerIsMaximal | internal/syncer/syncer.go:482-488 | under "priority" a surviving rule's source has maximal priority for its key |
| MergeLaws.FirstWinnerIsEarliest | internal/syncer/syncer.go:489-494 | under the other policies it is the earliest allowed rule with its key |
| MergeLaws.ArrivalIrrelevant | internal/syncer/syncer.go:370-396 | arrival order shows only in the report's list of sources |
| MergeLaws.NothingLost | internal/syncer/syncer.go:440-512 | merged rules, conflicts and warnings add up to the rules fetched |
| MergeLaws.CreditsCountAccepted | internal/syncer/syncer.go:504-511 | the report credits every accepted rule, including those displaced later |
| MergeLaws.DistinctExactlyWhenKnown | internal/syncer/syncer.go:477-495 | distinct keys for all inputs exactly under the three policies |
| MergeLaws.PrefixesSeparate | internal/syncer/syncer.go:441-446 | IDs under different slash-free prefixes never meet |
| MergeLaws.MergeAcceptable | internal/syncer/syncer.go:523-527 | merging fault-free rules with distinct prefixed IDs gives rules that validate |
| Syncer.PriorityMerge | internal/syncer/syncer.go:412-414 | the priority law for whole merges of fetched sources |
| Syncer.MergedPassesValidation | internal/syncer/syncer.go:523-527 | valid sources with separate prefixes merge into valid rules |
| Diff.CalculateChanges | internal/versioning/version.go:208-252 | lists without repetition of exactly the added, removed and modified IDs, and the three flags |
| Diff.ChangesMeaning | internal/versioning/version.go:213-240 | without repeated IDs: added, removed and modified in terms of the two lists of rules |
| Diff.MapHoldsLast | internal/versioning/version.go:213-222 | of rules with one ID the last is compared |
| Diff.RulesEqualMeaning | internal/versioning/version.go:255-269 | rules count as equal exactly when they agree but for spelling of the destination, preservation, headers and compiled pattern |
| Diff.FlagsMeaning | internal/versioning/version.go:242-250 | the three flags: any difference in server or statistics, authentication there or on in one only |
| Diff.PatchCorrect | internal/versioning/version.go:225-240 | applying the difference to the old rules gives the new ones up to the comparison |
| Diff.PatchExactIff | internal/versioning/version.go:255-269 | exactly the new ones when and only when no shared rule changed in uncompared fields alone |
| Diff.ReverseDiff | internal/versioning/version.go:225-240 | the reverse difference swaps added and removed and keeps the rest |
| Diff.DiffDisjoint | internal/versioning/version.go:225-240 | added, removed and modified never overlap |
| Versions.Store.Add | internal/versioning/version.go:59-92 | appends to the log under the next number with the difference from the previous entry |
| Versions.Store.Current | internal/versioning/version.go:95-106 | the newest entry |
| Versions.Store.Previous | internal/versioning/version.go:138-148 | the entry before it, when the ring holds two |
| Versions.Store.Get | internal/versioning/version.go:109-120 | finds a version exactly when it exists and fewer newer ones do than the store holds |
| Versions.Store.List | internal/versioning/version.go:123-135 | all entries up to the store's size, then that many of the newest, in order, with consecutive numbers |
| Versions.Store.Rollback | internal/versioning/version.go:152-185 | appends a copy of any retained version, even over its own slot; otherwise changes nothing |
| Versions.MirrorsAppend | internal/versioning/version.go:82-84 | writing the next slot keeps the ring the window of the longer log |
| Swap.RunsSound | internal/server/server.go:697-759 | in every interleaving the router matches the served rules and everything served or stored is validated |
| Swap.ServerStaysSound | internal/server/server.go:697-759 | the same from a new server on |
| Swap.AgreementTraced | internal/server/server.go:732-738 | served and recorded configurations agree whenever one operation did both last |
| Swap.ServerAgreementTraced | internal/server/server.go:732-738 | the same from a new server on |
| Swap.SequentialAgrees | internal/server/server.go:996-1053 | the steps of operations run one after another, by any threads, have their whole effects in turn and keep the two in agreement |
| Swap.AloneSteps | internal/server/server.go:697-759 | an operation run without interruption has its whole effect and no other |
| Swap.RollbackUndone | internal/server/server.go:1033-1053 | rolling back to what was current restores what is served |
| Swap.OverlapDisagrees | internal/server/server.go:732-738 | an overlapping run after which store and server differ |
| Server.Server.ReloadConfig | internal/server/server.go:697-759 | a successful reload is the uninterrupted operation; a failed one changes nothing |
| Server.Server.HandleRollback | internal/server/server.go:996-1053 | each status exactly when it is due, and the uninterrupted rollback on success |
| Stats.Collector.Record | internal/stats/stats.go:114-150 | counts every enabled request, and samples by the running count |
| Stats.Collector.SampledShare | internal/stats/stats.go:135-143 | the requests sampled are those counted divided by the interval, rounded down; after a reset possibly one more |
| Stats.Collector.GetRecentRequests | internal/stats/stats.go:295-323 | the newest sampled requests in order, up to a zero timestamp |
| Stats.Collector.Reset | internal/stats/stats.go:368-384 | clears counters and ring but not the sampling phase |
| Stats.Collector.Conserved | internal/stats/stats.go:119-132 | histogram and status counts each add up to the total |
| Stats.ErrorsCount | internal/stats/stats.go:122-124 | errors are the requests with a status of 400 or more |
| Stats.StatusCount | internal/stats/stats.go:152-157 | each status count is the number of requests with it |
| Stats.BucketCount | internal/stats/stats.go:171-190 | each bucket counts the requests whose latency lies between its bounds |
| Stats.HitsCount | internal/stats/stats.go:159-169 | a rule's hits are the requests it answered |
| Stats.LatencyAdds | internal/stats/stats.go:159-169 | its total latency adds up theirs |
| Stats.Collector.IntervalMeaning | internal/stats/stats.go:137-139 | the sampling interval is the reciprocal of the rate, rounded down |
| Stats.StatusesAddUp | internal/stats/stats.go:152-157 | status counts over any complete list of statuses add up to the number of requests |
| Stats.SortByHits | internal/stats/stats.go:268-275 | the exchange sort yields a permutation in descending order of hits |
| Stats.TopRules | internal/stats/stats.go:240-280 | at most ten rules in order, none beaten by a dropped one |

## Left out

- Providers, authentication, rate limiting, metrics, tracing, logging, file watching, webhooks and pushes to targets: network and library code.
- YAML decoding, environment expansion, directory loading, defaults and short forms: configurations are already decoded.
- Regular expressions a user writes are opaque; only the fragment the glob compiler emits has a fixed meaning, and strings are sequences of characters with path lengths counted in characters.
- Sorting, port stripping, the linter's and the clients' reading of URLs, the resolution of relative references and path normalisation are arguments, since their code is in libraries and clients. Visits are to paths normalisation leaves alone, so a path that still holds a percent escape after decoding is not one.
- Of the sort it is assumed that it rearranges, puts higher priorities first, and finds the arrangement that keeps ties in order where there is one (`RuleOrder.StableSorter`); insertion sort is proved to do so (`RuleOrder.InsertionIsStable`), the library's merging of longer lists is not modelled.
- The linter's other checks, its sampled warnings for regex and glob loops, and message texts.
- The second stack copy and the unused `parent` array of the search; stacks are passed by value, which the slices amount to.
- Replacement in a location is given a meaning where the match is the whole path and each dollar sign begins a one-digit group (`Templates.HonoursTemplates`); named groups, braces and partial matches are as the library has them.
- Counters of syncs and errors, timestamps of reports, SHA-256 hashes and the audit log; hashes and times are arguments.
- RuleOrder.LongestFirstIffUnsplit: about insertion sort, so about the program for lists of up to twenty rules; on longer split lists the library's merging may still put the longer prefix first.
- Precedence.LongestPrefixIff: about insertion sort too; for longer split lists it is not said which prefix rule of the top priority answers.
- Verdict.ExactVerdict: for exact rules; a reported cycle through prefix or pattern rules may be broken by a rule that answers first, and no exact condition is given for that.
- Precedence.AnswerChosen: only for lists without a split, since for others the position of rules of one priority depends on the sorting algorithm.
- Router.FindRefinesScan: exact rules need slash-free hosts and paths that begin with a slash, which validation does not enforce; `Router.KeysCollide` shows why.
- CleanLint.TameChainsBounded: one direction only; for rules whose output depends on the request path no condition for finite chains is given that is also necessary.
- Syncer.Syncer.FetchAndMerge: the order of arrival and the order an unstable sort picks among equal priorities are arguments, so no winner is stated between sources of one priority.
- Swap.RunsSound: a request is not a step; the two reads of the router while one request is served may see different routers.
- Stats.Collector.Record: one call at a time, 64-bit counters without overflow, and the sampling interval computed over real numbers.
