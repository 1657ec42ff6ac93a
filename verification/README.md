# fmc_rule_cleanup — the rule-disable decision engine, in Dafny

`FMCRuleManager` finds access rules that a Cisco Firepower Management Center
reports with zero hits. It disables those that are old, unused or were
already marked by the tool. It keeps any rule that touches an excluded
security zone or an excluded IP prefix. This project models the manager's
decision core:

- **Prefix parsing in `__init__`** (`Manager.ParsePrefixes`,
  `PrefixMatcher.ParseExcludedPrefixes`). Excluded prefixes are parsed the
  way `ipaddress.ip_network(p, strict=False)` parses them (`IPv4`), and
  unparsable strings are dropped.
- **The network-object resolver** (`Resolver.Resolve`,
  `Manager.RuleManager.ResolveNetworkObject`). It walks a possibly cyclic
  directory of Host, Network and NetworkGroup objects.
  - A `visited` set is shared across the whole walk.
  - A per-manager cache is kept.
  - A ghost log of directory lookups records each fetch.
- **The range expander and the exclusion matcher** (`PrefixMatcher`,
  `Manager.RuleManager.ParseIpRange`,
  `Manager.RuleManager.IpOverlapsWithExcludedPrefixes`).
  - A range of more than 256 addresses is tested at its two end points.
  - A shorter range is tested address by address. The model tests every
    address of such a range; the code as written tests none when the range
    ends at 255.255.255.255 (see Findings).
  - A network is matched by interval intersection ("overlap") or by
    containment ("subnet").
- **The zone and prefix checks of a rule** (`Rules.InExcludedZone`,
  `Rules.UsesExcludedPrefix`, and the methods of the same names).
  - The prefix check treats an object named "any" specially.
  - An object whose resolution raises is skipped.
- **The ordered decision `_should_disable_rule`** (`Rules.Decide`,
  `Manager.RuleManager.ShouldDisableRule`). The order is: zone, then
  prefix, then enabled and action, then the first comment (tool marker or
  year threshold).
- **The run of `analyze_and_disable_rules`** (`Processing.Analyze`,
  `Manager.RuleManager.AnalyzeAndDisableRules`).
  - The zero-hit pre-pass.
  - The per-rule fetch with four attempts.
  - The consecutive-timeout circuit breaker.
  - The disable limit.
  - The statistics and detail lists.
  - In a live run, the audit comment posted on each disabled rule.

The management center is data. These are parameters:

- the object directory;
- the device's access policy and hit-count report;
- a `Server` function telling how each fetch attempt of each queued rule
  ends;
- the current time;
- the current year.

The imperative parts of the source are methods of the class
`Manager.RuleManager`. Its `cache` field is the resolver cache, and its ghost
`log` field is the lookup log. Each method is proved equal to a function of
the specification modules, and the properties are proved about those
functions.

Modules: `Wrappers`, `Text`, `IPv4`, `PrefixMatcher`, `Resolver`, `Rules`,
`Processing`, `Manager`.

## Model

| member | source | states |
|---|---|---|
| Manager.RuleManager.constructor | fmc_rule_cleanup.py:108-128 | Applies the defaults: no zones, the previous year as threshold, `['ALLOW']` for a missing or empty action list. Keeps exactly the parsable prefixes, and starts with an empty cache and no lookups |
| Manager.ParsePrefixes | fmc_rule_cleanup.py:117-125 | The `__init__` loop over the prefix strings yields `ParseExcludedPrefixes` of them |
| PrefixMatcher.ParseExcludedPrefixes | fmc_rule_cleanup.py:117-125 | The parsed prefixes are never more than the strings, and each is a non-empty interval |
| PrefixMatcher.ParsedPrefixesExact | fmc_rule_cleanup.py:117-125 | A block is kept iff some given string parses to it: invalid prefixes are skipped and nothing else is added |
| PrefixMatcher.ParseExcludedPrefixesSnoc | fmc_rule_cleanup.py:119-125 | Appending a prefix string appends its network when it parses and nothing otherwise, so order is kept |
| IPv4.ParseNetwork | fmc_rule_cleanup.py:122 | A parsed network is the CIDR block of some address and length at most 32, with host bits masked (strict=False) |
| IPv4.CidrRoundTrip | fmc_rule_cleanup.py:122 | Every "a.b.c.d/n" with n at most 32 parses to the CIDR block of address a.b.c.d and length n |
| IPv4.CidrBlock | fmc_rule_cleanup.py:122 | The block holds the given address, has 2^(32-len) addresses and starts on a multiple of that size |
| IPv4.InCidrIffMasked | fmc_rule_cleanup.py:122 | An address lies in a CIDR block iff masking its host bits gives the block's network address |
| IPv4.AddressRoundTrip | fmc_rule_cleanup.py:294-296 | Parsing the dotted quad that `str(ip)` prints gives back the address |
| IPv4.BareAddressIsHost | fmc_rule_cleanup.py:306-308 | A bare address parses as the one-address network around it |
| IPv4.OverlapsIffShareAddress | fmc_rule_cleanup.py:312-316 | `overlaps` holds iff the two networks share an address |
| IPv4.SubnetOfIffIncluded | fmc_rule_cleanup.py:317-321 | `subnet_of` holds iff every address of the network lies in the excluded prefix |
| Manager.RuleManager.ResolveNetworkObject | fmc_rule_cleanup.py:157-235 | The result, the new cache and lookup log, and the visited set equal `Resolver.Resolve` on the old state |
| Manager.RuleManager.ResolveMembers | fmc_rule_cleanup.py:204-213 | The nested-objects loop, with its shared visited set, equals `Resolver.ResolveNested` |
| Resolver.LiteralValues | fmc_rule_cleanup.py:198-201 | A string is collected iff some literal carries it as its value |
| Resolver.ResolveShapes | fmc_rule_cleanup.py:175-229 | Each case of the walk. A cached id returns its cache entry with no lookup. A visited id returns `[]` with no lookup and no caching. An unknown type caches `[]` unfetched. A fetch of an absent id raises. A Host gives `[value/32]` and a Network `[value]`. A group gives its literal values followed by its members' resolutions. The result is cached |
| Resolver.ResolveKeepsMemo | fmc_rule_cleanup.py:175-235 | Old cache and log entries stay. Each id fetched was neither cached nor visited before, is fetched once, and ends visited. A normal return leaves every fetched id cached; a raise means some fetched id is missing from the directory |
| Resolver.ResolveFetchesOnce | fmc_rule_cleanup.py:175-234 | If every lookup finds its object, the walk returns normally and no id is ever fetched twice over the manager's life |
| Resolver.ResolveSound | fmc_rule_cleanup.py:192-234 | Every string returned or cached is a value or literal of some directory object |
| Resolver.ResolveStep | fmc_rule_cleanup.py:175-235 | A resolution keeps every old cache entry and log entry. When all its fetches find their object, it keeps "no id fetched twice, every fetched id cached". It caches only strings from the directory |
| Resolver.SelfReferenceTerminates | fmc_rule_cleanup.py:180-213 | A group that contains itself resolves to its own literal, with one lookup |
| Resolver.TwoCycleOuter | fmc_rule_cleanup.py:180-234 | In a two-group cycle the outer group gets both literals, while the inner group is cached with only its own |
| Resolver.CachedCycleDependsOnOrder | fmc_rule_cleanup.py:175-234 | The cached result for a group in a cycle depends on which group was resolved first |
| Manager.RuleManager.ParseIpRange | fmc_rule_cleanup.py:237-271 | A token without '-' is returned alone. A range token yields the formatted `ExpandRange` addresses |
| Manager.AddressesOf | fmc_rule_cleanup.py:251-267 | The end points of a range of more than 256 addresses, otherwise every address, as dotted quads |
| Manager.EveryAddress | fmc_rule_cleanup.py:261-267 | The `while current <= end_ip` loop lists exactly the addresses from start to end, in order |
| PrefixMatcher.RangeAddressesComplete | fmc_rule_cleanup.py:255-267 | A large range gives its two end points. A short one gives exactly its addresses in order (none when end < start). Both agree with the code as written except on a short range ending at 255.255.255.255 |
| PrefixMatcher.TopEndedRangeDropped | fmc_rule_cleanup.py:261-271 | As written, a short range ending at 255.255.255.255 yields no address and misses an excluded prefix that holds that address |
| Manager.RuleManager.IpOverlapsWithExcludedPrefixes | fmc_rule_cleanup.py:273-327 | The answer equals `OverlapsExcluded` for the manager's prefixes and match mode |
| Manager.RuleManager.AnyAddressExcluded | fmc_rule_cleanup.py:293-303 | True iff some listed address parses and lies in an excluded prefix |
| Manager.RuleManager.AddressExcluded | fmc_rule_cleanup.py:297-300 | True iff the address lies in some excluded prefix |
| PrefixMatcher.RangeTokenMatch | fmc_rule_cleanup.py:287-303 | An unparsable range matches nothing. A parsed range matches iff one of its tested addresses lies in an excluded prefix. The match mode does not matter for ranges |
| PrefixMatcher.LargeRangeTestsEndpoints | fmc_rule_cleanup.py:255-259 | A range of more than 256 addresses matches iff its start or its end lies in an excluded prefix |
| PrefixMatcher.SmallRangeTestsEveryAddress | fmc_rule_cleanup.py:261-267 | A range of at most 256 addresses matches iff some address between its ends lies in an excluded prefix |
| PrefixMatcher.NetworkTokenMatch | fmc_rule_cleanup.py:305-327 | An unparsable network matches nothing. In overlap mode a network matches iff it shares an address with some excluded prefix. In subnet mode it matches iff some excluded prefix contains all of it |
| PrefixMatcher.SubnetModeImpliesOverlapMode | fmc_rule_cleanup.py:310-321 | Whatever matches in subnet mode also matches in overlap mode |
| Rules.ZonesHit | fmc_rule_cleanup.py:343-352 | True iff some zone of the list has a name in the excluded zones |
| Rules.InExcludedZone | fmc_rule_cleanup.py:329-354 | True iff some source or destination zone's name is excluded; false when no zone is excluded |
| Manager.RuleManager.ZoneListExcluded | fmc_rule_cleanup.py:344-346 | The scan of one zone list equals `ZonesHit` |
| Manager.RuleManager.IsRuleInExcludedZone | fmc_rule_cleanup.py:329-354 | The check equals `InExcludedZone` |
| Manager.RuleManager.LiteralsExcluded | fmc_rule_cleanup.py:380-385 | True iff some literal with a value matches an excluded prefix |
| Manager.RuleManager.NetworksExcluded | fmc_rule_cleanup.py:415-418 | True iff some resolved network matches an excluded prefix |
| Manager.RuleManager.ObjectsExcluded | fmc_rule_cleanup.py:388-422 | The objects loop, with its resolutions and cache updates, equals `Rules.ObjectsUse` |
| Manager.RuleManager.SideExcluded | fmc_rule_cleanup.py:377-422 | One side of the rule, literals first and then objects, equals `Rules.SideUses` |
| Manager.RuleManager.IsRuleUsingExcludedPrefix | fmc_rule_cleanup.py:356-424 | The prefix check equals `Rules.UsesExcludedPrefix`, including its effect on the cache |
| Rules.UsesExcludedPrefix | fmc_rule_cleanup.py:367-368 | With no excluded prefix the check is false and touches nothing |
| Rules.PrefixCheckSound | fmc_rule_cleanup.py:356-424 | The check is a step like `Resolver.ResolveStep`. It reports a hit only for a literal that matches, an "any" object in overlap mode, or a directory string that matches |
| Rules.PrefixCheckComplete | fmc_rule_cleanup.py:379-404 | With excluded prefixes, a matching literal on either side, or an "any" object in overlap mode, always makes the check true |
| Rules.AnyObjectHits | fmc_rule_cleanup.py:397-404 | In overlap mode, a usable object named "any" (in any case) makes the objects loop report a hit |
| Rules.SubnetModeIgnoresAny | fmc_rule_cleanup.py:405-408 | In subnet mode, for a rule whose every usable object is named "any", only the literals decide, and the cache is untouched |
| Rules.SkippedObjects | fmc_rule_cleanup.py:390-422 | An object lacking an id or a type is skipped before the "any" test. An object whose resolution raises is skipped alone, and the loop goes on. In subnet mode a usable object named "any" is skipped without being resolved, wherever it stands in the list, and the cache is untouched |
| Rules.ObjectsUseStep | fmc_rule_cleanup.py:388-422 | The objects loop is a step like `Resolver.ResolveStep`. It reports a hit only for an "any" object in overlap mode or a matching directory string |
| Rules.ParseYearOfDated | fmc_rule_cleanup.py:467 | A date written "<year>-..." yields exactly that year |
| Rules.CommentVerdict | fmc_rule_cleanup.py:455-477 | It raises IndexError exactly for an empty history. Otherwise the verdict disables iff its reason is a disabling one |
| Rules.Decide | fmc_rule_cleanup.py:426-477 | A verdict disables iff its reason is one of the three disabling reasons |
| Rules.DecideCharacterised | fmc_rule_cleanup.py:426-477 | The rule is disabled iff it avoids the excluded zones and prefixes, is enabled with an allowed action, and has no history or a stale first comment. IndexError happens iff the gates pass and the history is empty. An excluded zone wins over everything, then an excluded prefix |
| Rules.DecideStep | fmc_rule_cleanup.py:445-448 | Without a client the decision leaves the cache and log as they were. With one, it is a step like `Resolver.ResolveStep` |
| Manager.RuleManager.ShouldDisableRule | fmc_rule_cleanup.py:426-477 | The verdict and the new cache and log equal `Rules.Decide` on the old state |
| Rules.AuditCommentMarked | fmc_rule_cleanup.py:780 | Every audit comment the tool writes carries the `DisabledByHitCountScript` marker |
| Rules.AuditCommentRecognised | fmc_rule_cleanup.py:461-463 | Once the zone, prefix and enabled/action gates pass, a first comment that is one of the tool's audit comments is judged previously marked |
| Rules.IneligibleRuleKept | fmc_rule_cleanup.py:450-453 | A rule that is not enabled, or whose action is not allowed, is never disabled, whatever its comments say; so a rule this tool disabled is not disabled again |
| Rules.DatedCommentVerdict | fmc_rule_cleanup.py:465-477 | For an unmarked first comment dated `YYYY-...`, the rule is disabled iff the year is below the threshold |
| Rules.UnparsableDateKept | fmc_rule_cleanup.py:458-477 | An unmarked first comment whose date yields no year, the missing date among them, keeps the rule |
| Text.ParseIntOfDecimal | fmc_rule_cleanup.py:467 | `int()` reads back the decimal form of every natural number |
| Text.SplitFirst | fmc_rule_cleanup.py:251 | `split('-', 1)`: the first part holds no '-', and the two parts joined by '-' give back the token |
| Text.Split | fmc_rule_cleanup.py:467 | At least one part, no part contains the separator, and a string without it is its own only part |
| Text.Strip | fmc_rule_cleanup.py:252-253 | The result neither starts nor ends with whitespace, and a string without whitespace is unchanged |
| Text.StripTrimsWhitespace | fmc_rule_cleanup.py:252-253 | The result is a slice of the input, and everything before and after that slice is whitespace |
| Processing.ZeroHitIds | fmc_rule_cleanup.py:640-656 | An id is queued iff some report item with that id is an `AccessRule` with zero hits |
| Manager.CollectZeroHitRules | fmc_rule_cleanup.py:640-656 | The pre-pass counts every item and queues exactly `ZeroHitIds`, in order |
| Processing.FetchWithRetries | fmc_rule_cleanup.py:690-743 | Every attempt timing out adds four to the consecutive count. A response resets it to 0. It never grows by more than four |
| Processing.FetchOutcomes | fmc_rule_cleanup.py:693-743 | The retries give up iff every remaining attempt timed out, and a fetched rule is one the server returned on some attempt |
| Manager.FetchRule | fmc_rule_cleanup.py:690-743 | The attempt loop, with its break and its consecutive count, equals `FetchWithRetries` |
| Processing.TurnCounts | fmc_rule_cleanup.py:683-803 | A turn that goes on counts the rule exactly once (disabled, kept or connection failure), with its detail. It stays within the disable limit and keeps the consecutive count at most 13. A turn that stops changes no counter |
| Processing.TurnPosts | fmc_rule_cleanup.py:764-789 | A live turn posts the audit comment of exactly the rule it disables. A dry turn posts nothing |
| Processing.TurnMemo | fmc_rule_cleanup.py:762 | A turn is a step like `Resolver.ResolveStep` on the cache and the lookup log |
| Processing.TurnAgrees | fmc_rule_cleanup.py:764-789 | A dry and a live turn make the same decision and counts; only the posts differ |
| Manager.RuleManager.ProcessRule | fmc_rule_cleanup.py:671-803 | One pass of the loop body equals `Processing.Turn`: whether the run goes on, the counters, the cache and the posts |
| Processing.LoopCounts | fmc_rule_cleanup.py:671-803 | Each rule taken up is counted once, except the one the run stops on after `None` or an exception. Each detail names a queued rule. The disable limit holds. A stop at the limit means the limit was reached, a stop at the breaker that the count reached 10, and the end of the queue that every queued rule was taken up. The consecutive count stays at most 13 |
| Processing.LoopPosts | fmc_rule_cleanup.py:764-789 | The loop's posts are the audit posts of the rules it disabled, in order, in a live run, and none in a dry run |
| Processing.LoopMemo | fmc_rule_cleanup.py:762 | The whole loop is a step like `Resolver.ResolveStep`, so no id is fetched twice over a run |
| Processing.DryAndLiveLoopsAgree | fmc_rule_cleanup.py:764-789 | A dry and a live loop over the same data reach the same statistics, cache and stopping point |
| Processing.AuditPostsElements | fmc_rule_cleanup.py:778-782 | The i-th post goes to the i-th disabled rule, with the comment for its reason |
| Processing.AnalyzeCounts | fmc_rule_cleanup.py:579-803 | No policy or no hit data returns the empty statistics. Otherwise every item is counted and exactly the zero-hit access rules are queued. Disabled + kept + connection failures (+1 for a stop mid-rule) equals the rules taken up; on a `Crash` stop these are the counters at the moment the source raises, which it never returns. `rules_disabled` is 0 or at most the maximum. Each detail list matches its counter |
| Processing.AnalyzeEffects | fmc_rule_cleanup.py:764-789 | A dry run posts nothing. A live run posts one audit comment per disabled rule, in order. The run is a step like `Resolver.ResolveStep` |
| Manager.RuleManager.AnalyzeAndDisableRules | fmc_rule_cleanup.py:572-803 | The statistics, posts, stopping reason and final cache equal `Processing.Analyze` on the manager's state |
| Processing.DryRunPredictsLiveRun | fmc_rule_cleanup.py:773-789 | In the intended run, dry and live modes reach the same statistics, cache and stopping point |
| Processing.LiveRunAsWrittenDoesNothing | fmc_rule_cleanup.py:612-616 | As written, a live run looks nothing up, fetches nothing, posts nothing and returns the initial statistics |
| Processing.LiveRunSkipsEligibleRule | fmc_rule_cleanup.py:612-616 | A concrete rule that should be disabled is disabled by the dry run as written and the intended live run, but not by the live run as written |
| Processing.TimeoutsOpenTheBreaker | fmc_rule_cleanup.py:668-680 | With every fetch timing out, three rules are given up, the consecutive count reaches 12 (past the limit of 10) and the breaker stops the run |

## Left out

- Network access, sessions and HTTP are not modelled. This covers `fmcapi.FMC`, `DeviceRecords`, `HitCounts`, `AccessRules` and the directory `get()` calls. They are given as data: a `Device`, a `Directory` and a `Server`. Posting a disabled rule is recorded as a `Post` of its id and comment.
- The backoff delays, countdown and sleeps are left out, and so are `print_progress_bar`, `print` and all logging. Only the four attempts count.
- `datetime.now()` is left out. The current time and year are parameters.
- `_get_ignore_detail` and the `ignore_detail` text it adds to ignored-rule details are report text only. An ignored detail keeps the reason.
- `export_to_excel`, `format_disabled_rules_table`, `parse_arguments` and `main` are not modelled.
- IPv6 is not modelled. An IPv6 address or prefix is treated as unparsable. So when every excluded prefix is IPv6 the model's prefix list is empty and an "any" object in overlap mode no longer excludes the rule, while the source, whose list is non-empty, excludes it. The `TypeError` that mixing versions raises in `subnet_of` is not modelled.
- `IPv4.ParseNetwork` accepts only a decimal prefix length after '/'. Netmask and hostmask notation are not modelled.
- `Text.Strip` follows Python's `str.isspace`, ASCII and Unicode whitespace alike.
- `Text.ParseInt` accepts an optional '+' and ASCII digits. Underscores and non-ASCII digits, which Python's `int()` also accepts, are not modelled.
- The prefix match mode is restricted to `overlap` and `subnet`. With any other mode string the source matches no network token; that case is not modelled.
- The `fmc_client` argument of `_should_disable_rule` is modelled by its truthiness: a `Some` directory or `None`.
- The `ListRepr` of the allowed actions assumes plain strings without quotes or backslashes.
- Exceptions are modelled in three places. The directory `get()` raises for an id it does not know. A rule fetch can end in an exception other than a timeout. `commentHistoryList[0]` raises IndexError on an empty list. The last two escape `analyze_and_disable_rules` uncaught; the model ends the run with the `Crash` halt and keeps the counters of that moment, which the program never hands back. No other exception is modelled.
- The lookup log is a ghost field: it states "looked up at most once" and is not part of the running state.
- The source loops `for network_type in [...]` over the two sides of a rule. The model writes this as two calls.
- Manager.RuleManager.AnalyzeAndDisableRules: follows the intended run, in which a live run also looks up the device and processes the queue. The run as written is `Processing.AnalyzeAsWritten` (see Findings).
- Manager.RuleManager.ParseIpRange: returns every address of a short range ending at 255.255.255.255, not the empty list the code as written returns (see Findings).
- Manager.AddressesOf: follows the corrected expansion, so a short range ending at 255.255.255.255 gives all its addresses, not the empty list the code as written returns (see Findings).
- Manager.EveryAddress: its counter is unbounded and never reaches the raise the code as written hits after 255.255.255.255; it follows the corrected expansion (see Findings).
- PrefixMatcher.OverlapsExcluded: follows the corrected expansion, so a short range ending at 255.255.255.255 can match where the code as written returns False (see Findings).
- Manager.RuleManager.IpOverlapsWithExcludedPrefixes: equals `PrefixMatcher.OverlapsExcluded` and so follows the corrected expansion (see Findings).
- PrefixMatcher.RangeTokenMatch: its tested addresses are the corrected expansion; the code as written tests none for a short range ending at 255.255.255.255 (see Findings).
- PrefixMatcher.SmallRangeTestsEveryAddress: holds of the corrected expansion; for a short range ending at 255.255.255.255 the code as written tests no address (see Findings).
- Rules.UsesExcludedPrefix: reaches the range matcher through `OverlapsExcluded` and so follows the corrected expansion (see Findings).
- Rules.Decide: its prefix gate follows the corrected expansion (see Findings).
- Processing.Analyze: its decisions follow the corrected expansion (see Findings).
- Processing.AnalyzeCounts: on a `Crash` halt the source raises out of `analyze_and_disable_rules` and `main` does not catch it, so no statistics reach a caller; the counters the model returns are those at the moment of the raise.

## Findings

| source | as written | input that shows it | evidently intended | confidence | as-written member | corrected member |
|---|---|---|---|---|---|---|
| fmc_rule_cleanup.py:612-616 | The device lookup, the hit-count query and the whole rule loop are indented under `if self.dry_run:`. A live run does nothing and returns the initial statistics, and the live branch at lines 777-787 can never run | `dry_run=False`, a device with an access policy and one zero-hit enabled ALLOW rule with no comment history | A live run processes the queue like a dry run and disables the rule, posting its audit comment | high (not executed) | Processing.LiveRunAsWrittenDoesNothing | Processing.DryRunPredictsLiveRun |
| fmc_rule_cleanup.py:263-271 | `current += 1` after the last address 255.255.255.255 raises. The handler then discards the whole list and returns `[]` | Excluded prefix `255.255.255.0/24`, literal `255.255.255.250-255.255.255.255` | Every address of the range is tested, so the literal matches the excluded prefix | high (not executed) | PrefixMatcher.TopEndedRangeDropped | PrefixMatcher.RangeAddressesComplete |
