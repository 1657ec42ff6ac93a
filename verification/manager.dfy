/**
 * The rule manager object itself: its settings, fixed when it is built, and
 * the one piece of state it updates in place, the cache of resolved network
 * objects. Each method walks its lists with the loops the manager runs and
 * is proved to compute exactly what the functions of the other modules say,
 * and to leave the cache as they say; the properties proved about those
 * functions therefore hold of the methods.
 *
 * The management center is given as data, as in the functional modules: a
 * `Directory` of network objects, a `Device` report and a `Server` that says
 * how each fetch of a queued rule ends.
 */
module Manager {

  import opened Wrappers
  import opened Text
  import opened IPv4
  import opened PrefixMatcher
  import opened Resolver
  import opened Rules
  import opened Processing

  /** A resolution whose nested part follows the networks `ns` already gathered. */
  function After(ns: seq<string>, r: Resolution): Resolution
  {
    match r.out
    case Raised => r
    case Resolved(rest) => Resolution(Resolved(ns + rest), r.memo, r.visited)
  }

  lemma AfterAfter(a: seq<string>, b: seq<string>, r: Resolution)
    ensures After(a, After(b, r)) == After(a + b, r)
  {
    if r.out.Resolved? {
      assert a + (b + r.out.networks) == (a + b) + r.out.networks;
    }
  }

  class RuleManager {

    /** The settings after defaults and prefix parsing. */
    const config: Config

    /** `_network_object_cache`: object id to resolved networks. */
    var cache: Cache

    /** The ids fetched from the directory so far, in order; it only records what the cache hides. */
    ghost var log: seq<string>

    /** The state the resolver functions thread through. */
    ghost function State(): Memo
      reads this
    {
      Memo(cache, log)
    }

    /**
     * `__init__`: no excluded zones and the "ALLOW" action unless lists are
     * given (an empty list counts as none), the year before `currentYear`
     * unless a threshold is given, every prefix that parses as a network,
     * and an empty cache.
     */
    constructor (excludeZones: Option<seq<string>>, yearThreshold: Option<int>, currentYear: int,
                 ruleActions: Option<seq<string>>, excludePrefixes: Option<seq<string>>,
                 mode: Mode, maxRules: int, dryRun: bool)
      ensures config.excludeZones == (if excludeZones.Some? then excludeZones.value else [])
      ensures config.yearThreshold == (if yearThreshold.Some? then yearThreshold.value else currentYear - 1)
      ensures config.ruleActions == (if ruleActions.Some? && ruleActions.value != [] then ruleActions.value else ["ALLOW"])
      ensures config.excludePrefixes == ParseExcludedPrefixes(if excludePrefixes.Some? then excludePrefixes.value else [])
      ensures config.mode == mode && config.maxRules == maxRules && config.dryRun == dryRun
      ensures State() == Memo(map[], [])
    {
      var parsed := ParsePrefixes(if excludePrefixes.Some? then excludePrefixes.value else []);
      config := Config(
        if excludeZones.Some? then excludeZones.value else [],
        if yearThreshold.Some? then yearThreshold.value else currentYear - 1,
        if ruleActions.Some? && ruleActions.value != [] then ruleActions.value else ["ALLOW"],
        parsed, mode, maxRules, dryRun);
      cache := map[];
      log := [];
    }

    /**
     * `_resolve_network_object(client, id, type, visited)`: the cache first,
     * then the cycle guard, then a fetch; a group's literal values come
     * first and its nested objects are resolved with the same `visited` set,
     * in order. The networks are cached under the id before they are
     * returned; a missing object raises and caches nothing.
     */
    method ResolveNetworkObject(dir: Directory, id: string, kind: string, visited: set<string>)
      returns (out: Outcome, visited': set<string>)
      modifies this
      ensures Resolution(out, State(), visited') == Resolve(dir, old(State()), visited, id, kind)
      decreases |dir.Keys - visited|, 1
    {
      if id in cache {
        return Resolved(cache[id]), visited;
      }
      if id in visited {
        return Resolved([]), visited;
      }
      visited' := visited + {id};
      if !Resolver.Fetched(kind) {
        cache := cache[id := []];
        return Resolved([]), visited';
      }
      log := log + [id];
      if id !in dir {
        return Raised, visited';
      }
      var e := dir[id];
      var networks: seq<string>;
      if kind == GroupKind {
        networks := [];
        ghost var fetched := State();
        var i := 0;
        while i < |e.literals|
          invariant 0 <= i <= |e.literals|
          invariant networks == LiteralValues(e.literals[..i])
          invariant State() == fetched
        {
          LiteralValuesSnoc(e.literals[..i], e.literals[i]);
          assert e.literals[..i + 1] == e.literals[..i] + [e.literals[i]];
          if e.literals[i].value.Some? {
            networks := networks + [e.literals[i].value.value];
          }
          i := i + 1;
        }
        assert e.literals[..|e.literals|] == e.literals;

        UnvisitedShrinks(dir.Keys, visited, id);
        var nested;
        nested, visited' := ResolveMembers(dir, e.objects, visited');
        if nested.Raised? {
          return Raised, visited';
        }
        networks := networks + nested.networks;
      } else if e.value.None? {
        networks := [];
      } else if kind == NetworkKind {
        networks := [e.value.value];
      } else {
        networks := [e.value.value + "/32"];
      }
      cache := cache[id := networks];
      return Resolved(networks), visited';
    }

    /**
     * The nested-objects loop of a group: each object with an id and a type
     * is resolved in order with the shared `visited` set and its networks
     * appended; an exception from one of them ends the loop.
     */
    method ResolveMembers(dir: Directory, objects: seq<ObjRef>, visited: set<string>)
      returns (out: Outcome, visited': set<string>)
      modifies this
      ensures Resolution(out, State(), visited') == ResolveNested(dir, old(State()), visited, objects)
      decreases |dir.Keys - visited|, 2
    {
      ghost var nested := ResolveNested(dir, State(), visited, objects);
      var gathered: seq<string> := [];
      assert nested == After(gathered, nested);
      visited' := visited;
      var j := 0;
      while j < |objects|
        invariant 0 <= j <= |objects|
        invariant visited <= visited'
        invariant nested == After(gathered, ResolveNested(dir, State(), visited', objects[j..]))
      {
        var o := objects[j];
        assert objects[j..][0] == o && objects[j..][1..] == objects[j + 1..];
        if Present(o.id) && Present(o.kind) {
          UnvisitedMonotone(dir.Keys, visited, visited');
          ghost var before, seen := State(), visited';
          var sub, after := ResolveNetworkObject(dir, o.id.value, o.kind.value, visited');
          if sub.Raised? {
            assert ResolveNested(dir, before, seen, objects[j..]) == Resolution(Raised, State(), after);
            return Raised, after;
          }
          assert ResolveNested(dir, before, seen, objects[j..])
              == After(sub.networks, ResolveNested(dir, State(), after, objects[j + 1..]));
          AfterAfter(gathered, sub.networks, ResolveNested(dir, State(), after, objects[j + 1..]));
          gathered := gathered + sub.networks;
          visited' := after;
        }
        j := j + 1;
      }
      assert gathered + [] == gathered;
      return Resolved(gathered), visited';
    }

    /**
     * `_parse_ip_range(token)`: a token without '-' stands for itself; a
     * range whose ends parse gives its two ends when it holds more than 256
     * addresses and otherwise every address in order; anything else gives
     * no address.
     */
    method ParseIpRange(token: string) returns (ips: seq<string>)
      ensures '-' !in token ==> ips == [token]
      ensures '-' in token ==> ips == ExpandRange(token)
    {
      if '-' !in token {
        return [token];
      }
      var (a, b) := SplitFirst(token, '-');
      var first := ParseAddress(Strip(a));
      var last := ParseAddress(Strip(b));
      if first.None? || last.None? {
        return [];
      }
      ips := AddressesOf(first.value, last.value);
    }

    /**
     * `_ip_overlaps_with_excluded_prefixes(token)`: nothing overlaps an empty
     * prefix list; a range is tested address by address, a network or bare
     * address by the match mode, and a token that does not parse never
     * overlaps.
     */
    method IpOverlapsWithExcludedPrefixes(token: string) returns (hit: bool)
      ensures hit == OverlapsExcluded(config.excludePrefixes, config.mode, token)
    {
      var excluded := config.excludePrefixes;
      if excluded == [] {
        return false;
      }
      if '-' in token {
        var ips := ParseIpRange(token);
        if ips == [] {
          return false;
        }
        hit := AnyAddressExcluded(ips);
        return;
      }
      var network := ParseNetwork(token);
      if network.None? {
        return false;
      }
      var j := 0;
      while j < |excluded|
        invariant 0 <= j <= |excluded|
        invariant forall k :: 0 <= k < j ==> !NetworkMatches(config.mode, network.value, excluded[k])
      {
        if NetworkMatches(config.mode, network.value, excluded[j]) {
          return true;
        }
        j := j + 1;
      }
      return false;
    }

    /** The loop over the addresses of a range: some address parses and lies in an excluded prefix. */
    method AnyAddressExcluded(ips: seq<string>) returns (hit: bool)
      ensures hit == RangeHits(config.excludePrefixes, ips)
    {
      var i := 0;
      while i < |ips|
        invariant 0 <= i <= |ips|
        invariant forall k :: 0 <= k < i ==> !(ParseAddress(ips[k]).Some? && AnyBlockHas(config.excludePrefixes, ParseAddress(ips[k]).value))
      {
        var ip := ParseAddress(ips[i]);
        if ip.Some? {
          hit := AddressExcluded(ip.value);
          if hit {
            return;
          }
        }
        i := i + 1;
      }
      return false;
    }

    /** `ip in excluded_prefix` for some excluded prefix. */
    method AddressExcluded(a: Addr) returns (hit: bool)
      ensures hit == AnyBlockHas(config.excludePrefixes, a)
    {
      var excluded := config.excludePrefixes;
      var j := 0;
      while j < |excluded|
        invariant 0 <= j <= |excluded|
        invariant forall k :: 0 <= k < j ==> !InBlock(excluded[k], a)
      {
        if InBlock(excluded[j], a) {
          return true;
        }
        j := j + 1;
      }
      return false;
    }

    /** One zone list of `_is_rule_in_excluded_zone`: some zone's name is excluded. */
    method ZoneListExcluded(zones: seq<ZoneRef>) returns (hit: bool)
      ensures hit == ZonesHit(config.excludeZones, zones)
    {
      var i := 0;
      while i < |zones|
        invariant 0 <= i <= |zones|
        invariant forall k :: 0 <= k < i ==> !(zones[k].name.Some? && zones[k].name.value in config.excludeZones)
      {
        if zones[i].name.Some? && zones[i].name.value in config.excludeZones {
          return true;
        }
        i := i + 1;
      }
      return false;
    }

    /** `_is_rule_in_excluded_zone(rule)`: the source zones, then the destination zones. */
    method IsRuleInExcludedZone(rule: Rule) returns (hit: bool)
      ensures hit == InExcludedZone(config.excludeZones, rule)
    {
      if config.excludeZones == [] {
        return false;
      }
      hit := ZoneListExcluded(rule.sourceZones);
      if hit {
        return;
      }
      hit := ZoneListExcluded(rule.destinationZones);
    }

    /** The literals loop of one side: some literal with a value overlaps an excluded prefix. */
    method LiteralsExcluded(literals: seq<Literal>) returns (hit: bool)
      ensures hit == LiteralsHit(config.excludePrefixes, config.mode, literals)
    {
      var i := 0;
      while i < |literals|
        invariant 0 <= i <= |literals|
        invariant !LiteralsHit(config.excludePrefixes, config.mode, literals[..i])
      {
        hit := false;
        if literals[i].value.Some? {
          hit := IpOverlapsWithExcludedPrefixes(literals[i].value.value);
        }
        LiteralsStep(config.excludePrefixes, config.mode, literals, i, hit);
        if hit {
          return;
        }
        i := i + 1;
      }
      assert literals[..i] == literals;
      return false;
    }

    /** The loop over the networks an object resolved to. */
    method NetworksExcluded(networks: seq<string>) returns (hit: bool)
      ensures hit == NetworksHit(config.excludePrefixes, config.mode, networks)
    {
      var i := 0;
      while i < |networks|
        invariant 0 <= i <= |networks|
        invariant !NetworksHit(config.excludePrefixes, config.mode, networks[..i])
      {
        hit := IpOverlapsWithExcludedPrefixes(networks[i]);
        NetworksStep(config.excludePrefixes, config.mode, networks, i, hit);
        if hit {
          return;
        }
        i := i + 1;
      }
      assert networks[..i] == networks;
      return false;
    }

    /**
     * The objects loop of one side: "any" decides by the mode, any other
     * usable object is resolved afresh, and an object whose resolution
     * raises is skipped.
     */
    method ObjectsExcluded(dir: Directory, objects: seq<ObjRef>) returns (hit: bool)
      modifies this
      ensures Probe(hit, State()) == ObjectsUse(config.excludePrefixes, config.mode, dir, old(State()), objects)
    {
      ghost var goal := ObjectsUse(config.excludePrefixes, config.mode, dir, State(), objects);
      var j := 0;
      while j < |objects|
        invariant 0 <= j <= |objects|
        invariant goal == ObjectsUse(config.excludePrefixes, config.mode, dir, State(), objects[j..])
      {
        var o := objects[j];
        assert objects[j..][0] == o && objects[j..][1..] == objects[j + 1..];
        if Present(o.id) && Present(o.kind) {
          if IsAnyName(NameOf(o)) {
            if config.mode == Overlap && config.excludePrefixes != [] {
              return true;
            }
          } else {
            var out, _ := ResolveNetworkObject(dir, o.id.value, o.kind.value, {});
            if out.Resolved? {
              hit := NetworksExcluded(out.networks);
              if hit {
                return;
              }
            }
          }
        }
        j := j + 1;
      }
      return false;
    }

    /** One side of `_is_rule_using_excluded_prefix`: its literals, then its objects. */
    method SideExcluded(dir: Directory, side: NetworkSide) returns (hit: bool)
      modifies this
      ensures Probe(hit, State()) == SideUses(config.excludePrefixes, config.mode, dir, old(State()), side)
    {
      hit := LiteralsExcluded(side.literals);
      if hit {
        return;
      }
      hit := ObjectsExcluded(dir, side.objects);
    }

    /** `_is_rule_using_excluded_prefix(client, rule)`: the source networks, then the destination networks. */
    method IsRuleUsingExcludedPrefix(dir: Directory, rule: Rule) returns (hit: bool)
      modifies this
      ensures Probe(hit, State()) == UsesExcludedPrefix(config.excludePrefixes, config.mode, dir, old(State()), rule)
    {
      if config.excludePrefixes == [] {
        return false;
      }
      hit := SideExcluded(dir, rule.sourceNetworks);
      if hit {
        return;
      }
      hit := SideExcluded(dir, rule.destinationNetworks);
    }

    /**
     * `_should_disable_rule(rule, now, client)`: the zone gate, the prefix
     * gate when a client is given, the enabled/action gate, then the first
     * comment. The time is not consulted.
     */
    method ShouldDisableRule(rule: Rule, now: string, client: Option<Directory>) returns (v: Verdict)
      modifies this
      ensures Judgement(v, State()) == Decide(config, client, old(State()), rule)
    {
      var excludedZone := IsRuleInExcludedZone(rule);
      if excludedZone {
        return Verdict(false, ExcludedZone);
      }
      if client.Some? {
        var excludedPrefix := IsRuleUsingExcludedPrefix(client.value, rule);
        if excludedPrefix {
          return Verdict(false, ExcludedPrefix);
        }
      }
      if !(rule.enabled && rule.action in config.ruleActions) {
        return Verdict(false, NotEnabledOrAction(rule.action, config.ruleActions));
      }
      if rule.commentHistory.None? {
        return Verdict(true, NoCommentHistory);
      }
      var comments := rule.commentHistory.value;
      if comments == [] {
        return IndexError;
      }
      var first := comments[0];
      if Contains(first.text, Marker) {
        return Verdict(true, PreviouslyMarked(first.text));
      }
      var year := ParseInt(Split(first.date, '-')[0]);
      if year.Some? && year.value < config.yearThreshold {
        return Verdict(true, CreatedBefore(config.yearThreshold, first.date));
      }
      return Verdict(false, CriteriaNotMet);
    }

    /**
     * The body of the loop for the rule at `pos`: fetch it with retries,
     * count it as a connection failure when every attempt timed out, stop on
     * `None` or an exception, and otherwise judge it and record the verdict,
     * queueing the audit comment in a live run. `next` is false when the run
     * stops on this rule, and `stop` then says why.
     */
    method ProcessRule(now: string, dir: Directory, server: Server, ids: seq<string>, pos: nat,
                       consecutive: nat, stats: Stats, posts: seq<Post>)
      returns (next: bool, consecutive': nat, stats': Stats, posts': seq<Post>, stop: Halt)
      requires pos < |ids|
      modifies this
      ensures var s := Turn(config, now, dir, server, ids, Iter(pos, consecutive, stats, old(State()), posts));
              && (s.Next? <==> next)
              && (s.Next? ==> s.it == Iter(pos + 1, consecutive', stats', State(), posts'))
              && (s.Stop? ==> s.run == Run(stats', State(), posts', pos + 1, consecutive', stop))
    {
      stats', posts' := stats, posts;
      var outcome;
      outcome, consecutive' := FetchRule(server, pos, consecutive);
      if outcome.FetchedNone? {
        return false, consecutive', stats', posts', FetchReturnedNone;
      } else if outcome.Crashed? {
        return false, consecutive', stats', posts', Crash;
      } else if outcome.Exhausted? {
        stats' := stats.(connectionFailures := stats.connectionFailures + 1);
        return true, consecutive', stats', posts', QueueDone;
      }
      var rule := outcome.rule;
      var verdict := ShouldDisableRule(rule, now, Some(dir));
      if verdict.IndexError? {
        return false, consecutive', stats', posts', Crash;
      }
      var d := Detail(rule, ids[pos], verdict.reason);
      if verdict.disable {
        if !config.dryRun {
          posts' := posts + [PostFor(now, d)];
        }
        stats' := stats.(disabled := stats.disabled + 1, disabledDetails := stats.disabledDetails + [d]);
      } else {
        stats' := stats.(skipped := stats.skipped + 1, ignoredDetails := stats.ignoredDetails + [d]);
      }
      return true, consecutive', stats', posts', QueueDone;
    }

    /**
     * `analyze_and_disable_rules` as it evidently means to run in both modes:
     * the device's policy and hit counts, the zero-hit queue, then the loop
     * over the queue with its limit, circuit breaker, retries and decisions.
     * The posts are the rules a live run disables, with their comments.
     */
    method AnalyzeAndDisableRules(now: string, device: Device, dir: Directory, server: Server)
      returns (stats: Stats, posts: seq<Post>, halt: Halt)
      modifies this
      ensures var r := Analyze(config, now, device, dir, server, old(State()));
              stats == r.stats && posts == r.posts && halt == r.halt && State() == r.memo
    {
      if device.accessPolicy.None? {
        return EmptyStats, [], NoAccessPolicy;
      }
      if device.hitCounts.None? {
        return EmptyStats, [], NoHitData;
      }
      var ids, total := CollectZeroHitRules(device.hitCounts.value);
      stats := Stats(total, |ids|, 0, 0, 0, [], []);
      posts := [];
      ghost var goal := Loop(config, now, dir, server, ids, Iter(0, 0, stats, State(), posts));
      var pos := 0;
      var consecutive: nat := 0;
      while pos < |ids|
        invariant pos <= |ids|
        invariant goal == Loop(config, now, dir, server, ids, Iter(pos, consecutive, stats, State(), posts))
        decreases |ids| - pos
      {
        if stats.disabled >= config.maxRules {
          return stats, posts, DisableLimit;
        }
        if consecutive >= MaxConsecutiveRetries {
          return stats, posts, CircuitOpen;
        }
        ghost var it := Iter(pos, consecutive, stats, State(), posts);
        var next, stop;
        next, consecutive, stats, posts, stop := ProcessRule(now, dir, server, ids, pos, consecutive, stats, posts);
        if !next {
          return stats, posts, stop;
        }
        pos := pos + 1;
      }
      return stats, posts, QueueDone;
    }
  }

  /** The prefix loop of `__init__`: each prefix that parses as a network is kept, in order; the others are skipped. */
  method ParsePrefixes(prefixes: seq<string>) returns (parsed: seq<Block>)
    ensures parsed == ParseExcludedPrefixes(prefixes)
  {
    parsed := [];
    var i := 0;
    while i < |prefixes|
      invariant 0 <= i <= |prefixes|
      invariant parsed == ParseExcludedPrefixes(prefixes[..i])
    {
      ParseExcludedPrefixesSnoc(prefixes[..i], prefixes[i]);
      assert prefixes[..i + 1] == prefixes[..i] + [prefixes[i]];
      var network := ParseNetwork(prefixes[i]);
      if network.Some? {
        parsed := parsed + [network.value];
      }
      i := i + 1;
    }
    assert prefixes[..i] == prefixes;
  }

  /** The zero-hit loop: every report entry is counted, and the ids of the zero-hit access rules are queued in order. */
  method CollectZeroHitRules(items: seq<HitItem>) returns (ids: seq<string>, total: nat)
    ensures ids == ZeroHitIds(items) && total == |items|
  {
    ids, total := [], 0;
    while total < |items|
      invariant total <= |items|
      invariant ids == ZeroHitIds(items[..total])
    {
      var item := items[total];
      assert items[..total + 1][..total] == items[..total];
      if item.hitCount == 0 && TypeOf(item) == AccessRuleType {
        ids := ids + [item.ruleId];
      }
      total := total + 1;
    }
    assert items[..total] == items;
  }

  /**
   * The retry loop for the rule at position `pos`: up to four attempts; a
   * timeout adds one to the consecutive count and tries again, a response
   * resets it, and any other exception escapes.
   */
  method FetchRule(server: Server, pos: nat, consecutive: nat) returns (outcome: FetchOutcome, consecutive': nat)
    ensures Attempt(outcome, consecutive') == FetchWithRetries(server, pos, 0, consecutive)
  {
    consecutive' := consecutive;
    var attempt := 0;
    while attempt < MaxRetries
      invariant attempt <= MaxRetries
      invariant FetchWithRetries(server, pos, 0, consecutive) == FetchWithRetries(server, pos, attempt, consecutive')
    {
      match server(pos, attempt)
      case Timeout =>
        consecutive' := consecutive' + 1;
        attempt := attempt + 1;
      case Got(rule) =>
        return Fetched(rule), 0;
      case GotNone =>
        return FetchedNone, 0;
      case Failure =>
        return Crashed, consecutive';
    }
    return Exhausted, consecutive';
  }

  /**
   * The expansion in `_parse_ip_range` once both ends have parsed: the two
   * ends of a range of more than 256 addresses, otherwise each address from
   * the first to the last, in order.
   */
  method AddressesOf(s: Addr, e: Addr) returns (ips: seq<string>)
    ensures ips == FormatAll(RangeAddresses(s, e))
  {
    if e - s + 1 > RangeExpansionLimit {
      ips := [FormatAddress(s), FormatAddress(e)];
      assert ips == FormatAll([s, e]) by {
        assert [s, e][1..] == [e];
      }
    } else {
      ips := EveryAddress(s, e);
    }
  }

  /** The `while current <= end_ip` loop: each address from `s` to `e`, in order. */
  method EveryAddress(s: Addr, e: Addr) returns (ips: seq<string>)
    ensures ips == FormatAll(Span(s, e))
  {
    ips := [];
    ghost var listed: seq<Addr> := [];
    var current: nat := s;
    while current <= e
      invariant s <= current && (current == s || current <= e + 1)
      invariant |listed| == current - s && forall k :: 0 <= k < |listed| ==> listed[k] == s + k
      invariant ips == FormatAll(listed)
      decreases e + 1 - current
    {
      FormatAllSnoc(listed, current);
      listed := listed + [current];
      ips := ips + [FormatAddress(current)];
      current := current + 1;
    }
    ListedSpan(s, e, listed);
  }

  lemma ListedSpan(s: Addr, e: Addr, listed: seq<Addr>)
    requires |listed| == (if s <= e then e - s + 1 else 0)
    requires forall k :: 0 <= k < |listed| ==> listed[k] == s + k
    ensures listed == Span(s, e)
  {
  }
}
