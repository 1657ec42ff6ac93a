/**
 * One run of `analyze_and_disable_rules`: collect the rules with zero hits,
 * then fetch and judge them one by one, with per-rule retries on connection
 * timeouts, a circuit breaker on consecutive timeouts, a cap on the number
 * of rules disabled, and, in a live run, an audit comment posted with every
 * rule disabled.
 *
 * The management center is given as data: the device's access policy and
 * hit counts, the object directory the resolver reads, and a `Server` that
 * says how each fetch attempt of each queued rule ends.
 */
module Processing {

  import opened Wrappers
  import opened Resolver
  import opened Rules
  import opened PrefixMatcher

  /** An entry of the hit-count report: the rule's id, name and type (possibly missing) and its hit count. */
  datatype HitItem = HitItem(ruleId: string, ruleName: string, ruleType: Option<string>, hitCount: int)

  const AccessRuleType := "AccessRule"

  /** `item["rule"].get("type", "Unknown")`. */
  function TypeOf(item: HitItem): string
  {
    if item.ruleType.Some? then item.ruleType.value else "Unknown"
  }

  /** A regular access rule that was never hit; default actions and other special entries are not. */
  predicate ZeroHitAccessRule(item: HitItem)
  {
    item.hitCount == 0 && TypeOf(item) == AccessRuleType
  }

  /** The ids of the zero-hit access rules, in report order. */
  function ZeroHitIds(items: seq<HitItem>): (ids: seq<string>)
    ensures |ids| <= |items|
    ensures forall id :: id in ids <==> exists i :: 0 <= i < |items| && ZeroHitAccessRule(items[i]) && items[i].ruleId == id
  {
    if items == [] then []
    else
      var init := items[..|items| - 1];
      var last := items[|items| - 1];
      assert forall i :: 0 <= i < |init| ==> init[i] == items[i];
      ZeroHitIds(init) + (if ZeroHitAccessRule(last) then [last.ruleId] else [])
  }

  /** How one fetch attempt of a rule ends: a timeout, the rule, `None`, or any other exception. */
  datatype Fetch = Timeout | Got(rule: Rule) | GotNone | Failure

  /** The response to attempt `k` of fetching the rule at position `p` of the queue. */
  type Server = (nat, nat) -> Fetch

  /** One attempt per entry of the backoff table (60, 90, 120 and 240 seconds). */
  const MaxRetries: nat := 4

  const MaxConsecutiveRetries: nat := 10

  /** What the retry loop leaves: the rule, `None`, every attempt timed out, or an exception escaped. */
  datatype FetchOutcome = Fetched(rule: Rule) | FetchedNone | Exhausted | Crashed

  datatype Attempt = Attempt(outcome: FetchOutcome, consecutive: nat)

  /**
   * The retry loop from attempt `attempt` on: a timeout counts one more
   * consecutive retry and tries again, a response resets the count.
   */
  function FetchWithRetries(server: Server, pos: nat, attempt: nat, consecutive: nat): (a: Attempt)
    requires attempt <= MaxRetries
    ensures a.outcome.Exhausted? ==> a.consecutive == consecutive + (MaxRetries - attempt)
    ensures a.outcome.Fetched? || a.outcome.FetchedNone? ==> a.consecutive == 0
    ensures a.consecutive <= consecutive + (MaxRetries - attempt)
    decreases MaxRetries - attempt
  {
    if attempt == MaxRetries then Attempt(Exhausted, consecutive)
    else
      match server(pos, attempt)
      case Timeout => FetchWithRetries(server, pos, attempt + 1, consecutive + 1)
      case Got(rule) => Attempt(Fetched(rule), 0)
      case GotNone => Attempt(FetchedNone, 0)
      case Failure => Attempt(Crashed, consecutive)
  }

  /**
   * The retries give up exactly when every remaining attempt timed out, and a
   * fetched rule is one the server returned on some attempt.
   */
  lemma {:induction false} FetchOutcomes(server: Server, pos: nat, attempt: nat, consecutive: nat)
    requires attempt <= MaxRetries
    ensures var a := FetchWithRetries(server, pos, attempt, consecutive);
            && (a.outcome.Exhausted? <==> forall k :: attempt <= k < MaxRetries ==> server(pos, k).Timeout?)
            && (a.outcome.Fetched? ==> exists k :: attempt <= k < MaxRetries && server(pos, k) == Got(a.outcome.rule))
    decreases MaxRetries - attempt
  {
    if attempt < MaxRetries && server(pos, attempt).Timeout? {
      FetchOutcomes(server, pos, attempt + 1, consecutive + 1);
    }
  }

  /** The summary entry kept for a rule that was disabled (or would be) or skipped. */
  datatype RuleDetail = RuleDetail(name: string, id: string, firstComment: string, reason: Reason)

  /**
   * The statistics dictionary: `rules_skipped` counts rules judged and kept,
   * `skipped_rules` (here `connectionFailures`) rules given up after every
   * retry timed out.
   */
  datatype Stats = Stats(
    totalAnalyzed: nat,
    zeroHit: nat,
    disabled: nat,
    skipped: nat,
    connectionFailures: nat,
    disabledDetails: seq<RuleDetail>,
    ignoredDetails: seq<RuleDetail>)

  /** A rule disabled on the management center, with the comment added to it. */
  datatype Post = Post(ruleId: string, comment: string)

  /**
   * Why a run stopped. On `Crash` the source raises out of
   * `analyze_and_disable_rules` (an exception from a rule fetch other than a
   * timeout, or the IndexError of an empty comment history); the counters a
   * run ending in `Crash` carries are those at the moment of the raise, which
   * the program never hands back to a caller.
   */
  datatype Halt =
    | QueueDone
    | DisableLimit
    | CircuitOpen
    | FetchReturnedNone
    | Crash
    | NoAccessPolicy
    | NoHitData
    | NotRun

  /** The end of a run: the statistics, the memo, the posts made, how many queued rules were taken up, and why it stopped. */
  datatype Run = Run(stats: Stats, memo: Memo, posts: seq<Post>, processed: nat, consecutive: nat, halt: Halt)

  const EmptyStats := Stats(0, 0, 0, 0, 0, [], [])

  /** `first_comment`: the first comment's text, followed by its date in parentheses when both are present. */
  function FirstCommentSummary(history: Option<seq<Comment>>): string
  {
    if history.Some? && history.value != [] then
      var c := history.value[0];
      if c.text != "" && c.date != "" then c.text + " (" + c.date + ")" else c.text
    else ""
  }

  function Detail(rule: Rule, id: string, reason: Reason): RuleDetail
  {
    var summary := FirstCommentSummary(rule.commentHistory);
    RuleDetail(if rule.name.Some? then rule.name.value else "Unknown", id,
               if summary == "" then "No comment history" else summary, reason)
  }

  /**
   * The audit comment posted on a disabled rule: the live branch sets the
   * rule's `enabled` to False, adds the comment with `new_comments(action="add", value=comment)`
   * and calls `post()`.
   */
  function PostFor(now: string, d: RuleDetail): Post
  {
    Post(d.id, AuditComment(now, d.reason))
  }

  /** The posts a live run makes for a list of disabled rules, in order. */
  function AuditPosts(now: string, details: seq<RuleDetail>): (posts: seq<Post>)
    ensures |posts| == |details|
  {
    if details == [] then []
    else AuditPosts(now, details[..|details| - 1]) + [PostFor(now, details[|details| - 1])]
  }

  /** The loop's variables between two rules: queue position, consecutive retries, statistics, memo and posts so far. */
  datatype Iter = Iter(pos: nat, consecutive: nat, st: Stats, m: Memo, posts: seq<Post>)

  /** The end of one turn of the loop body: go on with the next rule, or stop the run. */
  datatype Step = Next(it: Iter) | Stop(run: Run)

  /**
   * One turn of the loop body for the rule at `it.pos`, once the limit and
   * the breaker have let it through: fetch it with retries, give it up when
   * every attempt timed out, stop on `None` or an exception, and otherwise
   * judge it, disabling it (and, in a live run, posting the audit comment)
   * or recording why it was kept.
   */
  function Turn(cfg: Config, now: string, dir: Directory, server: Server, ids: seq<string>, it: Iter): (s: Step)
    requires it.pos < |ids|
    ensures s.Next? ==> s.it.pos == it.pos + 1
  {
    var pos := it.pos;
    var st := it.st;
    var a := FetchWithRetries(server, pos, 0, it.consecutive);
    match a.outcome
    case Exhausted => Next(Iter(pos + 1, a.consecutive, st.(connectionFailures := st.connectionFailures + 1), it.m, it.posts))
    case FetchedNone => Stop(Run(st, it.m, it.posts, pos + 1, a.consecutive, FetchReturnedNone))
    case Crashed => Stop(Run(st, it.m, it.posts, pos + 1, a.consecutive, Crash))
    case Fetched(rule) =>
      var j := Decide(cfg, Some(dir), it.m, rule);
      match j.verdict
      case IndexError => Stop(Run(st, j.memo, it.posts, pos + 1, a.consecutive, Crash))
      case Verdict(disable, reason) =>
        var d := Detail(rule, ids[pos], reason);
        if disable then
          var posts := if cfg.dryRun then it.posts else it.posts + [PostFor(now, d)];
          Next(Iter(pos + 1, a.consecutive, st.(disabled := st.disabled + 1, disabledDetails := st.disabledDetails + [d]), j.memo, posts))
        else
          Next(Iter(pos + 1, a.consecutive, st.(skipped := st.skipped + 1, ignoredDetails := st.ignoredDetails + [d]), j.memo, it.posts))
  }

  /** The rule at `it.pos` is taken up: the queue is not done, the limit is not reached and the breaker is closed. */
  predicate Admits(cfg: Config, ids: seq<string>, it: Iter)
  {
    it.pos < |ids| && it.st.disabled < cfg.maxRules && it.consecutive < MaxConsecutiveRetries
  }

  /** `for rule_id in zero_hit_rule_ids:` from position `it.pos` on. */
  function Loop(cfg: Config, now: string, dir: Directory, server: Server, ids: seq<string>, it: Iter): (r: Run)
    requires it.pos <= |ids|
    decreases |ids| - it.pos
  {
    if it.pos == |ids| then Run(it.st, it.m, it.posts, it.pos, it.consecutive, QueueDone)
    else if it.st.disabled >= cfg.maxRules then Run(it.st, it.m, it.posts, it.pos, it.consecutive, DisableLimit)
    else if it.consecutive >= MaxConsecutiveRetries then Run(it.st, it.m, it.posts, it.pos, it.consecutive, CircuitOpen)
    else
      match Turn(cfg, now, dir, server, ids, it)
      case Stop(r) => r
      case Next(it') => Loop(cfg, now, dir, server, ids, it')
  }

  /** What the management center reports for the device: its access policy id, if any, and its hit counts, if any. */
  datatype Device = Device(accessPolicy: Option<string>, hitCounts: Option<seq<HitItem>>)

  /**
   * The run as the code evidently intends it, in both modes: look up the
   * device's policy and hit counts, queue the zero-hit access rules, and run
   * the loop over them.
   */
  function Analyze(cfg: Config, now: string, device: Device, dir: Directory, server: Server, m: Memo): (r: Run)
  {
    if device.accessPolicy.None? then Run(EmptyStats, m, [], 0, 0, NoAccessPolicy)
    else if device.hitCounts.None? then Run(EmptyStats, m, [], 0, 0, NoHitData)
    else
      var items := device.hitCounts.value;
      var ids := ZeroHitIds(items);
      Loop(cfg, now, dir, server, ids, Iter(0, 0, Stats(|items|, |ids|, 0, 0, 0, [], []), m, []))
  }

  /**
   * The run as written: everything from the device lookup to the end of the
   * loop sits inside `if self.dry_run:`, so a live run looks nothing up,
   * disables nothing and returns the initial statistics.
   */
  function AnalyzeAsWritten(cfg: Config, now: string, device: Device, dir: Directory, server: Server, m: Memo): (r: Run)
  {
    if cfg.dryRun then Analyze(cfg, now, device, dir, server, m)
    else Run(EmptyStats, m, [], 0, 0, NotRun)
  }

  // ---------------------------------------------------------------------
  // Properties of a run

  /** The largest consecutive-retry count the loop can hold: one short of the breaker, plus a rule's full retries. */
  const MaxConsecutiveSeen: nat := MaxConsecutiveRetries - 1 + MaxRetries

  /** Every detail records a rule id taken from the queue. */
  predicate QueuedIds(details: seq<RuleDetail>, ids: seq<string>)
  {
    forall k :: 0 <= k < |details| ==> details[k].id in ids
  }

  /**
   * From `a` to `b` the statistics only grew: the report totals are kept,
   * each counter went up by as many entries as its detail list gained, and
   * the old detail lists are prefixes of the new ones.
   */
  ghost predicate Grew(a: Stats, b: Stats)
  {
    && a.totalAnalyzed == b.totalAnalyzed && a.zeroHit == b.zeroHit
    && a.disabled <= b.disabled && a.skipped <= b.skipped && a.connectionFailures <= b.connectionFailures
    && a.disabledDetails <= b.disabledDetails && a.ignoredDetails <= b.ignoredDetails
    && |b.disabledDetails| - |a.disabledDetails| == b.disabled - a.disabled
    && |b.ignoredDetails| - |a.ignoredDetails| == b.skipped - a.skipped
  }

  /** The rules counted between `a` and `b`, as disabled, kept or given up. */
  function Counted(a: Stats, b: Stats): int
  {
    (b.disabled - a.disabled) + (b.skipped - a.skipped) + (b.connectionFailures - a.connectionFailures)
  }

  /** A run that stopped on the rule it had just taken up, without counting it. */
  predicate StoppedMidRule(h: Halt)
  {
    h == FetchReturnedNone || h == Crash
  }

  /**
   * One turn counts the rule it takes up exactly once, or stops on it
   * without counting it; the limit is respected and the retry count stays
   * within bounds.
   */
  lemma TurnCounts(cfg: Config, now: string, dir: Directory, server: Server, ids: seq<string>, it: Iter)
    requires Admits(cfg, ids, it)
    requires QueuedIds(it.st.disabledDetails, ids) && QueuedIds(it.st.ignoredDetails, ids)
    ensures var s := Turn(cfg, now, dir, server, ids, it);
            && (s.Next? ==>
                  && Grew(it.st, s.it.st) && Counted(it.st, s.it.st) == 1
                  && QueuedIds(s.it.st.disabledDetails, ids) && QueuedIds(s.it.st.ignoredDetails, ids)
                  && s.it.st.disabled <= cfg.maxRules
                  && s.it.consecutive <= MaxConsecutiveSeen)
            && (s.Stop? ==>
                  && s.run.stats == it.st && s.run.processed == it.pos + 1 && StoppedMidRule(s.run.halt)
                  && s.run.consecutive <= MaxConsecutiveSeen)
  {
    TurnNextCounts(cfg, now, dir, server, ids, it);
  }

  lemma TurnNextCounts(cfg: Config, now: string, dir: Directory, server: Server, ids: seq<string>, it: Iter)
    requires Admits(cfg, ids, it)
    requires QueuedIds(it.st.disabledDetails, ids) && QueuedIds(it.st.ignoredDetails, ids)
    ensures var s := Turn(cfg, now, dir, server, ids, it);
            s.Next? ==>
              && Grew(it.st, s.it.st) && Counted(it.st, s.it.st) == 1
              && QueuedIds(s.it.st.disabledDetails, ids) && QueuedIds(s.it.st.ignoredDetails, ids)
              && s.it.st.disabled <= cfg.maxRules
              && s.it.consecutive <= MaxConsecutiveSeen
  {
    var a := FetchWithRetries(server, it.pos, 0, it.consecutive);
    if a.outcome.Fetched? {
      var j := Decide(cfg, Some(dir), it.m, a.outcome.rule);
      if j.verdict.Verdict? {
        var d := Detail(a.outcome.rule, ids[it.pos], j.verdict.reason);
        QueuedSnoc(it.st.disabledDetails, d, ids);
        QueuedSnoc(it.st.ignoredDetails, d, ids);
      }
    }
  }

  lemma QueuedSnoc(details: seq<RuleDetail>, d: RuleDetail, ids: seq<string>)
    requires QueuedIds(details, ids) && d.id in ids
    ensures QueuedIds(details + [d], ids)
  {
  }

  lemma GrewTrans(a: Stats, b: Stats, c: Stats)
    requires Grew(a, b) && Grew(b, c)
    ensures Grew(a, c) && Counted(a, c) == Counted(a, b) + Counted(b, c)
  {
  }

  /** The post made for each disabled rule carries its id and the audit comment for its reason. */
  lemma {:induction false} AuditPostsElements(now: string, details: seq<RuleDetail>)
    ensures forall i :: 0 <= i < |details| ==> AuditPosts(now, details)[i] == PostFor(now, details[i])
  {
    forall i | 0 <= i < |details|
      ensures AuditPosts(now, details)[i] == PostFor(now, details[i])
    {
      AuditPostAt(now, details, i);
    }
  }

  lemma {:induction false} AuditPostAt(now: string, details: seq<RuleDetail>, i: nat)
    requires i < |details|
    ensures AuditPosts(now, details)[i] == PostFor(now, details[i])
    decreases |details|
  {
    var init := details[..|details| - 1];
    assert AuditPosts(now, details) == AuditPosts(now, init) + [PostFor(now, details[|details| - 1])];
    if i < |init| {
      AuditPostAt(now, init, i);
      assert details[i] == init[i];
    }
  }

  /**
   * The counters of a loop run: every rule taken off the queue is counted
   * exactly once, as disabled, kept or given up, except the one a run stops
   * on after a `None` or an exception; each counter has its list of details;
   * the disable limit is never exceeded; the breaker opens only after ten
   * consecutive timeouts and the count never passes thirteen.
   */
  lemma {:induction false} LoopCounts(cfg: Config, now: string, dir: Directory, server: Server, ids: seq<string>, it: Iter)
    requires it.pos <= |ids| && it.consecutive <= MaxConsecutiveSeen
    requires QueuedIds(it.st.disabledDetails, ids) && QueuedIds(it.st.ignoredDetails, ids)
    ensures var r := Loop(cfg, now, dir, server, ids, it);
            && it.pos <= r.processed <= |ids|
            && Grew(it.st, r.stats)
            && Counted(it.st, r.stats) + (if StoppedMidRule(r.halt) then 1 else 0) == r.processed - it.pos
            && QueuedIds(r.stats.disabledDetails, ids) && QueuedIds(r.stats.ignoredDetails, ids)
            && (r.stats.disabled == it.st.disabled || r.stats.disabled <= cfg.maxRules)
            && (r.halt == DisableLimit ==> r.stats.disabled >= cfg.maxRules)
            && (r.halt == CircuitOpen ==> r.consecutive >= MaxConsecutiveRetries)
            && (r.halt == QueueDone ==> r.processed == |ids|)
            && r.consecutive <= MaxConsecutiveSeen
    decreases |ids| - it.pos
  {
    if Admits(cfg, ids, it) {
      TurnCounts(cfg, now, dir, server, ids, it);
      match Turn(cfg, now, dir, server, ids, it)
      case Stop(r) =>
      case Next(it') =>
        LoopCounts(cfg, now, dir, server, ids, it');
        GrewTrans(it.st, it'.st, Loop(cfg, now, dir, server, ids, it').stats);
    }
  }

  lemma {:induction false} AuditPostsAppend(now: string, a: seq<RuleDetail>, b: seq<RuleDetail>)
    ensures AuditPosts(now, a + b) == AuditPosts(now, a) + AuditPosts(now, b)
    decreases |b|
  {
    if b == [] {
      assert a + b == a;
    } else {
      var init := b[..|b| - 1];
      assert (a + b)[..|a + b| - 1] == a + init;
      AuditPostsAppend(now, a, init);
    }
  }

  /** One turn posts nothing in a dry run, and in a live run the audit comment of the rule it disabled, if any. */
  lemma TurnPosts(cfg: Config, now: string, dir: Directory, server: Server, ids: seq<string>, it: Iter)
    requires it.pos < |ids|
    ensures var s := Turn(cfg, now, dir, server, ids, it);
            && (s.Next? ==>
                  && it.st.disabledDetails <= s.it.st.disabledDetails
                  && s.it.posts == it.posts + (if cfg.dryRun then [] else AuditPosts(now, s.it.st.disabledDetails[|it.st.disabledDetails|..])))
            && (s.Stop? ==> s.run.stats == it.st && s.run.posts == it.posts)
  {
    var a := FetchWithRetries(server, it.pos, 0, it.consecutive);
    if a.outcome.Fetched? {
      var j := Decide(cfg, Some(dir), it.m, a.outcome.rule);
      if j.verdict.Verdict? {
        var d := Detail(a.outcome.rule, ids[it.pos], j.verdict.reason);
        if j.verdict.disable {
          OnePost(now, cfg.dryRun, it.posts, it.st.disabledDetails, d);
        } else {
          NoPost(now, cfg.dryRun, it.posts, it.st.disabledDetails);
        }
      }
    } else if a.outcome.Exhausted? {
      NoPost(now, cfg.dryRun, it.posts, it.st.disabledDetails);
    }
  }

  lemma ConcatAssoc<T>(x: seq<T>, y: seq<T>, z: seq<T>)
    ensures (x + y) + z == x + (y + z)
  {
  }

  /** What a list gained past `a` is what it gained up to `b` and then past `b`. */
  lemma SliceSplit<T>(a: seq<T>, b: seq<T>, c: seq<T>)
    requires a <= b <= c
    ensures c[|a|..] == b[|a|..] + c[|b|..]
  {
    assert c[..|b|] == b;
  }

  /** Recording one more disabled rule adds its audit post, in a live run. */
  lemma OnePost(now: string, dryRun: bool, posts: seq<Post>, before: seq<RuleDetail>, d: RuleDetail)
    ensures (if dryRun then posts else posts + [PostFor(now, d)])
         == posts + (if dryRun then [] else AuditPosts(now, (before + [d])[|before|..]))
  {
    assert (before + [d])[|before|..] == [d];
    assert AuditPosts(now, [d]) == [PostFor(now, d)];
  }

  /** Recording no disabled rule adds no post. */
  lemma NoPost(now: string, dryRun: bool, posts: seq<Post>, before: seq<RuleDetail>)
    ensures posts == posts + (if dryRun then [] else AuditPosts(now, before[|before|..]))
  {
    assert before[|before|..] == [];
    assert posts + [] == posts;
  }

  /** Posts of two stretches of a run, one after the other, are the posts of the whole stretch. */
  lemma PostsCompose(now: string, dryRun: bool, p0: seq<Post>, p1: seq<Post>, p2: seq<Post>,
                     a: seq<RuleDetail>, b: seq<RuleDetail>, c: seq<RuleDetail>)
    requires a <= b <= c
    requires p1 == p0 + (if dryRun then [] else AuditPosts(now, b[|a|..]))
    requires p2 == p1 + (if dryRun then [] else AuditPosts(now, c[|b|..]))
    ensures p2 == p0 + (if dryRun then [] else AuditPosts(now, c[|a|..]))
  {
    if dryRun {
      assert p1 == p0 + [] && p2 == p1 + [];
    } else {
      var first, second := b[|a|..], c[|b|..];
      SliceSplit(a, b, c);
      AuditPostsAppend(now, first, second);
      ConcatAssoc(p0, AuditPosts(now, first), AuditPosts(now, second));
    }
  }

  /**
   * What a loop run posts: nothing in a dry run; in a live run one audit
   * comment per disabled rule, in the order the rules were disabled, each
   * carrying that rule's reason.
   */
  lemma {:induction false} LoopPosts(cfg: Config, now: string, dir: Directory, server: Server, ids: seq<string>, it: Iter)
    requires it.pos <= |ids|
    ensures var r := Loop(cfg, now, dir, server, ids, it);
            && it.st.disabledDetails <= r.stats.disabledDetails
            && r.posts == it.posts + (if cfg.dryRun then [] else AuditPosts(now, r.stats.disabledDetails[|it.st.disabledDetails|..]))
    decreases |ids| - it.pos
  {
    var r := Loop(cfg, now, dir, server, ids, it);
    var a := it.st.disabledDetails;
    if Admits(cfg, ids, it) {
      TurnPosts(cfg, now, dir, server, ids, it);
      var s := Turn(cfg, now, dir, server, ids, it);
      if s.Stop? {
        assert r == s.run;
        assert r.stats.disabledDetails[|a|..] == [];
      } else {
        var it' := s.it;
        assert r == Loop(cfg, now, dir, server, ids, it');
        LoopPosts(cfg, now, dir, server, ids, it');
        PostsCompose(now, cfg.dryRun, it.posts, it'.posts, r.posts, a, it'.st.disabledDetails, r.stats.disabledDetails);
      }
    } else {
      assert r.stats.disabledDetails[|a|..] == [];
    }
  }

  lemma TurnMemo(cfg: Config, now: string, dir: Directory, server: Server, ids: seq<string>, it: Iter)
    requires it.pos < |ids|
    ensures var s := Turn(cfg, now, dir, server, ids, it);
            MemoStep(dir, it.m, if s.Next? then s.it.m else s.run.memo)
  {
    assert it.m.log[..|it.m.log|] == it.m.log;
    var a := FetchWithRetries(server, it.pos, 0, it.consecutive);
    if a.outcome.Fetched? {
      DecideStep(cfg, Some(dir), it.m, a.outcome.rule);
    }
  }

  /**
   * A loop run is one memo step: each network object is fetched at most
   * once for the whole run when every fetch found its object, and the cache
   * holds only strings from the directory.
   */
  lemma {:induction false} LoopMemo(cfg: Config, now: string, dir: Directory, server: Server, ids: seq<string>, it: Iter)
    requires it.pos <= |ids|
    ensures MemoStep(dir, it.m, Loop(cfg, now, dir, server, ids, it).memo)
    decreases |ids| - it.pos
  {
    if Admits(cfg, ids, it) {
      TurnMemo(cfg, now, dir, server, ids, it);
      match Turn(cfg, now, dir, server, ids, it)
      case Stop(_) =>
      case Next(it') =>
        LoopMemo(cfg, now, dir, server, ids, it');
        MemoStepTrans(dir, it.m, it'.m, Loop(cfg, now, dir, server, ids, it').memo);
    } else {
      assert it.m.log[..|it.m.log|] == it.m.log;
    }
  }

  /** The decision does not read the dry-run flag. */
  lemma DecideIgnoresDryRun(cfg: Config, dryRun: bool, client: Option<Directory>, m: Memo, rule: Rule)
    ensures Decide(cfg.(dryRun := dryRun), client, m, rule) == Decide(cfg, client, m, rule)
  {
    var c := cfg.(dryRun := dryRun);
    assert PrefixProbe(c, client, m, rule) == PrefixProbe(cfg, client, m, rule);
    assert Eligible(c, rule) == Eligible(cfg, rule);
  }

  lemma TurnAgrees(cfg: Config, now: string, dir: Directory, server: Server, ids: seq<string>, it: Iter, posts: seq<Post>)
    requires it.pos < |ids|
    ensures var dry := Turn(cfg.(dryRun := true), now, dir, server, ids, it);
            var live := Turn(cfg.(dryRun := false), now, dir, server, ids, it.(posts := posts));
            && dry.Next? == live.Next?
            && (dry.Next? ==> dry.it.(posts := []) == live.it.(posts := []))
            && (dry.Stop? ==> dry.run.(posts := []) == live.run.(posts := []))
  {
    var a := FetchWithRetries(server, it.pos, 0, it.consecutive);
    if a.outcome.Fetched? {
      DecideIgnoresDryRun(cfg, true, Some(dir), it.m, a.outcome.rule);
      DecideIgnoresDryRun(cfg, false, Some(dir), it.m, a.outcome.rule);
      var j := Decide(cfg, Some(dir), it.m, a.outcome.rule);
      if j.verdict.Verdict? {
        var d := Detail(a.outcome.rule, ids[it.pos], j.verdict.reason);
      }
    }
  }

  /**
   * A dry run and a live run over the same data decide alike: the same
   * statistics, the same fetches and cache, the same stopping point; only
   * the posts differ.
   */
  lemma {:induction false} DryAndLiveLoopsAgree(cfg: Config, now: string, dir: Directory, server: Server, ids: seq<string>,
                                               it: Iter, posts: seq<Post>)
    requires it.pos <= |ids|
    ensures Loop(cfg.(dryRun := true), now, dir, server, ids, it).(posts := [])
         == Loop(cfg.(dryRun := false), now, dir, server, ids, it.(posts := posts)).(posts := [])
    decreases |ids| - it.pos
  {
    var dryCfg := cfg.(dryRun := true);
    var liveCfg := cfg.(dryRun := false);
    if Admits(cfg, ids, it) {
      TurnAgrees(cfg, now, dir, server, ids, it, posts);
      match Turn(dryCfg, now, dir, server, ids, it)
      case Stop(_) =>
      case Next(it') =>
        var live' := Turn(liveCfg, now, dir, server, ids, it.(posts := posts)).it;
        assert live' == it'.(posts := live'.posts);
        DryAndLiveLoopsAgree(cfg, now, dir, server, ids, it', live'.posts);
    }
  }

  /**
   * The statistics a run returns: nothing without a policy or hit data;
   * otherwise the report size and the number of zero-hit access rules, every
   * rule taken up counted once (except one a run stops on), at most
   * `max_rules_to_disable` rules disabled, and only zero-hit access rules of
   * the report in the details.
   */
  lemma AnalyzeCounts(cfg: Config, now: string, device: Device, dir: Directory, server: Server, m: Memo)
    ensures var r := Analyze(cfg, now, device, dir, server, m);
            && (device.accessPolicy.None? ==> r.halt == NoAccessPolicy && r.stats == EmptyStats)
            && (device.accessPolicy.Some? && device.hitCounts.None? ==> r.halt == NoHitData && r.stats == EmptyStats)
            && (device.accessPolicy.Some? && device.hitCounts.Some? ==>
                  var items := device.hitCounts.value;
                  && r.stats.totalAnalyzed == |items|
                  && r.stats.zeroHit == |ZeroHitIds(items)|
                  && r.processed <= r.stats.zeroHit
                  && r.stats.disabled + r.stats.skipped + r.stats.connectionFailures
                     + (if StoppedMidRule(r.halt) then 1 else 0) == r.processed
                  && QueuedIds(r.stats.disabledDetails, ZeroHitIds(items))
                  && QueuedIds(r.stats.ignoredDetails, ZeroHitIds(items)))
            && (r.stats.disabled == 0 || r.stats.disabled <= cfg.maxRules)
            && |r.stats.disabledDetails| == r.stats.disabled && |r.stats.ignoredDetails| == r.stats.skipped
  {
    if device.accessPolicy.Some? && device.hitCounts.Some? {
      var items := device.hitCounts.value;
      var ids := ZeroHitIds(items);
      var it := Iter(0, 0, Stats(|items|, |ids|, 0, 0, 0, [], []), m, []);
      LoopCounts(cfg, now, dir, server, ids, it);
      var r := Loop(cfg, now, dir, server, ids, it);
      assert Analyze(cfg, now, device, dir, server, m) == r;
    }
  }

  /**
   * What a run does to the management center and to the manager: a dry run
   * posts nothing, a live run posts one audit comment per disabled rule in
   * order; and the run is one memo step.
   */
  lemma AnalyzeEffects(cfg: Config, now: string, device: Device, dir: Directory, server: Server, m: Memo)
    ensures var r := Analyze(cfg, now, device, dir, server, m);
            && (cfg.dryRun ==> r.posts == [])
            && (!cfg.dryRun ==> r.posts == AuditPosts(now, r.stats.disabledDetails))
            && MemoStep(dir, m, r.memo)
  {
    assert m.log[..|m.log|] == m.log;
    if device.accessPolicy.Some? && device.hitCounts.Some? {
      var items := device.hitCounts.value;
      var ids := ZeroHitIds(items);
      var it := Iter(0, 0, Stats(|items|, |ids|, 0, 0, 0, [], []), m, []);
      LoopPosts(cfg, now, dir, server, ids, it);
      LoopMemo(cfg, now, dir, server, ids, it);
      var r := Loop(cfg, now, dir, server, ids, it);
      assert Analyze(cfg, now, device, dir, server, m) == r;
      assert r.stats.disabledDetails[0..] == r.stats.disabledDetails;
    }
  }

  /**
   * Intended behaviour: a dry run reports exactly what a live run does, on
   * the same data; only the posts differ.
   */
  lemma DryRunPredictsLiveRun(cfg: Config, now: string, device: Device, dir: Directory, server: Server, m: Memo)
    ensures Analyze(cfg.(dryRun := true), now, device, dir, server, m).(posts := [])
         == Analyze(cfg.(dryRun := false), now, device, dir, server, m).(posts := [])
  {
    if device.accessPolicy.Some? && device.hitCounts.Some? {
      var items := device.hitCounts.value;
      var ids := ZeroHitIds(items);
      DryAndLiveLoopsAgree(cfg, now, dir, server, ids, Iter(0, 0, Stats(|items|, |ids|, 0, 0, 0, [], []), m, []), []);
    }
  }

  /** As written, a live run does nothing at all: no lookup, no fetch, no post, and the initial statistics. */
  lemma LiveRunAsWrittenDoesNothing(cfg: Config, now: string, device: Device, dir: Directory, server: Server, m: Memo)
    requires !cfg.dryRun
    ensures var r := AnalyzeAsWritten(cfg, now, device, dir, server, m);
            r.stats == EmptyStats && r.posts == [] && r.memo == m && r.processed == 0
  {
  }

  /** An enabled ALLOW rule with no zones, no networks and no comment history: a rule the tool disables. */
  const IdleRule := Rule(Some("idle"), true, "ALLOW", [], [], NetworkSide([], []), NetworkSide([], []), None)

  /** A server that answers every fetch with `IdleRule`. */
  function AlwaysIdle(p: nat, k: nat): Fetch
  {
    Got(IdleRule)
  }

  /** A server whose every fetch times out. */
  function AlwaysTimeout(p: nat, k: nat): Fetch
  {
    Timeout
  }

  const Idle := Device(Some("acp"), Some([HitItem("r1", "idle", Some(AccessRuleType), 0)]))

  /**
   * The discrepancy on one input: a report with one zero-hit rule that the
   * tool should disable. The dry run as written finds and would disable it;
   * the live run as written disables nothing, while the intended live run
   * disables it and posts its audit comment.
   */
  lemma LiveRunSkipsEligibleRule(now: string, dir: Directory, m: Memo)
    ensures var cfg := Config([], 2025, ["ALLOW"], [], Overlap, 50, false);
            var server: Server := AlwaysIdle;
            && AnalyzeAsWritten(cfg.(dryRun := true), now, Idle, dir, server, m).stats.disabled == 1
            && AnalyzeAsWritten(cfg, now, Idle, dir, server, m).stats.disabled == 0
            && Analyze(cfg, now, Idle, dir, server, m).stats.disabled == 1
            && Analyze(cfg, now, Idle, dir, server, m).posts == [Post("r1", AuditComment(now, NoCommentHistory))]
  {
    var cfg := Config([], 2025, ["ALLOW"], [], Overlap, 50, false);
    var server: Server := AlwaysIdle;
    var items := Idle.hitCounts.value;
    assert items[..0] == [];
    assert ZeroHitIds(items) == ["r1"];
    DecideCharacterised(cfg, Some(dir), m, IdleRule);
    DecideCharacterised(cfg.(dryRun := true), Some(dir), m, IdleRule);
    assert Decide(cfg, Some(dir), m, IdleRule) == Judgement(Verdict(true, NoCommentHistory), m);
    assert Decide(cfg.(dryRun := true), Some(dir), m, IdleRule) == Judgement(Verdict(true, NoCommentHistory), m);
    assert FetchWithRetries(server, 0, 0, 0) == Attempt(Fetched(IdleRule), 0);
    var st := Stats(1, 1, 0, 0, 0, [], []);
    var d := Detail(IdleRule, "r1", NoCommentHistory);
    var st' := st.(disabled := 1, disabledDetails := [d]);
    var live := Iter(1, 0, st', m, [Post("r1", AuditComment(now, NoCommentHistory))]);
    assert Turn(cfg, now, dir, server, ["r1"], Iter(0, 0, st, m, [])) == Next(live);
    assert Analyze(cfg, now, Idle, dir, server, m) == Loop(cfg, now, dir, server, ["r1"], live);
    var dry := Iter(1, 0, st', m, []);
    assert Turn(cfg.(dryRun := true), now, dir, server, ["r1"], Iter(0, 0, st, m, [])) == Next(dry);
    assert Analyze(cfg.(dryRun := true), now, Idle, dir, server, m) == Loop(cfg.(dryRun := true), now, dir, server, ["r1"], dry);
  }

  /**
   * The circuit breaker: when every fetch times out, three rules are given
   * up after four attempts each (twelve consecutive timeouts) and the run
   * stops before the fourth.
   */
  lemma TimeoutsOpenTheBreaker(cfg: Config, now: string, dir: Directory, ids: seq<string>, st: Stats, m: Memo)
    requires |ids| >= 4 && st.disabled < cfg.maxRules
    ensures var server: Server := AlwaysTimeout;
            var r := Loop(cfg, now, dir, server, ids, Iter(0, 0, st, m, []));
            && r.halt == CircuitOpen && r.processed == 3 && r.consecutive == 12
            && r.stats == st.(connectionFailures := st.connectionFailures + 3)
  {
    var server: Server := AlwaysTimeout;
    var it0 := Iter(0, 0, st, m, []);
    var it1 := Iter(1, 4, st.(connectionFailures := st.connectionFailures + 1), m, []);
    var it2 := Iter(2, 8, st.(connectionFailures := st.connectionFailures + 2), m, []);
    var it3 := Iter(3, 12, st.(connectionFailures := st.connectionFailures + 3), m, []);
    assert FetchWithRetries(server, 0, 0, 0).outcome.Exhausted?;
    assert Turn(cfg, now, dir, server, ids, it0) == Next(it1);
    assert FetchWithRetries(server, 1, 0, 4).outcome.Exhausted?;
    assert Turn(cfg, now, dir, server, ids, it1) == Next(it2);
    assert FetchWithRetries(server, 2, 0, 8).outcome.Exhausted?;
    assert Turn(cfg, now, dir, server, ids, it2) == Next(it3);
    assert Loop(cfg, now, dir, server, ids, it3) == Run(it3.st, m, [], 3, 12, CircuitOpen);
    assert Loop(cfg, now, dir, server, ids, it2) == Loop(cfg, now, dir, server, ids, it3);
    assert Loop(cfg, now, dir, server, ids, it1) == Loop(cfg, now, dir, server, ids, it2);
    assert Loop(cfg, now, dir, server, ids, it0) == Loop(cfg, now, dir, server, ids, it1);
  }
}
