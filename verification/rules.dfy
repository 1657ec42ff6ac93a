/**
 * The per-rule decision: whether a zero-hit access rule is disabled, and
 * why. A rule is kept when it touches an excluded security zone, when it
 * uses an excluded IP prefix (directly or through a network object), or
 * when it is not an enabled rule with one of the configured actions;
 * otherwise its first comment decides: a comment left by this tool or one
 * dated before the year threshold disables it, and so does having no
 * comment history at all.
 */
module Rules {

  import opened Wrappers
  import opened Text
  import opened IPv4
  import opened PrefixMatcher
  import opened Resolver

  /** A security zone reference; its `name` key may be missing. */
  datatype ZoneRef = ZoneRef(name: Option<string>)

  /**
   * The `sourceNetworks` or `destinationNetworks` part of a rule. A missing
   * part, or a part without `literals` or `objects`, reads as empty lists,
   * which the checks treat exactly as the source treats the missing keys.
   */
  datatype NetworkSide = NetworkSide(literals: seq<Literal>, objects: seq<ObjRef>)

  /** An entry of `commentHistoryList`; a missing `date` or `comment` reads as "". */
  datatype Comment = Comment(date: string, text: string)

  /**
   * The fields of an access rule the decision reads. `enabled` is the
   * truthiness of the `enabled` key, `action` is "" when the key is missing,
   * the zone lists are empty when missing, and `commentHistory` is `None`
   * exactly when the rule has no `commentHistoryList` key.
   */
  datatype Rule = Rule(
    name: Option<string>,
    enabled: bool,
    action: string,
    sourceZones: seq<ZoneRef>,
    destinationZones: seq<ZoneRef>,
    sourceNetworks: NetworkSide,
    destinationNetworks: NetworkSide,
    commentHistory: Option<seq<Comment>>)

  /** The manager's settings after `__init__` has applied its defaults and parsed the prefixes. */
  datatype Config = Config(
    excludeZones: seq<string>,
    yearThreshold: int,
    ruleActions: seq<string>,
    excludePrefixes: seq<Block>,
    mode: Mode,
    maxRules: int,
    dryRun: bool)

  /** The text this tool writes at the head of every comment it adds. */
  const Marker := "DisabledByHitCountScript"

  /** The reasons `_should_disable_rule` gives, one per return statement. */
  datatype Reason =
    | ExcludedZone
    | ExcludedPrefix
    | NotEnabledOrAction(action: string, allowed: seq<string>)
    | PreviouslyMarked(comment: string)
    | CreatedBefore(threshold: int, date: string)
    | NoCommentHistory
    | CriteriaNotMet

  /** The reasons that come with a decision to disable. */
  predicate IsDisableReason(reason: Reason)
  {
    reason.PreviouslyMarked? || reason.CreatedBefore? || reason.NoCommentHistory?
  }

  /**
   * The outcome of `_should_disable_rule`: a decision with its reason, or
   * the `IndexError` it raises for a rule whose comment history is an empty
   * list.
   */
  datatype Verdict = Verdict(disable: bool, reason: Reason) | IndexError

  /** A verdict together with the memo the prefix check left behind. */
  datatype Judgement = Judgement(verdict: Verdict, memo: Memo)

  /** The result of the prefix check, and the memo it left behind. */
  datatype Probe = Probe(hit: bool, memo: Memo)

  /** Python's `repr` of a list of plain strings, as an f-string renders it. */
  function ListRepr(items: seq<string>): string
  {
    "[" + QuotedItems(items) + "]"
  }

  function QuotedItems(items: seq<string>): string
  {
    if items == [] then ""
    else if |items| == 1 then "'" + items[0] + "'"
    else "'" + items[0] + "', " + QuotedItems(items[1..])
  }

  /** The reason string the source returns. */
  function ReasonText(reason: Reason): string
  {
    match reason
    case ExcludedZone => "Rule involves excluded zone"
    case ExcludedPrefix => "Rule involves excluded IP prefix"
    case NotEnabledOrAction(action, allowed) =>
      "Rule is not enabled or action '" + action + "' not in allowed actions " + ListRepr(allowed)
    case PreviouslyMarked(comment) => "Rule previously marked by script: " + comment
    case CreatedBefore(threshold, date) =>
      "Rule created before " + IntToDecimal(threshold) + " (first comment: " + date + ")"
    case NoCommentHistory => "No comment history found"
    case CriteriaNotMet => "Rule does not meet disable criteria"
  }

  /** The comment a live run adds to a rule it disables. */
  function AuditComment(now: string, reason: Reason): (c: string)
  {
    Marker + " " + now + " - " + ReasonText(reason)
  }

  /** The audit comment carries the marker, whatever the time and the reason. */
  lemma AuditCommentMarked(now: string, reason: Reason)
    ensures Contains(AuditComment(now, reason), Marker)
  {
    PrefixContained(Marker, " " + now + " - " + ReasonText(reason));
  }

  // ---------------------------------------------------------------------
  // Zones

  /** Some zone of the list has a name among the excluded ones. */
  function ZonesHit(excludeZones: seq<string>, zones: seq<ZoneRef>): (r: bool)
    ensures r <==> exists z :: z in zones && z.name.Some? && z.name.value in excludeZones
  {
    if zones == [] then false
    else
      assert zones == [zones[0]] + zones[1..];
      (zones[0].name.Some? && zones[0].name.value in excludeZones) || ZonesHit(excludeZones, zones[1..])
  }

  /** `_is_rule_in_excluded_zone`: a source or destination zone is excluded by name. */
  function InExcludedZone(excludeZones: seq<string>, rule: Rule): (r: bool)
    ensures r <==> exists z :: z in rule.sourceZones + rule.destinationZones && z.name.Some? && z.name.value in excludeZones
  {
    if excludeZones == [] then false
    else
      ZonesHit(excludeZones, rule.sourceZones) || ZonesHit(excludeZones, rule.destinationZones)
  }

  // ---------------------------------------------------------------------
  // Prefixes

  /** The name an object is reported under: "Unknown" when the key is missing. */
  function NameOf(o: ObjRef): string
  {
    if o.name.Some? then o.name.value else "Unknown"
  }

  /** An object that is looked at at all: it has a non-empty id and type. */
  predicate Usable(o: ObjRef)
  {
    Present(o.id) && Present(o.kind)
  }

  /** Some literal with a value meets an excluded prefix. */
  predicate LiteralsHit(excluded: seq<Block>, mode: Mode, literals: seq<Literal>)
  {
    exists i :: 0 <= i < |literals| && literals[i].value.Some? && OverlapsExcluded(excluded, mode, literals[i].value.value)
  }

  /** Some resolved network meets an excluded prefix. */
  predicate NetworksHit(excluded: seq<Block>, mode: Mode, networks: seq<string>)
  {
    exists i :: 0 <= i < |networks| && OverlapsExcluded(excluded, mode, networks[i])
  }

  /** Testing the literals one more at a time. */
  lemma LiteralsHitSnoc(excluded: seq<Block>, mode: Mode, literals: seq<Literal>, l: Literal)
    ensures LiteralsHit(excluded, mode, literals + [l])
        <==> LiteralsHit(excluded, mode, literals) || (l.value.Some? && OverlapsExcluded(excluded, mode, l.value.value))
  {
    var all := literals + [l];
    if LiteralsHit(excluded, mode, all) {
      var i :| 0 <= i < |all| && all[i].value.Some? && OverlapsExcluded(excluded, mode, all[i].value.value);
      if i < |literals| {
        assert all[i] == literals[i];
      }
    }
    if LiteralsHit(excluded, mode, literals) {
      var i :| 0 <= i < |literals| && literals[i].value.Some? && OverlapsExcluded(excluded, mode, literals[i].value.value);
      assert all[i] == literals[i];
    }
    assert all[|literals|] == l;
  }

  /** Testing the resolved networks one more at a time. */
  lemma NetworksHitSnoc(excluded: seq<Block>, mode: Mode, networks: seq<string>, t: string)
    ensures NetworksHit(excluded, mode, networks + [t]) <==> NetworksHit(excluded, mode, networks) || OverlapsExcluded(excluded, mode, t)
  {
    var all := networks + [t];
    if NetworksHit(excluded, mode, all) {
      var i :| 0 <= i < |all| && OverlapsExcluded(excluded, mode, all[i]);
      if i < |networks| {
        assert all[i] == networks[i];
      }
    }
    if NetworksHit(excluded, mode, networks) {
      var i :| 0 <= i < |networks| && OverlapsExcluded(excluded, mode, networks[i]);
      assert all[i] == networks[i];
    }
    assert all[|networks|] == t;
  }

  /** One turn of the literals loop: a hit at `i` is a hit of the list, a miss extends the misses. */
  lemma LiteralsStep(excluded: seq<Block>, mode: Mode, literals: seq<Literal>, i: nat, hit: bool)
    requires i < |literals| && !LiteralsHit(excluded, mode, literals[..i])
    requires hit == (literals[i].value.Some? && OverlapsExcluded(excluded, mode, literals[i].value.value))
    ensures hit ==> LiteralsHit(excluded, mode, literals)
    ensures !hit ==> !LiteralsHit(excluded, mode, literals[..i + 1])
  {
    LiteralsHitSnoc(excluded, mode, literals[..i], literals[i]);
    assert literals[..i + 1] == literals[..i] + [literals[i]];
  }

  /** One turn of the resolved-networks loop, likewise. */
  lemma NetworksStep(excluded: seq<Block>, mode: Mode, networks: seq<string>, i: nat, hit: bool)
    requires i < |networks| && !NetworksHit(excluded, mode, networks[..i])
    requires hit == OverlapsExcluded(excluded, mode, networks[i])
    ensures hit ==> NetworksHit(excluded, mode, networks)
    ensures !hit ==> !NetworksHit(excluded, mode, networks[..i + 1])
  {
    NetworksHitSnoc(excluded, mode, networks[..i], networks[i]);
    assert networks[..i + 1] == networks[..i] + [networks[i]];
  }

  /**
   * The `objects` loop of the prefix check. Objects without an id or a type
   * are skipped; an object named "any" is a hit in overlap mode and skipped
   * in subnet mode; any other object is resolved with a fresh `visited` set,
   * and a resolution that raises skips the object (its fetches stay cached).
   */
  function ObjectsUse(excluded: seq<Block>, mode: Mode, dir: Directory, m: Memo, objects: seq<ObjRef>): (r: Probe)
    decreases |objects|
  {
    if objects == [] then Probe(false, m)
    else
      var o := objects[0];
      if !Usable(o) then ObjectsUse(excluded, mode, dir, m, objects[1..])
      else if IsAnyName(NameOf(o)) then
        if mode == Overlap && excluded != [] then Probe(true, m)
        else ObjectsUse(excluded, mode, dir, m, objects[1..])
      else
        var res := Resolve(dir, m, {}, o.id.value, o.kind.value);
        if res.out.Resolved? && NetworksHit(excluded, mode, res.out.networks) then Probe(true, res.memo)
        else ObjectsUse(excluded, mode, dir, res.memo, objects[1..])
  }

  /**
   * The objects the loop passes over: one without an id or a type is skipped
   * before its name is looked at, even when it is named "any", and one whose
   * resolution raises is skipped alone, the loop going on with the memo the
   * failed resolution left.
   */
  lemma SkippedObjects(excluded: seq<Block>, mode: Mode, dir: Directory, m: Memo, objects: seq<ObjRef>)
    requires objects != []
    ensures !Usable(objects[0]) ==> ObjectsUse(excluded, mode, dir, m, objects) == ObjectsUse(excluded, mode, dir, m, objects[1..])
    ensures var o := objects[0];
            Usable(o) && !IsAnyName(NameOf(o)) && Resolve(dir, m, {}, o.id.value, o.kind.value).out.Raised? ==>
              ObjectsUse(excluded, mode, dir, m, objects)
              == ObjectsUse(excluded, mode, dir, Resolve(dir, m, {}, o.id.value, o.kind.value).memo, objects[1..])
    ensures Usable(objects[0]) && IsAnyName(NameOf(objects[0])) ==>
              ObjectsUse(excluded, Subnet, dir, m, objects) == ObjectsUse(excluded, Subnet, dir, m, objects[1..])
  {
  }

  /** One side of a rule: its literals first, then its objects. */
  function SideUses(excluded: seq<Block>, mode: Mode, dir: Directory, m: Memo, side: NetworkSide): (r: Probe)
  {
    if LiteralsHit(excluded, mode, side.literals) then Probe(true, m)
    else ObjectsUse(excluded, mode, dir, m, side.objects)
  }

  /** `_is_rule_using_excluded_prefix`: the source side, then the destination side. */
  function UsesExcludedPrefix(excluded: seq<Block>, mode: Mode, dir: Directory, m: Memo, rule: Rule): (r: Probe)
    ensures excluded == [] ==> r == Probe(false, m)
  {
    if excluded == [] then Probe(false, m)
    else
      var src := SideUses(excluded, mode, dir, m, rule.sourceNetworks);
      if src.hit then src
      else SideUses(excluded, mode, dir, src.memo, rule.destinationNetworks)
  }

  // ---------------------------------------------------------------------
  // Comments

  /**
   * The year of a comment date: `int(date.split("-")[0])`. The part before
   * the first '-' holds no '-', so a sign can only be '+' and the year is
   * never negative.
   */
  function ParseYear(date: string): (r: Option<int>)
    ensures r.Some? ==> r.value >= 0
  {
    ParseInt(Split(date, '-')[0])
  }

  /** The comment part of `_should_disable_rule`, reached once all the gates have passed. */
  function CommentVerdict(threshold: int, history: Option<seq<Comment>>): (v: Verdict)
    ensures v.Verdict? ==> (v.disable <==> IsDisableReason(v.reason))
    ensures v.IndexError? <==> history == Some([])
  {
    match history
    case None => Verdict(true, NoCommentHistory)
    case Some(comments) =>
      if comments == [] then IndexError
      else
        var first := comments[0];
        if Contains(first.text, Marker) then Verdict(true, PreviouslyMarked(first.text))
        else
          var year := ParseYear(first.date);
          if year.Some? && year.value < threshold then Verdict(true, CreatedBefore(threshold, first.date))
          else Verdict(false, CriteriaNotMet)
  }

  /** `rule_data.get("enabled") and rule_action in self.rule_actions`. */
  predicate Eligible(cfg: Config, rule: Rule)
  {
    rule.enabled && rule.action in cfg.ruleActions
  }

  /** A first comment that makes an eligible rule a candidate: written by this tool, or dated before the threshold. */
  predicate Stale(threshold: int, c: Comment)
  {
    Contains(c.text, Marker) || (ParseYear(c.date).Some? && ParseYear(c.date).value < threshold)
  }

  /** The prefix check as `_should_disable_rule` runs it: only when a client is given. */
  function PrefixProbe(cfg: Config, client: Option<Directory>, m: Memo, rule: Rule): (p: Probe)
    ensures client.None? ==> p == Probe(false, m)
  {
    if client.Some? then UsesExcludedPrefix(cfg.excludePrefixes, cfg.mode, client.value, m, rule)
    else Probe(false, m)
  }

  /**
   * `_should_disable_rule(rule, client)`: the zone gate, then the prefix
   * gate (only with a client), then the enabled/action gate, then the first
   * comment.
   */
  function Decide(cfg: Config, client: Option<Directory>, m: Memo, rule: Rule): (j: Judgement)
    ensures j.verdict.Verdict? ==> (j.verdict.disable <==> IsDisableReason(j.verdict.reason))
  {
    if InExcludedZone(cfg.excludeZones, rule) then Judgement(Verdict(false, ExcludedZone), m)
    else
      var probe := PrefixProbe(cfg, client, m, rule);
      if probe.hit then Judgement(Verdict(false, ExcludedPrefix), probe.memo)
      else if !Eligible(cfg, rule) then Judgement(Verdict(false, NotEnabledOrAction(rule.action, cfg.ruleActions)), probe.memo)
      else Judgement(CommentVerdict(cfg.yearThreshold, rule.commentHistory), probe.memo)
  }

  // ---------------------------------------------------------------------
  // Properties of the prefix check

  /** Some usable object of the list is named "any". */
  predicate AnyObject(objects: seq<ObjRef>)
  {
    exists i :: 0 <= i < |objects| && Usable(objects[i]) && IsAnyName(NameOf(objects[i]))
  }

  /** Some string that an object of the directory contributes meets an excluded prefix. */
  ghost predicate DirectoryHit(excluded: seq<Block>, mode: Mode, dir: Directory)
  {
    exists s :: FromDirectory(dir, s) && OverlapsExcluded(excluded, mode, s)
  }

  /**
   * The objects loop is one memo step, and it finds a hit only for a cause
   * visible in the data: an "any" object in overlap mode, or a string of the
   * directory that meets an excluded prefix.
   */
  lemma AnyObjectTail(objects: seq<ObjRef>)
    requires objects != []
    ensures AnyObject(objects[1..]) ==> AnyObject(objects)
  {
    if AnyObject(objects[1..]) {
      var i :| 0 <= i < |objects[1..]| && Usable(objects[1..][i]) && IsAnyName(NameOf(objects[1..][i]));
      assert objects[i + 1] == objects[1..][i];
    }
  }

  lemma {:induction false} ObjectsUseStep(excluded: seq<Block>, mode: Mode, dir: Directory, m: Memo, objects: seq<ObjRef>)
    ensures var r := ObjectsUse(excluded, mode, dir, m, objects);
            && MemoStep(dir, m, r.memo)
            && (CacheFromDirectory(dir, m.cache) && r.hit ==>
                  (mode == Overlap && AnyObject(objects)) || DirectoryHit(excluded, mode, dir))
    decreases |objects|
  {
    var r := ObjectsUse(excluded, mode, dir, m, objects);
    if objects == [] {
      assert m.log[..|m.log|] == m.log;
    } else {
      var o := objects[0];
      AnyObjectTail(objects);
      if Usable(o) && IsAnyName(NameOf(o)) && mode == Overlap && excluded != [] {
        assert m.log[..|m.log|] == m.log;
      } else if !Usable(o) || IsAnyName(NameOf(o)) {
        ObjectsUseStep(excluded, mode, dir, m, objects[1..]);
      } else {
        var res := Resolve(dir, m, {}, o.id.value, o.kind.value);
        ResolveStep(dir, m, {}, o.id.value, o.kind.value);
        if res.out.Resolved? && NetworksHit(excluded, mode, res.out.networks) {
          if CacheFromDirectory(dir, m.cache) {
            ResolveSound(dir, m, {}, o.id.value, o.kind.value);
            var i :| 0 <= i < |res.out.networks| && OverlapsExcluded(excluded, mode, res.out.networks[i]);
            assert FromDirectory(dir, res.out.networks[i]);
          }
        } else {
          ObjectsUseStep(excluded, mode, dir, res.memo, objects[1..]);
          MemoStepTrans(dir, m, res.memo, r.memo);
        }
      }
    }
  }

  /**
   * `_is_rule_using_excluded_prefix` is one memo step, and it reports an
   * excluded prefix only for a cause visible in the rule or the directory:
   * a literal that meets an excluded prefix, an "any" object in overlap
   * mode, or a directory string that meets an excluded prefix.
   */
  lemma PrefixCheckSound(excluded: seq<Block>, mode: Mode, dir: Directory, m: Memo, rule: Rule)
    ensures var r := UsesExcludedPrefix(excluded, mode, dir, m, rule);
            && MemoStep(dir, m, r.memo)
            && (CacheFromDirectory(dir, m.cache) && r.hit ==>
                  || LiteralsHit(excluded, mode, rule.sourceNetworks.literals)
                  || LiteralsHit(excluded, mode, rule.destinationNetworks.literals)
                  || (mode == Overlap && (AnyObject(rule.sourceNetworks.objects) || AnyObject(rule.destinationNetworks.objects)))
                  || DirectoryHit(excluded, mode, dir))
  {
    assert m.log[..|m.log|] == m.log;
    if excluded != [] {
      ObjectsUseStep(excluded, mode, dir, m, rule.sourceNetworks.objects);
      var src := SideUses(excluded, mode, dir, m, rule.sourceNetworks);
      if !src.hit {
        ObjectsUseStep(excluded, mode, dir, src.memo, rule.destinationNetworks.objects);
        var dst := SideUses(excluded, mode, dir, src.memo, rule.destinationNetworks);
        MemoStepTrans(dir, m, src.memo, dst.memo);
      }
    }
  }

  lemma {:induction false} AnyObjectHits(excluded: seq<Block>, dir: Directory, m: Memo, objects: seq<ObjRef>)
    requires excluded != [] && AnyObject(objects)
    ensures ObjectsUse(excluded, Overlap, dir, m, objects).hit
    decreases |objects|
  {
    var o := objects[0];
    if !(Usable(o) && IsAnyName(NameOf(o))) {
      var i :| 0 <= i < |objects| && Usable(objects[i]) && IsAnyName(NameOf(objects[i]));
      assert objects[1..][i - 1] == objects[i];
      var next := if !Usable(o) then m else Resolve(dir, m, {}, o.id.value, o.kind.value).memo;
      AnyObjectHits(excluded, dir, next, objects[1..]);
    }
  }

  /**
   * The converse for the causes a rule shows by itself: a literal that meets
   * an excluded prefix, on either side, or an "any" object in overlap mode,
   * always makes the check report an excluded prefix, whatever the
   * directory and the cache hold.
   */
  lemma PrefixCheckComplete(excluded: seq<Block>, mode: Mode, dir: Directory, m: Memo, rule: Rule)
    requires excluded != []
    requires || LiteralsHit(excluded, mode, rule.sourceNetworks.literals)
             || LiteralsHit(excluded, mode, rule.destinationNetworks.literals)
             || (mode == Overlap && (AnyObject(rule.sourceNetworks.objects) || AnyObject(rule.destinationNetworks.objects)))
    ensures UsesExcludedPrefix(excluded, mode, dir, m, rule).hit
  {
    var src := SideUses(excluded, mode, dir, m, rule.sourceNetworks);
    if mode == Overlap && AnyObject(rule.sourceNetworks.objects) {
      AnyObjectHits(excluded, dir, m, rule.sourceNetworks.objects);
    }
    if mode == Overlap && AnyObject(rule.destinationNetworks.objects) {
      AnyObjectHits(excluded, dir, src.memo, rule.destinationNetworks.objects);
    }
  }

  /** Every usable object of the list is named "any". */
  predicate OnlyAnyObjects(objects: seq<ObjRef>)
  {
    forall i :: 0 <= i < |objects| && Usable(objects[i]) ==> IsAnyName(NameOf(objects[i]))
  }

  lemma {:induction false} AnySkippedInSubnetMode(excluded: seq<Block>, dir: Directory, m: Memo, objects: seq<ObjRef>)
    requires OnlyAnyObjects(objects)
    ensures ObjectsUse(excluded, Subnet, dir, m, objects) == Probe(false, m)
    decreases |objects|
  {
    if objects != [] {
      assert OnlyAnyObjects(objects[1..]) by {
        forall i | 0 <= i < |objects[1..]| && Usable(objects[1..][i])
          ensures IsAnyName(NameOf(objects[1..][i]))
        {
          assert objects[1..][i] == objects[i + 1];
        }
      }
      AnySkippedInSubnetMode(excluded, dir, m, objects[1..]);
    }
  }

  /**
   * In subnet mode an "any" object never counts and is never resolved: when
   * every usable object of the rule is named "any", the check reports
   * exactly whether a literal meets an excluded prefix, and fetches nothing.
   */
  lemma SubnetModeIgnoresAny(excluded: seq<Block>, dir: Directory, m: Memo, rule: Rule)
    requires OnlyAnyObjects(rule.sourceNetworks.objects) && OnlyAnyObjects(rule.destinationNetworks.objects)
    ensures UsesExcludedPrefix(excluded, Subnet, dir, m, rule)
         == Probe(excluded != [] && (LiteralsHit(excluded, Subnet, rule.sourceNetworks.literals) ||
                                     LiteralsHit(excluded, Subnet, rule.destinationNetworks.literals)), m)
  {
    AnySkippedInSubnetMode(excluded, dir, m, rule.sourceNetworks.objects);
    AnySkippedInSubnetMode(excluded, dir, m, rule.destinationNetworks.objects);
  }

  // ---------------------------------------------------------------------
  // Properties of the decision

  /**
   * When a rule is disabled: it passes the zone gate, the prefix gate (when
   * a client is given) and the enabled/action gate, and it has no comment
   * history or a first comment that is stale. It raises exactly when it
   * passes the gates with an empty comment history. The first gate that
   * fails decides, whatever the comments say.
   */
  lemma DecideCharacterised(cfg: Config, client: Option<Directory>, m: Memo, rule: Rule)
    ensures var j := Decide(cfg, client, m, rule);
            && (j.verdict.Verdict? && j.verdict.disable <==>
                  && !InExcludedZone(cfg.excludeZones, rule)
                  && !PrefixProbe(cfg, client, m, rule).hit
                  && Eligible(cfg, rule)
                  && (rule.commentHistory.None? ||
                      (rule.commentHistory.value != [] && Stale(cfg.yearThreshold, rule.commentHistory.value[0]))))
            && (j.verdict.IndexError? <==>
                  && !InExcludedZone(cfg.excludeZones, rule)
                  && !PrefixProbe(cfg, client, m, rule).hit
                  && Eligible(cfg, rule)
                  && rule.commentHistory == Some([]))
            && (InExcludedZone(cfg.excludeZones, rule) ==> j.verdict == Verdict(false, ExcludedZone))
            && (!InExcludedZone(cfg.excludeZones, rule) && PrefixProbe(cfg, client, m, rule).hit ==>
                  j.verdict == Verdict(false, ExcludedPrefix))
  {
  }

  /**
   * The decision is one memo step: with a client, what the prefix check
   * fetched and cached; without one, nothing changes.
   */
  lemma DecideStep(cfg: Config, client: Option<Directory>, m: Memo, rule: Rule)
    ensures client.None? ==> Decide(cfg, client, m, rule).memo == m
    ensures client.Some? ==> MemoStep(client.value, m, Decide(cfg, client, m, rule).memo)
  {
    if client.Some? {
      assert m.log[..|m.log|] == m.log;
      PrefixCheckSound(cfg.excludePrefixes, cfg.mode, client.value, m, rule);
    }
  }

  /**
   * A rule this tool disabled once carries its audit comment; if that is the
   * rule's first comment, the rule is recognised as previously marked.
   */
  lemma AuditCommentRecognised(threshold: int, date: string, now: string, reason: Reason, later: seq<Comment>)
    ensures var c := AuditComment(now, reason);
            CommentVerdict(threshold, Some([Comment(date, c)] + later)) == Verdict(true, PreviouslyMarked(c))
  {
    AuditCommentMarked(now, reason);
  }

  /**
   * A first comment dated "<year>-..." (and not written by this tool)
   * disables the rule exactly when the year is below the threshold.
   */
  lemma DatedCommentVerdict(threshold: int, year: nat, rest: string, text: string, later: seq<Comment>)
    requires !Contains(text, Marker)
    ensures var date := NatToDecimal(year) + "-" + rest;
            CommentVerdict(threshold, Some([Comment(date, text)] + later))
            == if year < threshold then Verdict(true, CreatedBefore(threshold, date)) else Verdict(false, CriteriaNotMet)
  {
    ParseYearOfDated(year, rest);
  }

  /** A date written "<year>-..." yields that year. */
  lemma ParseYearOfDated(year: nat, rest: string)
    ensures ParseYear(NatToDecimal(year) + "-" + rest) == Some(year)
  {
    var date := NatToDecimal(year) + "-" + rest;
    assert '-' !in NatToDecimal(year);
    SplitJoin(NatToDecimal(year), '-', rest);
    assert Split(date, '-')[0] == NatToDecimal(year);
    ParseIntOfDecimal(year);
  }

  /**
   * A first comment whose date yields no year (a missing date among them),
   * and not written by this tool, never disables a rule.
   */
  lemma UnparsableDateKept(threshold: int, date: string, text: string, later: seq<Comment>)
    requires !Contains(text, Marker)
    requires ParseYear(date).None?
    ensures CommentVerdict(threshold, Some([Comment(date, text)] + later)) == Verdict(false, CriteriaNotMet)
    ensures ParseYear("").None?
  {
    assert ParseYear("").None? by {
      assert Split("", '-') == [""];
      assert Strip("") == "";
    }
  }

  /**
   * A rule that is disabled, or whose action is not one of the configured
   * actions, is never disabled, whatever its comments say.
   */
  lemma IneligibleRuleKept(cfg: Config, client: Option<Directory>, m: Memo, rule: Rule)
    requires !Eligible(cfg, rule)
    ensures Decide(cfg, client, m, rule).verdict.Verdict?
    ensures !Decide(cfg, client, m, rule).verdict.disable
  {
  }
}
