/**
 * The exclusion matcher: whether one network token of a rule (a CIDR, a bare
 * address or an `a-b` range) meets one of the configured excluded prefixes,
 * in `overlap` or `subnet` mode, and the parsing of that prefix list.
 */
module PrefixMatcher {

  import opened Wrappers
  import opened Text
  import opened IPv4

  /** The two values the command line accepts for the prefix match mode. */
  datatype Mode = Overlap | Subnet

  /** Ranges with more addresses than this are tested at their two end points only. */
  const RangeExpansionLimit: nat := 256

  /** Every address from `lo` to `hi`, ascending; empty when `hi` is below `lo`. */
  function Span(lo: Addr, hi: Addr): (r: seq<Addr>)
    ensures |r| == if lo <= hi then hi - lo + 1 else 0
    ensures forall k :: 0 <= k < |r| ==> r[k] == lo + k
    decreases if lo <= hi then hi - lo + 1 else 0
  {
    if lo > hi then []
    else if lo == hi then [lo]
    else [lo] + Span(lo + 1, hi)
  }

  /**
   * The addresses of a range whose two end points parsed: the two end points
   * when the range holds more than 256 addresses, otherwise every address.
   */
  function RangeAddresses(start: Addr, end: Addr): (r: seq<Addr>)
  {
    if end - start + 1 > RangeExpansionLimit then [start, end] else Span(start, end)
  }

  /**
   * The same as the source computes it: its loop steps `current += 1` after
   * appending the last address, and stepping past 255.255.255.255 raises, so
   * the exception handler returns no address at all for such a range.
   */
  function RangeAddressesAsWritten(start: Addr, end: Addr): (r: seq<Addr>)
  {
    if end - start + 1 > RangeExpansionLimit then [start, end]
    else if start <= end && end == MaxAddress then []
    else Span(start, end)
  }

  /** The two end points of `a-b`: split at the first '-', each side stripped and parsed. */
  function RangeEndpoints(token: string): (r: Option<(Addr, Addr)>)
    requires '-' in token
  {
    var (a, b) := SplitFirst(token, '-');
    match (ParseAddress(Strip(a)), ParseAddress(Strip(b)))
    case (Some(s), Some(e)) => Some((s, e))
    case _ => None
  }

  function FormatAll(xs: seq<Addr>): (r: seq<string>)
    ensures |r| == |xs| && forall k :: 0 <= k < |xs| ==> r[k] == FormatAddress(xs[k])
  {
    if xs == [] then [] else [FormatAddress(xs[0])] + FormatAll(xs[1..])
  }

  lemma {:induction false} FormatAllSnoc(xs: seq<Addr>, x: Addr)
    ensures FormatAll(xs + [x]) == FormatAll(xs) + [FormatAddress(x)]
  {
    var l, r := FormatAll(xs + [x]), FormatAll(xs) + [FormatAddress(x)];
    assert |l| == |r|;
    forall k | 0 <= k < |l|
      ensures l[k] == r[k]
    {
      if k < |xs| {
        assert (xs + [x])[k] == xs[k];
      }
    }
  }

  /** What `_parse_ip_range` returns for a token containing '-', as written. */
  function ExpandRangeAsWritten(token: string): (r: seq<string>)
    requires '-' in token
  {
    match RangeEndpoints(token)
    case None => []
    case Some((s, e)) => FormatAll(RangeAddressesAsWritten(s, e))
  }

  /** What `_parse_ip_range` evidently means to return: no address of a small range is lost. */
  function ExpandRange(token: string): (r: seq<string>)
    requires '-' in token
  {
    match RangeEndpoints(token)
    case None => []
    case Some((s, e)) => FormatAll(RangeAddresses(s, e))
  }

  /** Every excluded prefix is a non-empty interval, as parsed networks are. */
  predicate WellFormed(excluded: seq<Block>)
  {
    forall j :: 0 <= j < |excluded| ==> excluded[j].lo <= excluded[j].hi
  }

  /** Every address of `n` lies in `b`. */
  ghost predicate Includes(b: Block, n: Block)
  {
    forall a: nat :: InBlock(n, a) ==> InBlock(b, a)
  }

  predicate AnyBlockHas(excluded: seq<Block>, a: nat)
  {
    exists j :: 0 <= j < |excluded| && InBlock(excluded[j], a)
  }

  /** Some listed address string parses and lies in an excluded prefix. */
  predicate RangeHits(excluded: seq<Block>, ips: seq<string>)
  {
    exists i :: 0 <= i < |ips| && ParseAddress(ips[i]).Some? && AnyBlockHas(excluded, ParseAddress(ips[i]).value)
  }

  predicate NetworkMatches(mode: Mode, n: Block, excluded: Block)
  {
    match mode
    case Overlap => Overlaps(n, excluded)
    case Subnet => SubnetOf(n, excluded)
  }

  /** `_ip_overlaps_with_excluded_prefixes(token)`. */
  predicate OverlapsExcluded(excluded: seq<Block>, mode: Mode, token: string)
  {
    if excluded == [] then false
    else if '-' in token then RangeHits(excluded, ExpandRange(token))
    else
      match ParseNetwork(token)
      case None => false
      case Some(n) => exists j :: 0 <= j < |excluded| && NetworkMatches(mode, n, excluded[j])
  }

  /** Formatted addresses are tested as the addresses themselves. */
  lemma RangeHitsFormatted(excluded: seq<Block>, xs: seq<Addr>)
    ensures RangeHits(excluded, FormatAll(xs)) <==> exists k :: 0 <= k < |xs| && AnyBlockHas(excluded, xs[k])
  {
    var ips := FormatAll(xs);
    forall k | 0 <= k < |xs|
      ensures ParseAddress(ips[k]) == Some(xs[k])
    {
      AddressRoundTrip(xs[k]);
    }
  }

  /**
   * A range token is matched address by address, whatever the mode: an
   * unparsable range matches nothing, and a parsed one matches when one of its
   * tested addresses lies in an excluded prefix.
   */
  lemma RangeTokenMatch(excluded: seq<Block>, mode: Mode, token: string)
    requires '-' in token
    ensures RangeEndpoints(token).None? ==> !OverlapsExcluded(excluded, mode, token)
    ensures RangeEndpoints(token).Some? ==>
              var (s, e) := RangeEndpoints(token).value;
              var xs := RangeAddresses(s, e);
              (OverlapsExcluded(excluded, mode, token) <==> exists k :: 0 <= k < |xs| && AnyBlockHas(excluded, xs[k]))
    ensures OverlapsExcluded(excluded, Overlap, token) == OverlapsExcluded(excluded, Subnet, token)
  {
    if RangeEndpoints(token).Some? {
      var (s, e) := RangeEndpoints(token).value;
      assert ExpandRange(token) == FormatAll(RangeAddresses(s, e));
      RangeHitsFormatted(excluded, RangeAddresses(s, e));
    } else {
      assert ExpandRange(token) == [];
    }
  }

  /** A range of more than 256 addresses is decided by its two end points alone. */
  lemma LargeRangeTestsEndpoints(excluded: seq<Block>, mode: Mode, token: string)
    requires '-' in token && RangeEndpoints(token).Some?
    requires var (s, e) := RangeEndpoints(token).value; e - s + 1 > RangeExpansionLimit
    ensures var (s, e) := RangeEndpoints(token).value;
            OverlapsExcluded(excluded, mode, token) <==> AnyBlockHas(excluded, s) || AnyBlockHas(excluded, e)
  {
    RangeTokenMatch(excluded, mode, token);
    var (s, e) := RangeEndpoints(token).value;
    var xs := RangeAddresses(s, e);
    assert xs == [s, e];
    if AnyBlockHas(excluded, s) {
      assert excluded != [];
      assert AnyBlockHas(excluded, xs[0]);
    }
    if AnyBlockHas(excluded, e) {
      assert excluded != [];
      assert AnyBlockHas(excluded, xs[1]);
    }
  }

  /** A range of at most 256 addresses matches when any address in it lies in an excluded prefix. */
  lemma SmallRangeTestsEveryAddress(excluded: seq<Block>, mode: Mode, token: string)
    requires '-' in token && RangeEndpoints(token).Some?
    requires var (s, e) := RangeEndpoints(token).value; e - s + 1 <= RangeExpansionLimit
    ensures var (s, e) := RangeEndpoints(token).value;
            OverlapsExcluded(excluded, mode, token) <==> exists a: Addr :: s <= a <= e && AnyBlockHas(excluded, a)
  {
    RangeTokenMatch(excluded, mode, token);
    var (s, e) := RangeEndpoints(token).value;
    var xs := RangeAddresses(s, e);
    if exists a: Addr :: s <= a <= e && AnyBlockHas(excluded, a) {
      var a: Addr :| s <= a <= e && AnyBlockHas(excluded, a);
      assert excluded != [];
      assert xs[a - s] == a;
    }
  }

  /**
   * A CIDR or bare-address token: in overlap mode it matches when it shares an
   * address with an excluded prefix, in subnet mode when all its addresses lie
   * in one excluded prefix; an unparsable token matches nothing.
   */
  lemma NetworkTokenMatch(excluded: seq<Block>, token: string)
    requires '-' !in token && WellFormed(excluded)
    ensures ParseNetwork(token).None? ==> !OverlapsExcluded(excluded, Overlap, token) && !OverlapsExcluded(excluded, Subnet, token)
    ensures ParseNetwork(token).Some? ==>
              var n := ParseNetwork(token).value;
              && (OverlapsExcluded(excluded, Overlap, token) <==>
                    exists j, a: nat :: 0 <= j < |excluded| && InBlock(n, a) && InBlock(excluded[j], a))
              && (OverlapsExcluded(excluded, Subnet, token) <==>
                    exists j :: 0 <= j < |excluded| && Includes(excluded[j], n))
  {
    if ParseNetwork(token).Some? {
      var n := ParseNetwork(token).value;
      forall j | 0 <= j < |excluded|
        ensures Overlaps(n, excluded[j]) <==> exists a: nat :: InBlock(n, a) && InBlock(excluded[j], a)
        ensures SubnetOf(n, excluded[j]) <==> Includes(excluded[j], n)
      {
        OverlapsIffShareAddress(n, excluded[j]);
        SubnetOfIffIncluded(n, excluded[j]);
      }
    }
  }

  /** Subnet mode never matches a token that overlap mode would let through. */
  lemma SubnetModeImpliesOverlapMode(excluded: seq<Block>, token: string)
    ensures OverlapsExcluded(excluded, Subnet, token) ==> OverlapsExcluded(excluded, Overlap, token)
  {
    if OverlapsExcluded(excluded, Subnet, token) && '-' !in token {
      var n := ParseNetwork(token).value;
      var j :| 0 <= j < |excluded| && SubnetOf(n, excluded[j]);
      SubnetImpliesOverlap(n, excluded[j]);
    }
  }

  /** As written, a short range ending at 255.255.255.255 yields no address, so it never matches. */
  lemma TopEndedRangeDropped(excluded: seq<Block>, start: Addr)
    requires MaxAddress - start + 1 <= RangeExpansionLimit
    requires AnyBlockHas(excluded, MaxAddress)
    ensures RangeAddressesAsWritten(start, MaxAddress) == []
    ensures !RangeHits(excluded, FormatAll(RangeAddressesAsWritten(start, MaxAddress)))
    ensures RangeHits(excluded, FormatAll(RangeAddresses(start, MaxAddress)))
  {
    var xs := RangeAddresses(start, MaxAddress);
    assert xs[MaxAddress - start] == MaxAddress;
    RangeHitsFormatted(excluded, xs);
  }

  /**
   * The intended expansion: a short range lists exactly its addresses, in
   * order, and agrees with the code as written on every range that does not
   * end at 255.255.255.255.
   */
  lemma RangeAddressesComplete(start: Addr, end: Addr)
    ensures end - start + 1 > RangeExpansionLimit ==> RangeAddresses(start, end) == [start, end]
    ensures end - start + 1 <= RangeExpansionLimit ==>
              var xs := RangeAddresses(start, end);
              && |xs| == (if start <= end then end - start + 1 else 0)
              && (forall k :: 0 <= k < |xs| ==> xs[k] == start + k)
              && (forall a: Addr :: a in xs <==> start <= a <= end)
    ensures end != MaxAddress || end - start + 1 > RangeExpansionLimit ==>
              RangeAddressesAsWritten(start, end) == RangeAddresses(start, end)
  {
    if end - start + 1 <= RangeExpansionLimit {
      var xs := RangeAddresses(start, end);
      forall a: Addr | start <= a <= end
        ensures a in xs
      {
        assert xs[a - start] == a;
      }
    }
  }

  /** The `__init__` loop: every prefix string that parses, in order; the others are dropped. */
  function ParseExcludedPrefixes(prefixes: seq<string>): (r: seq<Block>)
    ensures |r| <= |prefixes| && WellFormed(r)
  {
    if prefixes == [] then []
    else
      var rest := ParseExcludedPrefixes(prefixes[1..]);
      match ParseNetwork(prefixes[0])
      case None => rest
      case Some(b) => [b] + rest
  }

  /** The parsed prefixes are exactly the networks among the given strings. */
  lemma {:induction false} ParsedPrefixesExact(prefixes: seq<string>)
    ensures forall b :: b in ParseExcludedPrefixes(prefixes) <==> exists i :: 0 <= i < |prefixes| && ParseNetwork(prefixes[i]) == Some(b)
  {
    if prefixes != [] {
      ParsedPrefixesExact(prefixes[1..]);
      forall b | (exists i :: 0 <= i < |prefixes[1..]| && ParseNetwork(prefixes[1..][i]) == Some(b))
        ensures exists i :: 0 <= i < |prefixes| && ParseNetwork(prefixes[i]) == Some(b)
      {
        var i :| 0 <= i < |prefixes[1..]| && ParseNetwork(prefixes[1..][i]) == Some(b);
        assert prefixes[i + 1] == prefixes[1..][i];
      }
      forall b | (exists i :: 0 <= i < |prefixes| && ParseNetwork(prefixes[i]) == Some(b))
        ensures b in ParseExcludedPrefixes(prefixes)
      {
        var i :| 0 <= i < |prefixes| && ParseNetwork(prefixes[i]) == Some(b);
        if i > 0 {
          assert prefixes[1..][i - 1] == prefixes[i];
        }
      }
    }
  }

  /** Parsing the prefixes one at a time, in order, as the `__init__` loop does. */
  lemma {:induction false} ParseExcludedPrefixesSnoc(prefixes: seq<string>, p: string)
    ensures ParseExcludedPrefixes(prefixes + [p])
         == ParseExcludedPrefixes(prefixes) + (if ParseNetwork(p).Some? then [ParseNetwork(p).value] else [])
    decreases |prefixes|
  {
    if prefixes == [] {
      assert [p][1..] == [];
    } else {
      assert (prefixes + [p])[1..] == prefixes[1..] + [p];
      ParseExcludedPrefixesSnoc(prefixes[1..], p);
    }
  }
}
