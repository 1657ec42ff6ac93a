/**
 * Resolution of a named network object (Host, Network, NetworkGroup) to the
 * flat list of address literals it stands for, as `_resolve_network_object`
 * does it: a walk over a directory of objects that may reference each other
 * in cycles, guarded by a `visited` set that the whole walk shares and
 * memoised in a per-manager cache.
 *
 * The functions here carry that state explicitly: the cache and the log of
 * directory lookups travel in a `Memo`, and the `visited` set goes in and
 * comes out of every call, so that a sibling sees what an earlier sibling
 * visited, exactly as with the shared Python set.
 */
module Resolver {

  import opened Wrappers

  /** An entry of a `literals` list: `{"value": ...}`, the value possibly missing. */
  datatype Literal = Literal(value: Option<string>)

  /** A reference to a named object: its `id`, `type` and `name` keys, each possibly missing. */
  datatype ObjRef = ObjRef(id: Option<string>, kind: Option<string>, name: Option<string>)

  /**
   * What a directory `get()` leaves on the fetched object: `value` for a host
   * or a network, `literals` and `objects` for a group (a missing list reads
   * as an empty one, which the walk treats the same way).
   */
  datatype Entry = Entry(value: Option<string>, literals: seq<Literal>, objects: seq<ObjRef>)

  /** The objects the management center knows, by id. A `get()` of any other id raises. */
  type Directory = map<string, Entry>

  type Cache = map<string, seq<string>>

  /** The resolution cache of the manager and the ids whose object was fetched, in order. */
  datatype Memo = Memo(cache: Cache, log: seq<string>)

  datatype Outcome = Resolved(networks: seq<string>) | Raised

  datatype Resolution = Resolution(out: Outcome, memo: Memo, visited: set<string>)

  const GroupKind := "NetworkGroup"
  const NetworkKind := "Network"
  const HostKind := "Host"

  /** A dictionary value that is present and truthy (a non-empty string). */
  predicate Present(s: Option<string>)
  {
    s.Some? && s.value != ""
  }

  /** The object types whose resolution fetches the object from the directory. */
  predicate Fetched(kind: string)
  {
    kind == GroupKind || kind == NetworkKind || kind == HostKind
  }

  /** The `value` of each literal that has one, in order. */
  function LiteralValues(literals: seq<Literal>): (r: seq<string>)
    ensures |r| <= |literals|
    ensures forall s :: s in r <==> Literal(Some(s)) in literals
  {
    if literals == [] then []
    else (if literals[0].value.Some? then [literals[0].value.value] else []) + LiteralValues(literals[1..])
  }

  /** Collecting literal values one at a time, in order, as the source's loop does. */
  lemma {:induction false} LiteralValuesSnoc(literals: seq<Literal>, l: Literal)
    ensures LiteralValues(literals + [l]) == LiteralValues(literals) + (if l.value.Some? then [l.value.value] else [])
    decreases |literals|
  {
    if literals == [] {
      assert [l][1..] == [];
    } else {
      assert (literals + [l])[1..] == literals[1..] + [l];
      LiteralValuesSnoc(literals[1..], l);
    }
  }

  /** `m'` keeps every cache entry of `m` unchanged and extends its lookup log. */
  ghost predicate Extends(m: Memo, m': Memo)
  {
    && (forall x :: x in m.cache ==> x in m'.cache && m'.cache[x] == m.cache[x])
    && |m.log| <= |m'.log| && m'.log[..|m.log|] == m.log
  }

  /**
   * The lookups a call adds are pairwise distinct, were neither cached nor
   * visited when it started, and are all visited when it ends.
   */
  ghost predicate FreshLookups(m: Memo, m': Memo, visited: set<string>, visited': set<string>)
    requires |m.log| <= |m'.log|
  {
    && (forall k :: |m.log| <= k < |m'.log| ==> m'.log[k] !in m.cache && m'.log[k] !in visited && m'.log[k] in visited')
    && (forall k, l :: |m.log| <= k < l < |m'.log| ==> m'.log[k] != m'.log[l])
  }

  /** Every id fetched between `m` and `m'` exists in the directory and is cached in `m'`. */
  ghost predicate SettledBetween(dir: Directory, m: Memo, m': Memo)
    requires |m.log| <= |m'.log|
  {
    forall k :: |m.log| <= k < |m'.log| ==> m'.log[k] in dir && m'.log[k] in m'.cache
  }

  /** Some id fetched between `m` and `m'` does not exist in the directory. */
  ghost predicate FailedBetween(dir: Directory, m: Memo, m': Memo)
    requires |m.log| <= |m'.log|
  {
    exists k :: |m.log| <= k < |m'.log| && m'.log[k] !in dir
  }

  /**
   * A call that returns normally has fetched only objects that exist and has
   * cached every one of them; a call that raised fetched an id that does not.
   */
  ghost predicate LookupsSettled(dir: Directory, m: Memo, r: Resolution)
    requires |m.log| <= |r.memo.log|
  {
    && (r.out.Resolved? ==> SettledBetween(dir, m, r.memo))
    && (r.out.Raised? ==> FailedBetween(dir, m, r.memo))
  }

  /** Two resolutions in a row, each keeping the memo, keep it together. */
  lemma ComposeSteps(m: Memo, m1: Memo, m2: Memo, v: set<string>, v1: set<string>, v2: set<string>)
    requires v <= v1 <= v2
    requires Extends(m, m1) && FreshLookups(m, m1, v, v1)
    requires Extends(m1, m2) && FreshLookups(m1, m2, v1, v2)
    ensures Extends(m, m2) && FreshLookups(m, m2, v, v2)
  {
    assert m2.log[..|m.log|] == m.log by {
      assert m2.log[..|m1.log|] == m1.log;
    }
    forall k | |m.log| <= k < |m1.log|
      ensures m2.log[k] == m1.log[k]
    {
      assert m2.log[..|m1.log|][k] == m1.log[k];
    }
  }

  lemma ComposeSettled(dir: Directory, m: Memo, m1: Memo, m2: Memo)
    requires Extends(m, m1) && Extends(m1, m2) && SettledBetween(dir, m, m1)
    ensures SettledBetween(dir, m1, m2) ==> SettledBetween(dir, m, m2)
    ensures FailedBetween(dir, m1, m2) ==> FailedBetween(dir, m, m2)
  {
    forall k | |m.log| <= k < |m1.log|
      ensures m2.log[k] == m1.log[k]
    {
      assert m2.log[..|m1.log|][k] == m1.log[k];
    }
  }

  lemma SubsetCardinality<T>(a: set<T>, b: set<T>)
    requires a <= b
    ensures |a| <= |b|
  {
    if a != {} {
      var x :| x in a;
      SubsetCardinality(a - {x}, b - {x});
    }
  }

  lemma UnvisitedMonotone(keys: set<string>, visited: set<string>, visited': set<string>)
    requires visited <= visited'
    ensures |keys - visited'| <= |keys - visited|
  {
    SubsetCardinality(keys - visited', keys - visited);
  }

  lemma UnvisitedShrinks(keys: set<string>, visited: set<string>, id: string)
    requires id in keys && id !in visited
    ensures |keys - (visited + {id})| < |keys - visited|
  {
    assert keys - visited == (keys - (visited + {id})) + {id};
  }

  /**
   * `_resolve_network_object(id, kind, visited)`: a cached id is answered
   * from the cache; an id already on the walk yields nothing; otherwise the
   * id joins `visited`, the object is fetched (unless its type is unknown)
   * and its literals resolved, and the result is cached.
   */
  function Resolve(dir: Directory, m: Memo, visited: set<string>, id: string, kind: string): (r: Resolution)
    ensures visited <= r.visited
    decreases |dir.Keys - visited|, 1
  {
    if id in m.cache then Resolution(Resolved(m.cache[id]), m, visited)
    else if id in visited then Resolution(Resolved([]), m, visited)
    else
      var v := visited + {id};
      if !Fetched(kind) then Resolution(Resolved([]), Memo(m.cache[id := []], m.log), v)
      else
        var m1 := Memo(m.cache, m.log + [id]);
        if id !in dir then Resolution(Raised, m1, v)
        else
          var e := dir[id];
          if kind == GroupKind then
            UnvisitedShrinks(dir.Keys, visited, id);
            var nested := ResolveNested(dir, m1, v, e.objects);
            match nested.out
            case Raised => nested
            case Resolved(ns) =>
              var networks := LiteralValues(e.literals) + ns;
              Resolution(Resolved(networks), Memo(nested.memo.cache[id := networks], nested.memo.log), nested.visited)
          else
            var networks :=
              if e.value.None? then []
              else if kind == NetworkKind then [e.value.value]
              else [e.value.value + "/32"];
            Resolution(Resolved(networks), Memo(m.cache[id := networks], m1.log), v)
  }

  /**
   * The `objects` loop of a group: each entry that has both an id and a type
   * is resolved with the shared `visited` set, and the results are
   * concatenated in order; an exception ends the loop and propagates.
   */
  function ResolveNested(dir: Directory, m: Memo, visited: set<string>, objects: seq<ObjRef>): (r: Resolution)
    ensures visited <= r.visited
    decreases |dir.Keys - visited|, 2, |objects|
  {
    if objects == [] then Resolution(Resolved([]), m, visited)
    else
      var o := objects[0];
      if !(Present(o.id) && Present(o.kind)) then ResolveNested(dir, m, visited, objects[1..])
      else
        var first := Resolve(dir, m, visited, o.id.value, o.kind.value);
        match first.out
        case Raised => first
        case Resolved(ns) =>
          UnvisitedMonotone(dir.Keys, visited, first.visited);
          var rest := ResolveNested(dir, first.memo, first.visited, objects[1..]);
          match rest.out
          case Raised => rest
          case Resolved(ns') => Resolution(Resolved(ns + ns'), rest.memo, rest.visited)
  }

  /**
   * What every resolution does to the manager's state: old cache entries and
   * old log entries stay as they were, each id it fetches is fetched once and
   * was not cached before, and a normal return leaves every fetched id cached.
   */
  lemma {:induction false} ResolveKeepsMemo(dir: Directory, m: Memo, visited: set<string>, id: string, kind: string)
    ensures var r := Resolve(dir, m, visited, id, kind);
            && Extends(m, r.memo)
            && FreshLookups(m, r.memo, visited, r.visited)
            && LookupsSettled(dir, m, r)
    decreases |dir.Keys - visited|, 1
  {
    var r := Resolve(dir, m, visited, id, kind);
    if id !in m.cache && id !in visited && Fetched(kind) {
      var v := visited + {id};
      var m1 := Memo(m.cache, m.log + [id]);
      assert m1.log[|m.log|] == id;
      if id in dir && kind == GroupKind {
        UnvisitedShrinks(dir.Keys, visited, id);
        var nested := ResolveNested(dir, m1, v, dir[id].objects);
        NestedKeepsMemo(dir, m1, v, dir[id].objects);
        GroupKeepsMemo(dir, m, visited, id, nested);
        if nested.out.Resolved? {
          GroupCachedKeepsMemo(dir, m, visited, id, nested, LiteralValues(dir[id].literals) + nested.out.networks);
        }
      }
    }
  }

  /** A group's nested resolution keeps the memo of the call that fetched the group. */
  lemma GroupKeepsMemo(dir: Directory, m: Memo, visited: set<string>, id: string, nested: Resolution)
    requires id !in m.cache && id !in visited
    requires var m1 := Memo(m.cache, m.log + [id]);
             && visited + {id} <= nested.visited
             && Extends(m1, nested.memo) && FreshLookups(m1, nested.memo, visited + {id}, nested.visited)
             && LookupsSettled(dir, m1, nested)
    ensures Extends(m, nested.memo) && FreshLookups(m, nested.memo, visited, nested.visited)
    ensures nested.out.Raised? ==> FailedBetween(dir, m, nested.memo)
  {
    var m1 := Memo(m.cache, m.log + [id]);
    assert m1.log[|m.log|] == id;
    assert nested.memo.log[..|m.log|] == m.log by {
      assert nested.memo.log[..|m1.log|] == m1.log;
    }
    assert nested.memo.log[|m.log|] == id by {
      assert nested.memo.log[..|m1.log|][|m.log|] == m1.log[|m.log|];
    }
  }

  /** Caching the group's networks under its id keeps the memo, and settles the group's own fetch. */
  lemma GroupCachedKeepsMemo(dir: Directory, m: Memo, visited: set<string>, id: string, nested: Resolution, networks: seq<string>)
    requires id !in m.cache && id !in visited && id in dir && nested.out.Resolved?
    requires var m1 := Memo(m.cache, m.log + [id]);
             && visited + {id} <= nested.visited
             && Extends(m1, nested.memo) && FreshLookups(m1, nested.memo, visited + {id}, nested.visited)
             && LookupsSettled(dir, m1, nested)
    requires Extends(m, nested.memo) && FreshLookups(m, nested.memo, visited, nested.visited)
    ensures var r := Resolution(Resolved(networks), Memo(nested.memo.cache[id := networks], nested.memo.log), nested.visited);
            && Extends(m, r.memo)
            && FreshLookups(m, r.memo, visited, r.visited)
            && LookupsSettled(dir, m, r)
  {
    var m1 := Memo(m.cache, m.log + [id]);
    assert nested.memo.log[|m.log|] == id by {
      assert nested.memo.log[..|m1.log|][|m.log|] == m1.log[|m.log|];
    }
  }

  lemma {:induction false} NestedKeepsMemo(dir: Directory, m: Memo, visited: set<string>, objects: seq<ObjRef>)
    ensures var r := ResolveNested(dir, m, visited, objects);
            && Extends(m, r.memo)
            && FreshLookups(m, r.memo, visited, r.visited)
            && LookupsSettled(dir, m, r)
    decreases |dir.Keys - visited|, 2, |objects|
  {
    if objects != [] {
      var o := objects[0];
      if !(Present(o.id) && Present(o.kind)) {
        NestedKeepsMemo(dir, m, visited, objects[1..]);
      } else {
        var first := Resolve(dir, m, visited, o.id.value, o.kind.value);
        ResolveKeepsMemo(dir, m, visited, o.id.value, o.kind.value);
        if first.out.Resolved? {
          UnvisitedMonotone(dir.Keys, visited, first.visited);
          var rest := ResolveNested(dir, first.memo, first.visited, objects[1..]);
          NestedKeepsMemo(dir, first.memo, first.visited, objects[1..]);
          ComposeSteps(m, first.memo, rest.memo, visited, first.visited, rest.visited);
          ComposeSettled(dir, m, first.memo, rest.memo);
        }
      }
    }
  }

  /** The log has no repeated id and every logged id is cached. */
  ghost predicate FetchedOnce(m: Memo)
  {
    && (forall k, l :: 0 <= k < l < |m.log| ==> m.log[k] != m.log[l])
    && (forall k :: 0 <= k < |m.log| ==> m.log[k] in m.cache)
  }

  /** Every id fetched between `m` and `m'` exists in the directory. */
  ghost predicate AllFound(dir: Directory, m: Memo, m': Memo)
  {
    forall k :: |m.log| <= k < |m'.log| ==> m'.log[k] in dir
  }

  /**
   * One step of a run keeps `FetchedOnce` when it fetched only new, distinct,
   * uncached ids and cached them all.
   */
  lemma FetchedOnceStep(dir: Directory, m: Memo, m': Memo)
    requires FetchedOnce(m) && Extends(m, m')
    requires forall k :: |m.log| <= k < |m'.log| ==> m'.log[k] !in m.cache
    requires forall k, l :: |m.log| <= k < l < |m'.log| ==> m'.log[k] != m'.log[l]
    requires SettledBetween(dir, m, m')
    ensures FetchedOnce(m')
  {
    forall k | 0 <= k < |m.log|
      ensures m'.log[k] == m.log[k]
    {
      assert m'.log[..|m.log|][k] == m.log[k];
    }
  }

  /**
   * The cache makes each object fetched at most once per manager: if the log
   * so far has no repeats and every logged id is cached, a resolution in which
   * every fetch found its object returns normally and keeps it that way.
   */
  lemma ResolveFetchesOnce(dir: Directory, m: Memo, visited: set<string>, id: string, kind: string)
    requires FetchedOnce(m)
    ensures var r := Resolve(dir, m, visited, id, kind);
            AllFound(dir, m, r.memo) ==> r.out.Resolved? && FetchedOnce(r.memo)
  {
    var r := Resolve(dir, m, visited, id, kind);
    ResolveKeepsMemo(dir, m, visited, id, kind);
    if AllFound(dir, m, r.memo) && r.out.Resolved? {
      FetchedOnceStep(dir, m, r.memo);
    }
  }

  /** The strings an object can contribute: its value, as a network or as a /32 host, and its literal values. */
  ghost function EntryAtoms(e: Entry): set<string>
  {
    (if e.value.Some? then {e.value.value, e.value.value + "/32"} else {}) + (set s | s in LiteralValues(e.literals))
  }

  /** `s` is one of the strings some object of the directory contributes. */
  ghost predicate FromDirectory(dir: Directory, s: string)
  {
    exists id :: id in dir && s in EntryAtoms(dir[id])
  }

  ghost predicate CacheFromDirectory(dir: Directory, cache: Cache)
  {
    forall x, s :: x in cache && s in cache[x] ==> FromDirectory(dir, s)
  }

  /** Resolution invents nothing: every string it returns or caches comes from an object of the directory. */
  lemma {:induction false} ResolveSound(dir: Directory, m: Memo, visited: set<string>, id: string, kind: string)
    requires CacheFromDirectory(dir, m.cache)
    ensures var r := Resolve(dir, m, visited, id, kind);
            && CacheFromDirectory(dir, r.memo.cache)
            && (r.out.Resolved? ==> forall s :: s in r.out.networks ==> FromDirectory(dir, s))
    decreases |dir.Keys - visited|, 1
  {
    var r := Resolve(dir, m, visited, id, kind);
    if id !in m.cache && id !in visited && Fetched(kind) && id in dir {
      var e := dir[id];
      var v := visited + {id};
      var m1 := Memo(m.cache, m.log + [id]);
      forall s | s in LiteralValues(e.literals)
        ensures FromDirectory(dir, s)
      {
        assert s in EntryAtoms(dir[id]);
      }
      if kind == GroupKind {
        UnvisitedShrinks(dir.Keys, visited, id);
        NestedSound(dir, m1, v, e.objects);
      } else if e.value.Some? {
        assert e.value.value in EntryAtoms(dir[id]);
        assert e.value.value + "/32" in EntryAtoms(dir[id]);
      }
    }
  }

  lemma {:induction false} NestedSound(dir: Directory, m: Memo, visited: set<string>, objects: seq<ObjRef>)
    requires CacheFromDirectory(dir, m.cache)
    ensures var r := ResolveNested(dir, m, visited, objects);
            && CacheFromDirectory(dir, r.memo.cache)
            && (r.out.Resolved? ==> forall s :: s in r.out.networks ==> FromDirectory(dir, s))
    decreases |dir.Keys - visited|, 2, |objects|
  {
    if objects != [] {
      var o := objects[0];
      if !(Present(o.id) && Present(o.kind)) {
        NestedSound(dir, m, visited, objects[1..]);
      } else {
        var first := Resolve(dir, m, visited, o.id.value, o.kind.value);
        ResolveSound(dir, m, visited, o.id.value, o.kind.value);
        if first.out.Resolved? {
          UnvisitedMonotone(dir.Keys, visited, first.visited);
          NestedSound(dir, first.memo, first.visited, objects[1..]);
        }
      }
    }
  }

  /**
   * The shape of each answer: a cached id gets its cached list and nothing
   * is fetched; an id already on the walk gets nothing and nothing is cached;
   * an unknown type gets an empty list, cached, with no fetch; a host gets
   * its value as a /32, a network its value, a group its literal values
   * followed by its nested results, each cached and fetched once.
   */
  lemma ResolveShapes(dir: Directory, m: Memo, visited: set<string>, id: string, kind: string)
    ensures var r := Resolve(dir, m, visited, id, kind);
            && (id in m.cache ==> r == Resolution(Resolved(m.cache[id]), m, visited))
            && (id !in m.cache && id in visited ==> r == Resolution(Resolved([]), m, visited))
            && (id !in m.cache && id !in visited && !Fetched(kind) ==>
                  r.out == Resolved([]) && r.memo == Memo(m.cache[id := []], m.log))
            && (id !in m.cache && id !in visited && Fetched(kind) ==>
                  |r.memo.log| > |m.log| && r.memo.log[|m.log|] == id)
            && (id !in m.cache && id !in visited && Fetched(kind) && id !in dir ==> r.out.Raised?)
            && (id !in m.cache && id !in visited && kind == HostKind && id in dir && dir[id].value.Some? ==>
                  r.out == Resolved([dir[id].value.value + "/32"]) && r.memo.cache[id] == r.out.networks)
            && (id !in m.cache && id !in visited && kind == NetworkKind && id in dir && dir[id].value.Some? ==>
                  r.out == Resolved([dir[id].value.value]) && r.memo.cache[id] == r.out.networks)
            && (id !in m.cache && id !in visited && kind == GroupKind && id in dir && r.out.Resolved? ==>
                  var nested := ResolveNested(dir, Memo(m.cache, m.log + [id]), visited + {id}, dir[id].objects);
                  && nested.out.Resolved?
                  && r.out.networks == LiteralValues(dir[id].literals) + nested.out.networks
                  && r.memo.cache[id] == r.out.networks)
  {
    if id !in m.cache && id !in visited && Fetched(kind) && id in dir && kind == GroupKind {
      var m1 := Memo(m.cache, m.log + [id]);
      UnvisitedShrinks(dir.Keys, visited, id);
      NestedKeepsMemo(dir, m1, visited + {id}, dir[id].objects);
      var nested := ResolveNested(dir, m1, visited + {id}, dir[id].objects);
      assert nested.memo.log[..|m1.log|] == m1.log;
      assert nested.memo.log[|m.log|] == m1.log[|m.log|];
    }
  }

  /** A group that lists itself resolves to its own literals, once. */
  lemma SelfReferenceTerminates()
    ensures var g := Entry(None, [Literal(Some("10.0.0.0/8"))], [ObjRef(Some("g"), Some(GroupKind), None)]);
            var r := Resolve(map["g" := g], Memo(map[], []), {}, "g", GroupKind);
            r.out == Resolved(["10.0.0.0/8"]) && r.memo.log == ["g"] && r.memo.cache == map["g" := ["10.0.0.0/8"]]
  {
    var g := Entry(None, [Literal(Some("10.0.0.0/8"))], [ObjRef(Some("g"), Some(GroupKind), None)]);
    var dir := map["g" := g];
    var m1 := Memo(map[], ["g"]);
    var inner := Resolve(dir, m1, {"g"}, "g", GroupKind);
    assert inner == Resolution(Resolved([]), m1, {"g"});
    assert ResolveNested(dir, m1, {"g"}, []) == Resolution(Resolved([]), m1, {"g"});
    assert g.objects[1..] == [];
    assert {} + {"g"} == {"g"};
    assert [] + ["g"] == ["g"];
    assert ResolveNested(dir, m1, {"g"}, g.objects) == Resolution(Resolved([]), m1, {"g"});
    assert LiteralValues(g.literals) == ["10.0.0.0/8"];
    var r := Resolve(dir, Memo(map[], []), {}, "g", GroupKind);
    assert r.out == Resolved(["10.0.0.0/8"]);
    assert r.memo.log == ["g"];
  }

  /** Two groups that list each other, each with one literal of its own. */
  function TwoCycle(): Directory
  {
    map[
      "a" := Entry(None, [Literal(Some("10.1.0.0/16"))], [ObjRef(Some("b"), Some(GroupKind), None)]),
      "b" := Entry(None, [Literal(Some("10.2.0.0/16"))], [ObjRef(Some("a"), Some(GroupKind), None)])
    ]
  }

  /** Resolving `inner` while `outer` is on the walk: the reference back to `outer` yields nothing. */
  lemma TwoCycleInner(outer: string, inner: string, own: string)
    requires (outer, inner, own) in {("a", "b", "10.2.0.0/16"), ("b", "a", "10.1.0.0/16")}
    ensures Resolve(TwoCycle(), Memo(map[], [outer]), {outer}, inner, GroupKind)
         == Resolution(Resolved([own]), Memo(map[inner := [own]], [outer, inner]), {outer, inner})
  {
    var dir := TwoCycle();
    var e := dir[inner];
    assert e.objects == [ObjRef(Some(outer), Some(GroupKind), None)];
    assert e.objects[1..] == [];
    assert LiteralValues(e.literals) == [own];
    assert {outer} + {inner} == {outer, inner};
    assert [outer] + [inner] == [outer, inner];
    var mi := Memo(map[], [outer, inner]);
    assert Resolve(dir, mi, {outer, inner}, outer, GroupKind) == Resolution(Resolved([]), mi, {outer, inner});
    assert ResolveNested(dir, mi, {outer, inner}, []) == Resolution(Resolved([]), mi, {outer, inner});
    assert ResolveNested(dir, mi, {outer, inner}, e.objects) == Resolution(Resolved([]), mi, {outer, inner});
  }

  /** Resolving `outer` from an empty cache: its own literal, then what `inner` gave while `outer` was on the walk. */
  lemma TwoCycleOuter(outer: string, inner: string, own: string, other: string)
    requires (outer, inner, own, other) in {("a", "b", "10.1.0.0/16", "10.2.0.0/16"), ("b", "a", "10.2.0.0/16", "10.1.0.0/16")}
    ensures var r := Resolve(TwoCycle(), Memo(map[], []), {}, outer, GroupKind);
            && r.out == Resolved([own, other])
            && inner in r.memo.cache && r.memo.cache[inner] == [other]
  {
    var dir := TwoCycle();
    var e := dir[outer];
    assert e.objects == [ObjRef(Some(inner), Some(GroupKind), None)];
    assert e.objects[1..] == [];
    assert LiteralValues(e.literals) == [own];
    assert {} + {outer} == {outer};
    assert [] + [outer] == [outer];
    TwoCycleInner(outer, inner, other);
    var ri := Resolve(dir, Memo(map[], [outer]), {outer}, inner, GroupKind);
    assert ResolveNested(dir, ri.memo, ri.visited, []) == Resolution(Resolved([]), ri.memo, ri.visited);
    assert ResolveNested(dir, Memo(map[], [outer]), {outer}, e.objects).out == Resolved([other]);
    assert ResolveNested(dir, Memo(map[], [outer]), {outer}, e.objects).memo == ri.memo;
  }

  /**
   * In a cycle the cached lists depend on the order of resolution: resolving
   * "a" first caches for "b" only b's own literal, while resolving "b" first
   * gives "b" both literals.
   */
  lemma CachedCycleDependsOnOrder()
    ensures var fromA := Resolve(TwoCycle(), Memo(map[], []), {}, "a", GroupKind);
            var fromB := Resolve(TwoCycle(), Memo(map[], []), {}, "b", GroupKind);
            && "b" in fromA.memo.cache && fromA.memo.cache["b"] == ["10.2.0.0/16"]
            && fromB.out == Resolved(["10.2.0.0/16", "10.1.0.0/16"])
            && fromA.memo.cache["b"] != fromB.out.networks
  {
    TwoCycleOuter("a", "b", "10.1.0.0/16", "10.2.0.0/16");
    TwoCycleOuter("b", "a", "10.2.0.0/16", "10.1.0.0/16");
  }

  /**
   * What one step of a run may do to the manager's memo: keep every old
   * cache and log entry, keep "no id fetched twice, every fetched id cached"
   * when all its fetches found their object, and cache only strings that come
   * from the directory.
   */
  ghost predicate MemoStep(dir: Directory, m: Memo, m': Memo)
  {
    && Extends(m, m')
    && (FetchedOnce(m) && AllFound(dir, m, m') ==> FetchedOnce(m'))
    && (CacheFromDirectory(dir, m.cache) ==> CacheFromDirectory(dir, m'.cache))
  }

  lemma MemoStepTrans(dir: Directory, m: Memo, m1: Memo, m2: Memo)
    requires MemoStep(dir, m, m1) && MemoStep(dir, m1, m2)
    ensures MemoStep(dir, m, m2)
  {
    assert m2.log[..|m.log|] == m.log by {
      assert m2.log[..|m1.log|] == m1.log;
    }
    if AllFound(dir, m, m2) {
      forall k | |m.log| <= k < |m1.log|
        ensures m1.log[k] in dir
      {
        assert m2.log[..|m1.log|][k] == m1.log[k];
      }
    }
  }

  /** A top-level resolution is one such step. */
  lemma ResolveStep(dir: Directory, m: Memo, visited: set<string>, id: string, kind: string)
    ensures MemoStep(dir, m, Resolve(dir, m, visited, id, kind).memo)
  {
    ResolveKeepsMemo(dir, m, visited, id, kind);
    if FetchedOnce(m) {
      ResolveFetchesOnce(dir, m, visited, id, kind);
    }
    if CacheFromDirectory(dir, m.cache) {
      ResolveSound(dir, m, visited, id, kind);
    }
  }
}
