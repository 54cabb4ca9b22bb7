/**
 The in-memory index and the manager that decides which keys it holds (MemoryIndex and
 AutoIndexManager in xandikos/store/index.py).
 */
module KeyManager {
  import opened Wrappers
  import opened Seqs
  import opened IndexRows

  type Etag = nat

  /** What looking up an etag gives: its values, KeyError, or AssertionError. */
  datatype Lookup = Found(values: Indexes) | NotIndexed | Unavailable

  class MemoryIndex {
    var indexes: map<Path, map<Etag, seq<IndexValue>>>
    var inIndex: set<Etag>

    constructor ()
      ensures indexes == map[] && inIndex == {}
    {
      indexes, inIndex := map[], {};
    }

    function AvailableKeys(): set<Path>
      reads this
    {
      indexes.Keys
    }

    /** The value of one key for an etag; an absent one counts as no values. */
    function ValueOf(k: Path, etag: Etag): seq<IndexValue>
      requires k in indexes
      reads this
    {
      if etag in indexes[k] then indexes[k][etag] else []
    }

    method GetValues(etag: Etag, keys: seq<Path>) returns (r: Lookup)
      ensures r == if etag !in inIndex then NotIndexed
                   else if exists k <- keys :: k !in indexes then Unavailable
                   else Found(map k <- keys :: ValueOf(k, etag))
    {
      if etag !in inIndex { return NotIndexed; }
      var values: Indexes := map[];
      for i := 0 to |keys|
        invariant forall k <- keys[..i] :: k in indexes
        invariant values == map k <- keys[..i] | k in indexes :: ValueOf(k, etag)
      {
        assert keys[..i + 1] == keys[..i] + [keys[i]];
        if keys[i] !in indexes { return Unavailable; }
        values := values[keys[i] := ValueOf(keys[i], etag)];
      }
      assert keys[..|keys|] == keys;
      return Found(values);
    }

    /** `add_values`; the caller gives values for available keys only. */
    method AddValues(etag: Etag, values: Indexes)
      requires values.Keys <= indexes.Keys
      modifies this
      ensures inIndex == old(inIndex) + {etag}
      ensures indexes == map k <- old(indexes) ::
        if k in values then old(indexes)[k][etag := values[k]] else old(indexes)[k]
    {
      var todo := values.Keys;
      while todo != {}
        invariant todo <= values.Keys && inIndex == old(inIndex)
        invariant indexes == map k <- old(indexes) ::
          if k in values && k !in todo then old(indexes)[k][etag := values[k]] else old(indexes)[k]
        decreases todo
      {
        var k :| k in todo;
        var column: map<Etag, seq<IndexValue>> := indexes[k][etag := values[k]];
        indexes := indexes[k := column];
        todo := todo - {k};
      }
      inIndex := inIndex + {etag};
    }

    /** What `load_extra_file_handler` does to the index: new default keys are added by a reset. */
    method Extend(keys: set<Path>)
      modifies this
      ensures indexes.Keys == old(indexes.Keys) + keys
      ensures if keys <= old(indexes.Keys) then indexes == old(indexes) && inIndex == old(inIndex)
              else inIndex == {} && indexes == map k <- old(indexes.Keys) + keys :: map[]
    {
      if keys != {} && !(keys <= AvailableKeys()) {
        Reset(AvailableKeys() + keys);
      }
    }

    method Reset(keys: set<Path>)
      modifies this
      ensures inIndex == {} && indexes == map k <- keys :: map[]
    {
      inIndex := {};
      indexes := map k <- keys :: map[];
    }
  }

  // ----- which keys are wanted

  function Count(desired: map<Path, nat>, k: Path): nat { if k in desired then desired[k] else 0 }

  predicate HasAny(list: seq<Path>, available: set<Path>) { exists k <- list :: k in available }

  /** The OR-lists without any available key, all in one. */
  function MissingKeys(lists: seq<seq<Path>>, available: set<Path>): seq<Path> {
    if lists == [] then []
    else MissingKeys(lists[..|lists| - 1], available) +
         if HasAny(lists[|lists| - 1], available) then [] else lists[|lists| - 1]
  }

  /** The available keys of all the OR-lists, in order. */
  function NeededKeys(lists: seq<seq<Path>>, available: set<Path>): seq<Path> {
    if lists == [] then []
    else NeededKeys(lists[..|lists| - 1], available) + OfSet(lists[|lists| - 1], available)
  }

  function OfSet(list: seq<Path>, available: set<Path>): (r: seq<Path>)
    ensures forall k :: k in r <==> k in list && k in available
  {
    if list == [] then []
    else
      SplitLast(list);
      OfSet(list[..|list| - 1], available) + if list[|list| - 1] in available then [list[|list| - 1]] else []
  }

  /** One more wish for every key in the list. */
  function Wished(desired: map<Path, nat>, keys: seq<Path>): map<Path, nat> {
    if keys == [] then desired
    else
      var before := Wished(desired, keys[..|keys| - 1]);
      before[keys[|keys| - 1] := Count(before, keys[|keys| - 1]) + 1]
  }

  /** The keys of the list that are wanted more often than the threshold. */
  function Popular(desired: map<Path, nat>, keys: seq<Path>, threshold: int): set<Path> {
    set k <- keys | Count(desired, k) > threshold
  }

  // ----- the manager

  /** The manager's state, and the events that change it. */
  datatype State = State(available: set<Path>, desired: map<Path, nat>)
  datatype Event = Query(lists: seq<seq<Path>>) | Load(keys: set<Path>)

  predicate FallsBack(s: State, lists: seq<seq<Path>>) { MissingKeys(lists, s.available) != [] }

  /** The effect FindPresentKeys and `load_extra_file_handler` have on the state. */
  function Next(s: State, e: Event, threshold: int): State {
    match e
    case Query(lists) =>
      var missing := MissingKeys(lists, s.available);
      var desired := Wished(s.desired, missing);
      State(s.available + Popular(desired, missing, threshold), desired)
    case Load(keys) => State(s.available + keys, s.desired)
  }

  class AutoIndexManager {
    const index: MemoryIndex
    const threshold: int
    var desired: map<Path, nat>

    constructor (index: MemoryIndex, threshold: int)
      ensures this.index == index && this.threshold == threshold && desired == map[]
    {
      this.index, this.threshold, desired := index, threshold, map[];
    }

    function Status(): State
      reads this, index
    {
      State(index.indexes.Keys, desired)
    }

    /** `find_present_keys`: the keys to look up, or None when some OR-list has none; its
        keys are then wished for once more, and the popular ones become available. */
    method FindPresentKeys(necessaryKeys: seq<seq<Path>>) returns (r: Option<seq<Path>>)
      modifies this, index
      ensures var available := old(index.AvailableKeys());
        var missing := MissingKeys(necessaryKeys, available);
        && desired == Wished(old(desired), missing)
        && r == (if missing == [] then Some(NeededKeys(necessaryKeys, available)) else None)
        && var popular := Popular(desired, missing, threshold);
           if popular == {} then index.indexes == old(index.indexes) && index.inIndex == old(index.inIndex)
           else index.inIndex == {} && index.indexes == map k <- available + popular :: map[]
      ensures Status() == Next(old(Status()), Query(necessaryKeys), threshold)
      ensures r.None? <==> FallsBack(old(Status()), necessaryKeys)
    {
      var available := index.AvailableKeys();
      var needed: seq<Path>, missing: seq<Path> := [], [];
      var newIndexKeys: set<Path> := {};
      for i := 0 to |necessaryKeys|
        invariant index.indexes == old(index.indexes) && index.inIndex == old(index.inIndex)
        invariant needed == NeededKeys(necessaryKeys[..i], available)
        invariant missing == MissingKeys(necessaryKeys[..i], available)
        invariant desired == Wished(old(desired), missing)
        invariant newIndexKeys == Popular(desired, missing, threshold)
      {
        var keys := necessaryKeys[i];
        assert necessaryKeys[..i + 1][..i] == necessaryKeys[..i];
        var present := Available(keys, available);
        needed := needed + present;
        var found := present != [];
        assert found <==> HasAny(keys, available) by {
          if found { assert present[0] in present; }
        }
        if !found {
          newIndexKeys := Wish(keys, old(desired), missing, newIndexKeys);
          missing := missing + keys;
        }
      }
      assert necessaryKeys[..|necessaryKeys|] == necessaryKeys;
      if missing == [] { return Some(needed); }
      if newIndexKeys != {} {
        index.Reset(index.AvailableKeys() + newIndexKeys);
      }
      return None;
    }

    /** The first inner loop: the available keys of one OR-list. */
    method Available(keys: seq<Path>, available: set<Path>) returns (present: seq<Path>)
      ensures present == OfSet(keys, available)
    {
      present := [];
      for j := 0 to |keys|
        invariant present == OfSet(keys[..j], available)
      {
        assert keys[..j + 1][..j] == keys[..j];
        if keys[j] in available {
          present := present + [keys[j]];
        }
      }
      assert keys[..|keys|] == keys;
    }

    /** The second inner loop: one more wish for each key of an OR-list without any. */
    method Wish(keys: seq<Path>, ghost was: map<Path, nat>, ghost missing: seq<Path>, newIndexKeys: set<Path>)
        returns (popular: set<Path>)
      requires desired == Wished(was, missing) && newIndexKeys == Popular(desired, missing, threshold)
      modifies this
      ensures desired == Wished(was, missing + keys) && popular == Popular(desired, missing + keys, threshold)
    {
      popular := newIndexKeys;
      assert missing + keys[..0] == missing;
      for j := 0 to |keys|
        invariant desired == Wished(was, missing + keys[..j])
        invariant popular == Popular(desired, missing + keys[..j], threshold)
      {
        ghost var wishes := missing + keys[..j];
        assert missing + keys[..j + 1] == wishes + [keys[j]];
        WishedAppend(was, wishes, keys[j]);
        PopularAppend(desired, wishes, keys[j], threshold);
        desired := desired[keys[j] := Count(desired, keys[j]) + 1];
        if desired[keys[j]] > threshold {
          popular := popular + {keys[j]};
        }
      }
      assert keys[..|keys|] == keys;
    }
  }

  lemma WishedAppend(was: map<Path, nat>, keys: seq<Path>, k: Path)
    ensures Wished(was, keys + [k]) == Wished(was, keys)[k := Count(Wished(was, keys), k) + 1]
  {
    assert (keys + [k])[..|keys|] == keys;
  }

  lemma PopularAppend(before: map<Path, nat>, keys: seq<Path>, k: Path, threshold: int)
    ensures var more := before[k := Count(before, k) + 1];
      Popular(more, keys + [k], threshold) ==
      if more[k] > threshold then Popular(before, keys, threshold) + {k} else Popular(before, keys, threshold)
  {
    var more := before[k := Count(before, k) + 1];
    forall x ensures x in Popular(more, keys + [k], threshold) <==>
                     x in Popular(before, keys, threshold) || (x == k && more[k] > threshold)
    {
      assert x in keys + [k] <==> x in keys || x == k;
    }
  }

  // ----- how often a filter can fall back

  function After(s: State, events: seq<Event>, threshold: int): State {
    if events == [] then s
    else Next(After(s, events[..|events| - 1], threshold), events[|events| - 1], threshold)
  }

  /** How often the queries for `lists` among the events fell back to the naive scan. */
  function Fallbacks(s: State, events: seq<Event>, lists: seq<seq<Path>>, threshold: int): nat {
    if events == [] then 0
    else
      var n := |events| - 1;
      Fallbacks(s, events[..n], lists, threshold) +
      if events[n] == Query(lists) && FallsBack(After(s, events[..n], threshold), lists) then 1 else 0
  }

  lemma {:induction false} WishedCounts(desired: map<Path, nat>, keys: seq<Path>)
    ensures forall k :: Count(Wished(desired, keys), k) >= Count(desired, k) + (if k in keys then 1 else 0)
    ensures forall k :: k !in keys ==> Count(Wished(desired, keys), k) == Count(desired, k)
  {
    if keys == [] {
    } else {
      SplitLast(keys);
      WishedCounts(desired, keys[..|keys| - 1]);
    }
  }

  lemma {:induction false} MissingAre(lists: seq<seq<Path>>, available: set<Path>)
    ensures forall k :: k in MissingKeys(lists, available) <==> exists l <- lists :: !HasAny(l, available) && k in l
  {
    if lists == [] {
    } else {
      SplitLast(lists);
      MissingAre(lists[..|lists| - 1], available);
    }
  }

  /** What every run keeps: a key wanted more than the threshold allows is available, and
      the missing keys of `lists` are wanted at least as often as its queries fell back. */
  ghost predicate Kept(s: State, lists: seq<seq<Path>>, fallbacks: nat, threshold: int) {
    && (forall k :: Count(s.desired, k) > threshold && Count(s.desired, k) > 0 ==> k in s.available)
    && forall k <- MissingKeys(lists, s.available) :: Count(s.desired, k) >= fallbacks
  }

  /** Keys only ever become available. */
  lemma {:induction false} AvailableGrows(s: State, events: seq<Event>, threshold: int)
    ensures s.available <= After(s, events, threshold).available
  {
    if events == [] {
    } else {
      AvailableGrows(s, events[..|events| - 1], threshold);
    }
  }

  lemma {:induction false} RunKeeps(s: State, events: seq<Event>, lists: seq<seq<Path>>, threshold: nat)
    requires s.desired == map[]
    ensures Kept(After(s, events, threshold), lists, Fallbacks(s, events, lists, threshold), threshold)
    ensures Fallbacks(s, events, lists, threshold) <= threshold + 1
  {
    if events == [] {
    } else {
      var n := |events| - 1;
      RunKeeps(s, events[..n], lists, threshold);
      var before := Fallbacks(s, events[..n], lists, threshold);
      StepKeeps(After(s, events[..n], threshold), events[n], lists, before, threshold);
    }
  }

  lemma StepKeeps(s: State, e: Event, lists: seq<seq<Path>>, fallbacks: nat, threshold: nat)
    requires Kept(s, lists, fallbacks, threshold) && fallbacks <= threshold + 1
    ensures var n := fallbacks + if e == Query(lists) && FallsBack(s, lists) then 1 else 0;
      Kept(Next(s, e, threshold), lists, n, threshold) && n <= threshold + 1
  {
    var t := Next(s, e, threshold);
    MissingAre(lists, s.available);
    MissingAre(lists, t.available);
    assert forall k <- MissingKeys(lists, t.available) :: k in MissingKeys(lists, s.available);
    if e.Query? {
      var missing := MissingKeys(e.lists, s.available);
      MissingAre(e.lists, s.available);
      WishedCounts(s.desired, missing);
      if e.lists == lists && FallsBack(s, lists) {
        assert missing[0] in missing && missing[0] !in s.available;
      }
    }
  }

  /** Over any run, with any other queries and handler loads in between, one filter falls
      back to the naive scan at most threshold + 1 times. */
  lemma FallbacksAreBounded(available: set<Path>, events: seq<Event>, lists: seq<seq<Path>>, threshold: nat)
    ensures Fallbacks(State(available, map[]), events, lists, threshold) <= threshold + 1
  {
    RunKeeps(State(available, map[]), events, lists, threshold);
  }

  /** On the manager itself: how often, over a run of queries and handler loads, the keys of
      one filter were not to be had. */
  method RunManager(manager: AutoIndexManager, events: seq<Event>, lists: seq<seq<Path>>) returns (fallbacks: nat)
    modifies manager, manager.index
    ensures manager.Status() == After(old(manager.Status()), events, manager.threshold)
    ensures fallbacks == Fallbacks(old(manager.Status()), events, lists, manager.threshold)
    ensures old(manager.desired) == map[] && manager.threshold >= 0 ==> fallbacks <= manager.threshold + 1
  {
    fallbacks := 0;
    ghost var s := manager.Status();
    for i := 0 to |events|
      invariant manager.Status() == After(s, events[..i], manager.threshold)
      invariant fallbacks == Fallbacks(s, events[..i], lists, manager.threshold)
    {
      assert events[..i + 1][..i] == events[..i];
      match events[i] {
        case Query(wanted) =>
          var present := manager.FindPresentKeys(wanted);
          if present.None? && wanted == lists { fallbacks := fallbacks + 1; }
        case Load(keys) => manager.index.Extend(keys);
      }
    }
    assert events[..|events|] == events;
    if s.desired == map[] && manager.threshold >= 0 {
      FallbacksAreBounded(s.available, events, lists, manager.threshold);
    }
  }

  /** A run can also be taken from its first event on. */
  lemma {:induction false} AfterFirst(s: State, e: Event, rest: seq<Event>, threshold: int)
    ensures After(s, [e] + rest, threshold) == After(Next(s, e, threshold), rest, threshold)
  {
    var events := [e] + rest;
    if rest == [] {
      assert events == [e] && [e][..0] == [];
    } else {
      AfterFirst(s, e, rest[..|rest| - 1], threshold);
      assert events[..|events| - 1] == [e] + rest[..|rest| - 1];
    }
  }
}
