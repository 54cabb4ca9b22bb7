/**
 CalDAV filters evaluated on a file and on its index (ComponentFilter, PropertyFilter and
 TextMatcher in xandikos/icalendar.py; sections 9.7 and 9.9 of RFC 4791).
 */
module Filters {
  import opened Wrappers
  import opened Seqs
  import opened Calendars
  import opened RuleSets
  import opened IndexRows
  import opened Indexing
  import opened IndexedTimeRanges

  datatype Range = Range(start: int, end: int)

  /** A text-match: the collation applied to the match text, and negate-condition. */
  datatype TextMatcher = TextMatcher(collates: Value -> bool, negate: bool)

  datatype Filter =
    | CompFilter(name: string, isNotDefined: bool, range: Option<Range>, children: seq<Filter>)
    | PropFilter(name: string, isNotDefined: bool, range: Option<Range>, texts: seq<TextMatcher>)

  predicate TextHolds(t: TextMatcher, v: Value) { if t.negate then !t.collates(v) else t.collates(v) }

  /** PropertyTimeRangeMatcher.match: both ends are inclusive. */
  predicate InRange(r: Range, v: Value) { r.start <= At(v) <= r.end }

  // ----- on the file

  /** PropertyFilter.match. */
  function MatchProp(f: Filter, p: Props): Answer
    requires f.PropFilter?
  {
    if f.isNotDefined then Decide(f.name !in p)
    else if f.name !in p then No
    else Decide((f.range.Some? ==> InRange(f.range.value, p[f.name])) &&
                forall i | 0 <= i < |f.texts| :: TextHolds(f.texts[i], p[f.name]))
  }

  /** ComponentFilter.match. */
  function Match(f: Filter, c: Component): Answer
    requires f.CompFilter?
    decreases f, 0, 0
  {
    if f.isNotDefined then Decide(c.name != f.name)
    else if c.name != f.name then No
    else
      var a := if f.range.Some? then Apply(c.name, f.range.value.start, f.range.value.end, c.props) else Yes;
      if a != Yes then a else MatchAll(f.children, c)
  }

  function MatchAll(fs: seq<Filter>, c: Component): Answer
    decreases fs, 0, 0
  {
    if fs == [] then Yes
    else
      var a := if fs[0].CompFilter? then MatchAny(fs[0], c.subs) else MatchProp(fs[0], c.props);
      if a != Yes then a else MatchAll(fs[1..], c)
  }

  /** `any(child.match(c) for c in subcomponents)`: the first match or exception ends it. */
  function MatchAny(f: Filter, cs: seq<Component>): Answer
    requires f.CompFilter?
    decreases f, 1, |cs|
  {
    if cs == [] then No
    else
      var a := Match(f, cs[0]);
      if a != No then a else MatchAny(f, cs[1..])
  }

  // ----- on the index

  /** PropertyFilter.match_indexes. */
  function MatchPropIndexes(f: Filter, ix: Indexes): Answer
    requires f.PropFilter?
  {
    var mine := [P(f.name)];
    if mine !in ix then KeyError
    else if f.isNotDefined then Decide(ix[mine] == [])
    else if f.texts == [] && f.range.None? then Decide(ix[mine] != [])
    else
      var values := CreateSubindexes(ix, P(f.name));
      if [] !in values then KeyError
      else Decide(
             (f.range.Some? ==> exists v <- values[[]] :: v.Ical? && InRange(f.range.value, v.value)) &&
             forall i | 0 <= i < |f.texts| :: exists v <- values[[]] :: v.Ical? && TextHolds(f.texts[i], v.value))
  }

  predicate ImplicitlyDefined(f: Filter)
    requires f.CompFilter?
  {
    exists i | 0 <= i < |f.children| :: !f.children[i].isNotDefined
  }

  /** ComponentFilter.match_indexes. */
  function MatchIndexes(f: Filter, ix: Indexes, parse: RuleParser): Answer
    requires f.CompFilter? && GoodParser(parse)
    decreases f
  {
    var mine := [C(f.name)];
    if f.isNotDefined then (if mine !in ix then KeyError else Decide(ix[mine] == []))
    else if mine in ix && ix[mine] == [] then No
    else
      var sub := CreateSubindexes(ix, C(f.name));
      var a := if f.range.None? then Yes
               else MatchTimeRange(f.name, f.range.value.start, f.range.value.end, sub, parse);
      if a != Yes then a
      else
        var b := MatchAllIndexes(f.children, sub, parse);
        if b != Yes then b
        else if ImplicitlyDefined(f) then Yes
        else if mine !in ix then Undecided
        else Decide(ix[mine] != [])
  }

  function MatchAllIndexes(fs: seq<Filter>, ix: Indexes, parse: RuleParser): Answer
    requires GoodParser(parse)
    decreases fs
  {
    if fs == [] then Yes
    else
      var a := if fs[0].CompFilter? then MatchIndexes(fs[0], ix, parse) else MatchPropIndexes(fs[0], ix);
      if a != Yes then a else MatchAllIndexes(fs[1..], ix, parse)
  }

  // ----- the index keys a filter needs

  function Prefixed(s: Segment, lists: seq<seq<Path>>): (r: seq<seq<Path>>)
    ensures |r| == |lists| && forall i :: 0 <= i < |lists| ==> r[i] == PrefixedPaths(s, lists[i])
  {
    if lists == [] then [] else [PrefixedPaths(s, lists[0])] + Prefixed(s, lists[1..])
  }

  function PrefixedPaths(s: Segment, paths: seq<Path>): (r: seq<Path>)
    ensures |r| == |paths| && forall i :: 0 <= i < |paths| ==> r[i] == [s] + paths[i]
  {
    if paths == [] then [] else [[s] + paths[0]] + PrefixedPaths(s, paths[1..])
  }

  function RangeKeys(names: seq<string>): seq<seq<Path>> {
    if names == [] then [] else [[[P(names[0])]]] + RangeKeys(names[1..])
  }

  /** `index_keys`: an AND-list of OR-lists. */
  function IndexKeys(f: Filter): seq<seq<Path>>
    decreases f
  {
    if f.PropFilter? then [[[P(f.name)]]]
    else
      Prefixed(C(f.name), ChildKeys(f.children) + if f.range.Some? then RangeKeys(RangeProps(f.name)) else []) +
      if ImplicitlyDefined(f) then [] else [[[C(f.name)]]]
  }

  function ChildKeys(fs: seq<Filter>): seq<seq<Path>>
    decreases fs
  {
    if fs == [] then [] else IndexKeys(fs[0]) + ChildKeys(fs[1..])
  }

  /** Every OR-list has a key that is there. */
  ghost predicate Covered(lists: seq<seq<Path>>, keys: set<Path>) {
    forall l <- lists :: exists k <- l :: k in keys
  }

  ghost function Strip(keys: set<Path>, s: Segment): set<Path> {
    set k <- keys | k != [] && k[0] == s :: k[1..]
  }

  lemma StripIs(keys: set<Path>, s: Segment)
    ensures forall k :: k in Strip(keys, s) <==> [s] + k in keys
  {
    forall k ensures k in Strip(keys, s) <==> [s] + k in keys {
      assert ([s] + k)[1..] == k;
      if k in Strip(keys, s) {
        var q :| q in keys && q != [] && q[0] == s && q[1..] == k;
        assert q == [s] + k;
      }
    }
  }

  lemma SubindexIs(keys: set<Path>, ps: seq<Component>, name: string)
    ensures CreateSubindexes(Indexed(keys, ps), C(name)) == Indexed(Strip(keys, C(name)), Named(ps, name))
  {
    StripIs(keys, C(name));
    forall k | k in Strip(keys, C(name)) ensures Values(ps, [C(name)] + k) == Values(Named(ps, name), k) {
      assert ([C(name)] + k)[1..] == k;
    }
  }

  /** The keys needed below a component are there once the prefix is taken off. */
  lemma CoveredBelow(s: Segment, lists: seq<seq<Path>>, keys: set<Path>)
    requires Covered(Prefixed(s, lists), keys)
    ensures Covered(lists, Strip(keys, s))
  {
    StripIs(keys, s);
    forall l <- lists ensures exists k <- l :: k in Strip(keys, s) {
      var i :| 0 <= i < |lists| && lists[i] == l;
      assert Prefixed(s, lists)[i] in Prefixed(s, lists);
      var k :| k in PrefixedPaths(s, l) && k in keys;
      var j :| 0 <= j < |l| && PrefixedPaths(s, l)[j] == k;
      assert l[j] in l;
    }
  }

  lemma CoveredParts(a: seq<seq<Path>>, b: seq<seq<Path>>, keys: set<Path>)
    ensures Covered(a + b, keys) <==> Covered(a, keys) && Covered(b, keys)
  {
    assert forall l :: l in a + b <==> l in a || l in b;
  }

  lemma {:induction false} RangeCovered(names: seq<string>, keys: set<Path>)
    requires Covered(RangeKeys(names), keys)
    ensures HasColumns(keys, names)
  {
    if names == [] {
    } else {
      CoveredParts([[[P(names[0])]]], RangeKeys(names[1..]), keys);
      assert [[P(names[0])]] in [[[P(names[0])]]];
      RangeCovered(names[1..], keys);
      SplitMembers(names);
    }
  }

  /** The keys that the range of a component filter needs below it. */
  function RangeKeysOf(f: Filter): seq<seq<Path>> {
    if f.CompFilter? && f.range.Some? then RangeKeys(RangeProps(f.name)) else []
  }

  function OwnKeys(f: Filter): seq<seq<Path>> {
    if f.CompFilter? && ImplicitlyDefined(f) then [] else [[[C(f.name)]]]
  }

  lemma KeysBelow(f: Filter, keys: set<Path>)
    requires f.CompFilter? && Covered(IndexKeys(f), keys)
    ensures Covered(ChildKeys(f.children) + RangeKeysOf(f), Strip(keys, C(f.name))) && Covered(OwnKeys(f), keys)
  {
    var below := ChildKeys(f.children) + RangeKeysOf(f);
    assert IndexKeys(f) == Prefixed(C(f.name), below) + OwnKeys(f);
    CoveredParts(Prefixed(C(f.name), below), OwnKeys(f), keys);
    CoveredBelow(C(f.name), below, keys);
  }

  /** What a component filter's keys give: its children's, its range's, and its own. */
  lemma KeysOf(f: Filter, keys: set<Path>)
    requires f.CompFilter? && Covered(IndexKeys(f), keys)
    ensures Covered(ChildKeys(f.children), Strip(keys, C(f.name)))
    ensures f.range.Some? ==> HasColumns(Strip(keys, C(f.name)), RangeProps(f.name))
    ensures !ImplicitlyDefined(f) ==> [C(f.name)] in keys
  {
    KeysBelow(f, keys);
    CoveredParts(ChildKeys(f.children), RangeKeysOf(f), Strip(keys, C(f.name)));
    if f.range.Some? { RangeCovered(RangeProps(f.name), Strip(keys, C(f.name))); }
    if !ImplicitlyDefined(f) { assert [[C(f.name)]] in OwnKeys(f); }
  }
}
