/**
 The index evaluator of a filter against its file evaluator, by induction over the filter
 and the component forest (xandikos/icalendar.py).
 */
module FilterAgreement {
  import opened Wrappers
  import opened Seqs
  import opened Calendars
  import opened RuleSets
  import opened IndexRows
  import opened Indexing
  import opened IndexedTimeRanges
  import opened Filters

  ghost predicate SomeMatch(f: Filter, cs: seq<Component>)
    requires f.CompFilter?
  {
    exists c <- cs :: Match(f, c) == Yes
  }

  ghost predicate SomeProp(f: Filter, cs: seq<Component>)
    requires f.PropFilter?
  {
    exists c <- cs :: MatchProp(f, c.props) == Yes
  }

  /** The number of conditions a filter puts on one component (or one value). */
  function Conditions(f: Filter): nat {
    (if f.range.Some? then 1 else 0) + if f.CompFilter? then |f.children| else |f.texts|
  }

  /** Where the two evaluators can be compared.  `cs` are all the components on the filter's
      path.  Columns forget which component a value came from, so a filter with several
      conditions, a negated property or a time range needs the path to be taken at most once;
      a filter with a single condition does not. */
  ghost predicate Selective(f: Filter, cs: seq<Component>)
    decreases f
  {
    && (Conditions(f) > 1 ==> |cs| <= 1)
    && if f.PropFilter? then (f.isNotDefined ==> |cs| <= 1)
       else
         && !f.isNotDefined
         && (f.range.Some? ==> Timed(f.name) && |cs| <= 1 && forall c <- cs :: "RRULE" !in c.props)
         && forall i :: 0 <= i < |f.children| ==>
              Selective(f.children[i], if f.children[i].CompFilter? then Named(cs, f.children[i].name) else cs)
  }

  /** An answer from the index is the file's, unless it is put off to the file. */
  ghost predicate Agrees(a: Answer, holds: bool) { a != KeyError && (a != Undecided ==> (a == Yes <==> holds)) }

  // ----- property filters

  lemma {:induction false} PropertyValuesAre(cs: seq<Component>, name: string)
    ensures forall v :: v in PropertyValues(cs, name) <==> exists c <- cs :: name in c.props && v == Ical(c.props[name])
  {
    if cs == [] {
    } else {
      SplitMembers(cs);
      PropertyValuesAre(cs[1..], name);
    }
  }

  /** What a property filter asks of the values in its column. */
  ghost predicate ColumnHolds(f: Filter, values: seq<IndexValue>)
    requires f.PropFilter?
  {
    if f.isNotDefined then values == []
    else
      && values != []
      && (f.range.Some? ==> exists v <- values :: v.Ical? && InRange(f.range.value, v.value))
      && forall i | 0 <= i < |f.texts| :: TextFound(f.texts[i], values)
  }

  ghost predicate TextFound(t: TextMatcher, values: seq<IndexValue>) {
    exists v <- values :: v.Ical? && TextHolds(t, v.value)
  }

  lemma PropIsColumn(f: Filter, keys: set<Path>, cs: seq<Component>)
    requires f.PropFilter? && [P(f.name)] in keys
    ensures MatchPropIndexes(f, Indexed(keys, cs)) == Decide(ColumnHolds(f, PropertyValues(cs, f.name)))
  {
    var ix := Indexed(keys, cs);
    assert ix[[P(f.name)]] == PropertyValues(cs, f.name);
    assert [P(f.name)] + [] == [P(f.name)];
    var sub := CreateSubindexes(ix, P(f.name));
    assert [] in sub && sub[[]] == PropertyValues(cs, f.name);
    assert forall i | 0 <= i < |f.texts| :: TextFound(f.texts[i], sub[[]]) <==>
      exists v: IndexValue <- sub[[]] :: v.Ical? && TextHolds(f.texts[i], v.value);
    if |f.texts| > 0 { assert TextFound(f.texts[0], sub[[]]) ==> sub[[]] != []; }
  }

  lemma PropOfOne(f: Filter, c: Component)
    requires f.PropFilter?
    ensures ColumnHolds(f, PropertyValues([c], f.name)) <==> MatchProp(f, c.props) == Yes
  {
    var values := PropertyValues([c], f.name);
    assert [c][1..] == [] && PropertyValues([], f.name) == [];
    assert values == (if f.name in c.props then [Ical(c.props[f.name])] else []) + [];
    if f.name in c.props {
      assert values == [Ical(c.props[f.name])];
      assert forall t :: TextFound(t, values) <==> TextHolds(t, c.props[f.name]);
    } else {
      assert values == [];
    }
  }

  lemma PropOfMany(f: Filter, cs: seq<Component>)
    requires f.PropFilter? && !f.isNotDefined && Conditions(f) <= 1
    ensures ColumnHolds(f, PropertyValues(cs, f.name)) <==> SomeProp(f, cs)
  {
    if ColumnHolds(f, PropertyValues(cs, f.name)) { ColumnToProp(f, cs); }
    if SomeProp(f, cs) { PropToColumn(f, cs); }
  }

  lemma ColumnToProp(f: Filter, cs: seq<Component>)
    requires f.PropFilter? && !f.isNotDefined && Conditions(f) <= 1 && ColumnHolds(f, PropertyValues(cs, f.name))
    ensures SomeProp(f, cs)
  {
    var values := PropertyValues(cs, f.name);
    PropertyValuesAre(cs, f.name);
    var v := values[0];
    if f.range.Some? {
      v :| v in values && v.Ical? && InRange(f.range.value, v.value);
    } else if |f.texts| == 1 {
      assert TextFound(f.texts[0], values);
      v :| v in values && v.Ical? && TextHolds(f.texts[0], v.value);
    }
    assert v in values;
    var c :| c in cs && f.name in c.props && v == Ical(c.props[f.name]);
    assert MatchProp(f, c.props) == Yes;
  }

  lemma PropToColumn(f: Filter, cs: seq<Component>)
    requires f.PropFilter? && !f.isNotDefined && Conditions(f) <= 1 && SomeProp(f, cs)
    ensures ColumnHolds(f, PropertyValues(cs, f.name))
  {
    PropertyValuesAre(cs, f.name);
    var c :| c in cs && MatchProp(f, c.props) == Yes;
    assert Ical(c.props[f.name]) in PropertyValues(cs, f.name);
    if |f.texts| == 1 { assert TextHolds(f.texts[0], c.props[f.name]); }
  }

  lemma PropAgrees(f: Filter, keys: set<Path>, cs: seq<Component>)
    requires f.PropFilter? && [P(f.name)] in keys && cs != [] && Selective(f, cs)
    ensures MatchPropIndexes(f, Indexed(keys, cs)) == Decide(SomeProp(f, cs))
  {
    PropIsColumn(f, keys, cs);
    if |cs| == 1 {
      assert cs == [cs[0]];
      PropOfOne(f, cs[0]);
    } else {
      PropOfMany(f, cs);
    }
  }

  // ----- exceptions among siblings

  lemma {:induction false} SelectivePart(f: Filter, xs: seq<Component>, ys: seq<Component>)
    requires Selective(f, xs + ys)
    ensures Selective(f, xs) && Selective(f, ys)
    decreases f
  {
    if f.CompFilter? {
      forall i | 0 <= i < |f.children|
        ensures var g := f.children[i];
          Selective(g, if g.CompFilter? then Named(xs, g.name) else xs) &&
          Selective(g, if g.CompFilter? then Named(ys, g.name) else ys)
      {
        var g := f.children[i];
        if g.CompFilter? {
          NamedConcat(xs, ys, g.name);
          SelectivePart(g, Named(xs, g.name), Named(ys, g.name));
        } else {
          SelectivePart(g, xs, ys);
        }
      }
    }
  }

  lemma {:induction false} AnyHas(f: Filter, cs: seq<Component>)
    requires f.CompFilter? && !f.isNotDefined
    ensures MatchAny(f, cs) != No ==> exists c <- OfName(cs, f.name) :: Match(f, c) == MatchAny(f, cs)
    ensures MatchAny(f, cs) == No ==> !SomeMatch(f, cs)
  {
    if cs == [] {
    } else {
      SplitMembers(cs);
      AnyHas(f, cs[1..]);
      if Match(f, cs[0]) != No { assert cs[0] in OfName(cs, f.name); }
    }
  }

  /** Two components on one path: the filter has at most one condition, and if it has a
      child its answer is the child's. */
  lemma OneCondition(f: Filter, cs: seq<Component>, c: Component)
    requires f.CompFilter? && Selective(f, cs) && |cs| > 1 && c.name == f.name
    ensures f.range.None? && |f.children| <= 1
    ensures f.children == [] ==> Match(f, c) == Yes
    ensures f.children != [] ==>
      var g := f.children[0];
      Match(f, c) == if g.CompFilter? then MatchAny(g, c.subs) else MatchProp(g, c.props)
  {
    if f.children != [] { assert MatchAll(f.children[1..], c) == Yes; }
  }

  /** Where the evaluators can be compared, a component whose test raises MissingProperty
      has no sibling that matches. */
  lemma {:induction false} MissingIsAlone(f: Filter, xs: seq<Component>, ys: seq<Component>, x: Component, y: Component)
    requires f.CompFilter? && Selective(f, xs + ys) && x in xs && y in ys
    requires x.name == y.name == f.name
    requires Match(f, x) != No && Match(f, x) != Yes
    ensures Match(f, y) != Yes
    decreases f
  {
    OneCondition(f, xs + ys, x);
    OneCondition(f, xs + ys, y);
    var g := f.children[0];
    if Match(f, y) == Yes {
      var cs := xs + ys;
      assert Selective(g, Named(cs, g.name));
      AnyHas(g, x.subs);
      AnyHas(g, y.subs);
      var s :| s in OfName(x.subs, g.name) && Match(g, s) == MatchAny(g, x.subs);
      var t :| t in OfName(y.subs, g.name) && Match(g, t) == MatchAny(g, y.subs);
      NamedConcat(xs, ys, g.name);
      NamedMember(xs, x, s, g.name);
      NamedMember(ys, y, t, g.name);
      MissingIsAlone(g, Named(xs, g.name), Named(ys, g.name), s, t);
    }
  }

  lemma {:induction false} NamedMember(cs: seq<Component>, c: Component, s: Component, name: string)
    requires c in cs && s in OfName(c.subs, name)
    ensures s in Named(cs, name)
  {
    SubsMember(cs, c, s);
  }

  lemma {:induction false} SubsMember(cs: seq<Component>, c: Component, s: Component)
    requires c in cs && s in c.subs
    ensures s in AllSubs(cs)
  {
    if c == cs[0] {
    } else {
      SplitMembers(cs);
      SubsMember(cs[1..], c, s);
    }
  }

  /** `any(...)` over subcomponents finds a match when there is one. */
  lemma {:induction false} AnyIs(f: Filter, cs: seq<Component>)
    requires f.CompFilter? && Selective(f, OfName(cs, f.name))
    ensures MatchAny(f, cs) == Yes <==> SomeMatch(f, OfName(cs, f.name))
  {
    if cs == [] {
    } else {
      var more := OfName(cs[1..], f.name);
      if cs[0].name == f.name {
        SelectivePart(f, [cs[0]], more);
        SplitMembers([cs[0]] + more);
        if Match(f, cs[0]) != Yes && Match(f, cs[0]) != No {
          forall y <- more ensures Match(f, y) != Yes { MissingIsAlone(f, [cs[0]], more, cs[0], y); }
        }
      } else {
        assert [] + more == more;
      }
      AnyIs(f, cs[1..]);
    }
  }

  // ----- the agreement

  lemma OwnColumn(ps: seq<Component>, name: string)
    ensures Values(ps, [C(name)]) == Presents(|Named(ps, name)|)
  {
    assert [C(name)][1..] == [];
    assert Values(Named(ps, name), []) == Presents(|Named(ps, name)|);
  }

  /** Where the index has no column for an absent component it comes down to its range, which
      cannot be decided, or to its children. */
  lemma AbsentIndex(f: Filter, keys: set<Path>, ps: seq<Component>, parse: RuleParser)
    requires GoodParser(parse) && f.CompFilter? && !f.isNotDefined && ImplicitlyDefined(f)
    requires Named(ps, f.name) == [] && [C(f.name)] !in keys
    ensures MatchIndexes(f, Indexed(keys, ps), parse) == if f.range.Some? then Undecided
            else MatchAllIndexes(f.children, Indexed(Strip(keys, C(f.name)), []), parse)
  {
    SubindexIs(keys, ps, f.name);
    if f.range.Some? {
      EmptyIsUndecided(Strip(keys, C(f.name)), f.name, f.range.value.start, f.range.value.end, parse);
    }
  }

  /** And where it has one, to that. */
  lemma AbsentColumn(f: Filter, keys: set<Path>, ps: seq<Component>, parse: RuleParser)
    requires GoodParser(parse) && f.CompFilter? && !f.isNotDefined
    requires Named(ps, f.name) == [] && [C(f.name)] in keys
    ensures MatchIndexes(f, Indexed(keys, ps), parse) == No
  {
    OwnColumn(ps, f.name);
  }

  /** Below a component that is absent the index says no, or puts the question off. */
  lemma {:induction false} AbsentIsNo(f: Filter, keys: set<Path>, ps: seq<Component>, parse: RuleParser)
    requires GoodParser(parse) && f.CompFilter? && Covered(IndexKeys(f), keys) && Selective(f, [])
    requires Named(ps, f.name) == []
    ensures var a := MatchIndexes(f, Indexed(keys, ps), parse); a == No || a == Undecided
    decreases f
  {
    KeysOf(f, keys);
    if [C(f.name)] in keys {
      AbsentColumn(f, keys, ps, parse);
    } else {
      AbsentIndex(f, keys, ps, parse);
      AbsentChildren(f.children, Strip(keys, C(f.name)), parse);
    }
  }

  lemma {:induction false} AbsentChildren(fs: seq<Filter>, keys: set<Path>, parse: RuleParser)
    requires GoodParser(parse) && Covered(ChildKeys(fs), keys)
    requires forall i :: 0 <= i < |fs| ==> Selective(fs[i], [])
    ensures var a := MatchAllIndexes(fs, Indexed(keys, []), parse);
      && (a == Yes || a == No || a == Undecided)
      && (a == Yes ==> forall i :: 0 <= i < |fs| ==> fs[i].isNotDefined)
    decreases fs
  {
    if fs == [] {
    } else {
      CoveredParts(IndexKeys(fs[0]), ChildKeys(fs[1..]), keys);
      AbsentChildren(fs[1..], keys, parse);
      assert forall i :: 0 < i < |fs| ==> fs[i] == fs[1..][i - 1];
      if fs[0].CompFilter? {
        AbsentIsNo(fs[0], keys, [], parse);
      } else {
        assert [[P(fs[0].name)]] in IndexKeys(fs[0]);
        PropIsColumn(fs[0], keys, []);
      }
    }
  }

  /** The file's view of one child over the components of its parent's path. */
  ghost predicate ChildHolds(g: Filter, cs: seq<Component>) {
    if g.CompFilter? then SomeMatch(g, Named(cs, g.name)) else SomeProp(g, cs)
  }

  function ChildIndex(g: Filter, ix: Indexes, parse: RuleParser): Answer
    requires GoodParser(parse)
  {
    if g.CompFilter? then MatchIndexes(g, ix, parse) else MatchPropIndexes(g, ix)
  }

  lemma {:induction false} ChildAgrees(g: Filter, keys: set<Path>, cs: seq<Component>, parse: RuleParser)
    requires GoodParser(parse) && Covered(IndexKeys(g), keys) && cs != []
    requires Selective(g, if g.CompFilter? then Named(cs, g.name) else cs)
    ensures Agrees(ChildIndex(g, Indexed(keys, cs), parse), ChildHolds(g, cs))
    decreases g, 1
  {
    if g.CompFilter? {
      IndexAgrees(g, keys, cs, parse);
    } else {
      assert [[P(g.name)]] in IndexKeys(g);
      PropAgrees(g, keys, cs);
    }
  }

  /** On a path taken once, the children agree one by one. */
  lemma {:induction false} ChildrenAgree(fs: seq<Filter>, keys: set<Path>, c: Component, parse: RuleParser)
    requires GoodParser(parse) && Covered(ChildKeys(fs), keys)
    requires forall i :: 0 <= i < |fs| ==> Selective(fs[i], if fs[i].CompFilter? then Named([c], fs[i].name) else [c])
    ensures Agrees(MatchAllIndexes(fs, Indexed(keys, [c]), parse), MatchAll(fs, c) == Yes)
    decreases fs
  {
    if fs == [] {
    } else {
      var g := fs[0];
      CoveredParts(IndexKeys(g), ChildKeys(fs[1..]), keys);
      ChildAgrees(g, keys, [c], parse);
      ChildrenAgree(fs[1..], keys, c, parse);
      ChildOfOne(g, c);
    }
  }

  lemma ChildOfOne(g: Filter, c: Component)
    requires Selective(g, if g.CompFilter? then Named([c], g.name) else [c])
    ensures ChildHolds(g, [c]) <==> (if g.CompFilter? then MatchAny(g, c.subs) else MatchProp(g, c.props)) == Yes
  {
    if g.CompFilter? {
      assert AllSubs([c]) == c.subs + AllSubs([]) == c.subs;
      AnyIs(g, c.subs);
    }
  }

  /** With a single condition, some component matches just when the child holds somewhere. */
  lemma OneChildHolds(f: Filter, cs: seq<Component>)
    requires f.CompFilter? && Selective(f, cs) && |cs| > 1 && f.children != []
    requires forall c <- cs :: c.name == f.name
    ensures SomeMatch(f, cs) <==> ChildHolds(f.children[0], cs)
  {
    var g := f.children[0];
    forall c <- cs { OneCondition(f, cs, c); }
    if g.CompFilter? {
      assert Selective(g, Named(cs, g.name));
      forall c <- cs ensures Match(f, c) == Yes <==> SomeMatch(g, OfName(c.subs, g.name)) {
        PartOfNamed(g, cs, c);
        AnyIs(g, c.subs);
      }
      if SomeMatch(f, cs) {
        var c :| c in cs && Match(f, c) == Yes;
        var s :| s in OfName(c.subs, g.name) && Match(g, s) == Yes;
        NamedMember(cs, c, s, g.name);
      }
      if SomeMatch(g, Named(cs, g.name)) {
        var s :| s in Named(cs, g.name) && Match(g, s) == Yes;
        var c := NamedOwner(cs, s, g.name);
      }
    }
  }

  lemma {:induction false} NamedOwner(cs: seq<Component>, s: Component, name: string) returns (c: Component)
    requires s in Named(cs, name)
    ensures c in cs && s in OfName(c.subs, name)
  {
    if s in cs[0].subs { c := cs[0]; } else { c := NamedOwner(cs[1..], s, name); }
  }

  lemma {:induction false} PartOfNamed(g: Filter, cs: seq<Component>, c: Component)
    requires c in cs && Selective(g, Named(cs, g.name))
    ensures Selective(g, OfName(c.subs, g.name))
  {
    assert cs == [cs[0]] + cs[1..];
    NamedConcat([cs[0]], cs[1..], g.name);
    SelectivePart(g, Named([cs[0]], g.name), Named(cs[1..], g.name));
    assert AllSubs([cs[0]]) == cs[0].subs + AllSubs([]) == cs[0].subs;
    if c == cs[0] {
    } else {
      PartOfNamed(g, cs[1..], c);
    }
  }

  /** Where the component is there, the index's answer is its range's, then its children's. */
  lemma PresentIndex(f: Filter, keys: set<Path>, ps: seq<Component>, parse: RuleParser)
    requires GoodParser(parse) && f.CompFilter? && !f.isNotDefined && Covered(IndexKeys(f), keys)
    requires Named(ps, f.name) != []
    ensures var sub := Indexed(Strip(keys, C(f.name)), Named(ps, f.name));
      var a := if f.range.None? then Yes
               else MatchTimeRange(f.name, f.range.value.start, f.range.value.end, sub, parse);
      MatchIndexes(f, Indexed(keys, ps), parse) == if a != Yes then a else MatchAllIndexes(f.children, sub, parse)
  {
    KeysOf(f, keys);
    SubindexIs(keys, ps, f.name);
    OwnColumn(ps, f.name);
  }

  /** On a path taken once both evaluators test the range first, then the children. */
  lemma PartsOfOne(f: Filter, keys: set<Path>, ps: seq<Component>, c: Component, parse: RuleParser)
      returns (indexed: Answer, filed: Answer)
    requires GoodParser(parse) && f.CompFilter? && Covered(IndexKeys(f), keys) && Selective(f, [c])
    requires Named(ps, f.name) == [c] && c.name == f.name
    ensures indexed == Undecided || indexed == filed
    ensures filed != KeyError
    ensures MatchIndexes(f, Indexed(keys, ps), parse) == if indexed != Yes then indexed
            else MatchAllIndexes(f.children, Indexed(Strip(keys, C(f.name)), [c]), parse)
    ensures Match(f, c) == if filed != Yes then filed else MatchAll(f.children, c)
  {
    PresentIndex(f, keys, ps, parse);
    indexed, filed := Yes, Yes;
    if f.range.Some? {
      KeysOf(f, keys);
      assert c in [c];
      indexed, filed := RangeOfOne(f.range.value, Strip(keys, C(f.name)), c, parse);
    }
  }

  lemma RangeOfOne(r: Range, keys: set<Path>, c: Component, parse: RuleParser) returns (indexed: Answer, filed: Answer)
    requires GoodParser(parse) && Timed(c.name) && "RRULE" !in c.props && HasColumns(keys, RangeProps(c.name))
    ensures indexed == MatchTimeRange(c.name, r.start, r.end, Indexed(keys, [c]), parse)
    ensures filed == Apply(c.name, r.start, r.end, c.props)
    ensures (indexed == Undecided || indexed == filed) && filed != KeyError
  {
    RowAgrees(keys, c, r.start, r.end, parse);
    ApplyDecides(c.name, r.start, r.end, c.props);
    indexed := MatchTimeRange(c.name, r.start, r.end, Indexed(keys, [c]), parse);
    filed := Apply(c.name, r.start, r.end, c.props);
  }

  lemma {:induction false} AgreesOnOne(f: Filter, keys: set<Path>, ps: seq<Component>, c: Component, parse: RuleParser)
    requires GoodParser(parse) && f.CompFilter? && Covered(IndexKeys(f), keys) && Selective(f, [c])
    requires Named(ps, f.name) == [c] && c.name == f.name
    ensures Agrees(MatchIndexes(f, Indexed(keys, ps), parse), Match(f, c) == Yes)
    decreases f, 0, 0
  {
    KeysOf(f, keys);
    ChildrenAgree(f.children, Strip(keys, C(f.name)), c, parse);
    var indexed, filed := PartsOfOne(f, keys, ps, c, parse);
  }

  lemma {:induction false} AgreesOnMany(f: Filter, keys: set<Path>, ps: seq<Component>, parse: RuleParser)
    requires GoodParser(parse) && f.CompFilter? && Covered(IndexKeys(f), keys) && Selective(f, Named(ps, f.name))
    requires |Named(ps, f.name)| > 1
    ensures Agrees(MatchIndexes(f, Indexed(keys, ps), parse), SomeMatch(f, Named(ps, f.name)))
    decreases f, 0, 0
  {
    var cs, below := Named(ps, f.name), Strip(keys, C(f.name));
    KeysOf(f, keys);
    PresentIndex(f, keys, ps, parse);
    assert cs[0] in cs;
    OneCondition(f, cs, cs[0]);
    if f.children != [] {
      var g := f.children[0];
      CoveredParts(IndexKeys(g), ChildKeys(f.children[1..]), below);
      ChildAgrees(g, below, cs, parse);
      OneChildHolds(f, cs);
      assert MatchAllIndexes(f.children[1..], Indexed(below, cs), parse) == Yes;
    }
  }

  /** The index evaluator agrees with the file evaluator.  `ps` are the parents, so the
      components on the filter's path are Named(ps, f.name). */
  lemma {:induction false} IndexAgrees(f: Filter, keys: set<Path>, ps: seq<Component>, parse: RuleParser)
    requires GoodParser(parse) && f.CompFilter? && Covered(IndexKeys(f), keys) && Selective(f, Named(ps, f.name))
    ensures Agrees(MatchIndexes(f, Indexed(keys, ps), parse), SomeMatch(f, Named(ps, f.name)))
    decreases f, 0, 1
  {
    var cs := Named(ps, f.name);
    if cs == [] {
      AbsentIsNo(f, keys, ps, parse);
    } else if |cs| == 1 {
      assert cs == [cs[0]] && cs[0] in cs;
      AgreesOnOne(f, keys, ps, cs[0], parse);
    } else {
      AgreesOnMany(f, keys, ps, parse);
    }
  }

  // ----- filters that only ask for what is there

  /** No negated condition and no time range. */
  predicate Positive(f: Filter)
    decreases f
  {
    && !f.isNotDefined
    && (f.CompFilter? ==> f.range.None? && forall i :: 0 <= i < |f.children| ==> Positive(f.children[i]))
  }

  /** For a positive filter the index misses nothing on any calendar: it may take properties
      of different components together, never the other way round. */
  lemma {:induction false} IndexNeverMisses(f: Filter, keys: set<Path>, ps: seq<Component>, parse: RuleParser)
    requires GoodParser(parse) && f.CompFilter? && Positive(f) && Covered(IndexKeys(f), keys)
    requires SomeMatch(f, Named(ps, f.name))
    ensures MatchIndexes(f, Indexed(keys, ps), parse) == Yes
    decreases f
  {
    var cs, below := Named(ps, f.name), Strip(keys, C(f.name));
    KeysOf(f, keys);
    SubindexIs(keys, ps, f.name);
    OwnColumn(ps, f.name);
    var c :| c in cs && Match(f, c) == Yes;
    ChildrenNeverMiss(f.children, below, cs, c, parse);
  }

  lemma {:induction false} ChildrenNeverMiss(fs: seq<Filter>, keys: set<Path>, cs: seq<Component>, c: Component,
                                             parse: RuleParser)
    requires GoodParser(parse) && Covered(ChildKeys(fs), keys) && forall i :: 0 <= i < |fs| ==> Positive(fs[i])
    requires c in cs && MatchAll(fs, c) == Yes
    ensures MatchAllIndexes(fs, Indexed(keys, cs), parse) == Yes
    decreases fs
  {
    if fs == [] {
    } else {
      var g := fs[0];
      CoveredParts(IndexKeys(g), ChildKeys(fs[1..]), keys);
      ChildrenNeverMiss(fs[1..], keys, cs, c, parse);
      if g.CompFilter? {
        AnyHas(g, c.subs);
        var s :| s in OfName(c.subs, g.name) && Match(g, s) == Yes;
        NamedMember(cs, c, s, g.name);
        IndexNeverMisses(g, keys, cs, parse);
      } else {
        assert [[P(g.name)]] in IndexKeys(g);
        PropIsColumn(g, keys, cs);
        PropertyValuesAre(cs, g.name);
        assert Ical(c.props[g.name]) in PropertyValues(cs, g.name);
      }
    }
  }
}
