/**
 What the index answers of a filter on any calendar, and where the file is answered
 differently (ComponentFilter in xandikos/icalendar.py; section 9.7.1 of RFC 4791).
 */
module FilterLimits {
  import opened Wrappers
  import opened Seqs
  import opened Calendars
  import opened RuleSets
  import opened IndexRows
  import opened Indexing
  import opened Filters
  import opened FilterAgreement

  /** No component is asked for a time range, and a negated one for anything else. */
  predicate RangeFree(f: Filter)
    decreases f
  {
    f.CompFilter? ==>
      && f.range.None? && (f.isNotDefined ==> f.children == [])
      && forall i :: 0 <= i < |f.children| ==> RangeFree(f.children[i])
  }

  /** What the columns say of a filter below the components `ps`: each condition by itself
      is met somewhere on its path. */
  ghost predicate Denotes(f: Filter, ps: seq<Component>)
    decreases f
  {
    if f.PropFilter? then ColumnHolds(f, PropertyValues(ps, f.name))
    else
      var cs := Named(ps, f.name);
      if f.isNotDefined then cs == []
      else cs != [] && forall i :: 0 <= i < |f.children| ==> Denotes(f.children[i], cs)
  }

  lemma NothingIsDenoted(f: Filter)
    requires f.CompFilter? && ImplicitlyDefined(f)
    ensures exists i | 0 <= i < |f.children| :: !Denotes(f.children[i], [])
  {
    var i :| 0 <= i < |f.children| && !f.children[i].isNotDefined;
    assert PropertyValues([], f.children[i].name) == [] && Named([], f.children[i].name) == [];
    assert !Denotes(f.children[i], []);
  }

  /** Without time ranges the index always decides, and the keys it has beyond those needed
      make no difference: what it answers is a function of the calendar. */
  lemma {:induction false} ColumnsDecide(f: Filter, keys: set<Path>, ps: seq<Component>, parse: RuleParser)
    requires GoodParser(parse) && RangeFree(f) && Covered(IndexKeys(f), keys)
    ensures ChildIndex(f, Indexed(keys, ps), parse) == Decide(Denotes(f, ps))
    decreases f
  {
    if f.PropFilter? {
      assert [[P(f.name)]] in IndexKeys(f);
      PropIsColumn(f, keys, ps);
    } else {
      KeysOf(f, keys);
      SubindexIs(keys, ps, f.name);
      OwnColumn(ps, f.name);
      ColumnsDecideAll(f.children, Strip(keys, C(f.name)), Named(ps, f.name), parse);
      if ImplicitlyDefined(f) { NothingIsDenoted(f); }
    }
  }

  ghost predicate AllDenote(fs: seq<Filter>, cs: seq<Component>) { forall i :: 0 <= i < |fs| ==> Denotes(fs[i], cs) }

  lemma FirstDenotes(fs: seq<Filter>, cs: seq<Component>)
    requires fs != []
    ensures AllDenote(fs, cs) <==> Denotes(fs[0], cs) && AllDenote(fs[1..], cs)
  {
    assert forall i :: 0 < i < |fs| ==> fs[i] == fs[1..][i - 1];
  }

  lemma {:induction false} ColumnsDecideAll(fs: seq<Filter>, keys: set<Path>, cs: seq<Component>, parse: RuleParser)
    requires GoodParser(parse) && Covered(ChildKeys(fs), keys)
    requires forall i :: 0 <= i < |fs| ==> RangeFree(fs[i])
    ensures MatchAllIndexes(fs, Indexed(keys, cs), parse) == Decide(AllDenote(fs, cs))
    decreases fs
  {
    if fs == [] {
    } else {
      CoveredParts(IndexKeys(fs[0]), ChildKeys(fs[1..]), keys);
      ColumnsDecide(fs[0], keys, cs, parse);
      ColumnsDecideAll(fs[1..], keys, cs, parse);
      FirstDenotes(fs, cs);
    }
  }

  // ----- components that shall not be there

  lemma {:induction false} NegatedAny(f: Filter, cs: seq<Component>)
    requires f.CompFilter? && f.isNotDefined
    ensures MatchAny(f, cs) == Decide(exists s <- cs :: s.name != f.name)
  {
    if cs == [] {
    } else {
      NegatedAny(f, cs[1..]);
      SplitMembers(cs);
    }
  }

  /** A component is said not to be defined when none of that name is there; the file is
      asked for a component of another name instead.  The two come to the same exactly when
      there are subcomponents and all of them, or none of them, have the name. */
  lemma NegatedComponentAgrees(f: Filter, c: Component)
    requires f.CompFilter? && f.isNotDefined
    ensures Denotes(f, [c]) <==> forall s <- c.subs :: s.name != f.name
    ensures (MatchAny(f, c.subs) == Yes <==> Denotes(f, [c])) <==>
      c.subs != [] && ((forall s <- c.subs :: s.name == f.name) || (forall s <- c.subs :: s.name != f.name))
  {
    NegatedAny(f, c.subs);
    assert AllSubs([c]) == c.subs + AllSubs([]) == c.subs;
    var named := OfName(c.subs, f.name);
    assert named != [] ==> named[0] in named;
    assert (forall s <- c.subs :: s.name != f.name) ==> forall s :: s !in named;
    assert c.subs != [] ==> c.subs[0] in c.subs;
  }

  /** An event without alarms, asked for having none: the index says yes, the file no. */
  lemma NoAlarmsIsMissed(keys: set<Path>, parse: RuleParser)
    requires GoodParser(parse) && [C("VALARM")] in keys
    ensures var f, event := CompFilter("VALARM", true, None, []), Component("VEVENT", map[], []);
      MatchIndexes(f, Indexed(keys, [event]), parse) == Yes && MatchAny(f, event.subs) == No
  {
    var f, event := CompFilter("VALARM", true, None, []), Component("VEVENT", map[], []);
    assert AllSubs([event]) == event.subs + AllSubs([]) == [];
    OwnColumn([event], f.name);
  }

  // ----- conditions met by different components

  /** A filter that only asks for properties to be there, each with its conditions. */
  predicate Flat(f: Filter) {
    && f.CompFilter? && !f.isNotDefined && f.range.None?
    && forall i :: 0 <= i < |f.children| ==> f.children[i].PropFilter? && !f.children[i].isNotDefined
  }

  lemma {:induction false} AllProps(fs: seq<Filter>, c: Component)
    requires forall i :: 0 <= i < |fs| ==> fs[i].PropFilter?
    ensures MatchAll(fs, c) == Decide(forall i :: 0 <= i < |fs| ==> MatchProp(fs[i], c.props) == Yes)
  {
    if fs == [] {
    } else {
      AllProps(fs[1..], c);
      assert forall i :: 0 < i < |fs| ==> fs[i] == fs[1..][i - 1];
    }
  }

  /** What one component has of a property is in the column of several. */
  lemma FoundInColumn(f: Filter, props: Props, cs: seq<Component>, c: Component)
    requires f.PropFilter? && !f.isNotDefined && MatchProp(f, props) == Yes
    requires c in cs && f.name in c.props && c.props[f.name] == props[f.name]
    ensures Denotes(f, cs)
  {
    var values := PropertyValues(cs, f.name);
    PropertyValuesAre(cs, f.name);
    var v := Ical(c.props[f.name]);
    assert v in values;
    forall i | 0 <= i < |f.texts| ensures TextFound(f.texts[i], values) {
      assert v.Ical? && TextHolds(f.texts[i], v.value);
    }
  }

  lemma NamedInCalendar(cs: seq<Component>, name: string)
    requires forall c <- cs :: c.name == name
    ensures Named([Component("VCALENDAR", map[], cs)], name) == cs
  {
    var ps := [Component("VCALENDAR", map[], cs)];
    assert AllSubs(ps) == cs + AllSubs([]) == cs;
    AllOfName(cs, name);
  }

  lemma {:induction false} AllOfName(cs: seq<Component>, name: string)
    requires forall c <- cs :: c.name == name
    ensures OfName(cs, name) == cs
  {
    if cs == [] {
    } else {
      AllOfName(cs[1..], name);
    }
  }

  /** Conditions on two properties cannot be kept apart: whatever the filter, take what meets
      it and leave out the one property here and the other there.  The index, which forgets
      whose values they are, still says yes, the file no. */
  lemma SiblingsAreMixed(f: Filter, whole: Props, i: nat, j: nat) returns (cs: seq<Component>)
    requires Flat(f) && i < |f.children| && j < |f.children| && f.children[i].name != f.children[j].name
    requires MatchAll(f.children, Component(f.name, whole, [])) == Yes
    ensures |cs| == 2 && Denotes(f, [Component("VCALENDAR", map[], cs)]) && MatchAny(f, cs) == No
  {
    var p, q := f.children[i].name, f.children[j].name;
    var a, b := Component(f.name, whole - {q}, []), Component(f.name, whole - {p}, []);
    cs := [a, b];
    AllProps(f.children, Component(f.name, whole, []));
    NamedInCalendar(cs, f.name);
    forall k | 0 <= k < |f.children| ensures Denotes(f.children[k], cs) {
      FoundInColumn(f.children[k], whole, cs, if f.children[k].name == q then b else a);
    }
    LackingIsNo(f, a, j);
    LackingIsNo(f, b, i);
    assert MatchAny(f, cs[1..][1..]) == No && MatchAny(f, cs[1..]) == No;
  }

  lemma LackingIsNo(f: Filter, c: Component, k: nat)
    requires Flat(f) && k < |f.children| && c.name == f.name && f.children[k].name !in c.props
    ensures Match(f, c) == No
  {
    AllProps(f.children, c);
    assert MatchProp(f.children[k], c.props) == No;
  }

  /** Nor can a property be asked not to be there, of one component among several: with one
      that has it and one that does not, the index says no, the file yes. */
  lemma NegationIsMixed(name: string, p: Filter, v: Value) returns (cs: seq<Component>)
    requires p.PropFilter? && p.isNotDefined
    ensures var f := CompFilter(name, false, None, [p]);
      |cs| == 2 && !Denotes(f, [Component("VCALENDAR", map[], cs)]) && MatchAny(f, cs) == Yes
  {
    var f := CompFilter(name, false, None, [p]);
    var a, b := Component(name, map[p.name := v], []), Component(name, map[], []);
    cs := [a, b];
    NamedInCalendar(cs, name);
    PropertyValuesAre(cs, p.name);
    assert a in cs && Ical(v) in PropertyValues(cs, p.name);
    assert !Denotes(p, cs) && !Denotes(f.children[0], cs);
    AllProps(f.children, a);
    AllProps(f.children, b);
    assert MatchAny(f, cs[1..]) == Yes;
  }

  // ----- the same for conditions of any kind

  /** Without time ranges nothing that is tested can be missing. */
  lemma {:induction false} MatchDecides(f: Filter, c: Component)
    requires f.CompFilter? && RangeFree(f)
    ensures Match(f, c) == Yes || Match(f, c) == No
    decreases f, 0, 0
  {
    MatchAllDecides(f.children, c);
  }

  lemma {:induction false} MatchAllDecides(fs: seq<Filter>, c: Component)
    requires forall i :: 0 <= i < |fs| ==> RangeFree(fs[i])
    ensures MatchAll(fs, c) == Yes || MatchAll(fs, c) == No
    decreases fs, 0, 0
  {
    if fs == [] {
    } else {
      MatchAllDecides(fs[1..], c);
      if fs[0].CompFilter? { MatchAnyDecides(fs[0], c.subs); }
    }
  }

  lemma {:induction false} MatchAnyDecides(f: Filter, cs: seq<Component>)
    requires f.CompFilter? && RangeFree(f)
    ensures MatchAny(f, cs) == Yes || MatchAny(f, cs) == No
    decreases f, 1, |cs|
  {
    if cs == [] {
    } else {
      MatchDecides(f, cs[0]);
      MatchAnyDecides(f, cs[1..]);
    }
  }

  lemma {:induction false} AnyOfDecided(f: Filter, cs: seq<Component>)
    requires f.CompFilter? && forall c <- cs :: Match(f, c) == Yes || Match(f, c) == No
    ensures MatchAny(f, cs) == Decide(SomeMatch(f, cs))
  {
    if cs == [] {
    } else {
      SplitMembers(cs);
      AnyOfDecided(f, cs[1..]);
    }
  }

  /** The file's answer to one condition on one component. */
  function ChildMatch(g: Filter, c: Component): Answer {
    if g.CompFilter? then MatchAny(g, c.subs) else MatchProp(g, c.props)
  }

  lemma {:induction false} EachChild(fs: seq<Filter>, c: Component)
    ensures MatchAll(fs, c) == Yes <==> forall k :: 0 <= k < |fs| ==> ChildMatch(fs[k], c) == Yes
  {
    if fs == [] {
    } else {
      EachChild(fs[1..], c);
      assert forall k :: 0 < k < |fs| ==> fs[k] == fs[1..][k - 1];
    }
  }

  /** A condition that one component meets is met in the columns of all. */
  lemma {:induction false} ChildDenotes(g: Filter, cs: seq<Component>, c: Component)
    requires Positive(g) && c in cs && ChildMatch(g, c) == Yes
    ensures Denotes(g, cs)
    decreases g
  {
    if g.PropFilter? {
      FoundInColumn(g, c.props, cs, c);
    } else {
      AnyHas(g, c.subs);
      var s :| s in OfName(c.subs, g.name) && Match(g, s) == Yes;
      NamedMember(cs, c, s, g.name);
      EachChild(g.children, s);
      forall k | 0 <= k < |g.children| ensures Denotes(g.children[k], Named(cs, g.name)) {
        ChildDenotes(g.children[k], Named(cs, g.name), s);
      }
    }
  }

  lemma {:induction false} PositiveIsRangeFree(f: Filter)
    requires Positive(f)
    ensures RangeFree(f)
    decreases f
  {
    if f.PropFilter? {
    } else {
      forall i | 0 <= i < |f.children| ensures RangeFree(f.children[i]) { PositiveIsRangeFree(f.children[i]); }
    }
  }

  /** Whatever the conditions, on properties or on subcomponents to any depth: where every one
      is met by some component and no component meets them all, the index says yes and the
      file no. */
  lemma ConditionsAreMixed(f: Filter, cs: seq<Component>)
    requires f.CompFilter? && Positive(f) && cs != [] && forall c <- cs :: c.name == f.name
    requires forall k :: 0 <= k < |f.children| ==> exists c <- cs :: ChildMatch(f.children[k], c) == Yes
    requires forall c <- cs :: exists k | 0 <= k < |f.children| :: ChildMatch(f.children[k], c) != Yes
    ensures Denotes(f, [Component("VCALENDAR", map[], cs)]) && MatchAny(f, cs) == No
  {
    NamedInCalendar(cs, f.name);
    PositiveIsRangeFree(f);
    forall k | 0 <= k < |f.children| ensures Denotes(f.children[k], cs) {
      var c :| c in cs && ChildMatch(f.children[k], c) == Yes;
      ChildDenotes(f.children[k], cs, c);
    }
    forall c <- cs ensures Match(f, c) == No {
      EachChild(f.children, c);
      MatchDecides(f, c);
    }
    AnyOfDecided(f, cs);
  }

  /** For conditions on properties, each with one test at most, index and file agree exactly
      when some component meets all conditions or some condition is met by none. */
  lemma SiblingsAgreeJustWhen(f: Filter, cs: seq<Component>)
    requires Flat(f) && cs != [] && forall c <- cs :: c.name == f.name
    requires forall k :: 0 <= k < |f.children| ==> Conditions(f.children[k]) <= 1
    ensures (Denotes(f, [Component("VCALENDAR", map[], cs)]) <==> SomeMatch(f, cs)) <==>
      || (exists c <- cs :: forall k :: 0 <= k < |f.children| ==> ChildMatch(f.children[k], c) == Yes)
      || (exists k | 0 <= k < |f.children| :: forall c <- cs :: ChildMatch(f.children[k], c) != Yes)
  {
    FlatDenotes(f, cs);
    FlatMatches(f, cs);
  }

  lemma FlatDenotes(f: Filter, cs: seq<Component>)
    requires Flat(f) && cs != [] && forall c <- cs :: c.name == f.name
    requires forall k :: 0 <= k < |f.children| ==> Conditions(f.children[k]) <= 1
    ensures Denotes(f, [Component("VCALENDAR", map[], cs)]) <==>
      forall k :: 0 <= k < |f.children| ==> exists c <- cs :: ChildMatch(f.children[k], c) == Yes
  {
    NamedInCalendar(cs, f.name);
    forall k | 0 <= k < |f.children|
      ensures Denotes(f.children[k], cs) <==> exists c <- cs :: ChildMatch(f.children[k], c) == Yes
    {
      PropOfMany(f.children[k], cs);
    }
  }

  lemma FlatMatches(f: Filter, cs: seq<Component>)
    requires Flat(f) && forall c <- cs :: c.name == f.name
    ensures SomeMatch(f, cs) <==>
      exists c <- cs :: forall k :: 0 <= k < |f.children| ==> ChildMatch(f.children[k], c) == Yes
  {
    forall c <- cs
      ensures Match(f, c) == Yes <==> forall k :: 0 <= k < |f.children| ==> ChildMatch(f.children[k], c) == Yes
    {
      EachChild(f.children, c);
    }
  }

  /** Nor can two conditions on the text of one property be kept apart: one value meets the
      one, one value the other. */
  lemma TextsAreMixed(name: string, p: Filter, v: Value, w: Value) returns (cs: seq<Component>)
    requires p.PropFilter? && !p.isNotDefined && p.range.None?
    requires forall i :: 0 <= i < |p.texts| ==> TextHolds(p.texts[i], v) || TextHolds(p.texts[i], w)
    requires exists i | 0 <= i < |p.texts| :: !TextHolds(p.texts[i], v)
    requires exists i | 0 <= i < |p.texts| :: !TextHolds(p.texts[i], w)
    ensures var f := CompFilter(name, false, None, [p]);
      |cs| == 2 && Denotes(f, [Component("VCALENDAR", map[], cs)]) && MatchAny(f, cs) == No
  {
    var f := CompFilter(name, false, None, [p]);
    var a, b := Component(name, map[p.name := v], []), Component(name, map[p.name := w], []);
    cs := [a, b];
    NamedInCalendar(cs, name);
    TextsFound(p, v, w, cs, a, b);
    assert Denotes(f.children[0], cs);
    LacksText(f, a, v);
    LacksText(f, b, w);
    assert MatchAny(f, cs[1..][1..]) == No && MatchAny(f, cs[1..]) == No;
  }

  lemma TextsFound(p: Filter, v: Value, w: Value, cs: seq<Component>, a: Component, b: Component)
    requires p.PropFilter? && !p.isNotDefined && p.range.None? && a in cs && b in cs
    requires p.name in a.props && a.props[p.name] == v && p.name in b.props && b.props[p.name] == w
    requires forall i :: 0 <= i < |p.texts| ==> TextHolds(p.texts[i], v) || TextHolds(p.texts[i], w)
    ensures Denotes(p, cs)
  {
    PropertyValuesAre(cs, p.name);
    var values := PropertyValues(cs, p.name);
    assert Ical(v) in values && Ical(w) in values;
    forall i | 0 <= i < |p.texts| ensures TextFound(p.texts[i], values) {
      var x := if TextHolds(p.texts[i], v) then Ical(v) else Ical(w);
      assert x in values && x.Ical? && TextHolds(p.texts[i], x.value);
    }
  }

  lemma LacksText(f: Filter, c: Component, v: Value)
    requires Flat(f) && |f.children| == 1 && c.name == f.name
    requires f.children[0].name in c.props && c.props[f.children[0].name] == v
    requires exists i | 0 <= i < |f.children[0].texts| :: !TextHolds(f.children[0].texts[i], v)
    ensures Match(f, c) == No
  {
    AllProps(f.children, c);
    assert MatchProp(f.children[0], c.props) == No;
  }
}
