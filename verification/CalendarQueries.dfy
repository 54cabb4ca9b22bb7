/**
 A whole calendar query on a file and on its index (CalendarFilter and
 `ICalendarFile.get_expanded_calendar` in xandikos/icalendar.py).
 */
module CalendarQueries {
  import opened Wrappers
  import opened Seqs
  import opened Calendars
  import opened RuleSets
  import opened Recurrences
  import opened Occurrences
  import opened Expansion
  import opened IndexRows
  import opened Indexing
  import opened IndexedTimeRanges
  import opened Filters
  import opened FilterAgreement
  import opened FilterLimits

  /** `_find_time_range`: the first time range of the component filters, depth first. */
  function FirstRange(fs: seq<Filter>): Option<Range>
    decreases fs
  {
    if fs == [] then None
    else if fs[0].PropFilter? then FirstRange(fs[1..])
    else if fs[0].range.Some? then fs[0].range
    else
      var nested := FirstRange(fs[0].children);
      if nested.Some? then nested else FirstRange(fs[1..])
  }

  /** `_has_recurrence`. */
  predicate HasRecurrence(cal: Component) {
    exists c <- cal.subs :: "RRULE" in c.props || "RECURRENCE-ID" in c.props
  }

  /** The recurrence set of the component that recurs, if one does. */
  function SetOf(subs: seq<Component>, parse: RuleParser): (r: Rule)
    requires GoodParser(parse)
    ensures r.Increasing()
  {
    if Master(subs).Some? then parse.ruleSet(Master(subs).value) else Rule((i: nat) => i, Some(0))
  }

  /** The calendar a query looks at: if it recurs, expanded over the query's range, with its
      overrides.  None stands for the MissingProperty that this can raise. */
  function Viewed(fs: seq<Filter>, cal: Component, parse: RuleParser): Option<Component>
    requires GoodParser(parse)
  {
    var range := FirstRange(fs);
    if range.None? || !HasRecurrence(cal) then Some(cal)
    else if Raises(cal.subs) then None
    else
      Some(cal.(subs := ExpandedCalendar(cal.subs, SetOf(cal.subs, parse), range.value.start, range.value.end)))
  }

  /** Every filter matches the calendar looked at. */
  predicate CheckAll(fs: seq<Filter>, cal: Component)
    requires forall i :: 0 <= i < |fs| ==> fs[i].CompFilter?
  {
    fs == [] || (Match(fs[0], cal) == Yes && CheckAll(fs[1..], cal))
  }

  /** `CalendarFilter.check`; it holds of no calendar on which it raises. */
  predicate Check(fs: seq<Filter>, cal: Component, parse: RuleParser)
    requires GoodParser(parse) && forall i :: 0 <= i < |fs| ==> fs[i].CompFilter?
  {
    var view := Viewed(fs, cal, parse);
    view.Some? && CheckAll(fs, view.value)
  }

  /** `CalendarFilter.check_from_indexes`: a missing property means no. */
  function CheckFromIndexes(fs: seq<Filter>, ix: Indexes, parse: RuleParser): Answer
    requires GoodParser(parse) && forall i :: 0 <= i < |fs| ==> fs[i].CompFilter?
  {
    if fs == [] then Yes
    else
      var a := MatchIndexes(fs[0], ix, parse);
      if a == Yes then CheckFromIndexes(fs[1..], ix, parse)
      else if a == Missing then No
      else a
  }

  /** The answers a query may get from the index of a file for which it holds or not. */
  ghost predicate Sound(a: Answer, holds: bool) { a == Undecided || a == Decide(holds) }

  /** Non-recurring calendars on which every filter is comparable. */
  ghost predicate Settled(fs: seq<Filter>, cal: Component) {
    && (FirstRange(fs).Some? ==> !HasRecurrence(cal))
    && forall i :: 0 <= i < |fs| ==> fs[i].CompFilter? && Selective(fs[i], OfName([cal], fs[i].name))
  }

  lemma {:induction false} SettledAgrees(fs: seq<Filter>, cal: Component, keys: set<Path>, parse: RuleParser)
    requires GoodParser(parse) && Covered(ChildKeys(fs), keys)
    requires forall i :: 0 <= i < |fs| ==> fs[i].CompFilter? && Selective(fs[i], OfName([cal], fs[i].name))
    ensures Sound(CheckFromIndexes(fs, Indexed(keys, [Root(cal)]), parse), CheckAll(fs, cal))
  {
    if fs == [] {
    } else {
      var f := fs[0];
      CoveredParts(IndexKeys(f), ChildKeys(fs[1..]), keys);
      assert AllSubs([Root(cal)]) == [cal];
      IndexAgrees(f, keys, [Root(cal)], parse);
      assert SomeMatch(f, OfName([cal], f.name)) <==> Match(f, cal) == Yes by {
        if Match(f, cal) == Yes { assert cal in OfName([cal], f.name); }
      }
      SettledAgrees(fs[1..], cal, keys, parse);
    }
  }

  // ----- one recurring component under a time-range query

  /** What an occurrence does not take over from its master as it is. */
  const REWRITTEN: set<string> := RECURRENCE_FIELDS + {"DTSTART", "DTEND", "DUE", "RECURRENCE-ID"}

  /** The query for the components `name` in a range that meet the further conditions. */
  function RangeFilter(name: string, range: Range, children: seq<Filter>): Filter {
    CompFilter(name, false, Some(range), children)
  }

  function RangeQuery(name: string, range: Range, children: seq<Filter>): seq<Filter> {
    [CompFilter("VCALENDAR", false, None, [RangeFilter(name, range, children)])]
  }

  /** Further conditions that every occurrence meets or fails with its master, and that the
      index can be asked for; on subcomponents only if occurrences have them. */
  ghost predicate Invariant(children: seq<Filter>, m: Component) {
    forall i :: 0 <= i < |children| ==>
      && RangeFree(children[i])
      && (if children[i].PropFilter? then children[i].name !in REWRITTEN else COPY_KEEPS_SUBCOMPONENTS)
      && Selective(children[i], if children[i].CompFilter? then Named([m], children[i].name) else [m])
  }

  /** A calendar in which only `m` recurs, and has its name to itself; beside it there may be
      time zones, and components that neither recur nor override. */
  ghost predicate Lone(cal: Component, m: Component) {
    && cal.name == "VCALENDAR" && m in cal.subs && OfName(cal.subs, m.name) == [m]
    && Master(cal.subs) == Some(m)
    && (forall i, j :: 0 <= i < j < |cal.subs| ==> !(IsRecurring(cal.subs[i]) && IsRecurring(cal.subs[j])))
    && (forall c <- cal.subs :: !IsOverride(c))
  }

  lemma {:induction false} NoOverrides(subs: seq<Component>)
    requires forall c <- subs :: !IsOverride(c)
    ensures Overrides(subs) == map[] && Filed(subs) == []
  {
    if subs == [] {
    } else {
      SplitLast(subs);
      NoOverrides(subs[..|subs| - 1]);
    }
  }

  // ----- on the file

  lemma {:induction false} SameOnOccurrence(fs: seq<Filter>, m: Component, o: int)
    requires IsRecurring(m)
    requires forall i :: 0 <= i < |fs| ==>
      if fs[i].PropFilter? then fs[i].name !in REWRITTEN else COPY_KEEPS_SUBCOMPONENTS
    ensures MatchAll(fs, Occurrence(m, o)) == MatchAll(fs, m)
  {
    if fs == [] {
    } else {
      SameOnOccurrence(fs[1..], m, o);
      if fs[0].PropFilter? { UntouchedProp(fs[0].name, m, o); }
    }
  }

  lemma UntouchedProp(n: string, m: Component, o: int)
    requires IsRecurring(m) && n !in REWRITTEN
    ensures n in Occurrence(m, o).props <==> n in m.props
    ensures n in m.props ==> Occurrence(m, o).props[n] == m.props[n]
  {
  }

  /** An occurrence that the expansion yields meets the filter when its master meets the
      further conditions. */
  lemma YieldedMatches(m: Component, r: Rule, range: Range, children: seq<Filter>, x: Component)
    requires IsRecurring(m) && r.Increasing() && Invariant(children, m)
    requires x in Expanded(m, map[], Searched(m, r, range.start, range.end), range.start, range.end)
    ensures Match(RangeFilter(m.name, range, children), x) == MatchAll(children, m)
    ensures x.name == m.name
  {
    var occs := Searched(m, r, range.start, range.end);
    ExpandedMembers(m, map[], occs, range.start, range.end);
    var o :| o in occs && x == Instance(m, map[], o);
    SameOnOccurrence(children, m, o);
  }

  /** The view of such a calendar: what is copied, and what the recurring component yields. */
  lemma ViewOfLone(fs: seq<Filter>, m: Component, range: Range, cal: Component, parse: RuleParser)
    requires GoodParser(parse) && IsRecurring(m) && Lone(cal, m) && FirstRange(fs) == Some(range)
    ensures Viewed(fs, cal, parse) ==
      Some(cal.(subs := Assembled(cal.subs, parse.ruleSet(m), map[], range.start, range.end)))
    ensures forall x :: x in Assembled(cal.subs, parse.ruleSet(m), map[], range.start, range.end) <==>
      (x in cal.subs && Copied(x)) ||
      x in Expanded(m, map[], Searched(m, parse.ruleSet(m), range.start, range.end), range.start, range.end)
  {
    NoOverrides(cal.subs);
    AssembledIs(cal.subs, parse.ruleSet(m), map[], range.start, range.end);
    assert HasRecurrence(cal) && SetOf(cal.subs, parse) == parse.ruleSet(m);
    assert ExpandedCalendar(cal.subs, parse.ruleSet(m), range.start, range.end) ==
      Assembled(cal.subs, parse.ruleSet(m), map[], range.start, range.end);
  }

  lemma FirstOfQuery(name: string, range: Range, children: seq<Filter>)
    ensures FirstRange(RangeQuery(name, range, children)) == Some(range)
  {
    assert FirstRange(RangeQuery(name, range, children)[0].children) == Some(range);
  }

  /** The file comes down to whether the expansion leaves anything and the master meets the
      further conditions. */
  lemma PlainViewed(m: Component, range: Range, children: seq<Filter>, cal: Component, parse: RuleParser)
    requires GoodParser(parse) && IsRecurring(m) && Lone(cal, m) && Invariant(children, m)
    ensures var r := parse.ruleSet(m);
      Check(RangeQuery(m.name, range, children), cal, parse) <==>
      Expanded(m, map[], Searched(m, r, range.start, range.end), range.start, range.end) != [] &&
      MatchAll(children, m) == Yes
  {
    var r, fs := parse.ruleSet(m), RangeQuery(m.name, range, children);
    var inner := RangeFilter(m.name, range, children);
    var xs := Expanded(m, map[], Searched(m, r, range.start, range.end), range.start, range.end);
    FirstOfQuery(m.name, range, children);
    ViewOfLone(fs, m, range, cal, parse);
    var view := Viewed(fs, cal, parse).value;
    MatchAllDecides(children, m);
    forall x <- view.subs ensures Match(inner, x) == if x in xs then MatchAll(children, m) else No {
      if x in xs {
        YieldedMatches(m, r, range, children, x);
      } else {
        OnlyOneOfName(cal, m, x);
      }
    }
    AnyOfDecided(inner, view.subs);
    if xs != [] { assert xs[0] in xs && xs[0] in view.subs; }
    OneChildFile(inner, view);
    OneChildFile(fs[0], view);
  }

  /** Where occurrences do not have them, no condition on a subcomponent is ever met by an
      occurrence, whatever the master has. */
  lemma SubcomponentsAreForgotten(m: Component, range: Range, g: Filter, cal: Component, parse: RuleParser)
    requires !COPY_KEEPS_SUBCOMPONENTS && GoodParser(parse) && IsRecurring(m) && Lone(cal, m) && g.CompFilter?
    ensures !Check(RangeQuery(m.name, range, [g]), cal, parse)
  {
    var r, fs := parse.ruleSet(m), RangeQuery(m.name, range, [g]);
    var inner := RangeFilter(m.name, range, [g]);
    var occs := Searched(m, r, range.start, range.end);
    FirstOfQuery(m.name, range, [g]);
    ViewOfLone(fs, m, range, cal, parse);
    ExpandedMembers(m, map[], occs, range.start, range.end);
    var view := Viewed(fs, cal, parse).value;
    forall x <- view.subs ensures Match(inner, x) == No {
      if x in Expanded(m, map[], occs, range.start, range.end) {
        assert x.subs == [] && MatchAny(g, x.subs) == No;
      } else {
        OnlyOneOfName(cal, m, x);
      }
    }
    AnyOfDecided(inner, view.subs);
    OneChildFile(inner, view);
    OneChildFile(fs[0], view);
  }

  lemma OnlyOneOfName(cal: Component, m: Component, x: Component)
    requires IsRecurring(m) && Lone(cal, m) && x in cal.subs && Copied(x)
    ensures x.name != m.name
  {
    assert forall y :: y in OfName(cal.subs, m.name) ==> y == m;
  }

  // ----- and on the index

  /** The recurrence set, too, gives instants that no window can lose. */
  ghost predicate PlainSet(m: Component, parse: RuleParser) {
    GoodMaster(m, parse.ruleSet(m)) && Timely(m, parse.ruleSet(m))
  }

  /** What a plain recurring component's file answers: whether some kept occurrence of the
      whole set overlaps, and the further conditions are met. */
  lemma FileIsSet(m: Component, range: Range, children: seq<Filter>, cal: Component, parse: RuleParser)
    requires GoodParser(parse) && IsRecurring(m) && Lone(cal, m) && Invariant(children, m)
    requires Plain(m, RuleOf(m, parse), parse) && PlainSet(m, parse) && range.start <= MAX_TIME
    ensures Check(RangeQuery(m.name, range, children), cal, parse) <==>
      SomeOverlap(m, parse.ruleSet(m), range.start, range.end) && MatchAll(children, m) == Yes
  {
    var r := parse.ruleSet(m);
    var occs := Searched(m, r, range.start, range.end);
    var xs := Expanded(m, map[], occs, range.start, range.end);
    PlainViewed(m, range, children, cal, parse);
    CandidateDecides(m, r, range.start, range.end);
    ExpandedMembers(m, map[], occs, range.start, range.end);
    if o :| o in occs && Overlaps(Occurrence(m, o), range.start, range.end) {
      assert Instance(m, map[], o) in xs;
    }
    if xs != [] { assert xs[0] in xs; }
  }

  /** The range meets some occurrence of the rule just when it meets some that EXDATE, RDATE
      and EXRULE leave; or the further conditions are not met anyway. */
  ghost predicate MeetsAlike(m: Component, range: Range, children: seq<Filter>, parse: RuleParser)
    requires IsRecurring(m)
  {
    MatchAll(children, m) == Yes ==>
      (SomeOverlap(m, RuleOf(m, parse), range.start, range.end) <==>
       SomeOverlap(m, parse.ruleSet(m), range.start, range.end))
  }

  lemma AloneMeetsAlike(m: Component, range: Range, children: seq<Filter>, parse: RuleParser)
    requires GoodParser(parse) && IsRecurring(m) && RuleAlone(m) && Plain(m, RuleOf(m, parse), parse)
    ensures PlainSet(m, parse) && MeetsAlike(m, range, children, parse)
  {
    AloneIsRule(m, parse);
  }

  /** Under a range query with further conditions, index and file agree on a plain recurring
      component exactly when the range meets rule and recurrence set alike. */
  lemma AgreeJustWhen(m: Component, range: Range, children: seq<Filter>, cal: Component, keys: set<Path>,
                      parse: RuleParser)
    requires GoodParser(parse) && IsRecurring(m) && Lone(cal, m) && Invariant(children, m)
    requires Plain(m, RuleOf(m, parse), parse) && PlainSet(m, parse) && MIN_TIME <= range.start <= MAX_TIME
    requires Covered(ChildKeys(RangeQuery(m.name, range, children)), keys)
    ensures CheckFromIndexes(RangeQuery(m.name, range, children), Indexed(keys, [Root(cal)]), parse) ==
            Decide(Check(RangeQuery(m.name, range, children), cal, parse)) <==>
      MeetsAlike(m, range, children, parse)
  {
    FileIsSet(m, range, children, cal, parse);
    PlainIndexed(m, range, children, cal, keys, parse);
  }

  /** In particular they agree outright where the recurrence set is the rule alone. */
  lemma PlainAgrees(m: Component, range: Range, children: seq<Filter>, cal: Component, keys: set<Path>,
                    parse: RuleParser)
    requires GoodParser(parse) && IsRecurring(m) && Lone(cal, m) && Invariant(children, m)
    requires Plain(m, RuleOf(m, parse), parse) && RuleAlone(m) && MIN_TIME <= range.start <= MAX_TIME
    requires Covered(ChildKeys(RangeQuery(m.name, range, children)), keys)
    ensures CheckFromIndexes(RangeQuery(m.name, range, children), Indexed(keys, [Root(cal)]), parse) ==
            Decide(Check(RangeQuery(m.name, range, children), cal, parse))
  {
    AloneMeetsAlike(m, range, children, parse);
    AgreeJustWhen(m, range, children, cal, keys, parse);
  }

  /** The conditions on the columns of the one component are those on the component. */
  lemma ChildrenDecide(children: seq<Filter>, m: Component, keys: set<Path>, parse: RuleParser)
    requires GoodParser(parse) && Invariant(children, m) && Covered(ChildKeys(children), keys)
    ensures MatchAllIndexes(children, Indexed(keys, [m]), parse) == Decide(MatchAll(children, m) == Yes)
  {
    ColumnsDecideAll(children, keys, [m], parse);
    ChildrenAgree(children, keys, m, parse);
  }

  lemma OneChildKeys(f: Filter, keys: set<Path>)
    requires Covered(ChildKeys([f]), keys)
    ensures Covered(IndexKeys(f), keys)
  {
    assert ChildKeys([f]) == IndexKeys(f) + ChildKeys([f][1..]);
    CoveredParts(IndexKeys(f), ChildKeys([f][1..]), keys);
  }

  lemma OneChildIndex(f: Filter, ix: Indexes, parse: RuleParser)
    requires GoodParser(parse) && f.CompFilter?
    ensures MatchAllIndexes([f], ix, parse) == MatchIndexes(f, ix, parse)
    ensures MatchIndexes(f, ix, parse) == Yes || MatchIndexes(f, ix, parse) == No ==>
      CheckFromIndexes([f], ix, parse) == MatchIndexes(f, ix, parse)
  {
    assert MatchAllIndexes([f][1..], ix, parse) == Yes;
    assert CheckFromIndexes([f][1..], ix, parse) == Yes;
  }

  /** The index comes down to the time-range test on the component's columns, and the
      further conditions. */
  lemma PlainIndexed(m: Component, range: Range, children: seq<Filter>, cal: Component, keys: set<Path>,
                     parse: RuleParser)
    requires GoodParser(parse) && IsRecurring(m) && Lone(cal, m) && Invariant(children, m)
    requires Plain(m, RuleOf(m, parse), parse) && MIN_TIME <= range.start <= MAX_TIME
    requires Covered(ChildKeys(RangeQuery(m.name, range, children)), keys)
    ensures CheckFromIndexes(RangeQuery(m.name, range, children), Indexed(keys, [Root(cal)]), parse) ==
      Decide(SomeOverlap(m, RuleOf(m, parse), range.start, range.end) && MatchAll(children, m) == Yes)
  {
    var inner := RangeFilter(m.name, range, children);
    var outer := CompFilter("VCALENDAR", false, None, [inner]);
    var mid := Strip(keys, C("VCALENDAR"));
    OneChildKeys(outer, keys);
    KeysOf(outer, keys);
    OneChildKeys(inner, mid);
    NamedOfOne(Root(cal), cal);
    PresentIndex(outer, keys, [Root(cal)], parse);
    RangeIndexed(m, range, children, cal, mid, parse);
    OneChildIndex(inner, Indexed(mid, [cal]), parse);
    OneChildIndex(outer, Indexed(keys, [Root(cal)]), parse);
  }

  lemma RangeIndexed(m: Component, range: Range, children: seq<Filter>, cal: Component, mid: set<Path>,
                     parse: RuleParser)
    requires GoodParser(parse) && IsRecurring(m) && Lone(cal, m) && Invariant(children, m)
    requires Plain(m, RuleOf(m, parse), parse) && MIN_TIME <= range.start <= MAX_TIME
    requires Covered(IndexKeys(RangeFilter(m.name, range, children)), mid)
    ensures MatchIndexes(RangeFilter(m.name, range, children), Indexed(mid, [cal]), parse) ==
      Decide(SomeOverlap(m, RuleOf(m, parse), range.start, range.end) && MatchAll(children, m) == Yes)
  {
    var inner, below := RangeFilter(m.name, range, children), Strip(mid, C(m.name));
    KeysOf(inner, mid);
    assert AllSubs([cal]) == cal.subs + AllSubs([]) == cal.subs;
    PresentIndex(inner, mid, [cal], parse);
    RecurringIndexIsExact(below, m, RuleOf(m, parse), range.start, range.end, parse);
    ChildrenDecide(children, m, below, parse);
  }

  lemma NamedOfOne(p: Component, c: Component)
    requires p.subs == [c]
    ensures Named([p], c.name) == [c]
  {
    assert AllSubs([p]) == [c] + AllSubs([]) == [c];
    assert OfName([c], c.name) == [c] + OfName([], c.name) == [c];
  }

  lemma OneChildFile(f: Filter, c: Component)
    requires f.CompFilter?
    ensures MatchAll([f], c) == MatchAny(f, c.subs) || (MatchAny(f, c.subs) != Yes && MatchAll([f], c) != Yes)
    ensures CheckAll([f], c) <==> Match(f, c) == Yes
  {
    assert MatchAll([f][1..], c) == Yes;
    assert CheckAll([f][1..], c);
  }

  /** Where every filter can be compared, the index of any keys that cover the query's gives
      the file's answer, or puts it off to the file. */
  lemma QueryAgrees(fs: seq<Filter>, cal: Component, keys: set<Path>, parse: RuleParser)
    requires GoodParser(parse) && Covered(ChildKeys(fs), keys) && Settled(fs, cal)
    ensures Sound(CheckFromIndexes(fs, Indexed(keys, [Root(cal)]), parse), Check(fs, cal, parse))
  {
    SettledAgrees(fs, cal, keys, parse);
    assert Viewed(fs, cal, parse) == Some(cal);
  }

  // ----- a day that is taken out

  function DailyMeeting(): Component {
    Component("VEVENT",
              map["DTSTART" := Instant(0, false), "DURATION" := Duration(3600), "RRULE" := Text("FREQ=DAILY"),
                  "EXDATE" := Instants([DAY])], [])
  }

  /** What the range meets: the second day of the rule, and none that is kept. */
  lemma OnlyExcludedDayMeets(parse: RuleParser)
    requires GoodParser(parse) && parse.rule("FREQ=DAILY", Instant(0, false)) == Daily()
    ensures SomeOverlap(DailyMeeting(), RuleOf(DailyMeeting(), parse), DAY, DAY + 60)
    ensures !SomeOverlap(DailyMeeting(), parse.ruleSet(DailyMeeting()), DAY, DAY + 60)
  {
    var m := DailyMeeting();
    DailyIsPlain(parse);
    assert RuleOf(m, parse).at(1) == DAY && RuleOf(m, parse).OccursFrom(0, DAY);
    assert Overlaps(Occurrence(m, DAY), DAY, DAY + 60);
    forall o | parse.ruleSet(m).Occurs(o) ensures !Overlaps(Occurrence(m, o), DAY, DAY + 60) {
      assert Recurs(m, parse, o);
      assert o % DAY == 0 && o != DAY;
    }
  }

  lemma OneMeetingIsLone(cal: Component)
    requires cal == Component("VCALENDAR", map[], [DailyMeeting()])
    ensures IsRecurring(DailyMeeting()) && Lone(cal, DailyMeeting())
  {
    var m := DailyMeeting();
    assert OfName([m], "VEVENT") == [m] + OfName([], "VEVENT") == [m];
    assert Master([m]) == Some(m);
  }

  /** An hour every day but the second, asked for on the second: the index says yes, the file
      no. */
  lemma ExcludedDayIsFound(keys: set<Path>, parse: RuleParser)
    requires GoodParser(parse) && parse.rule("FREQ=DAILY", Instant(0, false)) == Daily()
    requires Covered(ChildKeys(RangeQuery("VEVENT", Range(DAY, DAY + 60), [])), keys)
    ensures var fs := RangeQuery("VEVENT", Range(DAY, DAY + 60), []);
      var cal := Component("VCALENDAR", map[], [DailyMeeting()]);
      CheckFromIndexes(fs, Indexed(keys, [Root(cal)]), parse) == Yes && !Check(fs, cal, parse)
  {
    var cal := Component("VCALENDAR", map[], [DailyMeeting()]);
    DailyIsPlain(parse);
    OneMeetingIsLone(cal);
    OnlyExcludedDayMeets(parse);
    FileIsSet(DailyMeeting(), Range(DAY, DAY + 60), [], cal, parse);
    PlainIndexed(DailyMeeting(), Range(DAY, DAY + 60), [], cal, keys, parse);
  }

  lemma DailyIsPlain(parse: RuleParser)
    requires GoodParser(parse) && parse.rule("FREQ=DAILY", Instant(0, false)) == Daily()
    ensures var m := DailyMeeting();
      IsRecurring(m) && Plain(m, RuleOf(m, parse), parse) && PlainSet(m, parse) &&
      forall o :: RuleOf(m, parse).Occurs(o) ==> o % DAY == 0
  {
    var m := DailyMeeting();
    DailyIsGood();
    assert RuleText(m, "RRULE") == "FREQ=DAILY";
    forall o | RuleOf(m, parse).Occurs(o) ensures o % DAY == 0 && MIN_TIME <= o {
      var i: nat :| Daily().Has(i) && Daily().at(i) == o;
      assert o == i * DAY;
    }
    forall o | parse.ruleSet(m).Occurs(o) ensures MIN_TIME <= o {
      assert Recurs(m, parse, o);
    }
  }
}
