/**
 What a calendar query comes to, in plain terms: the calendar it looks at, the recurrence set
 it looks for, and the answer for an event that recurs (`CalendarFilter.check`,
 `get_expanded_calendar` and `rruleset_from_comp` in xandikos/icalendar.py; sections 3.8.5 of
 RFC 5545 and 9.9 of RFC 4791).
 */
module QueryViews {
  import opened Wrappers
  import opened Seqs
  import opened Calendars
  import opened Recurrences
  import opened RuleSets
  import opened Occurrences
  import opened Expansion
  import opened ExpandedFields
  import opened IndexRows
  import opened Indexing
  import opened IndexedTimeRanges
  import opened Filters
  import opened FilterAgreement
  import opened CalendarQueries

  // ----- the calendar looked at

  /** The time ranges of all component filters, those of a filter before those inside it. */
  function Ranges(fs: seq<Filter>): seq<Range>
    decreases fs
  {
    if fs == [] then []
    else
      (match fs[0]
       case CompFilter(_, _, range, children) => (if range.Some? then [range.value] else []) + Ranges(children)
       case PropFilter(_, _, _, _) => []) + Ranges(fs[1..])
  }

  lemma {:induction false} FirstRangeIs(fs: seq<Filter>)
    ensures FirstRange(fs) == if Ranges(fs) == [] then None else Some(Ranges(fs)[0])
    decreases fs
  {
    if fs == [] {
    } else {
      if fs[0].CompFilter? { FirstRangeIs(fs[0].children); }
      FirstRangeIs(fs[1..]);
    }
  }

  /** Without a range, or on a calendar in which nothing has an RRULE or a RECURRENCE-ID, a
      query looks at the calendar as it is. */
  lemma ViewIsCalendar(fs: seq<Filter>, cal: Component, parse: RuleParser)
    requires GoodParser(parse)
    requires Ranges(fs) == [] || forall c <- cal.subs :: "RRULE" !in c.props && "RECURRENCE-ID" !in c.props
    ensures Viewed(fs, cal, parse) == Some(cal)
  {
    FirstRangeIs(fs);
  }

  /** Otherwise it looks at the expansion over the first range, unless there is an override
      without the DTSTART that its test needs. */
  lemma ViewIsExpansion(fs: seq<Filter>, cal: Component, parse: RuleParser, c: Component)
    requires GoodParser(parse) && Ranges(fs) != []
    requires c in cal.subs && ("RRULE" in c.props || "RECURRENCE-ID" in c.props)
    ensures Viewed(fs, cal, parse).None? <==> exists k, x ::
      IsLast(cal.subs, k, x) && (x.name == "VEVENT" || x.name == "VJOURNAL") && "DTSTART" !in x.props
    ensures Viewed(fs, cal, parse).Some? ==> Viewed(fs, cal, parse).value == Component(cal.name, cal.props,
      ExpandedCalendar(cal.subs, SetOf(cal.subs, parse), Ranges(fs)[0].start, Ranges(fs)[0].end))
  {
    FirstRangeIs(fs);
    var ov := Overrides(cal.subs);
    if k :| k in ov && LacksStart(ov[k]) {
      LastIsFiled(cal.subs, k, ov[k]);
      assert IsLast(cal.subs, k, ov[k]);
    }
    if k, x :| IsLast(cal.subs, k, x) && (x.name == "VEVENT" || x.name == "VJOURNAL") && "DTSTART" !in x.props {
      LastIsFiled(cal.subs, k, x);
    }
  }

  // ----- events without a start

  /** The event lacks the DTSTART that its test needs. */
  predicate Startless(c: Component) { c.name == "VEVENT" && "DTSTART" !in c.props }

  predicate Meets(c: Component, range: Range) { c.name == "VEVENT" && Overlaps(c, range.start, range.end) }

  /** Where nothing recurs, a range query for events finds a calendar just when some event
      meets the range and no event before it lacks its DTSTART: the first such event ends the
      search, and events after it are missed. */
  lemma StartlessHides(cal: Component, range: Range, parse: RuleParser)
    requires GoodParser(parse) && cal.name == "VCALENDAR"
    requires forall c <- cal.subs :: "RRULE" !in c.props && "RECURRENCE-ID" !in c.props
    ensures Check([CompFilter("VCALENDAR", false, None, [CompFilter("VEVENT", false, Some(range), [])])], cal, parse)
      <==> exists i | 0 <= i < |cal.subs| ::
        Meets(cal.subs[i], range) && forall j :: 0 <= j < i ==> !Startless(cal.subs[j])
  {
    var inner := CompFilter("VEVENT", false, Some(range), []);
    var fs := RangeQuery("VEVENT", range, []);
    assert Ranges(fs[0].children) == [range] + Ranges([]) + Ranges([]);
    ViewIsCalendar(fs, cal, parse);
    OneChildFile(fs[0], cal);
    OneChildFile(inner, cal);
    AnyIs(range, cal.subs);
  }

  lemma {:induction false} AnyIs(range: Range, cs: seq<Component>)
    ensures MatchAny(CompFilter("VEVENT", false, Some(range), []), cs) == Yes <==>
      exists i | 0 <= i < |cs| :: Meets(cs[i], range) && forall j :: 0 <= j < i ==> !Startless(cs[j])
  {
    var f := CompFilter("VEVENT", false, Some(range), []);
    if cs == [] {
    } else {
      AnyIs(range, cs[1..]);
      MissingIsStart(cs[0], range.start, range.end);
      assert MatchAll(f.children, cs[0]) == Yes;
      if i :| 0 <= i < |cs[1..]| && Meets(cs[1..][i], range) && forall j :: 0 <= j < i ==> !Startless(cs[1..][j]) {
        if !Startless(cs[0]) {
          assert forall j :: 0 < j < i + 1 ==> cs[j] == cs[1..][j - 1];
          assert Meets(cs[i + 1], range) && forall j :: 0 <= j < i + 1 ==> !Startless(cs[j]);
        }
      }
      if i :| 0 < i < |cs| && Meets(cs[i], range) && forall j :: 0 <= j < i ==> !Startless(cs[j]) {
        assert cs[i] == cs[1..][i - 1] && forall j :: 0 <= j < i - 1 ==> cs[1..][j] == cs[j + 1];
      }
    }
  }

  // ----- the occurrences looked for

  /** What the recurrence set of a component has: the instants of its RRULE and the dates of
      its RDATE, without the dates of its EXDATE and the instants of its EXRULE. */
  ghost predicate InSet(m: Component, parse: RuleParser, o: int)
    requires "RRULE" in m.props && "DTSTART" in m.props
  {
    && (ByRule(m, "RRULE", parse, o) || Listed(m, "RDATE", o))
    && !Listed(m, "EXDATE", o) && !ByRule(m, "EXRULE", parse, o)
  }

  ghost predicate ByRule(m: Component, name: string, parse: RuleParser, o: int)
    requires "DTSTART" in m.props
  {
    name in m.props && m.props[name].Text? && parse.rule(m.props[name].text, m.props["DTSTART"]).Occurs(o)
  }

  predicate Listed(m: Component, name: string, o: int) {
    name in m.props && m.props[name].Instants? && o in m.props[name].ats
  }

  lemma SetIs(m: Component, parse: RuleParser, o: int)
    requires GoodParser(parse) && IsRecurring(m) && m.props["RRULE"].Text?
    requires "EXRULE" in m.props ==> m.props["EXRULE"].Text?
    ensures parse.ruleSet(m).Occurs(o) <==> InSet(m, parse, o)
  {
    assert parse.ruleSet(m).Occurs(o) <==> Recurs(m, parse, o);
  }

  /** An occurrence is looked at just when it begins by the end of the range, and lasts until
      its start: for its DURATION, else until its DTEND, else until its DUE. */
  lemma SearchedIs(m: Component, o: int, start: int, end: int, length: int)
    requires IsRecurring(m) && WellTyped(m.props) && !m.props["DTSTART"].isDate
    requires "DURATION" in m.props ==> length == m.props["DURATION"].seconds
    requires "DURATION" !in m.props && "DTEND" in m.props ==> length == m.props["DTEND"].at - m.props["DTSTART"].at
    requires "DURATION" !in m.props && "DTEND" !in m.props && "DUE" in m.props ==>
      length == m.props["DUE"].at - m.props["DTSTART"].at
    requires "DURATION" !in m.props && "DTEND" !in m.props && "DUE" !in m.props ==> length == 0
    requires 0 <= start - length < 315_537_897_600
    ensures InWindow(m, o, start, end) <==> start <= o + length && o <= end
  {
    assert "DTSTART" in ["DTSTART", "DTEND", "DUE", "CREATED", "COMPLETED", "RECURRENCE-ID"];
    assert "DTEND" in ["DTSTART", "DTEND", "DUE", "CREATED", "COMPLETED", "RECURRENCE-ID"];
    assert "DUE" in ["DTSTART", "DTEND", "DUE", "CREATED", "COMPLETED", "RECURRENCE-ID"];
  }

  // ----- the answer for an event that recurs

  /** An event that lasts from DTSTART to DTEND, both date-times. */
  predicate IsMeeting(m: Component) {
    && m.name == "VEVENT" && "RRULE" in m.props && m.props["RRULE"].Text? && "RECURRENCE-ID" !in m.props
    && "DTSTART" in m.props && m.props["DTSTART"].Instant? && !m.props["DTSTART"].isDate
    && "DTEND" in m.props && m.props["DTEND"].Instant? && !m.props["DTEND"].isDate
    && m.props["DTSTART"].at < m.props["DTEND"].at
    && ("EXRULE" in m.props ==> m.props["EXRULE"].Text?)
    && "DURATION" !in m.props && "DUE" !in m.props
  }

  function LengthOf(m: Component): int
    requires IsMeeting(m)
  {
    m.props["DTEND"].at - m.props["DTSTART"].at
  }

  /** Neither rule nor set goes back before times can be written, and properties are of the
      types that parsing gives them. */
  ghost predicate Writable(m: Component, parse: RuleParser)
    requires IsMeeting(m)
  {
    && WellTyped(m.props)
    && (forall o :: ByRule(m, "RRULE", parse, o) ==> 0 <= o)
    && (forall o :: Listed(m, "RDATE", o) ==> 0 <= o)
  }

  lemma MeetingIsPlain(m: Component, parse: RuleParser)
    requires GoodParser(parse) && IsMeeting(m) && Writable(m, parse)
    ensures IsRecurring(m) && Plain(m, RuleOf(m, parse), parse) && PlainSet(m, parse)
  {
    var r, s := RuleOf(m, parse), parse.ruleSet(m);
    forall o | r.Occurs(o) ensures 0 <= o { assert ByRule(m, "RRULE", parse, o); }
    forall o | s.Occurs(o) ensures 0 <= o { SetIs(m, parse, o); }
  }

  lemma MeetingOverlaps(m: Component, o: int, start: int, end: int)
    requires IsMeeting(m) && WellTyped(m.props)
    ensures Overlaps(Occurrence(m, o), start, end) <==> start < o + LengthOf(m) && o < end
  {
    OccurrenceProps(m, o);
  }

  /** The event is found by its file just when some time of its recurrence set, and of its
      length, meets the range; and by its index just when some time of its rule does. */
  lemma MeetingIsFound(m: Component, range: Range, cal: Component, keys: set<Path>, parse: RuleParser)
    requires GoodParser(parse) && IsMeeting(m) && Writable(m, parse) && Lone(cal, m)
    requires 0 <= range.start < 315_537_897_600
    ensures var fs :=
        [CompFilter("VCALENDAR", false, None, [CompFilter("VEVENT", false, Some(range), [])])];
      && (Check(fs, cal, parse) <==>
          exists o :: InSet(m, parse, o) && range.start < o + LengthOf(m) && o < range.end)
      && (Covered(ChildKeys(fs), keys) ==>
          CheckFromIndexes(fs, Indexed(keys, [Root(cal)]), parse) ==
          Decide(exists o :: ByRule(m, "RRULE", parse, o) && range.start < o + LengthOf(m) && o < range.end))
  {
    var fs := RangeQuery("VEVENT", range, []);
    MeetingIsPlain(m, parse);
    FileIsSet(m, range, [], cal, parse);
    forall o ensures parse.ruleSet(m).Occurs(o) <==> InSet(m, parse, o) { SetIs(m, parse, o); }
    forall o ensures Overlaps(Occurrence(m, o), range.start, range.end) <==>
      range.start < o + LengthOf(m) && o < range.end
    {
      MeetingOverlaps(m, o, range.start, range.end);
    }
    forall o ensures RuleOf(m, parse).Occurs(o) <==> ByRule(m, "RRULE", parse, o) {}
    if Covered(ChildKeys(fs), keys) { PlainIndexed(m, range, [], cal, keys, parse); }
  }
}
