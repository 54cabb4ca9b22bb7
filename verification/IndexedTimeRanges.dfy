/**
 The time-range test on index columns against the test on the component itself
 (xandikos/icalendar.py; section 9.9 of RFC 4791).
 */
module IndexedTimeRanges {
  import opened Wrappers
  import opened Seqs
  import opened Calendars
  import opened RuleSets
  import opened Recurrences
  import opened Occurrences
  import opened Expansion
  import opened IndexRows
  import opened Indexing

  /** The properties a time range on `name` asks the index for. */
  function RangeProps(name: string): seq<string> {
    if name == "VEVENT" then ["DTSTART", "DTEND", "DURATION", "RRULE"]
    else if name == "VTODO" then ["DTSTART", "DUE", "DURATION", "CREATED", "COMPLETED", "RRULE"]
    else if name == "VJOURNAL" then ["DTSTART"]
    else ALL_PROPS
  }

  ghost predicate HasColumns(keys: set<Path>, names: seq<string>) { forall n <- names :: [P(n)] in keys }

  lemma ColumnOfOne(keys: set<Path>, c: Component, n: string)
    ensures Column(Indexed(keys, [c]), n) ==
      if [P(n)] in keys && n in c.props then [Ical(c.props[n])] else []
  {
    assert [c][1..] == [];
    assert PropertyValues([c], n) == if n in c.props then [Ical(c.props[n])] else [];
  }

  lemma {:induction false} MaxOfOne(keys: set<Path>, c: Component, names: seq<string>)
    ensures MaxOccurrences(Indexed(keys, [c]), names) <= 1
    ensures MaxOccurrences(Indexed(keys, [c]), names) == 0 <==> forall n <- names :: Column(Indexed(keys, [c]), n) == []
  {
    if names == [] {
    } else {
      SplitMembers(names);
      ColumnOfOne(keys, c, names[0]);
      MaxOfOne(keys, c, names[1..]);
    }
  }

  /** The time-range test reads only the properties the index is asked for. */
  lemma ApplyReadsRangeProps(name: string, start: int, end: int, p: Props, q: Props)
    requires Timed(name)
    requires forall n <- RangeProps(name) :: n != "RRULE" ==> (n in p <==> n in q) && (n in p ==> p[n] == q[n])
    ensures Apply(name, start, end, p) == Apply(name, start, end, q)
  {
    assert "DTSTART" in RangeProps(name);
    if name == "VEVENT" {
      assert "DTEND" in RangeProps(name) && "DURATION" in RangeProps(name);
    } else if name == "VTODO" {
      assert "DUE" in RangeProps(name) && "DURATION" in RangeProps(name);
      assert "CREATED" in RangeProps(name) && "COMPLETED" in RangeProps(name);
    }
  }

  lemma RangePropsAreProps(name: string)
    requires Timed(name)
    ensures forall n <- RangeProps(name) :: n != "RRULE" ==> n in ALL_PROPS
  {
  }

  lemma RowOfOne(keys: set<Path>, c: Component)
    ensures var row := Row(Indexed(keys, [c]), 0);
      forall n ::
        (n in row <==> n in ALL_PROPS && [P(n)] in keys && n in c.props) && (n in row ==> row[n] == c.props[n])
  {
    forall n { ColumnOfOne(keys, c, n); }
  }

  /** The component has nothing in the columns that are there. */
  ghost predicate Bare(keys: set<Path>, c: Component) { forall n <- ALL_PROPS :: n in c.props ==> [P(n)] !in keys }

  lemma RowIsBare(keys: set<Path>, c: Component)
    ensures Bare(keys, c) <==> MaxOccurrences(Indexed(keys, [c]), ALL_PROPS) == 0
    ensures Bare(keys, c) <==> Row(Indexed(keys, [c]), 0) == map[]
    ensures MaxOccurrences(Indexed(keys, [c]), ALL_PROPS) <= 1
  {
    var row := Row(Indexed(keys, [c]), 0);
    MaxOfOne(keys, c, ALL_PROPS);
    RowOfOne(keys, c);
    forall n { ColumnOfOne(keys, c, n); }
    assert Bare(keys, c) ==> forall n :: n !in row;
    assert !Bare(keys, c) ==> exists n :: n in row;
  }

  lemma MatchOfOne(keys: set<Path>, c: Component, start: int, end: int, parse: RuleParser)
    requires GoodParser(parse) && Column(Indexed(keys, [c]), "RRULE") == []
    ensures MatchTimeRange(c.name, start, end, Indexed(keys, [c]), parse) ==
      if Bare(keys, c) then Undecided else Apply(c.name, start, end, Row(Indexed(keys, [c]), 0))
  {
    RowIsBare(keys, c);
    MatchOfRow(c.name, start, end, Indexed(keys, [c]), MaxOccurrences(Indexed(keys, [c]), ALL_PROPS));
  }

  lemma MatchOfRow(name: string, start: int, end: int, ix: Indexes, n: nat)
    requires n <= 1 && (Row(ix, 0) == map[] <==> n == 0)
    ensures MatchRows(name, start, end, Rows(ix, n)) ==
      if Row(ix, 0) == map[] then Undecided else Apply(name, start, end, Row(ix, 0))
  {
    assert Rows(ix, 0) == [];
    assert n == 1 ==> Rows(ix, n) == [Row(ix, 0)];
    TestOfOne(name, start, end, Row(ix, 0));
  }

  lemma TestOfOne(name: string, start: int, end: int, row: Props)
    ensures TestRows(name, start, end, [row]) == Apply(name, start, end, row)
  {
    assert TestRows(name, start, end, [row][1..]) == No;
  }

  /** For one component without a rule, the row rebuilt from the columns gives the
      component's own answer, whatever further columns there are; or none, just when the
      component has nothing in any column. */
  lemma RowAgrees(keys: set<Path>, c: Component, start: int, end: int, parse: RuleParser)
    requires GoodParser(parse) && Timed(c.name) && "RRULE" !in c.props && HasColumns(keys, RangeProps(c.name))
    ensures MatchTimeRange(c.name, start, end, Indexed(keys, [c]), parse) ==
      if Bare(keys, c) then Undecided else Apply(c.name, start, end, c.props)
  {
    ColumnOfOne(keys, c, "RRULE");
    MatchOfOne(keys, c, start, end, parse);
    RowOfOne(keys, c);
    RangePropsAreProps(c.name);
    ApplyReadsRangeProps(c.name, start, end, Row(Indexed(keys, [c]), 0), c.props);
  }

  lemma ApplyDecides(name: string, start: int, end: int, p: Props)
    ensures var a := Apply(name, start, end, p); a == Yes || a == No || a == Missing
  {
  }

  lemma EmptyIsUndecided(keys: set<Path>, name: string, start: int, end: int, parse: RuleParser)
    requires GoodParser(parse)
    ensures MatchTimeRange(name, start, end, Indexed(keys, []), parse) == Undecided
  {
    NoColumns(keys, ALL_PROPS);
  }

  lemma {:induction false} NoColumns(keys: set<Path>, names: seq<string>)
    ensures MaxOccurrences(Indexed(keys, []), names) == 0
  {
    if names == [] {
    } else {
      NoColumns(keys, names[1..]);
    }
  }

  // ----- recurring components

  /** A timed VEVENT or VTODO with RRULE `r`, whose end, if given as DTEND or DUE, is a time
      other than its start.  The index reads nothing else of its recurrence set. */
  ghost predicate Plain(m: Component, r: Rule, parse: RuleParser) {
    && GoodMaster(m, r) && Conforms(m) && Timely(m, r) && !AllDay(m) && (m.name == "VEVENT" || m.name == "VTODO")
    && m.props["RRULE"].Text? && r == RuleOf(m, parse)
    && !("DUE" in m.props && "DURATION" in m.props)
    && (forall e :: e in m.props && e in ["DTEND", "DUE"] ==>
          !IsDate(m.props[e]) && At(m.props[e]) != At(m.props["DTSTART"]))
  }

  /** Some occurrence, anywhere in the whole sequence, overlaps the range. */
  ghost predicate SomeOverlap(m: Component, r: Rule, start: int, end: int)
    requires IsRecurring(m)
  {
    exists o :: r.Occurs(o) && Overlaps(Occurrence(m, o), start, end)
  }

  /** What ends before it starts recurs no later than times can be written. */
  ghost predicate Timely(m: Component, r: Rule) { Widening(m) < 0 ==> forall o :: r.Occurs(o) ==> o <= MAX_TIME }

  /** With two candidates before an overlapping occurrence, the second overlaps too. */
  lemma SecondCandidateDecides(m: Component, r: Rule, o: int, a: int, b: int, start: int, end: int)
    requires GoodMaster(m, r) && Conforms(m) && !AllDay(m) && !("DUE" in m.props && "DURATION" in m.props)
    requires Timely(m, r) && start <= MAX_TIME && r.Occurs(o) && r.Occurs(b)
    requires Overlaps(Occurrence(m, o), start, end)
    requires AdjustedStart(m, start) <= a < b < o
    ensures Overlaps(Occurrence(m, b), start, end)
  {
  }

  /** Some occurrence overlaps just when some candidate does, capped or not. */
  lemma CandidateDecides(m: Component, r: Rule, start: int, end: int)
    requires GoodMaster(m, r) && Conforms(m) && !AllDay(m) && !("DUE" in m.props && "DURATION" in m.props)
    requires Timely(m, r) && start <= MAX_TIME
    ensures SomeOverlap(m, r, start, end) <==>
      exists o <- Searched(m, r, start, end) :: Overlaps(Occurrence(m, o), start, end)
  {
    var occs := Searched(m, r, start, end);
    CandidatesAre(r, AdjustedStart(m, start), end, OpenEnd(end));
    if SomeOverlap(m, r, start, end) {
      var o :| r.Occurs(o) && Overlaps(Occurrence(m, o), start, end);
      WideningLosesNothing(m, o, start, end);
      if o !in occs {
        assert occs[0] in occs && occs[1] in occs;
        SecondCandidateDecides(m, r, o, occs[0], occs[1], start, end);
      }
    }
  }

  lemma MockDecides(name: string, start: int, end: int, ix: Indexes, dtstart: Value, d: Option<int>, o: int)
    requires Timed(name)
    ensures var a := Apply(name, start, end, Mock(name, ix, dtstart, d, o)); a == Yes || a == No
  {
  }

  lemma {:induction false} TestIsExists(name: string, start: int, end: int, ix: Indexes, dtstart: Value, d: Option<int>,
                                        occs: seq<int>)
    requires Timed(name)
    ensures var a := TestOccurrences(name, start, end, ix, dtstart, d, occs);
      && (a == Yes || a == No)
      && (a == Yes <==> exists o <- occs :: Apply(name, start, end, Mock(name, ix, dtstart, d, o)) == Yes)
  {
    if occs == [] {
    } else {
      SplitMembers(occs);
      MockDecides(name, start, end, ix, dtstart, d, occs[0]);
      TestIsExists(name, start, end, ix, dtstart, d, occs[1..]);
    }
  }

  function OneValue(m: Component, n: string): seq<IndexValue> {
    if n in m.props then [Ical(m.props[n])] else []
  }

  /** What the index holds of a plain recurring component. */
  lemma ColumnsOfPlain(keys: set<Path>, m: Component, n: string)
    requires HasColumns(keys, RangeProps(m.name))
    requires (m.name == "VEVENT" && "DUE" !in m.props) || (m.name == "VTODO" && "DTEND" !in m.props)
    requires n in ["DTSTART", "DTEND", "DUE", "DURATION", "RRULE"]
    ensures Column(Indexed(keys, [m]), n) == OneValue(m, n)
  {
    ColumnOfOne(keys, m, n);
    assert n in m.props ==> n in RangeProps(m.name);
  }

  lemma DurationOfColumns(ix: Indexes, m: Component)
    requires IsRecurring(m) && !AllDay(m) && WellTyped(m.props) && !("DTEND" in m.props && "DUE" in m.props)
    requires Column(ix, "DURATION") == OneValue(m, "DURATION")
    requires Column(ix, "DTEND") == OneValue(m, "DTEND") && Column(ix, "DUE") == OneValue(m, "DUE")
    requires ("DTEND" in m.props ==> !IsDate(m.props["DTEND"])) && ("DUE" in m.props ==> !IsDate(m.props["DUE"]))
    ensures IndexedDuration(ix, m.props["DTSTART"]) == EventDuration(m.props)
  {
  }

  lemma SameSearch(m: Component, r: Rule, start: int, end: int)
    requires IsRecurring(m) && !AllDay(m) && r.Increasing() && MIN_TIME <= start <= MAX_TIME
    ensures OccurrencesInRange(r, m.props["DTSTART"], QueryStart(EventDuration(m.props), start), end) ==
            Searched(m, r, start, end)
  {
  }

  /** For a plain recurring component the index answers yes just when some occurrence of
      the whole sequence overlaps, with or without an end to the query. */
  lemma RecurringIndexIsExact(keys: set<Path>, m: Component, r: Rule, start: int, end: int, parse: RuleParser)
    requires GoodParser(parse) && Plain(m, r, parse) && HasColumns(keys, RangeProps(m.name))
    requires MIN_TIME <= start <= MAX_TIME
    ensures MatchTimeRange(m.name, start, end, Indexed(keys, [m]), parse) == Decide(SomeOverlap(m, r, start, end))
  {
    var ix, dtstart := Indexed(keys, [m]), m.props["DTSTART"];
    var d := EventDuration(m.props);
    forall n | n in ["DTSTART", "DTEND", "DUE", "DURATION", "RRULE"] { ColumnsOfPlain(keys, m, n); }
    assert "DTEND" in ["DTEND", "DUE"] && "DUE" in ["DTEND", "DUE"];
    DurationOfColumns(ix, m);
    SameSearch(m, r, start, end);
    var occs := Searched(m, r, start, end);
    assert MatchTimeRange(m.name, start, end, ix, parse) == TestOccurrences(m.name, start, end, ix, dtstart, d, occs);
    TestIsExists(m.name, start, end, ix, dtstart, d, occs);
    forall o <- occs ensures Apply(m.name, start, end, Mock(m.name, ix, dtstart, d, o)) ==
                             Apply(m.name, start, end, Occurrence(m, o).props)
    {
      MockAgrees(m, ix, d, o, start, end);
    }
    CandidateDecides(m, r, start, end);
  }

  lemma MockAgrees(m: Component, ix: Indexes, d: Option<int>, o: int, start: int, end: int)
    requires IsRecurring(m) && !AllDay(m) && WellTyped(m.props)
    requires Column(ix, "DURATION") == if "DURATION" in m.props then [Ical(m.props["DURATION"])] else []
    requires d == EventDuration(m.props)
    requires (m.name == "VEVENT" && "DUE" !in m.props) || (m.name == "VTODO" && "DTEND" !in m.props)
    requires !("DTEND" in m.props && "DURATION" in m.props) && !("DUE" in m.props && "DURATION" in m.props)
    requires forall e :: e in m.props && e in ["DTEND", "DUE"] ==>
      !IsDate(m.props[e]) && At(m.props[e]) != At(m.props["DTSTART"])
    ensures Apply(m.name, start, end, Mock(m.name, ix, m.props["DTSTART"], d, o)) ==
            Apply(m.name, start, end, Occurrence(m, o).props)
  {
    assert "DTEND" in ["DTEND", "DUE"] && "DUE" in ["DTEND", "DUE"];
  }

  /** The file's answer for the same component: expanding it over the range leaves something
      just when the index says yes. */
  lemma IndexMatchesExpansion(keys: set<Path>, m: Component, r: Rule, start: int, end: int, parse: RuleParser)
    requires GoodParser(parse) && Plain(m, r, parse) && HasColumns(keys, RangeProps(m.name))
    requires MIN_TIME <= start <= MAX_TIME
    ensures MatchTimeRange(m.name, start, end, Indexed(keys, [m]), parse) ==
      Decide(Expanded(m, map[], Searched(m, r, start, end), start, end) != [])
  {
    RecurringIndexIsExact(keys, m, r, start, end, parse);
    CandidateDecides(m, r, start, end);
    var occs := Searched(m, r, start, end);
    CandidatesAre(r, AdjustedStart(m, start), end, OpenEnd(end));
    ExpandedIs(m, map[], occs, start, end);
    var xs := Expanded(m, map[], occs, start, end);
    if o :| o in occs && Overlaps(Occurrence(m, o), start, end) {
      assert Instance(m, map[], o) in xs;
    }
    if xs != [] { assert xs[0] in xs; }
  }
}
