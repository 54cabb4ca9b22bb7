/**
 Index columns and the time-range test made on them (`create_subindexes` and
 `ComponentTimeRangeMatcher.match_indexes` in xandikos/icalendar.py).  The columns hold
 what the components on one path hold, one column per property.
 */
module IndexRows {
  import opened Wrappers
  import opened Seqs
  import opened Calendars
  import opened RuleSets
  import opened Recurrences
  import opened Occurrences
  import opened Expansion

  /** One segment of an index key: `C=name` or `P=name`. */
  datatype Segment = C(name: string) | P(name: string)

  /** An index key, split at its slashes; the empty path is the key None of a sub-index. */
  type Path = seq<Segment>

  /** True for a component that exists, the serialised value for a property. */
  datatype IndexValue = Present | Ical(value: Value)

  type Indexes = map<Path, seq<IndexValue>>

  /** `create_subindexes`. */
  function CreateSubindexes(ix: Indexes, base: Segment): (r: Indexes)
    ensures forall k :: k in r <==> [base] + k in ix
    ensures forall k <- r :: r[k] == ix[[base] + k]
  {
    var keys := set k <- ix | k != [] && k[0] == base :: k[1..];
    assert forall k <- ix :: k != [] ==> [k[0]] + k[1..] == k;
    assert forall k :: [base] + k in ix ==> ([base] + k)[1..] == k && k in keys;
    map k <- keys :: ix[[base] + k]
  }

  function Column(ix: Indexes, name: string): seq<IndexValue> {
    if [P(name)] in ix then ix[[P(name)]] else []
  }

  const ALL_PROPS := ["DTSTART", "DTEND", "DURATION", "CREATED", "COMPLETED", "DUE", "FREEBUSY"]

  // ----- non-recurring components: rows rebuilt from columns

  function MaxOccurrences(ix: Indexes, names: seq<string>): nat {
    if names == [] then 0
    else
      var rest := MaxOccurrences(ix, names[1..]);
      if |Column(ix, names[0])| > rest then |Column(ix, names[0])| else rest
  }

  /** The `i`th row: the `i`th value of every column that has one. */
  function Row(ix: Indexes, i: nat): Props {
    map n <- ALL_PROPS | i < |Column(ix, n)| && Column(ix, n)[i].Ical? :: Column(ix, n)[i].value
  }

  function Rows(ix: Indexes, count: nat): seq<Props> {
    if count == 0 then []
    else Rows(ix, count - 1) + if |Row(ix, count - 1)| > 0 then [Row(ix, count - 1)] else []
  }

  /** The first row that decides: a match, or a missing DTSTART. */
  function TestRows(name: string, start: int, end: int, rows: seq<Props>): Answer {
    if rows == [] then No
    else
      var a := Apply(name, start, end, rows[0]);
      if a == No then TestRows(name, start, end, rows[1..]) else a
  }

  // ----- recurring components: occurrences generated from the rule

  /** `_calculate_event_duration`. */
  function IndexedDuration(ix: Indexes, dtstart: Value): Option<int> {
    var ends := if |Column(ix, "DTEND")| > 0 then Column(ix, "DTEND") else Column(ix, "DUE");
    if |Column(ix, "DURATION")| > 0 && Column(ix, "DURATION")[0].Ical? then
      Some(Length(Column(ix, "DURATION")[0].value))
    else if |ends| > 0 && ends[0].Ical? && !IsDate(dtstart) && !IsDate(ends[0].value) then
      Some(At(ends[0].value) - At(dtstart))
    else None
  }

  function QueryStart(d: Option<int>, start: int): int {
    var length := if d.Some? then d.value else 0;
    if MIN_TIME <= start - length <= MAX_TIME then start - length else MIN_TIME
  }

  /** `_get_occurrences_in_range`; for a date the end is moved to the next midnight. */
  function OccurrencesInRange(r: Rule, dtstart: Value, queryStart: int, end: int): seq<int>
    requires r.Increasing()
  {
    if IsDate(dtstart) then
      Candidates(r, (queryStart / DAY) * DAY, (end / DAY) * DAY + (if OpenEnd(end) then 0 else DAY), OpenEnd(end))
    else Candidates(r, queryStart, end, OpenEnd(end))
  }

  /** The properties `_test_occurrences` gives occurrence `o`; a zero length is not given. */
  function Mock(name: string, ix: Indexes, dtstart: Value, d: Option<int>, o: int): Props {
    var p: Props := map["DTSTART" := Instant(o, IsDate(dtstart))];
    if |Column(ix, "DURATION")| > 0 && Column(ix, "DURATION")[0].Ical? then
      p["DURATION" := Column(ix, "DURATION")[0].value]
    else if d.Some? && d.value != 0 then
      p[(if name == "VTODO" then "DUE" else "DTEND") := Instant(o + d.value, IsDate(dtstart))]
    else p
  }

  function TestOccurrences(name: string, start: int, end: int, ix: Indexes, dtstart: Value, d: Option<int>,
                           occs: seq<int>): Answer {
    if occs == [] then No
    else
      var a := Apply(name, start, end, Mock(name, ix, dtstart, d, occs[0]));
      if a == No then TestOccurrences(name, start, end, ix, dtstart, d, occs[1..]) else a
  }

  /** `_match_indexes_with_rrule`. */
  function MatchWithRrule(name: string, start: int, end: int, ix: Indexes, parse: RuleParser): Answer
    requires GoodParser(parse)
  {
    var rules, starts := Column(ix, "RRULE"), Column(ix, "DTSTART");
    if |rules| == 0 || |starts| == 0 || !rules[0].Ical? || !starts[0].Ical? || !rules[0].value.Text? then No
    else
      var dtstart := starts[0].value;
      var r := parse.rule(rules[0].value.text, dtstart);
      var d := IndexedDuration(ix, dtstart);
      TestOccurrences(name, start, end, ix, dtstart, d, OccurrencesInRange(r, dtstart, QueryStart(d, start), end))
  }

  /** `ComponentTimeRangeMatcher.match_indexes` for a VEVENT, VTODO or VJOURNAL. */
  function MatchTimeRange(name: string, start: int, end: int, ix: Indexes, parse: RuleParser): Answer
    requires GoodParser(parse)
  {
    if |Column(ix, "RRULE")| > 0 then MatchWithRrule(name, start, end, ix, parse)
    else MatchRows(name, start, end, Rows(ix, MaxOccurrences(ix, ALL_PROPS)))
  }

  function MatchRows(name: string, start: int, end: int, rows: seq<Props>): Answer {
    if rows == [] then Undecided else TestRows(name, start, end, rows)
  }
}
