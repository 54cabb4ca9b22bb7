/**
 The occurrences of a recurring component, and the window they are searched in
 (`_get_event_duration`, `_normalize_dt_for_rrule` and `_expand_rrule_component` in
 xandikos/icalendar.py).
 */
module Occurrences {
  import opened Wrappers
  import opened Calendars

  const RECURRENCE_FIELDS: set<string> := {"RRULE", "EXRULE", "UNTIL", "RDATE", "EXDATE"}

  /** Whether a component is copied with its subcomponents, which depends on the version of
      icalendar: either is possible, and what is proved here holds for both. */
  const COPY_KEEPS_SUBCOMPONENTS: bool

  /** A component that is expanded; one with an RRULE but no DTSTART is skipped. */
  predicate IsRecurring(c: Component) { HasRule(c) && "DTSTART" in c.props }

  predicate HasRule(c: Component) { c.name != "VTIMEZONE" && !IsOverride(c) && "RRULE" in c.props }

  predicate IsOverride(c: Component) { "RECURRENCE-ID" in c.props }

  predicate AllDay(m: Component)
    requires IsRecurring(m)
  {
    IsDate(m.props["DTSTART"])
  }

  // ----- one occurrence

  /** The key that an override of occurrence `o` is filed under. */
  function Key(m: Component, o: int): Value
    requires IsRecurring(m)
  {
    Instant(o, AllDay(m))
  }

  /** DTEND or DUE moved along with the start. */
  function Moved(m: Component, field: string, o: int): Value
    requires IsRecurring(m) && field in m.props
  {
    Instant(o + (At(m.props[field]) - At(m.props["DTSTART"])), IsDate(m.props[field]))
  }

  /** The component generated for occurrence `o`. */
  function Occurrence(m: Component, o: int): Component
    requires IsRecurring(m)
  {
    var base := m.props - RECURRENCE_FIELDS;
    var started := base["DTSTART" := Key(m, o)];
    var ended := if "DTEND" in m.props then started["DTEND" := Moved(m, "DTEND", o)] else started;
    var due := if "DUE" in m.props then ended["DUE" := Moved(m, "DUE", o)] else ended;
    Component(m.name, due["RECURRENCE-ID" := Key(m, o)], if COPY_KEEPS_SUBCOMPONENTS then m.subs else [])
  }

  /** `_get_event_duration`. */
  function EventDuration(p: Props): Option<int> {
    if "DURATION" in p then Some(Length(p["DURATION"]))
    else if "DTEND" in p && "DTSTART" in p then Some(At(p["DTEND"]) - At(p["DTSTART"]))
    else if "DUE" in p && "DTSTART" in p then Some(At(p["DUE"]) - At(p["DTSTART"]))
    else None
  }

  /** The window start widened by the duration, clamped where a date would overflow. */
  function AdjustedStart(m: Component, start: int): int {
    var d := EventDuration(m.props);
    if d.None? || d.value == 0 then start
    else if MIN_TIME <= start - d.value <= MAX_TIME then start - d.value
    else MIN_TIME
  }

  /** `_normalize_dt_for_rrule`: an all-day master is searched from midnight. */
  function Normalized(m: Component, t: int): int
    requires IsRecurring(m)
  {
    if AllDay(m) then (t / DAY) * DAY else t
  }

  // ----- when widening is enough

  /** A master as RFC 5545 has it: a VEVENT ends by DTEND or by DURATION, a VTODO by DUE and
      its DURATION is not negative, a VJOURNAL has no end. */
  predicate Conforms(m: Component) {
    && (m.name == "VEVENT" ==> "DUE" !in m.props && !("DTEND" in m.props && "DURATION" in m.props))
    && (m.name == "VTODO" ==> "DTEND" !in m.props && ("DURATION" in m.props ==> 0 <= Length(m.props["DURATION"])))
    && (m.name == "VJOURNAL" ==> "DTEND" !in m.props && "DUE" !in m.props && "DURATION" !in m.props)
  }

  /** How long after an occurrence starts a range may start and still overlap it. */
  function Reach(m: Component): int
    requires IsRecurring(m)
  {
    var s := At(m.props["DTSTART"]);
    if m.name == "VEVENT" && "DTEND" in m.props then At(m.props["DTEND"]) - s - 1
    else if m.name == "VEVENT" && "DURATION" in m.props then Length(m.props["DURATION"]) - 1
    else if m.name == "VTODO" && "DURATION" in m.props && "DUE" !in m.props then Length(m.props["DURATION"])
    else if m.name == "VTODO" && "DUE" in m.props && "DURATION" !in m.props then At(m.props["DUE"]) - s - 1
    else if m.name != "VTODO" && AllDay(m) then DAY - 1
    else 0
  }

  /** By how much the window is widened. */
  function Widening(m: Component): int {
    if EventDuration(m.props).Some? then EventDuration(m.props).value else 0
  }

  /** The window is widened by no less than occurrences reach, the start of the day counting
      for those of whole days; and no occurrence overlaps a range that ends before it. */
  predicate Wide(m: Component)
    requires IsRecurring(m)
  {
    && Reach(m) - Widening(m) <= (if AllDay(m) then DAY - 1 else 0)
    && !EndsBeforeStart(m)
  }

  /** A task whose DURATION takes it back in time. */
  predicate EndsBeforeStart(m: Component) {
    m.name == "VTODO" && "DURATION" in m.props && "DUE" !in m.props && Length(m.props["DURATION"]) < 0
  }

  /** An instant at which `m` can recur: whole days, if it is of days. */
  predicate IsInstant(m: Component, o: int)
    requires IsRecurring(m)
  {
    MIN_TIME <= o && (AllDay(m) ==> o % DAY == 0)
  }

  /** The inclusive window that occurrences are searched in. */
  predicate InWindow(m: Component, o: int, start: int, end: int)
    requires IsRecurring(m)
  {
    Normalized(m, AdjustedStart(m, start)) <= o <= Normalized(m, end)
  }

  lemma ConformingIsWide(m: Component)
    requires IsRecurring(m) && Timed(m.name) && Conforms(m)
    ensures Wide(m)
  {
  }

  /** Widening loses nothing: wherever in the sequence an occurrence lies, if it overlaps
      the range it is inside the inclusive widened window. */
  lemma WideningLosesNothing(m: Component, o: int, start: int, end: int)
    requires IsRecurring(m) && WellTyped(m.props) && Timed(m.name) && Wide(m) && IsInstant(m, o)
    requires Overlaps(Occurrence(m, o), start, end)
    ensures InWindow(m, o, start, end)
  {
    OverlapReaches(m, o, start, end);
  }

  lemma OverlapReaches(m: Component, o: int, start: int, end: int)
    requires IsRecurring(m) && WellTyped(m.props) && Timed(m.name) && !EndsBeforeStart(m)
    requires Overlaps(Occurrence(m, o), start, end)
    ensures start <= o + Reach(m) && o <= end
  {
    OccurrenceProps(m, o);
  }

  lemma OccurrenceProps(m: Component, o: int)
    requires IsRecurring(m)
    ensures var p := Occurrence(m, o).props;
      && At(p["DTSTART"]) == o && IsDate(p["DTSTART"]) == AllDay(m)
      && ("DURATION" in p <==> "DURATION" in m.props) && ("DURATION" in p ==> p["DURATION"] == m.props["DURATION"])
      && ("DTEND" in p <==> "DTEND" in m.props) && ("DTEND" in p ==> p["DTEND"] == Moved(m, "DTEND", o))
      && ("DUE" in p <==> "DUE" in m.props) && ("DUE" in p ==> p["DUE"] == Moved(m, "DUE", o))
  {
  }

  /** And only then: a master that is not wide loses every occurrence to some range, as far
      as times can be written. */
  lemma NarrowWindowLoses(m: Component, o: int) returns (start: int, end: int)
    requires IsRecurring(m) && WellTyped(m.props) && Timed(m.name) && !Wide(m) && IsInstant(m, o)
    requires MIN_TIME < o + Reach(m) && Max(o, o + Reach(m)) < MAX_TIME && o + Reach(m) - Widening(m) <= MAX_TIME
    ensures MIN_TIME <= start < end <= MAX_TIME
    ensures Overlaps(Occurrence(m, o), start, end) && !InWindow(m, o, start, end)
  {
    OccurrenceProps(m, o);
    if EndsBeforeStart(m) {
      start, end := o + Length(m.props["DURATION"]) - 1, o - 1;
    } else {
      start := o + Reach(m);
      end := Max(o, start) + 1;
    }
  }
}
