/**
 The time-range tests against the tables of section 9.9 of RFC 4791, and against what
 overlapping means.
 */
module TimeRangeTables {
  import opened Wrappers
  import opened Calendars
  import opened Recurrences

  /** Times are times and lengths are lengths. */
  predicate Typed(p: Props) {
    && (forall n | n in p && n in ["DTSTART", "DTEND", "DUE", "CREATED", "COMPLETED"] :: p[n].Instant?)
    && ("DURATION" in p ==> p["DURATION"].Duration?)
  }

  function Time(p: Props, n: string): int
    requires Typed(p) && n in p && n in ["DTSTART", "DTEND", "DUE", "CREATED", "COMPLETED"]
  {
    p[n].at
  }

  /** The rows for VEVENT; the one for a DURATION not greater than zero is the third, and the
      last is for a DTSTART that is a date. */
  predicate VeventTable(start: int, end: int, p: Props)
    requires Typed(p) && "DTSTART" in p
  {
    var s := Time(p, "DTSTART");
    if "DTEND" in p then start < Time(p, "DTEND") && end > s
    else if "DURATION" in p && p["DURATION"].seconds > 0 then start < s + p["DURATION"].seconds && end > s
    else if "DURATION" in p then start <= s && end > s
    else if !p["DTSTART"].isDate then start <= s && end > s
    else start < s + 86_400 && end > s
  }

  /** The rows for VJOURNAL. */
  predicate VjournalTable(start: int, end: int, p: Props)
    requires Typed(p) && "DTSTART" in p
  {
    var s := Time(p, "DTSTART");
    if !p["DTSTART"].isDate then start <= s && end > s else start < s + 86_400 && end > s
  }

  /** The rows for VTODO.  No row has both DURATION and DUE; a task that does is taken for
      one with neither. */
  predicate VtodoTable(start: int, end: int, p: Props)
    requires Typed(p)
  {
    if "DTSTART" in p then
      var s := Time(p, "DTSTART");
      if "DURATION" in p && "DUE" in p then start <= s && end > s
      else if "DURATION" in p then
        start <= s + p["DURATION"].seconds && (end > s || end >= s + p["DURATION"].seconds)
      else if "DUE" in p then (start < Time(p, "DUE") || start <= s) && (end > s || end >= Time(p, "DUE"))
      else start <= s && end > s
    else if "DUE" in p then start < Time(p, "DUE") && end >= Time(p, "DUE")
    else if "COMPLETED" in p && "CREATED" in p then
      && (start <= Time(p, "CREATED") || start <= Time(p, "COMPLETED"))
      && (end >= Time(p, "CREATED") || end >= Time(p, "COMPLETED"))
    else if "COMPLETED" in p then start <= Time(p, "COMPLETED") && end >= Time(p, "COMPLETED")
    else if "CREATED" in p then end > Time(p, "CREATED")
    else true
  }

  /** An event whose DURATION is zero, or takes it back in time, and a range that begins
      where it does or on its way back. */
  predicate StartsWithin(start: int, end: int, p: Props)
    requires Typed(p) && "DTSTART" in p
  {
    var s := Time(p, "DTSTART");
    "DTEND" !in p && "DURATION" in p && s + p["DURATION"].seconds <= start <= s < end
  }

  lemma TypedTimes(p: Props, n: string)
    requires Typed(p) && n in p && n in ["DTSTART", "DTEND", "DUE", "CREATED", "COMPLETED"]
    ensures p[n].Instant? && At(p[n]) == Time(p, n) && IsDate(p[n]) == p[n].isDate
  {
  }

  lemma AllTyped(p: Props)
    requires Typed(p)
    ensures "DTSTART" in p ==> At(p["DTSTART"]) == Time(p, "DTSTART") && IsDate(p["DTSTART"]) == p["DTSTART"].isDate
    ensures "DTEND" in p ==> At(p["DTEND"]) == Time(p, "DTEND")
    ensures "DUE" in p ==> At(p["DUE"]) == Time(p, "DUE")
    ensures "CREATED" in p ==> At(p["CREATED"]) == Time(p, "CREATED")
    ensures "COMPLETED" in p ==> At(p["COMPLETED"]) == Time(p, "COMPLETED")
    ensures "DURATION" in p ==> Length(p["DURATION"]) == p["DURATION"].seconds
  {
    if "DTSTART" in p { TypedTimes(p, "DTSTART"); }
    if "DTEND" in p { TypedTimes(p, "DTEND"); }
    if "DUE" in p { TypedTimes(p, "DUE"); }
    if "CREATED" in p { TypedTimes(p, "CREATED"); }
    if "COMPLETED" in p { TypedTimes(p, "COMPLETED"); }
  }

  /** The test of a VEVENT is the table's, but for events of no length at the start of the
      range; without DTSTART there is none. */
  lemma VeventFollowsTable(start: int, end: int, p: Props)
    requires Typed(p)
    ensures "DTSTART" in p ==>
      ((Apply("VEVENT", start, end, p) == Yes <==> VeventTable(start, end, p)) <==> !StartsWithin(start, end, p))
    ensures Apply("VEVENT", start, end, p) == Missing <==> "DTSTART" !in p
  {
    AllTyped(p);
  }

  /** The test of a VJOURNAL is the table's. */
  lemma VjournalFollowsTable(start: int, end: int, p: Props)
    requires Typed(p)
    ensures "DTSTART" in p ==> (Apply("VJOURNAL", start, end, p) == Yes <==> VjournalTable(start, end, p))
    ensures Apply("VJOURNAL", start, end, p) == Missing <==> "DTSTART" !in p
  {
    AllTyped(p);
  }

  /** A range that ends where a task was created of which nothing else is known. */
  predicate EndsAtCreation(end: int, p: Props)
    requires Typed(p)
  {
    "DTSTART" !in p && "DUE" !in p && "COMPLETED" !in p && "CREATED" in p && end == Time(p, "CREATED")
  }

  /** A task due at its start or before, and a range that meets the time from the one to the
      other but does not begin before it and end after it. */
  predicate MeetsPart(start: int, end: int, p: Props)
    requires Typed(p)
  {
    && "DTSTART" in p && "DUE" in p && "DURATION" !in p
    && Time(p, "DUE") <= Time(p, "DTSTART") && start <= Time(p, "DTSTART") && Time(p, "DUE") <= end
    && (Time(p, "DUE") <= start || end <= Time(p, "DTSTART"))
  }

  /** The test of a VTODO is the table's, but for those two. */
  lemma VtodoFollowsTable(start: int, end: int, p: Props)
    requires Typed(p)
    ensures (Apply("VTODO", start, end, p) == Yes <==> VtodoTable(start, end, p)) <==>
      !EndsAtCreation(end, p) && !MeetsPart(start, end, p)
    ensures Apply("VTODO", start, end, p) != Missing
  {
    AllTyped(p);
  }

  /** A task due when it starts is missed by a range that starts with it. */
  lemma DueAtStartIsMissed(s: int, end: int)
    requires s < end
    ensures var p := map["DTSTART" := Instant(s, false), "DUE" := Instant(s, false)];
      Typed(p) && Apply("VTODO", s, end, p) == No && VtodoTable(s, end, p)
  {
  }

  /** Where a VEVENT ends, by DTEND, DURATION or the day it is on. */
  function EndOf(p: Props): int
    requires Typed(p) && "DTSTART" in p
  {
    var s := Time(p, "DTSTART");
    if "DTEND" in p then Time(p, "DTEND")
    else if "DURATION" in p then s + p["DURATION"].seconds
    else if p["DTSTART"].isDate then s + 24 * 60 * 60
    else s
  }

  /** A VEVENT of some length overlaps a range just when they have an instant in common. */
  lemma OverlapIsShared(start: int, end: int, p: Props)
    requires Typed(p) && "DTSTART" in p && Time(p, "DTSTART") < EndOf(p) && start < end
    ensures Apply("VEVENT", start, end, p) == Yes <==>
      exists t :: During(t, Time(p, "DTSTART"), EndOf(p)) && During(t, start, end)
  {
    AllTyped(p);
    var s := Time(p, "DTSTART");
    if Apply("VEVENT", start, end, p) == Yes {
      assert During(Max(s, start), s, EndOf(p)) && During(Max(s, start), start, end);
    }
  }

  predicate During(t: int, from: int, until: int) { from <= t < until }

  // ----- the bounds of time

  /** Days from the first of January of year 1 to the end of year `y`, leap years by the
      Gregorian rule. */
  function DaysThrough(y: nat): nat { 365 * y + y / 4 - y / 100 + y / 400 }

  /** Time begins with the year 1, ends with 9999, and a day has its seconds; a range that
      ends on the last day of 9999, or after, has no end. */
  lemma TimesAre(end: int)
    ensures MIN_TIME == 0 && MAX_TIME == DaysThrough(9999) * 24 * 60 * 60 - 1
    ensures OpenEnd(end) <==> end >= (DaysThrough(9999) - 1) * 24 * 60 * 60
  {
    assert DaysThrough(9999) == 3_652_059;
  }
}
