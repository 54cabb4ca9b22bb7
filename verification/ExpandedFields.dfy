/**
 What is in an expanded calendar, property by property (`expand_calendar_rrule` and
 `_expand_rrule_component` in xandikos/icalendar.py; section 9.6.5 of RFC 4791).
 */
module ExpandedFields {
  import opened Wrappers
  import opened Seqs
  import opened Calendars
  import opened Recurrences
  import opened Occurrences
  import opened Expansion

  lemma ExpandedMember(subs: seq<Component>, r: Rule, start: int, end: int, x: Component)
    requires GoodCalendar(subs, r) && r.Increasing()
    ensures x in ExpandedCalendar(subs, r, start, end) <==>
      || (x in subs && Copied(x))
      || Yielded(Master(subs), r, Overrides(subs), x, start, end)
      || IsLeftover(Master(subs), r, Overrides(subs), x, start, end)
  {
    AssembledIs(subs, r, Overrides(subs), start, end);
    ExtraIsLeftover(subs, r, start, end);
  }

  /** What is in the output without having been in the calendar is an occurrence of the one
      component that recurs: it starts, and has its identifier, at an instant of the rule, a
      date if its master starts on one; it ends, or is due, as long after as its master; it
      has none of the recurrence properties; and whatever else, with its master's values. */
  lemma OccurrenceIs(subs: seq<Component>, r: Rule, start: int, end: int, x: Component) returns (m: Component, o: int)
    requires GoodCalendar(subs, r) && r.Increasing()
    requires x in ExpandedCalendar(subs, r, start, end) && x !in subs
    ensures m in subs && "RRULE" in m.props && "DTSTART" in m.props && "RECURRENCE-ID" !in m.props
    ensures r.Occurs(o) && x.name == m.name != "VTIMEZONE"
    ensures forall n :: n in ["RRULE", "EXRULE", "UNTIL", "RDATE", "EXDATE"] ==> n !in x.props
    ensures "DTSTART" in x.props && "RECURRENCE-ID" in x.props
    ensures x.props["DTSTART"] == x.props["RECURRENCE-ID"] ==
      Instant(o, m.props["DTSTART"].Instant? && m.props["DTSTART"].isDate)
    ensures m.props["DTSTART"].Instant?
    ensures forall n :: n in ["DTEND", "DUE"] ==> (n in x.props <==> n in m.props)
    ensures forall n :: n in ["DTEND", "DUE"] && n in m.props ==>
      && m.props[n].Instant? && x.props[n].Instant? && x.props[n].isDate == m.props[n].isDate
      && x.props[n].at - o == m.props[n].at - m.props["DTSTART"].at
    ensures forall n |
      n !in ["RRULE", "EXRULE", "UNTIL", "RDATE", "EXDATE"] && n !in ["DTSTART", "DTEND", "DUE", "RECURRENCE-ID"] ::
      (n in x.props <==> n in m.props) && (n in m.props ==> x.props[n] == m.props[n])
  {
    ExpandedMember(subs, r, start, end, x);
    m := Master(subs).value;
    MasterIs(subs);
    var occs := Searched(m, r, start, end);
    CandidatesAre(r, Normalized(m, AdjustedStart(m, start)), Normalized(m, end), OpenEnd(end));
    ExpandedMembers(m, Overrides(subs), occs, start, end);
    o :| o in occs && x == Instance(m, Overrides(subs), o);
    assert x == Occurrence(m, o);
    PropsOfOccurrence(m, o);
  }

  lemma PropsOfOccurrence(m: Component, o: int)
    requires IsRecurring(m) && WellTyped(m.props)
    ensures var p := Occurrence(m, o).props;
      && (forall n :: n in ["RRULE", "EXRULE", "UNTIL", "RDATE", "EXDATE"] ==> n !in p)
      && "DTSTART" in p && "RECURRENCE-ID" in p
      && p["DTSTART"] == p["RECURRENCE-ID"] == Instant(o, m.props["DTSTART"].Instant? && m.props["DTSTART"].isDate)
      && (forall n :: n in ["DTEND", "DUE"] ==> (n in p <==> n in m.props))
      && (forall n :: n in ["DTEND", "DUE"] && n in m.props ==>
            && m.props[n].Instant? && p[n].Instant? && p[n].isDate == m.props[n].isDate
            && p[n].at - o == m.props[n].at - m.props["DTSTART"].at)
      && (forall n |
            n !in ["RRULE", "EXRULE", "UNTIL", "RDATE", "EXDATE"] &&
            n !in ["DTSTART", "DTEND", "DUE", "RECURRENCE-ID"] ::
            (n in p <==> n in m.props) && (n in m.props ==> p[n] == m.props[n]))
  {
    assert "DTSTART" in ["DTSTART", "DTEND", "DUE", "CREATED", "COMPLETED", "RECURRENCE-ID"];
    assert "DTEND" in ["DTSTART", "DTEND", "DUE", "CREATED", "COMPLETED", "RECURRENCE-ID"];
    assert "DUE" in ["DTSTART", "DTEND", "DUE", "CREATED", "COMPLETED", "RECURRENCE-ID"];
  }

  /** Time zones, and components without RRULE and RECURRENCE-ID, are in the output as they
      were; a component with an RRULE is not, unless it is a time zone. */
  lemma OriginalsAre(subs: seq<Component>, r: Rule, start: int, end: int, c: Component)
    requires GoodCalendar(subs, r) && r.Increasing() && c in subs && "RECURRENCE-ID" !in c.props
    ensures c in ExpandedCalendar(subs, r, start, end) <==> c.name == "VTIMEZONE" || "RRULE" !in c.props
  {
    ExpandedMember(subs, r, start, end, c);
    if Master(subs).Some? {
      var m := Master(subs).value;
      CandidatesAre(r, Normalized(m, AdjustedStart(m, start)), Normalized(m, end), OpenEnd(end));
      ExpandedIds(m, Overrides(subs), Searched(m, r, start, end), start, end);
    }
  }

  /** An override is in the output just when it overlaps the range and is the last with its
      RECURRENCE-ID. */
  lemma OverridesAre(subs: seq<Component>, r: Rule, start: int, end: int, c: Component)
    requires GoodCalendar(subs, r) && r.Increasing() && c in subs && "RECURRENCE-ID" in c.props
    ensures c in ExpandedCalendar(subs, r, start, end) <==>
      Overlaps(c, start, end) && IsLast(subs, c.props["RECURRENCE-ID"], c)
  {
    var k, ov, m := c.props["RECURRENCE-ID"], Overrides(subs), Master(subs);
    ExpandedMember(subs, r, start, end, c);
    LastIsFiled(subs, k, c);
    if m.Some? {
      CandidatesAre(r, Normalized(m.value, AdjustedStart(m.value, start)), Normalized(m.value, end), OpenEnd(end));
      ExpandedMembers(m.value, ov, Searched(m.value, r, start, end), start, end);
      if IsLast(subs, k, c) && Overlaps(c, start, end) { CapSparesOverrides(m.value, r, ov, k, start, end); }
      if Yielded(m, r, ov, c, start, end) { YieldedOverride(subs, m.value, r, start, end, c); }
    } else if IsLast(subs, k, c) && Overlaps(c, start, end) {
      assert k in Leftover(m, r, ov, start, end);
    }
  }

  /** `c` is the last of the components with the RECURRENCE-ID `k`. */
  ghost predicate IsLast(subs: seq<Component>, k: Value, c: Component) { exists i :: IsLastAt(subs, k, c, i) }

  predicate HasId(c: Component, k: Value) { "RECURRENCE-ID" in c.props && c.props["RECURRENCE-ID"] == k }

  ghost predicate IsLastAt(subs: seq<Component>, k: Value, c: Component, i: int) {
    0 <= i < |subs| && subs[i] == c && HasId(c, k) && forall j :: i < j < |subs| ==> !HasId(subs[j], k)
  }

  lemma {:induction false} LastIsFiled(subs: seq<Component>, k: Value, c: Component)
    ensures (k in Overrides(subs) && Overrides(subs)[k] == c) <==> IsLast(subs, k, c)
  {
    if subs == [] {
    } else {
      var n := |subs| - 1;
      LastIsFiled(subs[..n], k, c);
      if HasId(subs[n], k) {
        assert subs[n] == c ==> IsLastAt(subs, k, c, n);
      } else {
        LastOfMore(subs, k, c);
      }
    }
  }

  lemma LastOfMore(subs: seq<Component>, k: Value, c: Component)
    requires subs != [] && !HasId(subs[|subs| - 1], k)
    ensures IsLast(subs[..|subs| - 1], k, c) <==> IsLast(subs, k, c)
  {
    var before := subs[..|subs| - 1];
    if i :| IsLastAt(before, k, c, i) { assert IsLastAt(subs, k, c, i); }
    if i :| IsLastAt(subs, k, c, i) { assert IsLastAt(before, k, c, i); }
  }

  /** What is yielded with an override's identifier is the override filed, or an occurrence
      for which none is. */
  lemma YieldedOverride(subs: seq<Component>, m: Component, r: Rule, start: int, end: int, c: Component)
    requires IsRecurring(m) && r.Increasing() && c in subs && "RECURRENCE-ID" in c.props
    requires c in Expanded(m, Overrides(subs), Searched(m, r, start, end), start, end)
    ensures IsLast(subs, c.props["RECURRENCE-ID"], c)
  {
    var ov, k := Overrides(subs), c.props["RECURRENCE-ID"];
    ExpandedMembers(m, ov, Searched(m, r, start, end), start, end);
    var o :| o in Searched(m, r, start, end) && c == Instance(m, ov, o);
    FiledIsThere(subs, c);
    LastIsFiled(subs, k, c);
  }

  lemma {:induction false} FiledIsThere(subs: seq<Component>, c: Component)
    requires c in subs && "RECURRENCE-ID" in c.props
    ensures c.props["RECURRENCE-ID"] in Overrides(subs)
  {
    var n := |subs| - 1;
    if c == subs[n] {
    } else {
      SplitLast(subs);
      FiledIsThere(subs[..n], c);
    }
  }
}
