/**
 Calendar components and the time-range tests of section 9.9 of RFC 4791
 (`apply_time_range_*` in xandikos/icalendar.py).  Instants are seconds from
 0001-01-01T00:00:00Z, and every time is read as UTC.
 */
module Calendars {
  import opened Wrappers

  const DAY := 86_400
  const MIN_TIME := 0
  const MAX_TIME := 3_652_059 * DAY - 1  // 9999-12-31T23:59:59Z

  /** A property value: a date or date-time, a list of them, a duration, or text. */
  datatype Value =
    | Instant(at: int, isDate: bool)
    | Instants(ats: seq<int>)
    | Duration(seconds: int)
    | Text(text: string)

  type Props = map<string, Value>

  /** A component holds at most one value per property. */
  datatype Component = Component(name: string, props: Props, subs: seq<Component>)

  /** The outcome of a test: Missing stands for MissingProperty, Undecided for
      InsufficientIndexDataError, KeyError for looking up a key the index lacks. */
  datatype Answer = Yes | No | Missing | Undecided | KeyError

  function Decide(b: bool): Answer { if b then Yes else No }

  function At(v: Value): int { if v.Instant? then v.at else 0 }

  function Length(v: Value): int { if v.Duration? then v.seconds else 0 }

  /** Properties of the value types that parsing gives them. */
  ghost predicate WellTyped(p: Props) {
    && (forall k :: k in p && k in ["DTSTART", "DTEND", "DUE", "CREATED", "COMPLETED", "RECURRENCE-ID"] ==>
          p[k].Instant?)
    && ("DURATION" in p ==> p["DURATION"].Duration?)
  }

  function ApplyVevent(start: int, end: int, p: Props): Answer {
    if "DTSTART" !in p then Missing
    else
      var s := At(p["DTSTART"]);
      if !(end > s) then No
      else if "DTEND" in p then Decide(start < At(p["DTEND"]))
      else if "DURATION" in p then Decide(start < s + Length(p["DURATION"]))
      else if !IsDate(p["DTSTART"]) then Decide(start <= s)
      else Decide(start < s + DAY)
  }

  predicate IsDate(v: Value) { v.Instant? && v.isDate }

  function ApplyVjournal(start: int, end: int, p: Props): Answer {
    if "DTSTART" !in p then Missing
    else
      var s := At(p["DTSTART"]);
      if !(end > s) then No
      else if !IsDate(p["DTSTART"]) then Decide(start <= s)
      else Decide(start < s + DAY)
  }

  function ApplyVtodo(start: int, end: int, p: Props): Answer {
    if "DTSTART" in p then
      var s := At(p["DTSTART"]);
      if "DURATION" in p && "DUE" !in p then
        var e := s + Length(p["DURATION"]);
        Decide(start <= e && (end > s || end >= e))
      else if "DUE" in p && "DURATION" !in p then Decide(start < At(p["DUE"]) && end > s)
      else Decide(start <= s && end > s)
    else if "DUE" in p then Decide(start < At(p["DUE"]) && end >= At(p["DUE"]))
    else if "COMPLETED" in p then
      var done := At(p["COMPLETED"]);
      if "CREATED" in p then
        var made := At(p["CREATED"]);
        Decide((start <= made || start <= done) && (end >= made || end >= done))
      else Decide(start <= done && end >= done)
    else if "CREATED" in p then Decide(end >= At(p["CREATED"]))
    else Yes
  }

  /** The components whose time-range test is modelled. */
  predicate Timed(name: string) { name == "VEVENT" || name == "VTODO" || name == "VJOURNAL" }

  /** `component_handlers[name]`. */
  function Apply(name: string, start: int, end: int, p: Props): Answer {
    if name == "VEVENT" then ApplyVevent(start, end, p)
    else if name == "VTODO" then ApplyVtodo(start, end, p)
    else if name == "VJOURNAL" then ApplyVjournal(start, end, p)
    else No
  }

  /** What `apply_time_range_vevent` and `_vjournal` cannot do without. */
  predicate LacksStart(c: Component) { (c.name == "VEVENT" || c.name == "VJOURNAL") && "DTSTART" !in c.props }

  lemma MissingIsStart(c: Component, start: int, end: int)
    ensures Apply(c.name, start, end, c.props) == Missing <==> LacksStart(c)
  {
  }

  predicate Overlaps(c: Component, start: int, end: int) { Apply(c.name, start, end, c.props) == Yes }
}
