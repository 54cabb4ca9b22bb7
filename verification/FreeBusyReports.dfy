/**
 Turning a timeline into the reported periods (`_timeline_to_periods` in
 xandikos/caldav.py) and the normal form every report is in.
 */
module FreeBusyReports {
  import opened Wrappers
  import opened Timelines

  datatype Period = Period(start: int, end: int, fbtype: string)

  /** The reported type at an instant. */
  function TypeAt(ps: seq<Period>, t: int): Option<string> {
    if ps == [] then None
    else if ps[0].start <= t < ps[0].end then Some(ps[0].fbtype)
    else TypeAt(ps[1..], t)
  }

  /** Sorted, disjoint, non-empty, never FREE, and maximal: touching neighbours differ. */
  ghost predicate NormalForm(ps: seq<Period>) {
    && (forall p <- ps :: p.start < p.end && p.fbtype != FREE)
    && (forall i, j :: 0 <= i < j < |ps| ==> ps[i].end <= ps[j].start)
    && (forall i :: 0 <= i < |ps| - 1 ==> ps[i].end < ps[i + 1].start || ps[i].fbtype != ps[i + 1].fbtype)
  }

  ghost predicate Within(ps: seq<Period>, start: int, end: int) {
    forall p <- ps :: start <= p.start && p.end <= end
  }

  /** What a timeline cell is reported as. */
  function Reported(cell: Option<Mark>): Option<string> {
    if cell.Some? && cell.value.fbtype != FREE then Some(cell.value.fbtype) else None
  }

  function TotalLength(ps: seq<Period>): int {
    if ps == [] then 0 else ps[0].end - ps[0].start + TotalLength(ps[1..])
  }

  lemma {:induction false} TypeAppend(a: seq<Period>, b: seq<Period>, t: int)
    ensures TypeAt(a + b, t) == if TypeAt(a, t).Some? then TypeAt(a, t) else TypeAt(b, t)
  {
    if a == [] {
      assert a + b == b;
    } else {
      assert (a + b)[1..] == a[1..] + b;
      TypeAppend(a[1..], b, t);
    }
  }

  lemma {:induction false} TypeIsCovered(ps: seq<Period>, t: int)
    ensures TypeAt(ps, t).None? <==> forall p <- ps :: !(p.start <= t < p.end)
  {
    if ps == [] {
    } else {
      TypeIsCovered(ps[1..], t);
      assert forall p :: p in ps <==> p == ps[0] || p in ps[1..];
    }
  }

  lemma NormalTail(ps: seq<Period>)
    requires NormalForm(ps) && ps != []
    ensures NormalForm(ps[1..])
    ensures forall t :: t < ps[0].end ==> TypeAt(ps[1..], t).None?
  {
    forall i | 0 <= i < |ps[1..]| - 1
      ensures ps[1..][i].end < ps[1..][i + 1].start || ps[1..][i].fbtype != ps[1..][i + 1].fbtype
    {
      assert ps[1..][i] == ps[i + 1] && ps[1..][i + 1] == ps[i + 2];
    }
    forall t | t < ps[0].end ensures TypeAt(ps[1..], t).None? {
      TypeIsCovered(ps[1..], t);
      forall p <- ps[1..] ensures ps[0].end <= p.start {
        var k :| 0 <= k < |ps[1..]| && ps[1..][k] == p;
        assert ps[k + 1] == p;
      }
    }
  }

  /** Nothing is reported before the first period, and its type stops at its end. */
  lemma FirstIsMaximal(ps: seq<Period>)
    requires NormalForm(ps) && ps != []
    ensures TypeAt(ps, ps[0].start) == Some(ps[0].fbtype)
    ensures forall t :: t < ps[0].start ==> TypeAt(ps, t).None?
    ensures TypeAt(ps, ps[0].end) != Some(ps[0].fbtype)
  {
    NormalTail(ps);
    assert ps[0] in ps;
    if |ps| > 1 {
      assert ps[1..][0] == ps[1];
      NormalTail(ps[1..]);
    }
  }

  /** The first period of a report is the one its type function says. */
  lemma FirstIsForced(ps: seq<Period>, qs: seq<Period>)
    requires NormalForm(ps) && NormalForm(qs) && ps != []
    requires forall t :: TypeAt(ps, t) == TypeAt(qs, t)
    ensures qs != [] && qs[0].start <= ps[0].start
    ensures qs[0].start == ps[0].start ==> qs[0].fbtype == ps[0].fbtype && qs[0].end <= ps[0].end
  {
    var s, e := ps[0].start, ps[0].end;
    FirstIsMaximal(ps);
    assert TypeAt(qs, s) == Some(ps[0].fbtype);
    FirstIsMaximal(qs);
    assert ps[0] in ps;
    assert TypeAt(qs, e) != Some(ps[0].fbtype);
  }

  /** A report is determined by the type function it shows. */
  lemma {:induction false} ReportIsUnique(ps: seq<Period>, qs: seq<Period>)
    requires NormalForm(ps) && NormalForm(qs)
    requires forall t :: TypeAt(ps, t) == TypeAt(qs, t)
    ensures ps == qs
  {
    if ps == [] && qs == [] {
    } else {
      if ps != [] { FirstIsForced(ps, qs); }
      FirstIsForced(qs, ps);
      FirstIsForced(ps, qs);
      assert ps[0] == qs[0];
      NormalTail(ps);
      NormalTail(qs);
      forall t ensures TypeAt(ps[1..], t) == TypeAt(qs[1..], t) {
        assert TypeAt(ps, t) == TypeAt(qs, t);
      }
      ReportIsUnique(ps[1..], qs[1..]);
      assert ps == [ps[0]] + ps[1..] && qs == [qs[0]] + qs[1..];
    }
  }

  /** A report never accounts for more time than its window has. */
  lemma {:induction false} LengthFits(ps: seq<Period>, start: int, end: int)
    requires NormalForm(ps) && Within(ps, start, end) && start <= end
    ensures 0 <= TotalLength(ps) <= end - start
  {
    if ps == [] {
    } else {
      NormalTail(ps);
      assert ps[0] in ps;
      forall p <- ps[1..] ensures ps[0].end <= p.start && p.end <= end {
        var k :| 0 <= k < |ps[1..]| && ps[1..][k] == p;
        assert ps[k + 1] == p && p in ps;
      }
      LengthFits(ps[1..], ps[0].end, end);
    }
  }

  /** A report whose type function stays in a window lies in the window. */
  lemma ReportWithin(ps: seq<Period>, start: int, end: int)
    requires NormalForm(ps)
    requires forall t :: TypeAt(ps, t).Some? ==> start <= t < end
    ensures Within(ps, start, end)
  {
    forall p <- ps ensures start <= p.start && p.end <= end {
      TypeIsCovered(ps, p.start);
      TypeIsCovered(ps, p.end - 1);
      assert TypeAt(ps, p.start).Some? && TypeAt(ps, p.end - 1).Some?;
    }
  }

  /** The loop of TimelineToPeriods: `periods` followed by the period under
      construction, `p`, report what the entries in `seen` say. */
  ghost predicate Merging(seen: seq<Entry>, periods: seq<Period>, p: Period) {
    && p.start < p.end && NormalForm(periods)
    && (forall q <- periods :: q.end < p.start || (q.end == p.start && q.fbtype != p.fbtype))
    && (forall e <- seen :: e.end <= p.end)
    && (forall t :: CurrentType(periods, p, t) == Reported(CellAt(seen, t)))
  }

  function CurrentType(periods: seq<Period>, p: Period, t: int): Option<string> {
    if p.start <= t < p.end then (if p.fbtype == FREE then None else Some(p.fbtype)) else TypeAt(periods, t)
  }

  function Flushed(periods: seq<Period>, p: Period): seq<Period> {
    if p.fbtype != FREE then periods + [p] else periods
  }

  lemma FlushIsNormal(seen: seq<Entry>, periods: seq<Period>, p: Period)
    requires Merging(seen, periods, p)
    ensures NormalForm(Flushed(periods, p))
    ensures forall t :: TypeAt(Flushed(periods, p), t) == CurrentType(periods, p, t)
  {
    forall t ensures TypeAt(Flushed(periods, p), t) == CurrentType(periods, p, t) {
      TypeAppend(periods, [p], t);
      TypeIsCovered(periods, t);
    }
  }

  lemma MergeStep(seen: seq<Entry>, e: Entry, periods: seq<Period>, p: Period)
    requires Merging(seen, periods, p) && e.start < e.end && p.end <= e.start
    ensures if e.start == p.end && e.mark.fbtype == p.fbtype
            then Merging(seen + [e], periods, Period(p.start, e.end, p.fbtype))
            else Merging(seen + [e], Flushed(periods, p), Period(e.start, e.end, e.mark.fbtype))
  {
    FlushIsNormal(seen, periods, p);
    forall t ensures Reported(CellAt(seen + [e], t)) ==
                     if Covers(e, t) then Reported(Some(e.mark)) else CurrentType(periods, p, t)
    {
      CellAppend(seen, [e], t);
      CellIsCovered(seen, t);
      TypeIsCovered(periods, t);
    }
  }

  lemma MergeNext(timeline: seq<Entry>, i: nat, periods: seq<Period>, p: Period)
    requires 0 < i < |timeline| && Ordered(timeline) && p.end == timeline[i - 1].end
    requires Merging(timeline[..i], periods, p)
    ensures var e := timeline[i];
            if e.start == p.end && e.mark.fbtype == p.fbtype
            then Merging(timeline[..i + 1], periods, Period(p.start, e.end, p.fbtype))
            else Merging(timeline[..i + 1], Flushed(periods, p), Period(e.start, e.end, e.mark.fbtype))
  {
    assert timeline[..i + 1] == timeline[..i] + [timeline[i]];
    assert timeline[i] in timeline;
    MergeStep(timeline[..i], timeline[i], periods, p);
  }

  /** `_timeline_to_periods`: touching entries of one type are merged, FREE is dropped. */
  method TimelineToPeriods(timeline: seq<Entry>) returns (periods: seq<Period>)
    requires Ordered(timeline)
    ensures NormalForm(periods)
    ensures forall t :: TypeAt(periods, t) == Reported(CellAt(timeline, t))
  {
    periods := [];
    if timeline == [] { return; }
    var currentStart, currentEnd, currentType := timeline[0].start, timeline[0].end, timeline[0].mark.fbtype;
    for i := 1 to |timeline|
      invariant Merging(timeline[..i], periods, Period(currentStart, currentEnd, currentType))
      invariant currentEnd == timeline[i - 1].end
    {
      var e := timeline[i];
      MergeNext(timeline, i, periods, Period(currentStart, currentEnd, currentType));
      if e.start == currentEnd && e.mark.fbtype == currentType {
        currentEnd := e.end;
      } else {
        if currentType != FREE {
          periods := periods + [Period(currentStart, currentEnd, currentType)];
        }
        currentStart, currentEnd, currentType := e.start, e.end, e.mark.fbtype;
      }
    }
    assert timeline[..|timeline|] == timeline;
    FlushIsNormal(timeline, periods, Period(currentStart, currentEnd, currentType));
    if currentType != FREE {
      periods := periods + [Period(currentStart, currentEnd, currentType)];
    }
  }
}
