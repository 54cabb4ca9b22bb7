/**
 The free-busy timeline that VAVAILABILITY components are folded into
 (xandikos/caldav.py; sections 4 and 5 of RFC 7953).  Instants are integers and
 every period is half-open.
 */
module Timelines {
  import opened Wrappers

  const FREE := "FREE"

  /** One timeline tuple: (start, end, fbtype, priority). */
  datatype Entry = Entry(start: int, end: int, mark: Mark)

  /** What an entry says about the instants it covers. */
  datatype Mark = Mark(fbtype: string, priority: int)

  /** `fbtype_precedence.get(fbtype, 0)`. */
  function Rank(fbtype: string): int {
    if fbtype == "BUSY" then 4
    else if fbtype == "BUSY-UNAVAILABLE" then 3
    else if fbtype == "BUSY-TENTATIVE" then 2
    else if fbtype == FREE then 1
    else 0
  }

  /** `new_has_precedence`. */
  predicate Outranks(new_: Mark, old_: Mark) {
    if new_.priority == old_.priority && new_.fbtype == FREE && old_.fbtype != FREE then true
    else
      || new_.priority < old_.priority
      || (new_.priority == old_.priority && Rank(new_.fbtype) > Rank(old_.fbtype))
  }

  /** The mark left at an instant where `m` is laid over `cell`. */
  function Override(cell: Option<Mark>, m: Mark): Mark {
    if cell.None? || Outranks(m, cell.value) then m else cell.value
  }

  predicate Covers(e: Entry, t: int) { e.start <= t < e.end }

  /** The cell at `t` once `period` is laid over `cell`. */
  function Overlaid(cell: Option<Mark>, period: Entry, t: int): Option<Mark> {
    if Covers(period, t) then Some(Override(cell, period.mark)) else cell
  }

  /** The timeline read as a function from instants to marks. */
  function CellAt(es: seq<Entry>, t: int): Option<Mark> {
    if es == [] then None
    else if Covers(es[0], t) then Some(es[0].mark)
    else CellAt(es[1..], t)
  }

  predicate Apart(a: Entry, b: Entry) { a.end <= b.start || b.end <= a.start }

  /** Non-empty, pairwise disjoint entries in any order. */
  ghost predicate Separated(es: seq<Entry>) {
    && (forall e <- es :: e.start < e.end)
    && (forall i, j :: 0 <= i < j < |es| ==> Apart(es[i], es[j]))
  }

  /** The timeline invariant: non-empty entries, disjoint and in time order. */
  ghost predicate Ordered(es: seq<Entry>) {
    && (forall e <- es :: e.start < e.end)
    && (forall i, j :: 0 <= i < j < |es| ==> es[i].end <= es[j].start)
  }

  lemma {:induction false} CellAppend(a: seq<Entry>, b: seq<Entry>, t: int)
    ensures CellAt(a + b, t) == if CellAt(a, t).Some? then CellAt(a, t) else CellAt(b, t)
  {
    if a == [] {
      assert a + b == b;
    } else {
      assert (a + b)[1..] == a[1..] + b;
      CellAppend(a[1..], b, t);
    }
  }

  lemma {:induction false} CellIsCovered(es: seq<Entry>, t: int)
    ensures CellAt(es, t).None? <==> forall e <- es :: !Covers(e, t)
  {
    if es == [] {
    } else {
      CellIsCovered(es[1..], t);
      assert forall e :: e in es <==> e == es[0] || e in es[1..];
    }
  }

  // ----- sorting by start time

  function Insert(e: Entry, es: seq<Entry>): (r: seq<Entry>)
    ensures forall x :: x in r <==> x == e || x in es
  {
    if es == [] then [e]
    else if e.start < es[0].start then [e] + es
    else
      var r := [es[0]] + Insert(e, es[1..]);
      assert forall x :: x in es <==> x == es[0] || x in es[1..];
      r
  }

  /** `sorted(es, key=lambda x: x[0])`, a stable sort. */
  function SortByStart(es: seq<Entry>): (r: seq<Entry>)
    ensures forall x :: x in r <==> x in es
  {
    if es == [] then []
    else
      var n := |es| - 1;
      assert forall x :: x in es <==> x == es[n] || x in es[..n];
      Insert(es[n], SortByStart(es[..n]))
  }

  lemma {:induction false} InsertKeepsOrder(e: Entry, es: seq<Entry>)
    requires Ordered(es) && e.start < e.end && forall x <- es :: Apart(x, e)
    ensures Ordered(Insert(e, es))
  {
    if es == [] {
    } else if e.start < es[0].start {
      assert Apart(es[0], e);
      assert forall k :: 0 <= k < |es| ==> es[0].start <= es[k].start;
    } else {
      InsertKeepsOrder(e, es[1..]);
      var r := Insert(e, es[1..]);
      forall x <- r ensures es[0].end <= x.start { assert Apart(es[0], e); }
      assert forall k :: 0 < k < |r| + 1 ==> ([es[0]] + r)[k] in r;
    }
  }

  lemma {:induction false} InsertShows(e: Entry, es: seq<Entry>, t: int)
    requires e.start < e.end && forall x <- es :: Apart(x, e)
    ensures CellAt(Insert(e, es), t) == if Covers(e, t) then Some(e.mark) else CellAt(es, t)
  {
    if es == [] || e.start < es[0].start {
    } else {
      assert Apart(es[0], e);
      InsertShows(e, es[1..], t);
      assert ([es[0]] + Insert(e, es[1..]))[1..] == Insert(e, es[1..]);
    }
  }

  lemma LastIsApart(es: seq<Entry>)
    requires es != [] && Separated(es)
    ensures var n := |es| - 1;
      Separated(es[..n]) && es[n].start < es[n].end && forall x <- es[..n] :: Apart(x, es[n])
  {
    var n := |es| - 1;
    forall x <- es[..n] ensures Apart(x, es[n]) {
      var k :| 0 <= k < n && es[k] == x;
    }
  }

  lemma {:induction false} SortKeepsOrder(es: seq<Entry>)
    requires Separated(es)
    ensures Ordered(SortByStart(es))
  {
    if es == [] {
    } else {
      LastIsApart(es);
      SortKeepsOrder(es[..|es| - 1]);
      InsertKeepsOrder(es[|es| - 1], SortByStart(es[..|es| - 1]));
    }
  }

  lemma LastShows(es: seq<Entry>, t: int)
    requires es != [] && Separated(es)
    ensures var e := es[|es| - 1];
      CellAt(es, t) == if Covers(e, t) then Some(e.mark) else CellAt(es[..|es| - 1], t)
  {
    var n := |es| - 1;
    LastIsApart(es);
    assert es == es[..n] + [es[n]];
    CellAppend(es[..n], [es[n]], t);
    CellIsCovered(es[..n], t);
  }

  lemma {:induction false} SortShows(es: seq<Entry>, t: int)
    requires Separated(es)
    ensures CellAt(SortByStart(es), t) == CellAt(es, t)
  {
    if es == [] {
    } else {
      var n := |es| - 1;
      LastIsApart(es);
      SortShows(es[..n], t);
      InsertShows(es[n], SortByStart(es[..n]), t);
      LastShows(es, t);
    }
  }

  lemma SortedIsOrdered(es: seq<Entry>)
    requires Separated(es)
    ensures Ordered(SortByStart(es))
    ensures forall t :: CellAt(SortByStart(es), t) == CellAt(es, t)
  {
    SortKeepsOrder(es);
    forall t { SortShows(es, t); }
  }

  // ----- inserting one period

  /** The part of a new period still to be placed, and the entries one old entry leaves. */
  datatype Step = Step(pieces: seq<Entry>, lo: int, hi: int)

  /** The parts of `p` before `lo` and after `hi`. */
  function Outside(p: Entry, lo: int, hi: int): seq<Entry> {
    (if p.start < lo then [Entry(p.start, lo, p.mark)] else []) +
    (if p.end > hi then [Entry(hi, p.end, p.mark)] else [])
  }

  /** One turn of the loop of AddPeriod: what old entry `p` becomes, and what remains of
      the new period, of which `lo..hi` is still to be placed. */
  function Reconcile(p: Entry, mark: Mark, lo: int, hi: int): Step {
    if p.end <= lo || p.start >= hi then Step([p], lo, hi)
    else if Outranks(mark, p.mark) then Step(Outside(p, lo, hi), lo, hi)
    else if p.start <= lo then Step([p], if p.end <= hi then p.end else hi, hi)
    else if hi <= p.end then Step([p], lo, p.start)
    else Step([p, Entry(lo, p.start, mark)], p.end, hi)
  }

  /** Where the loop stands at instant `t`: `seen` has been rewritten to `out`, and
      `lo..hi` of the new period is still to be placed. */
  ghost predicate Placed(seen: seq<Entry>, out: seq<Entry>, period: Entry, lo: int, hi: int, t: int) {
    var was := CellAt(seen, t);
    if lo <= t < hi then CellAt(out, t).None? && (was.None? || Outranks(period.mark, was.value))
    else if Covers(period, t) then CellAt(out, t) == Some(Override(was, period.mark))
    else CellAt(out, t) == was
  }

  /** What the loop keeps about the entries still to come (`rest`) and those put out. */
  ghost predicate Framed(rest: seq<Entry>, out: seq<Entry>, period: Entry, lo: int, hi: int) {
    && period.start <= lo <= hi <= period.end && period.start < period.end
    && Separated(out)
    && (forall e <- rest :: (lo == period.start || lo <= e.start) && (hi == period.end || period.end <= e.start))
    && (forall e <- out, f <- rest :: e.end <= f.start)
    && (forall e <- out :: lo == hi || e.end <= lo || hi <= e.start)
  }

  lemma ReconcileFrames(rest: seq<Entry>, out: seq<Entry>, period: Entry, lo: int, hi: int)
    requires rest != [] && Ordered(rest) && Framed(rest, out, period, lo, hi)
    ensures var s := Reconcile(rest[0], period.mark, lo, hi);
      Framed(rest[1..], out + s.pieces, period, s.lo, s.hi)
  {
    var p := rest[0];
    var s := Reconcile(p, period.mark, lo, hi);
    assert p in rest;
    forall f <- rest[1..] ensures f in rest && p.end <= f.start {
      var k :| 0 <= k < |rest[1..]| && rest[1..][k] == f;
      assert rest[k + 1] == f;
    }
    PiecesFit(p, period.mark, lo, hi);
    forall e <- out, f <- s.pieces ensures Apart(e, f) {}
    SeparatedConcat(out, s.pieces);
  }

  /** The pieces are disjoint parts of `p` and of `lo..hi`, and clear of what remains. */
  lemma PiecesFit(p: Entry, mark: Mark, lo: int, hi: int)
    requires p.start < p.end && lo <= hi && (lo == hi ==> p.end <= lo || p.start >= hi)
    ensures var s := Reconcile(p, mark, lo, hi);
      && Separated(s.pieces) && lo <= s.lo <= s.hi <= hi
      && (s.lo == lo || s.lo == hi || s.lo == p.end) && (s.hi == hi || (s.hi == p.start && hi <= p.end))
      && (forall f <- s.pieces :: f.end <= p.end && (s.lo == s.hi || f.end <= s.lo || s.hi <= f.start))
      && (forall f <- s.pieces :: (p.start <= f.start && f.end <= p.end) || (lo == f.start && f.end == p.start))
  {
  }

  lemma SeparatedConcat(a: seq<Entry>, b: seq<Entry>)
    requires Separated(a) && Separated(b) && forall e <- a, f <- b :: Apart(e, f)
    ensures Separated(a + b)
  {
    var c := a + b;
    forall i, j | 0 <= i < j < |c| ensures Apart(c[i], c[j]) {
      if i < |a| <= j { assert c[i] in a && c[j] in b; }
    }
  }

  lemma CellOfPieces(p: Entry, mark: Mark, lo: int, hi: int, t: int)
    requires p.start < p.end && lo <= hi && (lo == hi ==> p.end <= lo || p.start >= hi)
    ensures var s := Reconcile(p, mark, lo, hi);
      CellAt(s.pieces, t) ==
      if Covers(p, t) && !(s.lo <= t < s.hi) then Some(p.mark)
      else if lo <= t < hi && !(s.lo <= t < s.hi) then Some(mark)
      else None
  {
    var s := Reconcile(p, mark, lo, hi);
    CellAppend(if p.start < lo then [Entry(p.start, lo, p.mark)] else [],
               if p.end > hi then [Entry(hi, p.end, p.mark)] else [], t);
    CellAppend([p], [Entry(lo, p.start, mark)], t);
    assert [p, Entry(lo, p.start, mark)] == [p] + [Entry(lo, p.start, mark)];
  }

  lemma ReconcilePlaces(seen: seq<Entry>, rest: seq<Entry>, out: seq<Entry>, period: Entry, lo: int, hi: int, t: int)
    requires rest != [] && Ordered(seen + rest) && Framed(rest, out, period, lo, hi)
    requires Placed(seen, out, period, lo, hi, t)
    ensures var s := Reconcile(rest[0], period.mark, lo, hi);
      Placed(seen + [rest[0]], out + s.pieces, period, s.lo, s.hi, t)
  {
    var p := rest[0];
    var s := Reconcile(p, period.mark, lo, hi);
    CellAppend(seen, [p], t);
    CellAppend(out, s.pieces, t);
    CellOfPieces(p, period.mark, lo, hi, t);
    assert p in rest;
    assert Covers(p, t) ==> CellAt(seen, t).None? by {
      CellIsCovered(seen, t);
      forall e <- seen ensures e.end <= p.start {
        var k :| 0 <= k < |seen| && seen[k] == e;
        assert (seen + rest)[k] == e && (seen + rest)[|seen|] == p;
      }
    }
    assert Covers(p, t) ==> CellAt(out, t).None? by { CellIsCovered(out, t); }
  }

  class Timeline {
    var entries: seq<Entry>

    constructor ()
      ensures entries == []
    {
      entries := [];
    }

    /** `_add_period_to_timeline`: overlapping entries are trimmed, split or kept, and
        whatever they leave of the new period is added. */
    method AddPeriod(start: int, end: int, fbtype: string, priority: int)
      requires Ordered(entries) && start < end
      modifies this
      ensures Ordered(entries)
      ensures forall t :: CellAt(entries, t) ==
                          Overlaid(old(CellAt(entries, t)), Entry(start, end, Mark(fbtype, priority)), t)
    {
      var mark := Mark(fbtype, priority);
      ghost var period := Entry(start, end, mark);
      if entries == [] {
        entries := [Entry(start, end, mark)];
        return;
      }
      var newTimeline: seq<Entry> := [];
      var currentStart, currentEnd := start, end;
      for i := 0 to |entries|
        invariant entries == old(entries)
        invariant Framed(entries[i..], newTimeline, period, currentStart, currentEnd)
        invariant forall t :: Placed(entries[..i], newTimeline, period, currentStart, currentEnd, t)
      {
        var p := entries[i];
        ghost var before, lo, hi := newTimeline, currentStart, currentEnd;
        if p.end <= currentStart || p.start >= currentEnd {
          newTimeline := newTimeline + [p];
        } else if Outranks(mark, p.mark) {
          if p.start < currentStart {
            newTimeline := newTimeline + [Entry(p.start, currentStart, p.mark)];
          }
          if p.end > currentEnd {
            newTimeline := newTimeline + [Entry(currentEnd, p.end, p.mark)];
          }
        } else {
          newTimeline := newTimeline + [p];
          if p.start <= currentStart < p.end <= currentEnd {
            currentStart := p.end;
          } else if currentStart < p.start < currentEnd <= p.end {
            currentEnd := p.start;
          } else if p.start <= currentStart && p.end >= currentEnd {
            currentStart := currentEnd;
          } else if currentStart < p.start && p.end < currentEnd {
            newTimeline := newTimeline + [Entry(currentStart, p.start, mark)];
            currentStart := p.end;
          }
        }
        ghost var s := Reconcile(p, mark, lo, hi);
        assert newTimeline == before + s.pieces && currentStart == s.lo && currentEnd == s.hi;
        Advance(entries, i, before, period, lo, hi);
      }
      assert entries[..|entries|] == entries;
      ghost var placed := newTimeline;
      if currentStart < currentEnd {
        newTimeline := newTimeline + [Entry(currentStart, currentEnd, mark)];
      }
      Finish(entries, placed, newTimeline, period, currentStart, currentEnd);
      entries := SortByStart(newTimeline);
    }
  }

  lemma Advance(entries: seq<Entry>, i: nat, out: seq<Entry>, period: Entry, lo: int, hi: int)
    requires i < |entries| && Ordered(entries) && Framed(entries[i..], out, period, lo, hi)
    requires forall t :: Placed(entries[..i], out, period, lo, hi, t)
    ensures var s := Reconcile(entries[i], period.mark, lo, hi);
      var seen := entries[..i + 1];
      && Framed(entries[i + 1..], out + s.pieces, period, s.lo, s.hi)
      && forall t :: Placed(seen, out + s.pieces, period, s.lo, s.hi, t)
  {
    var s := Reconcile(entries[i], period.mark, lo, hi);
    assert entries[i..][1..] == entries[i + 1..] && entries[..i + 1] == entries[..i] + [entries[i]];
    assert entries[..i] + entries[i..] == entries;
    ReconcileFrames(entries[i..], out, period, lo, hi);
    forall t { ReconcilePlaces(entries[..i], entries[i..], out, period, lo, hi, t); }
  }

  lemma Finish(entries: seq<Entry>, out: seq<Entry>, all: seq<Entry>, period: Entry, lo: int, hi: int)
    requires Framed([], out, period, lo, hi)
    requires all == if lo < hi then out + [Entry(lo, hi, period.mark)] else out
    requires forall t :: Placed(entries, out, period, lo, hi, t)
    ensures Ordered(SortByStart(all))
    ensures forall t :: CellAt(SortByStart(all), t) == Overlaid(CellAt(entries, t), period, t)
  {
    if lo < hi { SeparatedConcat(out, [Entry(lo, hi, period.mark)]); }
    SortedIsOrdered(all);
    forall t ensures CellAt(all, t) == Overlaid(CellAt(entries, t), period, t) {
      assert Placed(entries, out, period, lo, hi, t);
      CellAppend(out, [Entry(lo, hi, period.mark)], t);
    }
  }
}
