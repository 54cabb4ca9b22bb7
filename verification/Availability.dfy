/**
 Folding prioritised VAVAILABILITY components into a free-busy report
 (`process_vavailability_components` in xandikos/caldav.py; RFC 7953, section 4).
 */
module Availability {
  import opened Wrappers
  import opened Seqs
  import opened Timelines
  import opened FreeBusyReports

  /** A PRIORITY property: absent, an integer, or something that is not a number. */
  datatype Priority = Undefined | Number(value: int) | Garbage

  datatype Subcomponent = Subcomponent(name: string, dtstart: Option<int>, dtend: Option<int>, duration: Option<int>)

  datatype Vavailability = Vavailability(dtstart: Option<int>, dtend: Option<int>, duration: Option<int>,
                                         busytype: Option<string>, priority: Priority,
                                         subcomponents: seq<Subcomponent>)

  datatype Span = Span(start: int, end: int)

  /** `get_priority`: anything outside 0..9 counts as 0. */
  function GetPriority(c: Vavailability): (p: int)
    ensures 0 <= p <= 9
  {
    match c.priority
    case Number(n) => if n < 0 || n > 9 then 0 else n
    case _ => 0
  }

  function BusyType(c: Vavailability): string {
    if c.busytype.Some? then c.busytype.value else "BUSY-UNAVAILABLE"
  }

  /** The time a component speaks about; without an end it runs to the window's end. */
  function Extent(c: Vavailability, windowEnd: int): Option<Span> {
    if c.dtstart.None? then None
    else if c.dtend.Some? then Some(Span(c.dtstart.value, c.dtend.value))
    else if c.duration.Some? then Some(Span(c.dtstart.value, c.dtstart.value + c.duration.value))
    else Some(Span(c.dtstart.value, windowEnd))
  }

  /** The time an AVAILABLE block frees; a block without start or end frees nothing. */
  function FreeSpan(s: Subcomponent): Option<Span> {
    if s.name != "AVAILABLE" || s.dtstart.None? then None
    else if s.dtend.Some? then Some(Span(s.dtstart.value, s.dtend.value))
    else if s.duration.Some? then Some(Span(s.dtstart.value, s.dtstart.value + s.duration.value))
    else None
  }

  /** Every period given by the component starts before it ends (RFC 7953, section 3.1). */
  ghost predicate WellFormed(c: Vavailability) {
    && (c.dtstart.Some? && c.dtend.Some? ==> c.dtstart.value < c.dtend.value)
    && (c.dtstart.Some? && c.dtend.None? && c.duration.Some? ==> 0 < c.duration.value)
    && (forall s <- c.subcomponents :: FreeSpan(s).Some? ==> FreeSpan(s).value.start < FreeSpan(s).value.end)
  }

  // ----- what the components say about one instant

  predicate Contains(span: Option<Span>, t: int) {
    span.Some? && span.value.start <= t < span.value.end
  }

  function FreeMarks(subs: seq<Subcomponent>, priority: int, t: int): seq<Mark> {
    if subs == [] then []
    else
      FreeMarks(subs[..|subs| - 1], priority, t) +
      if Contains(FreeSpan(subs[|subs| - 1]), t) then [Mark(FREE, priority)] else []
  }

  /** What one component says about `t`: busy, then free once per AVAILABLE block. */
  function MarksOf(c: Vavailability, windowEnd: int, t: int): seq<Mark> {
    if !Contains(Extent(c, windowEnd), t) then []
    else [Mark(BusyType(c), GetPriority(c))] + FreeMarks(c.subcomponents, GetPriority(c), t)
  }

  /** Everything the components, in the order given, say about `t`. */
  function Marks(cs: seq<Vavailability>, windowEnd: int, t: int): seq<Mark> {
    if cs == [] then [] else MarksOf(cs[0], windowEnd, t) + Marks(cs[1..], windowEnd, t)
  }

  /** The closed form.  Mark `k` decides: no covering priority is numerically smaller, and
      among the marks of its priority, in order, nothing later frees or outranks it and
      whatever is earlier is either cut off by a later FREE or ranks lower. */
  ghost predicate Decides(ms: seq<Mark>, k: int) {
    && 0 <= k < |ms|
    && (forall m <- ms :: ms[k].priority <= m.priority)
    && (forall j :: k < j < |ms| && ms[j].priority == ms[k].priority ==>
          ms[j].fbtype != FREE && Rank(ms[j].fbtype) <= Rank(ms[k].fbtype))
    && (forall j :: 0 <= j < k && ms[j].priority == ms[k].priority ==>
          Rank(ms[j].fbtype) < Rank(ms[k].fbtype) || FreedBetween(ms, j, k))
  }

  ghost predicate FreedBetween(ms: seq<Mark>, j: int, k: int)
    requires 0 <= j < k < |ms|
  {
    exists f :: j < f <= k && ms[f] == Mark(FREE, ms[k].priority)
  }

  /** Laying marks over one another in order. */
  function Fold(ms: seq<Mark>): (r: Option<Mark>)
    ensures r.None? <==> ms == []
    ensures r.Some? ==> r.value in ms
  {
    if ms == [] then None else Some(Override(Fold(ms[..|ms| - 1]), ms[|ms| - 1]))
  }

  lemma FoldAppend(ms: seq<Mark>, m: Mark)
    ensures Fold(ms + [m]) == Some(Override(Fold(ms), m))
  {
    assert (ms + [m])[..|ms|] == ms;
  }

  lemma FreedInPrefix(ms: seq<Mark>, n: int, j: int, w: int)
    requires 0 <= j < w < n <= |ms| && FreedBetween(ms[..n], j, w)
    ensures FreedBetween(ms, j, w)
  {
    var f :| j < f <= w && ms[..n][f] == Mark(FREE, ms[..n][w].priority);
    assert ms[f] == ms[..n][f];
  }

  lemma NewDecides(ms: seq<Mark>, w: int)
    requires |ms| > 1 && Decides(ms[..|ms| - 1], w)
    requires Outranks(ms[|ms| - 1], ms[w]) || (ms[|ms| - 1].priority == ms[w].priority && ms[|ms| - 1].fbtype == FREE)
    ensures Decides(ms, |ms| - 1)
  {
    var n := |ms| - 1;
    assert forall m <- ms :: m == ms[n] || m in ms[..n];
    assert ms[w] == ms[..n][w];
    forall j | 0 <= j < n && ms[j].priority == ms[n].priority
      ensures Rank(ms[j].fbtype) < Rank(ms[n].fbtype) || FreedBetween(ms, j, n)
    {
      assert ms[..n][j] == ms[j] && ms[j] in ms[..n];
      if ms[n].fbtype == FREE {
        assert ms[n] == Mark(FREE, ms[n].priority);
      } else if j < w && FreedBetween(ms[..n], j, w) {
        FreedInPrefix(ms, n, j, w);
      }
    }
  }

  lemma OldDecides(ms: seq<Mark>, w: int)
    requires |ms| > 1 && Decides(ms[..|ms| - 1], w)
    requires !Outranks(ms[|ms| - 1], ms[w])
    requires ms[|ms| - 1].priority == ms[w].priority ==> ms[|ms| - 1].fbtype != FREE
    ensures Decides(ms, w)
  {
    var n := |ms| - 1;
    assert forall m <- ms :: m == ms[n] || m in ms[..n];
    assert forall j :: 0 <= j < n ==> ms[..n][j] == ms[j];
    forall j | 0 <= j < w && ms[j].priority == ms[w].priority
      ensures Rank(ms[j].fbtype) < Rank(ms[w].fbtype) || FreedBetween(ms, j, w)
    {
      if FreedBetween(ms[..n], j, w) { FreedInPrefix(ms, n, j, w); }
    }
  }

  /** Laying marks over one another leaves the deciding one. */
  lemma {:induction false} FoldDecides(ms: seq<Mark>) returns (k: int)
    requires ms != []
    ensures Decides(ms, k) && Fold(ms) == Some(ms[k])
  {
    var n := |ms| - 1;
    if n == 0 {
      k := 0;
    } else {
      var w := FoldDecides(ms[..n]);
      if Outranks(ms[n], ms[w]) || (ms[n].priority == ms[w].priority && ms[n].fbtype == FREE) {
        k := n;
        NewDecides(ms, w);
      } else {
        k := w;
        OldDecides(ms, w);
      }
    }
  }

  /** At most one mark decides. */
  lemma DeciderIsUnique(ms: seq<Mark>, i: int, j: int)
    requires Decides(ms, i) && Decides(ms, j)
    ensures i == j
  {
    if i != j {
      var a, b := Min(i, j), Max(i, j);
      assert ms[a] in ms && ms[b] in ms;
      assert forall f :: a < f <= b && ms[f].priority == ms[a].priority ==> ms[f].fbtype != FREE;
    }
  }

  // ----- the order in which components are folded

  /** Priorities as RFC 5545 has them: 0 stands for none, and ranks below 1 to 9. */
  function Standing(priority: int): int { if priority == 0 then 10 else priority }

  ghost predicate Foremost(ms: seq<Mark>, m: Mark) { forall o <- ms :: Standing(m.priority) <= Standing(o.priority) }

  /** The numeric order lets an undefined priority win: the mark left is of the foremost
      priority just when no mark, or every mark, is without one. */
  lemma UndefinedPriorityWins(ms: seq<Mark>)
    requires ms != [] && forall m <- ms :: 0 <= m.priority <= 9
    ensures Foremost(ms, Fold(ms).value) <==> (forall m <- ms :: m.priority != 0) || (forall m <- ms :: m.priority == 0)
  {
    var k := FoldDecides(ms);
    assert ms[k] in ms;
  }

  function OfPriority(ms: seq<Mark>, p: int): seq<Mark> {
    if ms == [] then []
    else if ms[0].priority == p then [ms[0]] + OfPriority(ms[1..], p)
    else OfPriority(ms[1..], p)
  }

  lemma {:induction false} OfPriorityMembers(ms: seq<Mark>, p: int)
    ensures forall m :: m in OfPriority(ms, p) <==> m in ms && m.priority == p
  {
    if ms == [] {
    } else {
      OfPriorityMembers(ms[1..], p);
      assert forall m :: m in ms <==> m == ms[0] || m in ms[1..];
    }
  }

  lemma {:induction false} OfPriorityAppend(a: seq<Mark>, b: seq<Mark>, p: int)
    ensures OfPriority(a + b, p) == OfPriority(a, p) + OfPriority(b, p)
  {
    if a == [] {
      assert a + b == b;
    } else {
      assert (a + b)[1..] == a[1..] + b;
      OfPriorityAppend(a[1..], b, p);
    }
  }

  lemma FoldAbove(pre: seq<Mark>, last: Mark)
    ensures Fold(pre).Some? && Fold(pre).value.priority < last.priority ==> Fold(pre + [last]) == Fold(pre)
    ensures Fold(pre).Some? && Fold(pre).value.priority > last.priority ==> Fold(pre + [last]) == Some(last)
  {
    FoldAppend(pre, last);
  }

  /** Only the marks of the numerically smallest priority count. */
  lemma {:induction false} FoldOfPriority(ms: seq<Mark>, p: int)
    requires forall m <- ms :: p <= m.priority
    requires OfPriority(ms, p) != []
    ensures Fold(ms) == Fold(OfPriority(ms, p))
  {
    var n := |ms| - 1;
    var pre, last := ms[..n], ms[n];
    var kept := OfPriority(pre, p);
    assert ms == pre + [last] && last in ms && forall m <- pre :: m in ms;
    OfPriorityAppend(pre, [last], p);
    if kept == [] {
      OfPriorityMembers(pre, p);
      assert OfPriority(ms, p) == [last];
      FoldAbove(pre, last);
    } else {
      FoldOfPriority(pre, p);
      if last.priority == p {
        assert OfPriority(ms, p) == kept + [last];
        FoldAppend(kept, last);
        FoldAppend(pre, last);
      } else {
        OfPriorityMembers(pre, p);
        assert OfPriority(ms, p) == kept;
        FoldAbove(pre, last);
      }
    }
  }

  /** Folding depends only on the marks of each priority, in order. */
  lemma FoldIgnoresInterleaving(ms: seq<Mark>, ns: seq<Mark>)
    requires forall p :: OfPriority(ms, p) == OfPriority(ns, p)
    ensures Fold(ms) == Fold(ns)
  {
    forall m ensures m in ms <==> m in ns {
      OfPriorityMembers(ms, m.priority);
      OfPriorityMembers(ns, m.priority);
    }
    if ms != [] {
      var k := FoldDecides(ms);
      var p := ms[k].priority;
      assert ms[k] in ms;
      OfPriorityMembers(ms, p);
      FoldOfPriority(ms, p);
      FoldOfPriority(ns, p);
    } else {
      assert forall i :: 0 <= i < |ns| ==> ns[i] in ms;
    }
  }

  function InsertByPriority(c: Vavailability, cs: seq<Vavailability>): seq<Vavailability> {
    if cs == [] || GetPriority(cs[0]) <= GetPriority(c) then [c] + cs
    else [cs[0]] + InsertByPriority(c, cs[1..])
  }

  /** `sorted(components, key=get_priority, reverse=True)`, which is stable. */
  function SortByPriority(cs: seq<Vavailability>): seq<Vavailability> {
    if cs == [] then [] else InsertByPriority(cs[0], SortByPriority(cs[1..]))
  }

  lemma {:induction false} MarksHavePriority(c: Vavailability, subs: seq<Subcomponent>, t: int)
    ensures forall m <- FreeMarks(subs, GetPriority(c), t) :: m.priority == GetPriority(c)
    decreases |subs|
  {
    if subs == [] {
    } else {
      MarksHavePriority(c, subs[..|subs| - 1], t);
    }
  }

  lemma {:induction false} OfAbsentPriority(ms: seq<Mark>, p: int)
    requires forall m <- ms :: m.priority != p
    ensures OfPriority(ms, p) == []
  {
    if ms == [] {
    } else {
      OfAbsentPriority(ms[1..], p);
    }
  }

  /** The marks of a component are all of its own priority. */
  lemma OfOtherPriority(c: Vavailability, windowEnd: int, t: int, p: int)
    requires p != GetPriority(c)
    ensures OfPriority(MarksOf(c, windowEnd, t), p) == []
  {
    MarksHavePriority(c, c.subcomponents, t);
    OfAbsentPriority(MarksOf(c, windowEnd, t), p);
  }

  lemma {:induction false} InsertKeepsMarks(c: Vavailability, cs: seq<Vavailability>, windowEnd: int, t: int, p: int)
    ensures OfPriority(Marks(InsertByPriority(c, cs), windowEnd, t), p) ==
            OfPriority(MarksOf(c, windowEnd, t), p) + OfPriority(Marks(cs, windowEnd, t), p)
  {
    var mine := MarksOf(c, windowEnd, t);
    if cs == [] || GetPriority(cs[0]) <= GetPriority(c) {
      assert ([c] + cs)[1..] == cs;
      OfPriorityAppend(mine, Marks(cs, windowEnd, t), p);
    } else {
      var first, rest := MarksOf(cs[0], windowEnd, t), Marks(cs[1..], windowEnd, t);
      var r := InsertByPriority(c, cs[1..]);
      assert ([cs[0]] + r)[1..] == r;
      InsertKeepsMarks(c, cs[1..], windowEnd, t, p);
      OfPriorityAppend(first, Marks(r, windowEnd, t), p);
      OfPriorityAppend(first, rest, p);
      var x, y, z := OfPriority(first, p), OfPriority(mine, p), OfPriority(rest, p);
      if p == GetPriority(c) {
        OfOtherPriority(cs[0], windowEnd, t, p);
        assert x + (y + z) == y + (x + z);
      } else {
        OfOtherPriority(c, windowEnd, t, p);
        assert x + (y + z) == y + (x + z);
      }
    }
  }

  lemma {:induction false} SortKeepsMarks(cs: seq<Vavailability>, windowEnd: int, t: int, p: int)
    ensures OfPriority(Marks(SortByPriority(cs), windowEnd, t), p) == OfPriority(Marks(cs, windowEnd, t), p)
  {
    if cs == [] {
    } else {
      SortKeepsMarks(cs[1..], windowEnd, t, p);
      InsertKeepsMarks(cs[0], SortByPriority(cs[1..]), windowEnd, t, p);
      OfPriorityAppend(MarksOf(cs[0], windowEnd, t), Marks(cs[1..], windowEnd, t), p);
    }
  }

  /** Sorting by priority does not change what is left at an instant, so equal priorities
      keep the order they were given in. */
  lemma SortKeepsFold(cs: seq<Vavailability>, windowEnd: int, t: int)
    ensures Fold(Marks(SortByPriority(cs), windowEnd, t)) == Fold(Marks(cs, windowEnd, t))
  {
    forall p { SortKeepsMarks(cs, windowEnd, t, p); }
    FoldIgnoresInterleaving(Marks(SortByPriority(cs), windowEnd, t), Marks(cs, windowEnd, t));
  }

  lemma {:induction false} SortKeepsMembers(cs: seq<Vavailability>)
    ensures forall c :: c in SortByPriority(cs) <==> c in cs
  {
    if cs == [] {
    } else {
      SortKeepsMembers(cs[1..]);
      InsertKeepsMembers(cs[0], SortByPriority(cs[1..]));
      assert forall c :: c in cs <==> c == cs[0] || c in cs[1..];
    }
  }

  lemma {:induction false} InsertKeepsMembers(c: Vavailability, cs: seq<Vavailability>)
    ensures forall d :: d in InsertByPriority(c, cs) <==> d == c || d in cs
  {
    if cs == [] || GetPriority(cs[0]) <= GetPriority(c) {
    } else {
      InsertKeepsMembers(c, cs[1..]);
      assert forall d :: d in cs <==> d == cs[0] || d in cs[1..];
    }
  }

  // ----- the fold over a timeline

  /** The marks at `t` once the components `cs` and the first `j` blocks of `c` are in. */
  function PartialMarks(cs: seq<Vavailability>, c: Vavailability, j: nat, windowEnd: int, t: int): seq<Mark>
    requires j <= |c.subcomponents|
  {
    Marks(cs, windowEnd, t) +
    if !Contains(Extent(c, windowEnd), t) then []
    else [Mark(BusyType(c), GetPriority(c))] + FreeMarks(c.subcomponents[..j], GetPriority(c), t)
  }

  lemma {:induction false} MarksAppend(cs: seq<Vavailability>, c: Vavailability, windowEnd: int, t: int)
    ensures Marks(cs + [c], windowEnd, t) == Marks(cs, windowEnd, t) + MarksOf(c, windowEnd, t)
  {
    if cs == [] {
      assert cs + [c] == [c] && [c][1..] == [];
    } else {
      assert (cs + [c])[1..] == cs[1..] + [c];
      MarksAppend(cs[1..], c, windowEnd, t);
    }
  }

  lemma PartialStep(cs: seq<Vavailability>, c: Vavailability, j: nat, windowEnd: int, t: int)
    requires j < |c.subcomponents|
    ensures Fold(PartialMarks(cs, c, j + 1, windowEnd, t)) ==
      (if Contains(Extent(c, windowEnd), t) && Contains(FreeSpan(c.subcomponents[j]), t)
       then Some(Override(Fold(PartialMarks(cs, c, j, windowEnd, t)), Mark(FREE, GetPriority(c))))
       else Fold(PartialMarks(cs, c, j, windowEnd, t)))
  {
    var before := PartialMarks(cs, c, j, windowEnd, t);
    var after := PartialMarks(cs, c, j + 1, windowEnd, t);
    assert c.subcomponents[..j + 1][..j] == c.subcomponents[..j];
    if Contains(Extent(c, windowEnd), t) && Contains(FreeSpan(c.subcomponents[j]), t) {
      assert after == before + [Mark(FREE, GetPriority(c))];
      FoldAppend(before, Mark(FREE, GetPriority(c)));
    } else {
      assert after == before;
    }
  }

  lemma PartialEnds(cs: seq<Vavailability>, c: Vavailability, windowEnd: int, t: int)
    ensures PartialMarks(cs, c, |c.subcomponents|, windowEnd, t) == Marks(cs + [c], windowEnd, t)
    ensures Fold(PartialMarks(cs, c, 0, windowEnd, t)) ==
      (if Contains(Extent(c, windowEnd), t)
       then Some(Override(Fold(Marks(cs, windowEnd, t)), Mark(BusyType(c), GetPriority(c))))
       else Fold(Marks(cs, windowEnd, t)))
  {
    MarksAppend(cs, c, windowEnd, t);
    assert c.subcomponents[..|c.subcomponents|] == c.subcomponents;
    var ms, busy := Marks(cs, windowEnd, t), Mark(BusyType(c), GetPriority(c));
    FoldAppend(ms, busy);
    assert PartialMarks(cs, c, 0, windowEnd, t) ==
           if Contains(Extent(c, windowEnd), t) then ms + [busy] else ms;
  }

  /** In the window the entries show what `cs` and the first `j` blocks of `c` leave. */
  ghost predicate ShowsPartly(entries: seq<Entry>, cs: seq<Vavailability>, c: Vavailability, j: nat, start: int,
                              end: int)
    requires j <= |c.subcomponents|
  {
    && Ordered(entries)
    && forall t :: CellAt(entries, t) == if start <= t < end then Fold(PartialMarks(cs, c, j, end, t)) else None
  }

  ghost predicate Shows(entries: seq<Entry>, cs: seq<Vavailability>, start: int, end: int) {
    && Ordered(entries)
    && forall t :: CellAt(entries, t) == if start <= t < end then Fold(Marks(cs, end, t)) else None
  }

  /** Laying `span`, cut to the window, over the entries. */
  ghost predicate LaidOver(was: seq<Entry>, now: seq<Entry>, span: Option<Span>, mark: Mark, start: int, end: int) {
    && Ordered(now)
    && forall t :: CellAt(now, t) ==
         if start <= t < end && Contains(span, t) then Some(Override(CellAt(was, t), mark)) else CellAt(was, t)
  }

  lemma BusyStep(was: seq<Entry>, now: seq<Entry>, cs: seq<Vavailability>, c: Vavailability, start: int, end: int)
    requires Shows(was, cs, start, end)
    requires LaidOver(was, now, Extent(c, end), Mark(BusyType(c), GetPriority(c)), start, end)
    ensures ShowsPartly(now, cs, c, 0, start, end)
  {
    forall t { PartialEnds(cs, c, end, t); }
  }

  lemma FreeStep(was: seq<Entry>, now: seq<Entry>, cs: seq<Vavailability>, c: Vavailability, j: nat,
                 span: Option<Span>, start: int, end: int)
    requires j < |c.subcomponents| && ShowsPartly(was, cs, c, j, start, end)
    requires LaidOver(was, now, span, Mark(FREE, GetPriority(c)), start, end)
    requires forall t :: start <= t < end ==>
      (Contains(span, t) <==> Contains(Extent(c, end), t) && Contains(FreeSpan(c.subcomponents[j]), t))
    ensures ShowsPartly(now, cs, c, j + 1, start, end)
  {
    forall t { PartialStep(cs, c, j, end, t); }
  }

  lemma LastStep(entries: seq<Entry>, cs: seq<Vavailability>, c: Vavailability, start: int, end: int)
    requires ShowsPartly(entries, cs, c, |c.subcomponents|, start, end)
    ensures Shows(entries, cs + [c], start, end)
  {
    forall t { PartialEnds(cs, c, end, t); }
  }

  lemma SkipStep(entries: seq<Entry>, cs: seq<Vavailability>, c: Vavailability, start: int, end: int)
    requires Shows(entries, cs, start, end)
    requires forall t :: start <= t < end ==> !Contains(Extent(c, end), t)
    ensures Shows(entries, cs + [c], start, end)
  {
    forall t ensures start <= t < end ==> Marks(cs + [c], end, t) == Marks(cs, end, t) { MarksAppend(cs, c, end, t); }
  }

  /** `process_vavailability_components`: the report shows at every instant of the window
      the mark that decides there, unless it is FREE, and nothing outside the window. */
  method ProcessVavailabilityComponents(components: seq<Vavailability>, start: int, end: int)
      returns (periods: seq<Period>)
    requires start < end && forall c <- components :: WellFormed(c)
    ensures NormalForm(periods) && Within(periods, start, end) && TotalLength(periods) <= end - start
    ensures forall t :: !(start <= t < end) ==> TypeAt(periods, t).None?
    ensures forall t :: start <= t < end ==> TypeAt(periods, t) == Verdict(AllTold(components, end, t))
    ensures forall t :: start <= t < end ==> Decided(components, end, t, TypeAt(periods, t))
  {
    var timeline := new Timeline();
    SortKeepsMembers(components);
    FoldComponents(timeline, SortByPriority(components), start, end);
    periods := TimelineToPeriods(timeline.entries);
    ReportIsDecided(components, timeline.entries, periods, start, end);
    LengthFits(periods, start, end);
  }

  /** The loop over the sorted components. */
  method FoldComponents(timeline: Timeline, sorted: seq<Vavailability>, start: int, end: int)
    requires timeline.entries == [] && start < end && forall i :: 0 <= i < |sorted| ==> WellFormed(sorted[i])
    modifies timeline
    ensures Shows(timeline.entries, sorted, start, end)
  {
    for i := 0 to |sorted|
      invariant Shows(timeline.entries, sorted[..i], start, end)
    {
      assert sorted[..i + 1] == sorted[..i] + [sorted[i]];
      AddComponent(timeline, sorted[..i], sorted[i], start, end);
    }
    assert sorted[..|sorted|] == sorted;
  }

  lemma ReportIsDecided(components: seq<Vavailability>, entries: seq<Entry>, periods: seq<Period>, start: int, end: int)
    requires Shows(entries, SortByPriority(components), start, end)
    requires NormalForm(periods) && forall t :: TypeAt(periods, t) == Reported(CellAt(entries, t))
    ensures Within(periods, start, end)
    ensures forall t :: !(start <= t < end) ==> TypeAt(periods, t).None?
    ensures forall t :: start <= t < end ==> TypeAt(periods, t) == Verdict(AllTold(components, end, t))
    ensures forall t :: start <= t < end ==> Decided(components, end, t, TypeAt(periods, t))
  {
    forall t | start <= t < end
      ensures Decided(components, end, t, TypeAt(periods, t))
      ensures TypeAt(periods, t) == Verdict(AllTold(components, end, t))
    {
      SortKeepsFold(components, end, t);
      FoldIsDecided(components, end, t);
      FoldIsVerdict(Marks(components, end, t));
      MarksAreTold(components, end, t);
    }
    ReportWithin(periods, start, end);
  }

  lemma FoldIsDecided(components: seq<Vavailability>, windowEnd: int, t: int)
    ensures Decided(components, windowEnd, t, Reported(Fold(Marks(components, windowEnd, t))))
  {
    if Marks(components, windowEnd, t) != [] { var k := FoldDecides(Marks(components, windowEnd, t)); }
  }

  /** The body of the loop over the sorted components: the busy period, cut to the window,
      then the blocks of the component. */
  method AddComponent(timeline: Timeline, ghost done: seq<Vavailability>, c: Vavailability, start: int, end: int)
    requires start < end && WellFormed(c) && Shows(timeline.entries, done, start, end)
    modifies timeline
    ensures Shows(timeline.entries, done + [c], start, end)
  {
    if c.dtstart.None? {
      SkipStep(timeline.entries, done, c, start, end);
      return;
    }
    var availStart := c.dtstart.value;
    var availEnd := if c.dtend.Some? then c.dtend.value
                    else if c.duration.Some? then availStart + c.duration.value
                    else end;
    if availEnd <= start || availStart >= end {
      SkipStep(timeline.entries, done, c, start, end);
      return;
    }
    var periodStart, periodEnd := Max(availStart, start), Min(availEnd, end);
    ghost var was := timeline.entries;
    timeline.AddPeriod(periodStart, periodEnd, BusyType(c), GetPriority(c));
    BusyStep(was, timeline.entries, done, c, start, end);
    AddBlocks(timeline, done, c, periodStart, periodEnd, start, end);
    LastStep(timeline.entries, done, c, start, end);
  }

  /** The type reported at `t`: that of the deciding mark, none where it is FREE or where
      no component covers `t`. */
  ghost predicate Decided(components: seq<Vavailability>, windowEnd: int, t: int, fbtype: Option<string>) {
    var ms := Marks(components, windowEnd, t);
    if ms == [] then fbtype.None? else exists k :: Decides(ms, k) && fbtype == Reported(Some(ms[k]))
  }

  /** The inner loop: each AVAILABLE block that meets the period is laid over as FREE. */
  method AddBlocks(timeline: Timeline, ghost done: seq<Vavailability>, c: Vavailability,
                   periodStart: int, periodEnd: int, start: int, end: int)
    requires WellFormed(c) && Extent(c, end).Some? && periodStart < periodEnd
    requires periodStart == Max(Extent(c, end).value.start, start) && periodEnd == Min(Extent(c, end).value.end, end)
    requires ShowsPartly(timeline.entries, done, c, 0, start, end)
    modifies timeline
    ensures ShowsPartly(timeline.entries, done, c, |c.subcomponents|, start, end)
  {
    for j := 0 to |c.subcomponents|
      invariant ShowsPartly(timeline.entries, done, c, j, start, end)
    {
      var s := c.subcomponents[j];
      ghost var was := timeline.entries;
      if s.name != "AVAILABLE" || s.dtstart.None? || (s.dtend.None? && s.duration.None?) {
        FreeStep(was, was, done, c, j, None, start, end);
        continue;
      }
      var subStart := s.dtstart.value;
      var subEnd := if s.dtend.Some? then s.dtend.value else subStart + s.duration.value;
      if subEnd <= Max(periodStart, start) || subStart >= Min(periodEnd, end) {
        FreeStep(was, was, done, c, j, None, start, end);
        continue;
      }
      assert s in c.subcomponents && FreeSpan(s) == Some(Span(subStart, subEnd));
      var freeStart, freeEnd := Max(Max(subStart, periodStart), start), Min(Min(subEnd, periodEnd), end);
      timeline.AddPeriod(freeStart, freeEnd, FREE, GetPriority(c));
      FreeStep(was, timeline.entries, done, c, j, Some(Span(freeStart, freeEnd)), start, end);
    }
  }

  // ----- the report in plain terms

  /** What a component tells of `t` once it is known to speak of it: its busy type, which is
      BUSY-UNAVAILABLE if it has none, and FREE for every AVAILABLE block about `t`; all of
      its priority, which is 0 unless it is one of 1 to 9. */
  function Told(c: Vavailability, windowEnd: int, t: int): seq<Mark> {
    var until := if c.dtend.Some? then c.dtend else if c.duration.Some? && c.dtstart.Some?
                 then Some(c.dtstart.value + c.duration.value) else Some(windowEnd);
    var priority := if c.priority.Number? && 1 <= c.priority.value <= 9 then c.priority.value else 0;
    if c.dtstart.None? || t < c.dtstart.value || until.value <= t then []
    else
      [Mark(if c.busytype.Some? then c.busytype.value else "BUSY-UNAVAILABLE", priority)] +
      seq(BlocksAbout(c.subcomponents, t), _ => Mark("FREE", priority))
  }

  function BlocksAbout(subs: seq<Subcomponent>, t: int): nat {
    if subs == [] then 0
    else
      var s := subs[|subs| - 1];
      BlocksAbout(subs[..|subs| - 1], t) +
      if s.name == "AVAILABLE" && s.dtstart.Some? && s.dtstart.value <= t &&
         (if s.dtend.Some? then t < s.dtend.value
          else s.duration.Some? && t < s.dtstart.value + s.duration.value) then 1 else 0
  }

  function AllTold(cs: seq<Vavailability>, windowEnd: int, t: int): seq<Mark> {
    if cs == [] then [] else Told(cs[0], windowEnd, t) + AllTold(cs[1..], windowEnd, t)
  }

  function Smallest(ms: seq<Mark>): int
    requires ms != []
  {
    var n := |ms| - 1;
    if n == 0 then ms[0].priority else Min(Smallest(ms[..n]), ms[n].priority)
  }

  /** The marks of priority `p` since the last FREE of that priority. */
  function Since(ms: seq<Mark>, p: int): seq<Mark> {
    if ms == [] then []
    else
      var m := ms[|ms| - 1];
      if m.priority != p then Since(ms[..|ms| - 1], p)
      else if m.fbtype == "FREE" then []
      else Since(ms[..|ms| - 1], p) + [m]
  }

  predicate Says(ms: seq<Mark>, fbtype: string) { exists i | 0 <= i < |ms| :: ms[i].fbtype == fbtype }

  /** The type of the first mark of priority `p`. */
  function FirstType(ms: seq<Mark>, p: int): Option<string> {
    if ms == [] then None
    else if FirstType(ms[..|ms| - 1], p).Some? then FirstType(ms[..|ms| - 1], p)
    else if ms[|ms| - 1].priority == p then Some(ms[|ms| - 1].fbtype) else None
  }

  /** What is reported where the marks are told in this order: of the smallest priority, since
      its last FREE, the foremost of the three busy types told; if none of them is, nothing
      after a FREE, and else the type told first. */
  function Verdict(ms: seq<Mark>): Option<string> {
    if ms == [] then None
    else
      var p := Smallest(ms);
      var current := Since(ms, p);
      if Says(current, "BUSY") then Some("BUSY")
      else if Says(current, "BUSY-UNAVAILABLE") then Some("BUSY-UNAVAILABLE")
      else if Says(current, "BUSY-TENTATIVE") then Some("BUSY-TENTATIVE")
      else if Mark("FREE", p) in ms then None
      else FirstType(ms, p)
  }

  lemma {:induction false} BlocksAreFree(subs: seq<Subcomponent>, priority: int, t: int)
    ensures FreeMarks(subs, priority, t) == seq(BlocksAbout(subs, t), _ => Mark("FREE", priority))
  {
    if subs == [] {
    } else {
      BlocksAreFree(subs[..|subs| - 1], priority, t);
    }
  }

  lemma {:induction false} MarksAreTold(cs: seq<Vavailability>, windowEnd: int, t: int)
    ensures Marks(cs, windowEnd, t) == AllTold(cs, windowEnd, t)
  {
    if cs == [] {
    } else {
      MarksAreTold(cs[1..], windowEnd, t);
      BlocksAreFree(cs[0].subcomponents, GetPriority(cs[0]), t);
    }
  }

  lemma {:induction false} SmallestIs(ms: seq<Mark>, i: nat)
    requires i < |ms|
    ensures Smallest(ms) <= ms[i].priority
  {
    var n := |ms| - 1;
    if n == 0 || i == n {
    } else {
      SmallestIs(ms[..n], i);
    }
  }

  lemma {:induction false} NoneOfPriority(ms: seq<Mark>, p: int)
    requires forall m <- ms :: m.priority != p
    ensures Since(ms, p) == [] && FirstType(ms, p) == None
  {
    if ms == [] {
    } else {
      NoneOfPriority(ms[..|ms| - 1], p);
    }
  }

  lemma {:induction false} FirstIsThere(ms: seq<Mark>, p: int)
    ensures FirstType(ms, p).None? <==> forall m <- ms :: m.priority != p
    ensures Mark("FREE", p) !in ms && FirstType(ms, p).Some? ==> Says(Since(ms, p), FirstType(ms, p).value)
  {
    if ms == [] {
    } else {
      var n := |ms| - 1;
      FirstIsThere(ms[..n], p);
      SplitLast(ms);
      if Mark("FREE", p) !in ms && ms[n].priority == p { SaysOneMore(Since(ms[..n], p), ms[n]); }
    }
  }

  lemma SaysOneMore(ms: seq<Mark>, m: Mark)
    ensures forall fbtype :: Says(ms + [m], fbtype) <==> Says(ms, fbtype) || m.fbtype == fbtype
  {
    forall fbtype ensures Says(ms + [m], fbtype) <==> Says(ms, fbtype) || m.fbtype == fbtype {
      assert (ms + [m])[|ms|] == m;
      if Says(ms, fbtype) {
        var i :| 0 <= i < |ms| && ms[i].fbtype == fbtype;
        assert (ms + [m])[i].fbtype == fbtype;
      }
    }
  }

  /** What one more mark does to the parts of the verdict. */
  lemma OneMore(ms: seq<Mark>, m: Mark, p: int)
    ensures m.priority != p ==> Since(ms + [m], p) == Since(ms, p) && FirstType(ms + [m], p) == FirstType(ms, p)
    ensures m == Mark("FREE", p) ==> Since(ms + [m], p) == []
    ensures m.priority == p && m.fbtype != "FREE" ==> Since(ms + [m], p) == Since(ms, p) + [m]
    ensures FirstType(ms, p).Some? ==> FirstType(ms + [m], p) == FirstType(ms, p)
    ensures FirstType(ms, p).None? && m.priority == p ==> FirstType(ms + [m], p) == Some(m.fbtype)
    ensures Mark("FREE", p) in ms + [m] <==> Mark("FREE", p) in ms || m == Mark("FREE", p)
  {
    assert (ms + [m])[..|ms|] == ms;
  }

  /** The type that priority `p` comes to, FREE among them. */
  function Winner(ms: seq<Mark>, p: int): Option<string> {
    var current := Since(ms, p);
    if Says(current, "BUSY") then Some("BUSY")
    else if Says(current, "BUSY-UNAVAILABLE") then Some("BUSY-UNAVAILABLE")
    else if Says(current, "BUSY-TENTATIVE") then Some("BUSY-TENTATIVE")
    else if Mark("FREE", p) in ms then Some("FREE")
    else FirstType(ms, p)
  }

  lemma WinnerOfFree(ms: seq<Mark>, m: Mark)
    requires m.fbtype == "FREE"
    ensures Winner(ms + [m], m.priority) == Some("FREE")
  {
    OneMore(ms, m, m.priority);
    assert Since(ms + [m], m.priority) == [];
    assert !Says([], "BUSY") && !Says([], "BUSY-UNAVAILABLE") && !Says([], "BUSY-TENTATIVE");
  }

  lemma WinnerOfBusy(ms: seq<Mark>, m: Mark)
    requires m.fbtype != "FREE" && Winner(ms, m.priority).Some?
    ensures var w := Winner(ms, m.priority).value;
      Winner(ms + [m], m.priority) == Some(if Outranks(m, Mark(w, m.priority)) then m.fbtype else w)
  {
    var p := m.priority;
    OneMore(ms, m, p);
    FirstIsThere(ms, p);
    SaysOneMore(Since(ms, p), m);
    assert Since(ms + [m], p) == Since(ms, p) + [m];
  }

  /** One more mark of the priority: it wins just when it has precedence. */
  lemma WinnerOfOneMore(ms: seq<Mark>, m: Mark)
    requires Winner(ms, m.priority).Some?
    ensures var w := Mark(Winner(ms, m.priority).value, m.priority);
      Winner(ms + [m], m.priority) == Some(Override(Some(w), m).fbtype)
  {
    if m.fbtype == "FREE" { WinnerOfFree(ms, m); } else { WinnerOfBusy(ms, m); }
  }

  lemma WinnerOfOther(ms: seq<Mark>, m: Mark, p: int)
    requires m.priority != p
    ensures Winner(ms + [m], p) == Winner(ms, p)
  {
    OneMore(ms, m, p);
  }

  lemma WinnerOfFirst(ms: seq<Mark>, m: Mark)
    requires forall o <- ms :: o.priority != m.priority
    ensures Winner(ms + [m], m.priority) == Some(m.fbtype)
  {
    var p := m.priority;
    NoneOfPriority(ms, p);
    OneMore(ms, m, p);
    if m.fbtype == "FREE" {
      assert Since(ms + [m], p) == [];
    } else {
      assert Since(ms + [m], p) == [m];
      SaysOnly(m);
      assert Mark("FREE", p) !in ms + [m];
    }
  }

  lemma SaysOnly(m: Mark)
    ensures forall fbtype :: Says([m], fbtype) <==> m.fbtype == fbtype
  {
    forall fbtype ensures Says([m], fbtype) <==> m.fbtype == fbtype {
      assert [m][0] == m;
    }
  }

  /** The mark that is left is the winner of the smallest priority. */
  lemma {:induction false} FoldIsWinner(ms: seq<Mark>)
    requires ms != []
    ensures var w := Fold(ms).value; w.priority == Smallest(ms) && Winner(ms, w.priority) == Some(w.fbtype)
  {
    var n := |ms| - 1;
    var before, m := ms[..n], ms[n];
    assert ms == before + [m];
    if n == 0 {
      WinnerOfFirst(before, m);
    } else {
      FoldIsWinner(before);
      if m.priority == Smallest(before) {
        WinnerOfOneMore(before, m);
      } else if m.priority < Smallest(before) {
        forall o <- before ensures o.priority != m.priority {
          var i :| 0 <= i < |before| && before[i] == o;
          SmallestIs(before, i);
        }
        WinnerOfFirst(before, m);
      } else {
        WinnerOfOther(before, m, Smallest(before));
      }
    }
  }

  lemma FoldIsVerdict(ms: seq<Mark>)
    ensures Reported(Fold(ms)) == Verdict(ms)
  {
    if ms != [] {
      FoldIsWinner(ms);
      FirstIsThere(ms, Smallest(ms));
      var p := Smallest(ms);
      if Winner(ms, p) == Some("FREE") && Mark("FREE", p) !in ms { FreeIsNotCurrent(ms, p); }
    }
  }

  lemma {:induction false} FreeIsNotCurrent(ms: seq<Mark>, p: int)
    ensures !Says(Since(ms, p), "FREE")
  {
    if ms == [] {
    } else {
      var n := |ms| - 1;
      FreeIsNotCurrent(ms[..n], p);
      if ms[n].priority == p && ms[n].fbtype != "FREE" { SaysOneMore(Since(ms[..n], p), ms[n]); }
    }
  }
}
