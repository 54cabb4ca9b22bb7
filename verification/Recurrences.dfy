/**
 Recurrence sets and their expansion over a window (`_expand_rrule_component` and
 `expand_calendar_rrule` in xandikos/icalendar.py; section 9.6.5 of RFC 4791).
 */
module Recurrences {
  import opened Wrappers
  import opened Calendars
  import opened Seqs

  const MAX_RECURRENCE_INSTANCES := 3000

  /** A recurrence set as the sequence of its instants; without a count it never ends. */
  datatype Rule = Rule(at: nat -> int, count: Option<nat>) {
    predicate Has(i: nat) { count.None? || i < count.value }

    ghost predicate Increasing() { forall i: nat, j: nat :: i < j ==> at(i) < at(j) }

    ghost predicate Occurs(o: int) { OccursFrom(0, o) }

    ghost predicate OccursFrom(i: nat, o: int) { exists j: nat :: i <= j && Has(j) && at(j) == o }
  }

  // ----- the two ways dateutil is asked for occurrences

  /** `rule.between(lo, hi, inc=True)`, from index `i` on. */
  function Between(r: Rule, i: nat, lo: int, hi: int): seq<int>
    requires r.Increasing()
    decreases if r.at(i) <= hi then hi - r.at(i) + 1 else 0
  {
    if !r.Has(i) || r.at(i) > hi then []
    else (if lo <= r.at(i) then [r.at(i)] else []) + Between(r, i + 1, lo, hi)
  }

  /** `rule.xafter(lo, count=n, inc=True)`, from index `i` on. */
  function XAfter(r: Rule, i: nat, lo: int, n: nat): seq<int>
    requires r.Increasing()
    decreases (if r.at(i) < lo then lo - r.at(i) else 0) + n
  {
    if !r.Has(i) || n == 0 then []
    else if r.at(i) < lo then XAfter(r, i + 1, lo, n)
    else [r.at(i)] + XAfter(r, i + 1, lo, n - 1)
  }

  function UpTo(occs: seq<int>, hi: int): seq<int> {
    if occs == [] then []
    else (if occs[0] <= hi then [occs[0]] else []) + UpTo(occs[1..], hi)
  }

  /** An end on the last day that can be written is taken for an open one. */
  predicate OpenEnd(end: int) { end / DAY >= MAX_TIME / DAY }

  /** The occurrences that are looked at: those between the bounds, of which no more than
      the first 3000 when the query has no end. */
  function Candidates(r: Rule, lo: int, hi: int, openEnd: bool): seq<int>
    requires r.Increasing()
  {
    if openEnd then UpTo(XAfter(r, 0, lo, MAX_RECURRENCE_INSTANCES), hi) else Between(r, 0, lo, hi)
  }

  ghost predicate Ascending(s: seq<int>) { forall i, j :: 0 <= i < j < |s| ==> s[i] < s[j] }

  lemma AscendingCons(o: int, rest: seq<int>)
    requires Ascending(rest) && forall x <- rest :: o < x
    ensures Ascending([o] + rest)
  {
    var s := [o] + rest;
    forall i, j | 0 <= i < j < |s| ensures s[i] < s[j] {
      assert s[j] == rest[j - 1] && rest[j - 1] in rest;
    }
  }

  lemma {:induction false} BetweenIs(r: Rule, i: nat, lo: int, hi: int)
    requires r.Increasing()
    ensures Ascending(Between(r, i, lo, hi))
    ensures forall o :: o in Between(r, i, lo, hi) <==> lo <= o <= hi && r.OccursFrom(i, o)
    decreases if r.at(i) <= hi then hi - r.at(i) + 1 else 0
  {
    if !r.Has(i) || r.at(i) > hi {
    } else {
      BetweenIs(r, i + 1, lo, hi);
      AscendingCons(r.at(i), Between(r, i + 1, lo, hi));
    }
  }

  lemma OccursNext(r: Rule, i: nat, o: int)
    ensures r.OccursFrom(i, o) <==> r.Has(i) && (r.at(i) == o || r.OccursFrom(i + 1, o))
  {
    if r.OccursFrom(i, o) {
      var j: nat :| i <= j && r.Has(j) && r.at(j) == o;
      assert j == i || i + 1 <= j;
    }
  }

  /** `o` lies after all of `s`. */
  ghost predicate After(o: int, s: seq<int>) { forall x <- s :: x < o }

  /** XAfter gives an initial part of the occurrences from `lo` on, all of them when fewer than `n`. */
  lemma {:induction false} XAfterIs(r: Rule, i: nat, lo: int, n: nat)
    requires r.Increasing()
    ensures Ascending(XAfter(r, i, lo, n)) && |XAfter(r, i, lo, n)| <= n
    ensures forall o <- XAfter(r, i, lo, n) :: lo <= o && r.OccursFrom(i, o)
    ensures forall o :: lo <= o && r.OccursFrom(i, o) && o !in XAfter(r, i, lo, n) ==>
      |XAfter(r, i, lo, n)| == n && After(o, XAfter(r, i, lo, n))
    decreases (if r.at(i) < lo then lo - r.at(i) else 0) + n
  {
    forall o { OccursNext(r, i, o); }
    if r.Has(i) && n > 0 {
      if r.at(i) < lo {
        XAfterIs(r, i + 1, lo, n);
      } else {
        var rest := XAfter(r, i + 1, lo, n - 1);
        XAfterIs(r, i + 1, lo, n - 1);
        AscendingCons(r.at(i), rest);
        SplitMembers([r.at(i)] + rest);
        forall o | lo <= o && r.OccursFrom(i, o) && o !in [r.at(i)] + rest
          ensures |rest| == n - 1 && After(o, [r.at(i)] + rest)
        {
          assert r.OccursFrom(i + 1, o) && o !in rest;
        }
      }
    }
  }

  lemma {:induction false} UpToIs(occs: seq<int>, hi: int)
    requires Ascending(occs)
    ensures Ascending(UpTo(occs, hi)) && |UpTo(occs, hi)| <= |occs|
    ensures forall o :: o in UpTo(occs, hi) <==> o in occs && o <= hi
  {
    if occs == [] {
    } else {
      SplitMembers(occs);
      UpToIs(occs[1..], hi);
      if occs[0] <= hi { AscendingCons(occs[0], UpTo(occs[1..], hi)); }
    }
  }

  /** The candidates are occurrences between the bounds, in order; an occurrence between the
      bounds that is left out comes after 3000 candidates of an open query. */
  lemma CandidatesAre(r: Rule, lo: int, hi: int, openEnd: bool)
    requires r.Increasing()
    ensures var cs := Candidates(r, lo, hi, openEnd);
      && Ascending(cs)
      && (openEnd ==> |cs| <= MAX_RECURRENCE_INSTANCES)
      && (forall o <- cs :: lo <= o <= hi && r.Occurs(o))
      && (forall o :: lo <= o <= hi && r.Occurs(o) && o !in cs ==>
            openEnd && |cs| == MAX_RECURRENCE_INSTANCES && After(o, cs))
  {
    if openEnd {
      var xs := XAfter(r, 0, lo, MAX_RECURRENCE_INSTANCES);
      XAfterIs(r, 0, lo, MAX_RECURRENCE_INSTANCES);
      UpToIs(xs, hi);
      forall o | lo <= o <= hi && r.Occurs(o) && o !in UpTo(xs, hi)
        ensures |UpTo(xs, hi)| == MAX_RECURRENCE_INSTANCES && After(o, UpTo(xs, hi))
      {
        AllUpTo(xs, hi);
      }
    } else {
      BetweenIs(r, 0, lo, hi);
    }
  }

  lemma {:induction false} AllUpTo(occs: seq<int>, hi: int)
    requires forall o <- occs :: o <= hi
    ensures UpTo(occs, hi) == occs
  {
    if occs == [] {
    } else {
      SplitMembers(occs);
      AllUpTo(occs[1..], hi);
      assert occs[0] in occs && occs == [occs[0]] + occs[1..];
    }
  }
}
