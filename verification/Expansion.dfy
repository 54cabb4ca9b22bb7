/**
 Expanding a calendar over a window (`_expand_rrule_component` and
 `expand_calendar_rrule` in xandikos/icalendar.py; section 9.6.5 of RFC 4791).
 A calendar here has at most one recurring component.
 */
module Expansion {
  import opened Wrappers
  import opened Seqs
  import opened Calendars
  import opened Recurrences
  import opened Occurrences

  /** A component that is expanded with rule `r`: no window can lose any of its occurrences. */
  ghost predicate GoodMaster(m: Component, r: Rule) {
    && IsRecurring(m) && WellTyped(m.props) && Timed(m.name) && Wide(m) && r.Increasing()
    && (forall o :: r.Occurs(o) ==> IsInstant(m, o))
  }

  // ----- the expansion, and what it is meant to be

  /** The overrides filed by recurrence identifier; the last of several with one identifier counts. */
  function Overrides(subs: seq<Component>): (ov: map<Value, Component>)
    ensures forall k <- ov :: ov[k] in subs && IsOverride(ov[k]) && ov[k].props["RECURRENCE-ID"] == k
  {
    if subs == [] then map[]
    else
      var n := |subs| - 1;
      var before := Overrides(subs[..n]);
      if IsOverride(subs[n]) then before[subs[n].props["RECURRENCE-ID"] := subs[n]] else before
  }

  /** Occurrence `o` with its override substituted. */
  function Instance(m: Component, ov: map<Value, Component>, o: int): Component
    requires IsRecurring(m)
  {
    if Key(m, o) in ov then ov[Key(m, o)] else Occurrence(m, o)
  }

  /** The brute-force expansion: every occurrence of the whole sequence with its override
      substituted, and every override that matches no occurrence, filtered by overlap. */
  ghost predicate BruteForce(m: Option<Component>, r: Rule, ov: map<Value, Component>, x: Component, start: int,
                             end: int)
    requires m.Some? ==> IsRecurring(m.value)
  {
    && Overlaps(x, start, end)
    && ((m.Some? && exists o :: r.Occurs(o) && x == Instance(m.value, ov, o)) ||
        (exists k <- ov :: !Matched(m, r, k) && x == ov[k]))
  }

  ghost predicate Matched(m: Option<Component>, r: Rule, k: Value)
    requires m.Some? ==> IsRecurring(m.value)
  {
    m.Some? && exists o :: r.Occurs(o) && Key(m.value, o) == k
  }

  /** What the loop over `occs` yields when the overrides are `ov`. */
  function Expanded(m: Component, ov: map<Value, Component>, occs: seq<int>, start: int, end: int): seq<Component>
    requires IsRecurring(m)
  {
    if occs == [] then []
    else
      var n := |occs| - 1;
      var x := Instance(m, ov, occs[n]);
      Expanded(m, ov, occs[..n], start, end) + if Overlaps(x, start, end) then [x] else []
  }

  function Keys(m: Component, occs: seq<int>): set<Value>
    requires IsRecurring(m)
  {
    set o <- occs :: Key(m, o)
  }

  function Searched(m: Component, r: Rule, start: int, end: int): seq<int>
    requires IsRecurring(m) && r.Increasing()
  {
    Candidates(r, Normalized(m, AdjustedStart(m, start)), Normalized(m, end), OpenEnd(end))
  }

  /** Recurrence identifiers are never repeated. */
  ghost predicate NoRepeats(cs: seq<Component>) {
    forall i, j :: 0 <= i < j < |cs| && IsOverride(cs[i]) && IsOverride(cs[j]) ==>
      cs[i].props["RECURRENCE-ID"] != cs[j].props["RECURRENCE-ID"]
  }

  lemma {:induction false} ExpandedMembers(m: Component, ov: map<Value, Component>, occs: seq<int>, start: int,
                                           end: int)
    requires IsRecurring(m)
    ensures |Expanded(m, ov, occs, start, end)| <= |occs|
    ensures forall x :: x in Expanded(m, ov, occs, start, end) <==>
      Overlaps(x, start, end) && exists o <- occs :: x == Instance(m, ov, o)
  {
    if occs == [] {
    } else {
      ExpandedMembers(m, ov, occs[..|occs| - 1], start, end);
      SplitLast(occs);
    }
  }

  lemma {:induction false} ExpandedIds(m: Component, ov: map<Value, Component>, occs: seq<int>, start: int, end: int)
    requires IsRecurring(m) && Ascending(occs)
    requires forall k <- ov :: IsOverride(ov[k]) && ov[k].props["RECURRENCE-ID"] == k
    ensures NoRepeats(Expanded(m, ov, occs, start, end))
    ensures forall x <- Expanded(m, ov, occs, start, end) ::
      IsOverride(x) && x.props["RECURRENCE-ID"] in Keys(m, occs)
  {
    if occs == [] {
    } else {
      var n := |occs| - 1;
      ExpandedIds(m, ov, occs[..n], start, end);
      SplitLast(occs);
      var x := Instance(m, ov, occs[n]);
      assert IsOverride(x) && x.props["RECURRENCE-ID"] == Key(m, occs[n]);
      assert Key(m, occs[n]) !in Keys(m, occs[..n]);
    }
  }

  /** The loop yields just the overlapping instances, one to an occurrence. */
  lemma ExpandedIs(m: Component, ov: map<Value, Component>, occs: seq<int>, start: int, end: int)
    requires IsRecurring(m) && Ascending(occs)
    requires forall k <- ov :: IsOverride(ov[k]) && ov[k].props["RECURRENCE-ID"] == k
    ensures var xs := Expanded(m, ov, occs, start, end);
      && |xs| <= |occs| && NoRepeats(xs)
      && (forall x :: x in xs <==> Overlaps(x, start, end) && exists o <- occs :: x == Instance(m, ov, o))
      && (forall x <- xs :: IsOverride(x) && x.props["RECURRENCE-ID"] in Keys(m, occs))
  {
    ExpandedMembers(m, ov, occs, start, end);
    ExpandedIds(m, ov, occs, start, end);
  }

  function WithId(x: Component, id: Value): Component { x.(props := x.props["RECURRENCE-ID" := id]) }

  lemma ExpandStep(m: Component, ov: map<Value, Component>, occs: seq<int>, i: nat, start: int, end: int)
    requires IsRecurring(m) && Ascending(occs) && i < |occs|
    requires forall k <- ov :: IsOverride(ov[k]) && ov[k].props["RECURRENCE-ID"] == k
    ensures ov - Keys(m, occs[..i + 1]) == ov - Keys(m, occs[..i]) - {Key(m, occs[i])}
    ensures Instance(m, ov - Keys(m, occs[..i]), occs[i]) == Instance(m, ov, occs[i])
    ensures var x := Instance(m, ov, occs[i]);
      && WithId(x, Key(m, occs[i])) == x
      && Expanded(m, ov, occs[..i + 1], start, end) ==
         Expanded(m, ov, occs[..i], start, end) + if Overlaps(x, start, end) then [x] else []
  {
    var done := occs[..i];
    assert occs[..i + 1] == done + [occs[i]] && (done + [occs[i]])[..i] == done;
    assert Keys(m, done + [occs[i]]) == Keys(m, done) + {Key(m, occs[i])};
    assert Key(m, occs[i]) !in Keys(m, done);
    var x := Instance(m, ov, occs[i]);
    assert x.props["RECURRENCE-ID" := Key(m, occs[i])] == x.props;
  }

  class Expander {
    /** The dictionary of exceptions, and the order its keys were first put there in. */
    var exceptions: map<Value, Component>
    var filed: seq<Value>
    var outcal: seq<Component>

    constructor ()
      ensures exceptions == map[] && filed == [] && outcal == []
    {
      exceptions, filed, outcal := map[], [], [];
    }

    /** `existing.pop(ts)`, or a new occurrence where there is none. */
    method PopOrCreate(m: Component, ts: int) returns (outcomp: Component)
      requires IsRecurring(m)
      modifies this`exceptions
      ensures outcomp == Instance(m, old(exceptions), ts)
      ensures exceptions == old(exceptions) - {Key(m, ts)}
    {
      var key := Key(m, ts);
      if key in exceptions {
        outcomp := exceptions[key];
        exceptions := exceptions - {key};
      } else {
        outcomp := Occurrence(m, ts);
      }
    }

    /** One turn of the loop: the instance is popped or created, and added if it overlaps;
        false stands for the MissingProperty that an override without DTSTART raises. */
    method ExpandOne(m: Component, ts: int, start: int, end: int) returns (ok: bool)
      requires IsRecurring(m)
      modifies this`exceptions, this`outcal
      ensures exceptions == old(exceptions) - {Key(m, ts)}
      ensures var x := Instance(m, old(exceptions), ts);
        && (ok <==> !LacksStart(x))
        && (ok ==> outcal == old(outcal) + if Overlaps(x, start, end) then [WithId(x, Key(m, ts))] else [])
    {
      var outcomp := PopOrCreate(m, ts);
      MissingIsStart(outcomp, start, end);
      if Apply(outcomp.name, start, end, outcomp.props) == Missing { return false; }
      if !Overlaps(outcomp, start, end) { return true; }
      outcal := outcal + [WithId(outcomp, Key(m, ts))];
      return true;
    }

    /** `_expand_rrule_component`, its results added to the output as they come: a matching
        override is popped from the exceptions, overlapping or not. */
    method ExpandRruleComponent(m: Component, r: Rule, start: int, end: int) returns (ok: bool)
      requires HasRule(m) && (IsRecurring(m) ==> r.Increasing())
      requires forall k <- exceptions :: IsOverride(exceptions[k]) && exceptions[k].props["RECURRENCE-ID"] == k
      modifies this`exceptions, this`outcal
      ensures !IsRecurring(m) ==> ok && exceptions == old(exceptions) && outcal == old(outcal)
      ensures IsRecurring(m) ==>
        var occs := Searched(m, r, start, end);
        && (ok <==> AllStart(m, old(exceptions), occs))
        && (ok ==> exceptions == old(exceptions) - Keys(m, occs))
        && (ok ==> outcal == old(outcal) + Expanded(m, old(exceptions), occs, start, end))
    {
      if "DTSTART" !in m.props { return true; }
      var occurrences := Searched(m, r, start, end);
      CandidatesAre(r, Normalized(m, AdjustedStart(m, start)), Normalized(m, end), OpenEnd(end));
      ok := ExpandEach(m, occurrences, start, end);
    }

    /** The loop over the occurrences found. */
    method ExpandEach(m: Component, occurrences: seq<int>, start: int, end: int) returns (ok: bool)
      requires IsRecurring(m) && Ascending(occurrences)
      requires forall k <- exceptions :: IsOverride(exceptions[k]) && exceptions[k].props["RECURRENCE-ID"] == k
      modifies this`exceptions, this`outcal
      ensures ok <==> AllStart(m, old(exceptions), occurrences)
      ensures ok ==> exceptions == old(exceptions) - Keys(m, occurrences)
      ensures ok ==> outcal == old(outcal) + Expanded(m, old(exceptions), occurrences, start, end)
    {
      ghost var ov, out := exceptions, outcal;
      for i := 0 to |occurrences|
        invariant AllStart(m, ov, occurrences[..i])
        invariant exceptions == ov - Keys(m, occurrences[..i])
        invariant outcal == out + Expanded(m, ov, occurrences[..i], start, end)
      {
        ExpandStep(m, ov, occurrences, i, start, end);
        ok := ExpandOne(m, occurrences[i], start, end);
        if !ok { return; }
        AllStartStep(m, ov, occurrences, i);
      }
      assert occurrences[..|occurrences|] == occurrences;
      return true;
    }
  }

  /** None of the instances is an override that cannot be tested. */
  predicate AllStart(m: Component, ov: map<Value, Component>, occs: seq<int>)
    requires IsRecurring(m)
  {
    forall i | 0 <= i < |occs| :: !LacksStart(Instance(m, ov, occs[i]))
  }

  lemma AllStartStep(m: Component, ov: map<Value, Component>, occs: seq<int>, i: nat)
    requires IsRecurring(m) && i < |occs| && AllStart(m, ov, occs[..i]) && !LacksStart(Instance(m, ov, occs[i]))
    ensures AllStart(m, ov, occs[..i + 1])
  {
  }

  // ----- a whole calendar

  function Master(subs: seq<Component>): (m: Option<Component>)
    ensures m.Some? ==> IsRecurring(m.value)
  {
    if subs == [] then None
    else if IsRecurring(subs[|subs| - 1]) then Some(subs[|subs| - 1])
    else Master(subs[..|subs| - 1])
  }

  /** The calendars considered: at most one component recurs, and the overrides are of
      components whose time-range test is modelled. */
  ghost predicate GoodCalendar(subs: seq<Component>, r: Rule) {
    && (forall i, j :: 0 <= i < j < |subs| ==> !(IsRecurring(subs[i]) && IsRecurring(subs[j])))
    && (Master(subs).Some? ==> GoodMaster(Master(subs).value, r))
    && (forall c <- subs :: IsOverride(c) ==> Timed(c.name))
  }

  /** What is copied as it stands: time zones, and components that neither recur nor override. */
  predicate Copied(c: Component) {
    c.name == "VTIMEZONE" || (!IsOverride(c) && "RRULE" !in c.props)
  }

  /** What one component contributes to the output. */
  function Contribution(c: Component, r: Rule, ov: map<Value, Component>, start: int, end: int): seq<Component>
    requires r.Increasing()
  {
    if Copied(c) then [c]
    else if IsRecurring(c) then Expanded(c, ov, Searched(c, r, start, end), start, end)
    else []
  }

  /** The output before the leftover overrides are added. */
  function Assembled(subs: seq<Component>, r: Rule, ov: map<Value, Component>, start: int, end: int): seq<Component>
    requires r.Increasing()
  {
    if subs == [] then []
    else
      var n := |subs| - 1;
      Assembled(subs[..n], r, ov, start, end) + Contribution(subs[n], r, ov, start, end)
  }

  /** The overrides left once the occurrences found have taken theirs. */
  function Leftover(m: Option<Component>, r: Rule, ov: map<Value, Component>, start: int, end: int): map<Value,
                    Component>
    requires r.Increasing() && (m.Some? ==> IsRecurring(m.value))
  {
    if m.None? then ov else ov - Keys(m.value, Searched(m.value, r, start, end))
  }

  ghost predicate Yielded(m: Option<Component>, r: Rule, ov: map<Value, Component>, x: Component, start: int, end: int)
    requires r.Increasing() && (m.Some? ==> IsRecurring(m.value))
  {
    m.Some? && x in Expanded(m.value, ov, Searched(m.value, r, start, end), start, end)
  }

  lemma {:induction false} MasterIs(subs: seq<Component>)
    ensures Master(subs).None? <==> forall c <- subs :: !IsRecurring(c)
    ensures Master(subs).Some? ==> Master(subs).value in subs
  {
    if subs == [] {
    } else {
      SplitLast(subs);
      MasterIs(subs[..|subs| - 1]);
    }
  }

  lemma {:induction false} AssembledIs(subs: seq<Component>, r: Rule, ov: map<Value, Component>, start: int, end: int)
    requires r.Increasing()
    requires forall i, j :: 0 <= i < j < |subs| ==> !(IsRecurring(subs[i]) && IsRecurring(subs[j]))
    ensures forall x :: x in Assembled(subs, r, ov, start, end) <==>
      (x in subs && Copied(x)) || Yielded(Master(subs), r, ov, x, start, end)
  {
    if subs == [] {
    } else {
      var n := |subs| - 1;
      SplitLast(subs);
      AssembledIs(subs[..n], r, ov, start, end);
      MasterIs(subs[..n]);
      if IsRecurring(subs[n]) {
        assert forall i :: 0 <= i < n ==> subs[..n][i] == subs[i];
        assert Master(subs[..n]).None?;
      }
    }
  }

  lemma NoRepeatsConcat(a: seq<Component>, b: seq<Component>)
    requires NoRepeats(a) && NoRepeats(b)
    requires forall x <- a, y <- b :: IsOverride(x) && IsOverride(y) ==>
      x.props["RECURRENCE-ID"] != y.props["RECURRENCE-ID"]
    ensures NoRepeats(a + b)
  {
    var c := a + b;
    forall i, j | 0 <= i < j < |c| && IsOverride(c[i]) && IsOverride(c[j])
      ensures c[i].props["RECURRENCE-ID"] != c[j].props["RECURRENCE-ID"]
    {
      if i < |a| <= j { assert c[i] in a && c[j] in b; }
    }
  }

  /** The identifiers in `cs` are all among `keys`, none twice. */
  ghost predicate Identified(cs: seq<Component>, keys: set<Value>) {
    NoRepeats(cs) && forall x <- cs :: IsOverride(x) ==> x.props["RECURRENCE-ID"] in keys
  }

  /** The identifiers that the components may be given. */
  function KeysFound(subs: seq<Component>, r: Rule, start: int, end: int): set<Value>
    requires r.Increasing()
  {
    if Master(subs).None? then {} else Keys(Master(subs).value, Searched(Master(subs).value, r, start, end))
  }

  lemma ExpandedIdentified(m: Component, r: Rule, ov: map<Value, Component>, start: int, end: int)
    requires IsRecurring(m) && r.Increasing()
    requires forall k <- ov :: IsOverride(ov[k]) && ov[k].props["RECURRENCE-ID"] == k
    ensures Identified(Expanded(m, ov, Searched(m, r, start, end), start, end), Keys(m, Searched(m, r, start, end)))
  {
    CandidatesAre(r, Normalized(m, AdjustedStart(m, start)), Normalized(m, end), OpenEnd(end));
    ExpandedIs(m, ov, Searched(m, r, start, end), start, end);
  }

  lemma OneMaster(subs: seq<Component>, r: Rule)
    requires GoodCalendar(subs, r) && subs != []
    ensures var n := |subs| - 1;
      && GoodCalendar(subs[..n], r)
      && (IsRecurring(subs[n]) ==> Master(subs[..n]).None?)
      && (Copied(subs[n]) ==> !IsOverride(subs[n]) && !IsRecurring(subs[n]))
  {
    var n := |subs| - 1;
    SplitLast(subs);
    MasterIs(subs[..n]);
    assert forall i :: 0 <= i < n ==> subs[..n][i] == subs[i];
    assert subs[n] in subs;
  }

  /** Within the assembled output only what the recurring component yields has an identifier. */
  lemma {:induction false} AssembledIdentified(subs: seq<Component>, r: Rule, ov: map<Value, Component>,
                                               start: int, end: int)
    requires GoodCalendar(subs, r) && r.Increasing()
    requires forall k <- ov :: IsOverride(ov[k]) && ov[k].props["RECURRENCE-ID"] == k
    ensures Identified(Assembled(subs, r, ov, start, end), KeysFound(subs, r, start, end))
  {
    if subs == [] {
    } else {
      var n := |subs| - 1;
      OneMaster(subs, r);
      AssembledIdentified(subs[..n], r, ov, start, end);
      if Copied(subs[n]) {
        NoRepeatsConcat(Assembled(subs[..n], r, ov, start, end), [subs[n]]);
      } else if IsRecurring(subs[n]) {
        ExpandedIdentified(subs[n], r, ov, start, end);
        NoRepeatsConcat(Assembled(subs[..n], r, ov, start, end),
                        Expanded(subs[n], ov, Searched(subs[n], r, start, end), start, end));
      }
    }
  }

  /** What is copied, in order. */
  function CopiedOf(cs: seq<Component>): seq<Component> {
    if cs == [] then []
    else CopiedOf(cs[..|cs| - 1]) + if Copied(cs[|cs| - 1]) then [cs[|cs| - 1]] else []
  }

  lemma {:induction false} CopiedOfConcat(a: seq<Component>, b: seq<Component>)
    ensures CopiedOf(a + b) == CopiedOf(a) + CopiedOf(b)
  {
    if b == [] {
      assert a + b == a;
    } else {
      CopiedOfConcat(a, b[..|b| - 1]);
      assert (a + b)[..|a + b| - 1] == a + b[..|b| - 1];
    }
  }

  lemma {:induction false} NoneCopied(cs: seq<Component>)
    requires forall c <- cs :: !Copied(c)
    ensures CopiedOf(cs) == []
  {
    if cs == [] {
    } else {
      NoneCopied(cs[..|cs| - 1]);
    }
  }

  /** Overrides are filed under their identifiers, and are no time zones. */
  ghost predicate GoodOverrides(ov: map<Value, Component>) {
    forall k <- ov :: IsOverride(ov[k]) && ov[k].props["RECURRENCE-ID"] == k && ov[k].name != "VTIMEZONE"
  }

  lemma ContributionCopies(c: Component, r: Rule, ov: map<Value, Component>, start: int, end: int)
    requires r.Increasing() && GoodOverrides(ov) && (Copied(c) ==> !IsRecurring(c))
    ensures CopiedOf(Contribution(c, r, ov, start, end)) == if Copied(c) then [c] else []
  {
    if Copied(c) {
      assert [c][..0] == [];
    } else if IsRecurring(c) {
      ExpandedNotCopied(c, r, ov, start, end);
      NoneCopied(Expanded(c, ov, Searched(c, r, start, end), start, end));
    }
  }

  /** Copied components come out as often as they went in, and in their order. */
  lemma {:induction false} AssembledCopies(subs: seq<Component>, r: Rule, ov: map<Value, Component>, start: int,
                                           end: int)
    requires GoodCalendar(subs, r) && r.Increasing() && GoodOverrides(ov)
    ensures CopiedOf(Assembled(subs, r, ov, start, end)) == CopiedOf(subs)
  {
    if subs == [] {
    } else {
      var n := |subs| - 1;
      OneMaster(subs, r);
      AssembledCopies(subs[..n], r, ov, start, end);
      ContributionCopies(subs[n], r, ov, start, end);
      CopiedOfConcat(Assembled(subs[..n], r, ov, start, end), Contribution(subs[n], r, ov, start, end));
    }
  }

  lemma ExpandedNotCopied(m: Component, r: Rule, ov: map<Value, Component>, start: int, end: int)
    requires IsRecurring(m) && r.Increasing() && GoodOverrides(ov)
    ensures forall x <- Expanded(m, ov, Searched(m, r, start, end), start, end) :: !Copied(x)
  {
    CandidatesAre(r, Normalized(m, AdjustedStart(m, start)), Normalized(m, end), OpenEnd(end));
    ExpandedIs(m, ov, Searched(m, r, start, end), start, end);
  }

  /** A generated occurrence that an open query stops short of: it comes after 3000 candidates. */
  ghost predicate Capped(m: Option<Component>, r: Rule, ov: map<Value, Component>, x: Component, start: int, end: int)
    requires r.Increasing() && (m.Some? ==> IsRecurring(m.value))
  {
    && OpenEnd(end) && m.Some?
    && var occs := Searched(m.value, r, start, end);
      |occs| == MAX_RECURRENCE_INSTANCES &&
      exists o :: r.Occurs(o) && After(o, occs) && Key(m.value, o) !in ov && x == Occurrence(m.value, o)
  }

  ghost predicate IsLeftover(m: Option<Component>, r: Rule, ov: map<Value, Component>, x: Component, start: int,
                             end: int)
    requires r.Increasing() && (m.Some? ==> IsRecurring(m.value))
  {
    Overlaps(x, start, end) && exists k <- Leftover(m, r, ov, start, end) :: x == ov[k]
  }

  /** What is found in the window, with the overrides left over, is what brute force gives,
      but for what the cap on open queries cuts off. */
  lemma FoundIsBruteForce(m: Option<Component>, r: Rule, ov: map<Value, Component>, x: Component, start: int, end: int)
    requires r.Increasing() && (m.Some? ==> GoodMaster(m.value, r))
    requires forall k <- ov :: IsOverride(ov[k]) && ov[k].props["RECURRENCE-ID"] == k
    ensures Yielded(m, r, ov, x, start, end) || IsLeftover(m, r, ov, x, start, end) ==>
      BruteForce(m, r, ov, x, start, end)
    ensures BruteForce(m, r, ov, x, start, end) ==>
      Yielded(m, r, ov, x, start, end) || IsLeftover(m, r, ov, x, start, end) || Capped(m, r, ov, x, start, end)
  {
    if m.Some? {
      var lo, hi := Normalized(m.value, AdjustedStart(m.value, start)), Normalized(m.value, end);
      var occs := Searched(m.value, r, start, end);
      CandidatesAre(r, lo, hi, OpenEnd(end));
      ExpandedIs(m.value, ov, occs, start, end);
      if IsLeftover(m, r, ov, x, start, end) {
        var k :| k in Leftover(m, r, ov, start, end) && x == ov[k];
        if Matched(m, r, k) {
          var o :| r.Occurs(o) && Key(m.value, o) == k;
          assert x == Instance(m.value, ov, o);
        }
      }
      if BruteForce(m, r, ov, x, start, end) {
        if o :| r.Occurs(o) && x == Instance(m.value, ov, o) {
          FoundOccurrence(m.value, r, ov, o, start, end);
        } else {
          var k :| k in ov && !Matched(m, r, k) && x == ov[k];
          assert k !in Keys(m.value, occs);
        }
      }
    }
  }

  /** An overlapping instance is yielded, left over, or cut off by the cap. */
  lemma FoundOccurrence(m: Component, r: Rule, ov: map<Value, Component>, o: int, start: int, end: int)
    requires GoodMaster(m, r) && r.Occurs(o) && Overlaps(Instance(m, ov, o), start, end)
    requires forall k <- ov :: IsOverride(ov[k]) && ov[k].props["RECURRENCE-ID"] == k
    ensures var x := Instance(m, ov, o);
      Yielded(Some(m), r, ov, x, start, end) || IsLeftover(Some(m), r, ov, x, start, end) ||
      Capped(Some(m), r, ov, x, start, end)
  {
    var x := Instance(m, ov, o);
    var lo, hi := Normalized(m, AdjustedStart(m, start)), Normalized(m, end);
    var occs := Searched(m, r, start, end);
    CandidatesAre(r, lo, hi, OpenEnd(end));
    ExpandedIs(m, ov, occs, start, end);
    if o !in occs {
      if Key(m, o) in ov {
        assert Key(m, o) !in Keys(m, occs);
        assert Key(m, o) in Leftover(Some(m), r, ov, start, end);
      } else {
        WideningLosesNothing(m, o, start, end);
      }
    }
  }

  // ----- the overrides that are left, and what cannot be tested

  /** The keys of the overrides in the order they were first filed in. */
  function Filed(subs: seq<Component>): (ks: seq<Value>)
    ensures forall k :: k in ks <==> k in Overrides(subs)
  {
    if subs == [] then []
    else
      var n := |subs| - 1;
      var before := Filed(subs[..n]);
      if IsOverride(subs[n]) && subs[n].props["RECURRENCE-ID"] !in before
      then before + [subs[n].props["RECURRENCE-ID"]] else before
  }

  ghost predicate Unlike(ks: seq<Value>) { forall i, j :: 0 <= i < j < |ks| ==> ks[i] != ks[j] }

  lemma {:induction false} FiledOnce(subs: seq<Component>)
    ensures Unlike(Filed(subs))
  {
    if subs == [] {
    } else {
      FiledOnce(subs[..|subs| - 1]);
    }
  }

  /** Those of the overrides in `left` that overlap, in the order of their keys. */
  function LeftoverIn(ks: seq<Value>, left: map<Value, Component>, start: int, end: int): seq<Component> {
    if ks == [] then []
    else
      var k := ks[|ks| - 1];
      LeftoverIn(ks[..|ks| - 1], left, start, end) +
      if k in left && Overlaps(left[k], start, end) then [left[k]] else []
  }

  lemma {:induction false} LeftoverInIs(ks: seq<Value>, left: map<Value, Component>, start: int, end: int)
    requires Unlike(ks) && forall k <- left :: IsOverride(left[k]) && left[k].props["RECURRENCE-ID"] == k
    ensures NoRepeats(LeftoverIn(ks, left, start, end))
    ensures forall x :: x in LeftoverIn(ks, left, start, end) <==>
      Overlaps(x, start, end) && exists k <- ks :: k in left && x == left[k]
  {
    if ks == [] {
    } else {
      var n := |ks| - 1;
      SplitLast(ks);
      LeftoverInIs(ks[..n], left, start, end);
      var before := LeftoverIn(ks[..n], left, start, end);
      assert ks[n] !in ks[..n];
      if ks[n] in left { NoRepeatsConcat(before, [left[ks[n]]]); }
    }
  }

  /** What the calendar expands to. */
  function ExpandedCalendar(subs: seq<Component>, r: Rule, start: int, end: int): seq<Component>
    requires r.Increasing()
  {
    Assembled(subs, r, Overrides(subs), start, end) +
    LeftoverIn(Filed(subs), Leftover(Master(subs), r, Overrides(subs), start, end), start, end)
  }

  /** Some override cannot be tested: every one is, either in place of an occurrence or as
      left over. */
  predicate Raises(subs: seq<Component>) { exists k <- Overrides(subs) :: LacksStart(Overrides(subs)[k]) }

  lemma OccurrenceStarts(m: Component, o: int)
    requires IsRecurring(m)
    ensures !LacksStart(Occurrence(m, o))
  {
  }

  /** Instances lack a start just when some override found does. */
  lemma AllStartIs(m: Component, ov: map<Value, Component>, occs: seq<int>)
    requires IsRecurring(m)
    ensures AllStart(m, ov, occs) <==> forall k <- ov :: k in Keys(m, occs) ==> !LacksStart(ov[k])
  {
    if !AllStart(m, ov, occs) {
      var i :| 0 <= i < |occs| && LacksStart(Instance(m, ov, occs[i]));
      OccurrenceStarts(m, occs[i]);
      assert Key(m, occs[i]) in ov && Key(m, occs[i]) in Keys(m, occs);
    } else {
      forall k | k in ov && k in Keys(m, occs) ensures !LacksStart(ov[k]) {
        var o :| o in occs && Key(m, o) == k;
        var i :| 0 <= i < |occs| && occs[i] == o;
        assert Instance(m, ov, occs[i]) == ov[k];
      }
    }
  }

  lemma RaisesJustWhen(subs: seq<Component>, r: Rule, start: int, end: int)
    requires r.Increasing()
    ensures var m, ov := Master(subs), Overrides(subs);
      Raises(subs) <==>
      !Testable(m, r, ov, start, end) || exists k <- Leftover(m, r, ov, start, end) :: LacksStart(ov[k])
  {
    var m, ov := Master(subs), Overrides(subs);
    if m.Some? { AllStartIs(m.value, ov, Searched(m.value, r, start, end)); }
  }

  // ----- the two loops and the last

  /** `expand_calendar_rrule`; None stands for the MissingProperty of an override without
      DTSTART. */
  method ExpandCalendarRrule(subs: seq<Component>, r: Rule, start: int, end: int)
      returns (out: Option<seq<Component>>)
    requires GoodCalendar(subs, r) && r.Increasing()
    ensures out == if Raises(subs) then None else Some(ExpandedCalendar(subs, r, start, end))
  {
    var e := new Expander();
    Collect(e, subs);
    RaisesJustWhen(subs, r, start, end);
    var ok := Assemble(e, subs, r, start, end);
    if !ok { return None; }
    var extra := TakeOverlapping(e.filed, e.exceptions, start, end);
    if extra.None? { return None; }
    return Some(e.outcal + extra.value);
  }

  /** The first loop: every component with a RECURRENCE-ID is filed as an exception. */
  method Collect(e: Expander, subs: seq<Component>)
    requires e.exceptions == map[] && e.filed == []
    modifies e`exceptions, e`filed
    ensures e.exceptions == Overrides(subs) && e.filed == Filed(subs)
  {
    for i := 0 to |subs|
      invariant e.exceptions == Overrides(subs[..i]) && e.filed == Filed(subs[..i])
    {
      assert subs[..i + 1][..i] == subs[..i];
      if IsOverride(subs[i]) {
        var key := subs[i].props["RECURRENCE-ID"];
        if key !in e.exceptions { e.filed := e.filed + [key]; }
        e.exceptions := e.exceptions[key := subs[i]];
      }
    }
    assert subs[..|subs|] == subs;
  }

  /** The second loop: copied components, and what the recurring one yields. */
  method Assemble(e: Expander, subs: seq<Component>, r: Rule, start: int, end: int) returns (ok: bool)
    requires GoodCalendar(subs, r) && r.Increasing() && e.exceptions == Overrides(subs) && e.outcal == []
    modifies e`exceptions, e`outcal
    ensures ok <==> Testable(Master(subs), r, Overrides(subs), start, end)
    ensures ok ==> e.exceptions == Leftover(Master(subs), r, Overrides(subs), start, end)
    ensures ok ==> e.outcal == Assembled(subs, r, Overrides(subs), start, end)
  {
    ghost var ov := Overrides(subs);
    for i := 0 to |subs|
      invariant e.exceptions == Leftover(Master(subs[..i]), r, ov, start, end)
      invariant e.outcal == Assembled(subs[..i], r, ov, start, end)
      invariant Testable(Master(subs[..i]), r, ov, start, end)
    {
      var comp := subs[i];
      AssembleStep(subs, i, r, ov, start, end);
      if comp.name == "VTIMEZONE" {
        e.outcal := e.outcal + [comp];
      } else if IsOverride(comp) {
      } else if "RRULE" in comp.props {
        ok := e.ExpandRruleComponent(comp, r, start, end);
        if !ok {
          OnlyMaster(subs, i, r);
          return;
        }
      } else {
        e.outcal := e.outcal + [comp];
      }
    }
    assert subs[..|subs|] == subs;
    return true;
  }

  ghost predicate Testable(m: Option<Component>, r: Rule, ov: map<Value, Component>, start: int, end: int)
    requires r.Increasing() && (m.Some? ==> IsRecurring(m.value))
  {
    m.None? || AllStart(m.value, ov, Searched(m.value, r, start, end))
  }

  lemma OnlyMaster(subs: seq<Component>, i: nat, r: Rule)
    requires i < |subs| && GoodCalendar(subs, r) && IsRecurring(subs[i])
    ensures Master(subs) == Some(subs[i])
  {
    MasterIs(subs);
    assert subs[i] in subs;
    var j :| 0 <= j < |subs| && Master(subs) == Some(subs[j]);
    assert i == j;
  }

  lemma AssembleStep(subs: seq<Component>, i: nat, r: Rule, ov: map<Value, Component>, start: int, end: int)
    requires i < |subs| && GoodCalendar(subs, r) && r.Increasing()
    ensures Assembled(subs[..i + 1], r, ov, start, end) ==
      Assembled(subs[..i], r, ov, start, end) + Contribution(subs[i], r, ov, start, end)
    ensures IsRecurring(subs[i]) ==> Master(subs[..i]).None? && Master(subs[..i + 1]) == Some(subs[i])
    ensures !IsRecurring(subs[i]) ==> Master(subs[..i + 1]) == Master(subs[..i])
  {
    assert subs[..i + 1][..i] == subs[..i];
    MasterIs(subs[..i]);
    assert forall j :: 0 <= j < i ==> subs[..i][j] == subs[j];
  }

  /** What the cap cuts off is neither found nor left over. */
  lemma CappedIsLost(subs: seq<Component>, r: Rule, ov: map<Value, Component>, x: Component, start: int, end: int)
    requires GoodCalendar(subs, r) && r.Increasing() && GoodOverrides(ov)
    requires Capped(Master(subs), r, ov, x, start, end)
    ensures x !in Assembled(subs, r, ov, start, end) && !IsLeftover(Master(subs), r, ov, x, start, end)
  {
    AssembledIdentified(subs, r, ov, start, end);
    var m := Master(subs).value;
    var occs := Searched(m, r, start, end);
    var o :| r.Occurs(o) && After(o, occs) && Key(m, o) !in ov && x == Occurrence(m, o);
    assert IsOverride(x) && x.props["RECURRENCE-ID"] == Key(m, o);
    assert Key(m, o) !in Keys(m, occs);
  }

  lemma OverridesAreGood(subs: seq<Component>, r: Rule)
    requires GoodCalendar(subs, r)
    ensures GoodOverrides(Overrides(subs))
  {
  }

  /** The output is the copied components, in order, and of the brute-force expansion just
      what the cap does not cut off. */
  ghost predicate IsExpansion(out: seq<Component>, subs: seq<Component>, r: Rule, start: int, end: int)
    requires r.Increasing()
  {
    var m, ov := Master(subs), Overrides(subs);
    && NoRepeats(out) && CopiedOf(out) == CopiedOf(subs)
    && (forall x <- out :: (x in subs && Copied(x)) || BruteForce(m, r, ov, x, start, end))
    && (forall x :: BruteForce(m, r, ov, x, start, end) ==> (x in out <==> !Capped(m, r, ov, x, start, end)))
  }

  lemma FoundOrCapped(subs: seq<Component>, r: Rule, extra: seq<Component>, x: Component, start: int, end: int)
    requires GoodCalendar(subs, r) && r.Increasing() && GoodOverrides(Overrides(subs))
    requires forall y :: y in extra <==> IsLeftover(Master(subs), r, Overrides(subs), y, start, end)
    requires BruteForce(Master(subs), r, Overrides(subs), x, start, end)
    ensures x in Assembled(subs, r, Overrides(subs), start, end) + extra <==>
      !Capped(Master(subs), r, Overrides(subs), x, start, end)
  {
    AssembledIs(subs, r, Overrides(subs), start, end);
    FoundIsBruteForce(Master(subs), r, Overrides(subs), x, start, end);
    if Capped(Master(subs), r, Overrides(subs), x, start, end) {
      CappedIsLost(subs, r, Overrides(subs), x, start, end);
    }
  }

  lemma ExtraIsLeftover(subs: seq<Component>, r: Rule, start: int, end: int)
    requires r.Increasing()
    ensures var m, ov := Master(subs), Overrides(subs);
      var extra := LeftoverIn(Filed(subs), Leftover(m, r, ov, start, end), start, end);
      NoRepeats(extra) && forall x :: x in extra <==> IsLeftover(m, r, ov, x, start, end)
  {
    FiledOnce(subs);
    LeftoverInIs(Filed(subs), Leftover(Master(subs), r, Overrides(subs), start, end), start, end);
  }

  /** The expansion is the copied components in their order and the brute-force expansion, no
      identifier twice; what is missing of the latter is just the generated occurrences after
      the first 3000 of an open query. */
  lemma ExpansionMeetsBruteForce(subs: seq<Component>, r: Rule, start: int, end: int)
    requires GoodCalendar(subs, r) && r.Increasing()
    ensures IsExpansion(ExpandedCalendar(subs, r, start, end), subs, r, start, end)
  {
    var ov := Overrides(subs);
    var found := Assembled(subs, r, ov, start, end);
    var extra := LeftoverIn(Filed(subs), Leftover(Master(subs), r, ov, start, end), start, end);
    ExtraIsLeftover(subs, r, start, end);
    OverridesAreGood(subs, r);
    AssembledIs(subs, r, ov, start, end);
    AssembledIdentified(subs, r, ov, start, end);
    NoRepeatsConcat(found, extra);
    AssembledCopies(subs, r, ov, start, end);
    NoneCopied(extra);
    CopiedOfConcat(found, extra);
    forall x { FoundIsBruteForce(Master(subs), r, ov, x, start, end); }
    forall x | BruteForce(Master(subs), r, ov, x, start, end)
      ensures x in found + extra <==> !Capped(Master(subs), r, ov, x, start, end)
    {
      FoundOrCapped(subs, r, extra, x, start, end);
    }
  }

  /** The last loop: the overrides still there that overlap; None if one cannot be tested. */
  method TakeOverlapping(filed: seq<Value>, exceptions: map<Value, Component>, start: int, end: int)
      returns (extra: Option<seq<Component>>)
    requires forall k <- exceptions :: k in filed
    ensures extra == if exists k <- exceptions :: LacksStart(exceptions[k]) then None
                     else Some(LeftoverIn(filed, exceptions, start, end))
  {
    var out: seq<Component> := [];
    for i := 0 to |filed|
      invariant out == LeftoverIn(filed[..i], exceptions, start, end)
      invariant forall k <- filed[..i] :: k in exceptions ==> !LacksStart(exceptions[k])
    {
      assert filed[..i + 1][..i] == filed[..i];
      var k := filed[i];
      if k !in exceptions { continue; }
      MissingIsStart(exceptions[k], start, end);
      if Apply(exceptions[k].name, start, end, exceptions[k].props) == Missing { return None; }
      if Overlaps(exceptions[k], start, end) {
        out := out + [exceptions[k]];
      }
    }
    assert filed[..|filed|] == filed;
    return Some(out);
  }

  /** The cap spares overrides: an overlapping one is never among what is cut off, and no
      more than 3000 instances come from the recurring component. */
  lemma CapSparesOverrides(m: Component, r: Rule, ov: map<Value, Component>, k: Value, start: int, end: int)
    requires GoodMaster(m, r) && k in ov && Overlaps(ov[k], start, end)
    requires forall k <- ov :: IsOverride(ov[k]) && ov[k].props["RECURRENCE-ID"] == k
    ensures Yielded(Some(m), r, ov, ov[k], start, end) || IsLeftover(Some(m), r, ov, ov[k], start, end)
    ensures OpenEnd(end) ==> |Expanded(m, ov, Searched(m, r, start, end), start, end)| <= MAX_RECURRENCE_INSTANCES
  {
    CandidatesAre(r, Normalized(m, AdjustedStart(m, start)), Normalized(m, end), OpenEnd(end));
    ExpandedIs(m, ov, Searched(m, r, start, end), start, end);
    if k in Keys(m, Searched(m, r, start, end)) {
      assert ov[k] in Expanded(m, ov, Searched(m, r, start, end), start, end);
    } else {
      assert k in Leftover(Some(m), r, ov, start, end);
    }
  }

  // ----- a calendar that the cap cuts short

  lemma {:induction false} XAfterStops(r: Rule, i: nat, lo: int, n: nat)
    requires r.Increasing() && lo <= r.at(i)
    ensures After(r.at(i + n), XAfter(r, i, lo, n))
    decreases n
  {
    if n == 0 || !r.Has(i) {
    } else {
      XAfterStops(r, i + 1, lo, n - 1);
      SplitMembers(XAfter(r, i, lo, n));
    }
  }

  /** The occurrence after the first 3000, if there is one, is lost to every open query that
      begins before the first of them, though it overlaps. */
  lemma CapCutsShort(m: Component, r: Rule, start: int, end: int)
    requires GoodMaster(m, r) && r.Has(MAX_RECURRENCE_INSTANCES) && OpenEnd(end)
    requires Normalized(m, AdjustedStart(m, start)) <= r.at(0)
    requires Overlaps(Occurrence(m, r.at(MAX_RECURRENCE_INSTANCES)), start, end)
    ensures var x := Occurrence(m, r.at(MAX_RECURRENCE_INSTANCES));
      BruteForce(Some(m), r, map[], x, start, end) && Capped(Some(m), r, map[], x, start, end)
  {
    var o := r.at(MAX_RECURRENCE_INSTANCES);
    var lo, hi := Normalized(m, AdjustedStart(m, start)), Normalized(m, end);
    assert r.OccursFrom(0, o);
    XAfterStops(r, 0, lo, MAX_RECURRENCE_INSTANCES);
    XAfterIs(r, 0, lo, MAX_RECURRENCE_INSTANCES);
    UpToIs(XAfter(r, 0, lo, MAX_RECURRENCE_INSTANCES), hi);
    CandidatesAre(r, lo, hi, true);
    WideningLosesNothing(m, o, start, end);
    assert Occurrence(m, o) == Instance(m, map[], o);
  }

  function Daily(): Rule { Rule((i: nat) => i * DAY, None) }

  function DailyEvent(): Component {
    Component("VEVENT", map["DTSTART" := Instant(0, false), "RRULE" := Text("FREQ=DAILY")], [])
  }

  lemma DailyIsGood()
    ensures GoodMaster(DailyEvent(), Daily())
  {
    var r := Daily();
    forall i: nat, j: nat | i < j ensures r.at(i) < r.at(j) {
      assert i * DAY < j * DAY;
    }
    assert AllDay(DailyEvent()) == false;
  }

  /** A daily event, asked for without an end: its occurrence on the 3001st day overlaps,
      and is not in the output. */
  lemma DailyIsCutShort()
    ensures Daily().Increasing()
    ensures var x := Occurrence(DailyEvent(), 3000 * DAY);
      BruteForce(Some(DailyEvent()), Daily(), map[], x, MIN_TIME, MAX_TIME) &&
      x !in ExpandedCalendar([DailyEvent()], Daily(), MIN_TIME, MAX_TIME)
  {
    var m, r := DailyEvent(), Daily();
    DailyIsGood();
    assert r.at(0) == 0 && r.at(3000) == 3000 * DAY;
    CapCutsShort(m, r, MIN_TIME, MAX_TIME);
    assert Master([m]) == Some(m) && [m][..0] == [];
    assert Overrides([m]) == map[];
    ExpansionMeetsBruteForce([m], r, MIN_TIME, MAX_TIME);
  }
}
