/**
 What a scheduling signature tells of values and parameters.  Serialising joins parameters
 with `;`, `=` and `:` and escapes nothing (`_serialize_scheduling_value` in
 xandikos/itip.py), so it tells values apart only where those separators cannot be mistaken.
 */
module SerializedValues {
  import opened Wrappers
  import opened Seqs
  import opened Octets
  import opened Orders
  import opened SignatureStreams
  import opened Signatures

  const COLON: Octet := 58
  const SEMICOLON: Octet := 59
  const EQUALS: Octet := 61

  type Param = (Bytes, Bytes)

  // ----- where serialising is one-to-one

  /** No `=` in a parameter's name, no `;` in its value. */
  predicate ClearParams(ps: seq<Param>) { forall i :: 0 <= i < |ps| ==> EQUALS !in ps[i].0 && SEMICOLON !in ps[i].1 }

  /** `b` is what stands after some colon in `a`. */
  predicate AfterColon(a: Bytes, b: Bytes) { |b| < |a| && a[|a| - |b| - 1..] == [COLON] + b }

  lemma JoinOfCons(ps: seq<Param>)
    requires |ps| > 1
    ensures JoinParams(ps) == ps[0].0 + [EQUALS] + (ps[0].1 + [SEMICOLON] + JoinParams(ps[1..]))
  {
    assert Ascii("=") == [EQUALS] && Ascii(";") == [SEMICOLON];
  }

  lemma JoinOfOne(ps: seq<Param>)
    requires |ps| == 1
    ensures JoinParams(ps) == ps[0].0 + [EQUALS] + ps[0].1
  {
    assert Ascii("=") == [EQUALS];
  }

  /** Clear parameters are read back from what they are joined to. */
  lemma {:induction false} JoinIsInjective(ps: seq<Param>, qs: seq<Param>)
    requires ClearParams(ps) && ClearParams(qs) && ps != [] && qs != []
    requires JoinParams(ps) == JoinParams(qs)
    ensures ps == qs
  {
    var p := if |ps| == 1 then ps[0].1 else ps[0].1 + [SEMICOLON] + JoinParams(ps[1..]);
    var q := if |qs| == 1 then qs[0].1 else qs[0].1 + [SEMICOLON] + JoinParams(qs[1..]);
    FirstParam(ps);
    FirstParam(qs);
    EndIsFound(EQUALS, ps[0].0, qs[0].0, p, q);
    assert |ps| > 1 ==> p[|ps[0].1|] == SEMICOLON;
    assert |qs| > 1 ==> q[|qs[0].1|] == SEMICOLON;
    assert |ps| == 1 <==> |qs| == 1;
    if |ps| > 1 {
      EndIsFound(SEMICOLON, ps[0].1, qs[0].1, JoinParams(ps[1..]), JoinParams(qs[1..]));
      JoinIsInjective(ps[1..], qs[1..]);
    }
    assert ps == [ps[0]] + ps[1..] && qs == [qs[0]] + qs[1..];
  }

  lemma FirstParam(ps: seq<Param>)
    requires ps != []
    ensures var rest := if |ps| == 1 then ps[0].1 else ps[0].1 + [SEMICOLON] + JoinParams(ps[1..]);
      JoinParams(ps) == ps[0].0 + [EQUALS] + rest
  {
    if |ps| == 1 { JoinOfOne(ps); } else { JoinOfCons(ps); }
  }

  function Join(v: Value): Bytes { JoinParams(Sort(ParamLeq, v.params)) }

  lemma SerializeOfParams(v: Value)
    requires v.params != []
    ensures Serialize(v) == Join(v) + [COLON] + v.rendered
  {
    assert Ascii(":") == [COLON];
  }

  lemma ParamOrder()
    ensures TotalOrder(ParamLeq)
  {
    BytesOrder();
    PairIsTotal(BytesLeq, BytesLeq);
    var pair := (p: Param, q: Param) => PairLex(BytesLeq, BytesLeq, p, q);
    assert forall p, q :: ParamLeq(p, q) == pair(p, q);
  }

  /** What a value is, up to the order of its parameters. */
  type Content = (Bytes, multiset<Param>)

  ghost function ContentOf(v: Value): Content { (v.rendered, multiset(v.params)) }

  /** Neither rendered value can be taken for the other with its parameters before it. */
  predicate Apart(v: Value, w: Value) {
    && (w.params != [] ==> !AfterColon(v.rendered, w.rendered))
    && (v.params != [] ==> !AfterColon(w.rendered, v.rendered))
  }

  /** What is serialised ends in the value, after a colon if there are parameters. */
  lemma SerializeEnds(v: Value)
    ensures v.params == [] ==> Serialize(v) == v.rendered
    ensures v.params != [] ==> AfterColon(Serialize(v), v.rendered)
  {
    if v.params != [] {
      SerializeOfParams(v);
      var s := Serialize(v);
      assert s == Join(v) + ([COLON] + v.rendered);
      assert s[|Join(v)|..] == [COLON] + v.rendered;
    }
  }

  lemma EndsAlike(s: Bytes, a: Bytes, b: Bytes)
    requires a == s || AfterColon(s, a)
    requires AfterColon(s, b) && |b| < |a|
    ensures AfterColon(a, b)
  {
    if a != s {
      assert s[|s| - |a| - 1..][1..] == a;
      assert a == s[|s| - |a|..];
      assert a[|a| - |b| - 1..] == s[|s| - |b| - 1..];
    }
  }

  lemma RenderedIsFound(v: Value, w: Value)
    requires Apart(v, w) && Serialize(v) == Serialize(w)
    ensures v.rendered == w.rendered && (v.params == [] <==> w.params == [])
  {
    SerializeEnds(v);
    SerializeEnds(w);
    var s := Serialize(v);
    if |w.rendered| < |v.rendered| { EndsAlike(s, v.rendered, w.rendered); }
    if |v.rendered| < |w.rendered| { EndsAlike(s, w.rendered, v.rendered); }
    assert v.params != [] ==> s[|s| - |v.rendered| - 1..][1..] == v.rendered;
    assert w.params != [] ==> s[|s| - |w.rendered| - 1..][1..] == w.rendered;
  }

  lemma ClearWhenSorted(v: Value)
    requires ClearParams(v.params)
    ensures ClearParams(Sort(ParamLeq, v.params)) && (v.params != [] ==> Sort(ParamLeq, v.params) != [])
  {
    SortPermutes(ParamLeq, v.params);
    var sorted := Sort(ParamLeq, v.params);
    forall i | 0 <= i < |sorted| ensures EQUALS !in sorted[i].0 && SEMICOLON !in sorted[i].1 {
      assert sorted[i] in multiset(sorted);
      assert sorted[i] in v.params;
    }
    assert |multiset(sorted)| == |multiset(v.params)|;
  }

  lemma JoinIsFound(v: Value, w: Value)
    requires v.params != [] && w.params != [] && v.rendered == w.rendered && Serialize(v) == Serialize(w)
    ensures Join(v) == Join(w)
  {
    SerializeOfParams(v);
    SerializeOfParams(w);
    var tail := [COLON] + v.rendered;
    assert Serialize(v) == Join(v) + tail && Serialize(w) == Join(w) + tail;
    assert Serialize(v)[..|Join(v)|] == Join(v) && Serialize(w)[..|Join(w)|] == Join(w);
  }

  lemma SerializeTellsParams(v: Value, w: Value)
    requires ClearParams(v.params) && ClearParams(w.params) && Apart(v, w) && Serialize(v) == Serialize(w)
    ensures ContentOf(v) == ContentOf(w)
  {
    RenderedIsFound(v, w);
    if v.params != [] {
      JoinIsFound(v, w);
      ClearWhenSorted(v);
      ClearWhenSorted(w);
      JoinIsInjective(Sort(ParamLeq, v.params), Sort(ParamLeq, w.params));
      SortPermutes(ParamLeq, v.params);
      SortPermutes(ParamLeq, w.params);
    }
  }

  lemma ContentTells(v: Value, w: Value)
    requires ContentOf(v) == ContentOf(w)
    ensures Serialize(v) == Serialize(w)
  {
    ParamOrder();
    SortIsCanonical(ParamLeq, v.params, w.params);
    assert |v.params| == |multiset(v.params)| == |multiset(w.params)| == |w.params|;
  }

  /** Serialising tells clear values apart, but for the order of their parameters. */
  lemma SerializeTells(v: Value, w: Value)
    requires ClearParams(v.params) && ClearParams(w.params) && Apart(v, w)
    ensures Serialize(v) == Serialize(w) <==> ContentOf(v) == ContentOf(w)
  {
    if Serialize(v) == Serialize(w) { SerializeTellsParams(v, w); }
    if ContentOf(v) == ContentOf(w) { ContentTells(v, w); }
  }

  // ----- where it is not

  /** A value is serialised like one whose parameters are all inside the first of them. */
  lemma ParamsCanBeMerged(v: Value, w: Value)
    requires |v.params| > 1 && Sort(ParamLeq, v.params) == v.params
    requires w == v.(params := [(v.params[0].0, v.params[0].1 + [SEMICOLON] + JoinParams(v.params[1..]))])
    ensures Serialize(w) == Serialize(v) && ContentOf(w) != ContentOf(v)
  {
    var ps := v.params;
    JoinOfCons(ps);
    JoinOfOne(w.params);
    OneIsSorted(w.params[0]);
    assert |multiset(w.params)| == 1 && |multiset(ps)| == |ps|;
  }

  /** A value is serialised like one without parameters that has them in front. */
  lemma ParamsCanBeValue(v: Value, w: Value)
    requires v.params != [] && w == v.(rendered := Serialize(v), params := [])
    ensures Serialize(w) == Serialize(v) && ContentOf(w) != ContentOf(v)
  {
    SerializeEnds(v);
  }

  /** A parameter is serialised like one whose name goes further. */
  lemma NameCanBeLonger(v: Value, w: Value, name: Bytes, x: Bytes, y: Bytes)
    requires v.params == [(name, x + [EQUALS] + y)] && w == v.(params := [(name + [EQUALS] + x, y)])
    ensures Serialize(w) == Serialize(v) && ContentOf(w) != ContentOf(v)
  {
    JoinOfOne(v.params);
    JoinOfOne(w.params);
    OneIsSorted(v.params[0]);
    OneIsSorted(w.params[0]);
    assert JoinParams(v.params) == JoinParams(w.params);
    assert |name| < |name + [EQUALS] + x|;
    assert v.params[0] in multiset(v.params) && v.params[0] !in multiset(w.params);
  }

  const CN: Bytes := [67, 78]
  const PARTSTAT: Bytes := [80, 65, 82, 84, 83, 84, 65, 84]

  function OneAttendee(uid: Bytes, v: Value): seq<Component> {
    [Component("VEVENT", uid, [], [Field("ATTENDEE", [v])])]
  }

  /** Whatever the participation status of another attendee, it can be moved into the common
      name without the signature noticing. */
  lemma StatusCanBeHidden(uid: Bytes, text: Bytes, cn: Bytes, status: Bytes) returns (v: Value, w: Value)
    ensures v == Value(text, text, [(CN, cn), (PARTSTAT, status)], [])
    ensures w == Value(text, text, [(CN, cn + [SEMICOLON] + PARTSTAT + [EQUALS] + status)], [])
    ensures Stream(OneAttendee(uid, v), PLAIN) == Stream(OneAttendee(uid, w), PLAIN) && ContentOf(v) != ContentOf(w)
  {
    v := Value(text, text, [(CN, cn), (PARTSTAT, status)], []);
    w := Value(text, text, [(CN, cn + [SEMICOLON] + PARTSTAT + [EQUALS] + status)], []);
    TwoAreSorted((CN, cn), (PARTSTAT, status));
    JoinOfOne(v.params[1..]);
    assert cn + [SEMICOLON] + JoinParams(v.params[1..]) == cn + [SEMICOLON] + PARTSTAT + [EQUALS] + status;
    ParamsCanBeMerged(v, w);
    SameRaw(uid, v, w);
  }

  lemma OneIsSorted(p: Param)
    ensures Sort(ParamLeq, [p]) == [p]
  {
    assert [p][1..] == [];
    assert Sort(ParamLeq, []) == [];
  }

  lemma TwoAreSorted(p: Param, q: Param)
    requires ParamLeq(p, q)
    ensures Sort(ParamLeq, [p, q]) == [p, q]
  {
    assert [p, q][1..] == [q];
    OneIsSorted(q);
  }

  lemma SameRaw(uid: Bytes, v: Value, w: Value)
    requires Serialize(v) == Serialize(w)
    ensures RawComps(OneAttendee(uid, v), PLAIN) == RawComps(OneAttendee(uid, w), PLAIN)
  {
    var f, g := Field("ATTENDEE", [v]), Field("ATTENDEE", [w]);
    OneItem(v);
    OneItem(w);
    assert FieldItems(f, PLAIN) == FieldItems(g, PLAIN);
    assert RawProps([f], PLAIN) == RawProps([g], PLAIN);
  }

  lemma OneItem(v: Value)
    ensures AttendeeItems([v], PLAIN) == [Serialize(v)]
  {
    assert [v][..0] == [];
    assert AttendeeItems([], PLAIN) == [];
  }
}
