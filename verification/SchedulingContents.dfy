/**
 What a scheduling signature tells of a calendar: its scheduling components with their
 values and parameters, without any order (`extract_scheduling_signature` in
 xandikos/itip.py).
 */
module SchedulingContents {
  import opened Wrappers
  import opened Seqs
  import opened Octets
  import opened Orders
  import opened SignatureStreams
  import opened Signatures
  import opened SerializedValues

  predicate Scheduling(c: Component) { c.name in SCHEDULING_COMPONENTS }

  // ----- what the options leave of a calendar

  /** An attendee with the parameters that the options hide taken off. */
  function Masked(v: Value, o: Options): Value {
    if o.mask.Some? && v.text in o.mask.value then v.(params := []) else v
  }

  function KeptAttendees(vs: seq<Value>, o: Options): seq<Value> {
    if vs == [] then []
    else KeptAttendees(vs[..|vs| - 1], o) + if Skipped(vs[|vs| - 1], o) then [] else [Masked(vs[|vs| - 1], o)]
  }

  function KeptValues(f: Field, o: Options): seq<Value> {
    if f.name == "ATTENDEE" then KeptAttendees(f.values, o) else f.values
  }

  /** The field has to do with scheduling, and if it is ATTENDEE some of it is left. */
  predicate IsKept(f: Field, o: Options) {
    f.name in SCHEDULING_PROPERTIES && (f.name == "ATTENDEE" ==> KeptValues(f, o) != [])
  }

  function KeptFields(fields: seq<Field>, o: Options): seq<Field> {
    if fields == [] then []
    else
      KeptFields(fields[..|fields| - 1], o) + if IsKept(fields[|fields| - 1], o) then [fields[|fields| - 1]] else []
  }

  function KeptComps(cal: seq<Component>): seq<Component> {
    if cal == [] then []
    else KeptComps(cal[..|cal| - 1]) + if Scheduling(cal[|cal| - 1]) then [cal[|cal| - 1]] else []
  }

  // ----- the content of a calendar

  ghost function FieldContent(o: Options): Field -> (string, multiset<Content>) {
    (f: Field) => (f.name, multiset(Map(ContentOf, KeptValues(f, o))))
  }

  /** A component by its name, UID and RECURRENCE-ID, with the contents of its fields. */
  ghost function CompContent(o: Options): Component -> (string, Bytes, Bytes, multiset<(string, multiset<Content>)>) {
    (c: Component) => (c.name, c.uid, c.recurrenceId, multiset(Map(FieldContent(o), KeptFields(c.fields, o))))
  }

  ghost function CalContent(cal: seq<Component>, o: Options)
      : multiset<(string, Bytes, Bytes, multiset<(string, multiset<Content>)>)> {
    multiset(Map(CompContent(o), KeptComps(cal)))
  }

  // ----- calendars that serialising tells apart

  ghost predicate ClearValue(v: Value) {
    && ClearParams(v.params) && NulFree(v.rendered)
    && forall i :: 0 <= i < |v.params| ==> NulFree(v.params[i].0) && NulFree(v.params[i].1)
  }

  ghost predicate ClearField(f: Field) {
    IsAscii(f.name) && forall i :: 0 <= i < |f.values| ==> ClearValue(f.values[i])
  }

  /** Nothing holds a NUL, no recurrence identifier a colon, and parameters are clear. */
  ghost predicate ClearComp(c: Component) {
    && NulFree(c.uid) && NulFree(c.recurrenceId) && COLON !in c.recurrenceId
    && forall i :: 0 <= i < |c.fields| && c.fields[i].name in SCHEDULING_PROPERTIES ==> ClearField(c.fields[i])
  }

  ghost predicate Clear(cal: seq<Component>) {
    forall i :: 0 <= i < |cal| && Scheduling(cal[i]) ==> ClearComp(cal[i])
  }

  ghost predicate FieldsApart(f: Field, g: Field) {
    f.name == g.name ==>
      forall i, j :: 0 <= i < |f.values| && 0 <= j < |g.values| ==> Apart(f.values[i], g.values[j])
  }

  ghost predicate CompsApart(c: Component, d: Component) {
    forall i, j :: 0 <= i < |c.fields| && 0 <= j < |d.fields| && c.fields[i].name in SCHEDULING_PROPERTIES ==>
      FieldsApart(c.fields[i], d.fields[j])
  }

  /** No value of a property that has parameters is what stands after a colon in another. */
  ghost predicate Separate(a: seq<Component>, b: seq<Component>) {
    forall i, j :: 0 <= i < |a| && 0 <= j < |b| && Scheduling(a[i]) && Scheduling(b[j]) ==> CompsApart(a[i], b[j])
  }

  // ----- the signature in terms of what is kept

  lemma {:induction false} ItemsAreKept(vs: seq<Value>, o: Options)
    ensures AttendeeItems(vs, o) == Map(Serialize, KeptAttendees(vs, o))
  {
    if vs == [] {
    } else {
      ItemsAreKept(vs[..|vs| - 1], o);
    }
  }

  function RawProp(f: Field, o: Options): Prop { (Ascii(f.name), Map(Serialize, KeptValues(f, o))) }

  lemma FieldIsKept(f: Field, o: Options)
    ensures FieldItems(f, o) == if IsKept(f, o) then Some(RawProp(f, o).1) else None
  {
    if f.name == "ATTENDEE" { ItemsAreKept(f.values, o); }
  }

  lemma {:induction false} PropsAreKept(fields: seq<Field>, o: Options)
    ensures RawProps(fields, o) == Map((f: Field) => RawProp(f, o), KeptFields(fields, o))
  {
    if fields == [] {
    } else {
      PropsAreKept(fields[..|fields| - 1], o);
      FieldIsKept(fields[|fields| - 1], o);
    }
  }

  function RawComp(c: Component, o: Options): Comp { (KeyOf(c), RawProps(c.fields, o)) }

  lemma {:induction false} CompsAreKept(cal: seq<Component>, o: Options)
    ensures RawComps(cal, o) == Map((c: Component) => RawComp(c, o), KeptComps(cal))
  {
    if cal == [] {
    } else {
      CompsAreKept(cal[..|cal| - 1], o);
    }
  }

  ghost function FieldMeaning(o: Options): Field -> (Bytes, multiset<Bytes>) {
    (f: Field) => PropMeaning(RawProp(f, o))
  }

  ghost function CompMeaningOf(o: Options): Component -> (Bytes, multiset<(Bytes, multiset<Bytes>)>) {
    (c: Component) => (KeyOf(c), multiset(Map(FieldMeaning(o), KeptFields(c.fields, o))))
  }

  lemma CompMeaningIs(c: Component, o: Options)
    ensures CompMeaning(RawComp(c, o)) == CompMeaningOf(o)(c)
  {
    PropsAreKept(c.fields, o);
    assert Map(PropMeaning, RawProps(c.fields, o)) == Map(FieldMeaning(o), KeptFields(c.fields, o));
  }

  lemma MeaningIs(cal: seq<Component>, o: Options)
    ensures Meaning(RawComps(cal, o)) == multiset(Map(CompMeaningOf(o), KeptComps(cal)))
  {
    CompsAreKept(cal, o);
    forall i | 0 <= i < |KeptComps(cal)| { CompMeaningIs(KeptComps(cal)[i], o); }
    assert Map(CompMeaning, RawComps(cal, o)) == Map(CompMeaningOf(o), KeptComps(cal));
  }

  // ----- from what is serialised to contents, level by level

  lemma AsciiIsInjective(a: string, b: string)
    requires IsAscii(a) && IsAscii(b) && Ascii(a) == Ascii(b)
    ensures a == b
  {
    assert forall i :: 0 <= i < |a| ==> Ascii(a)[i] == a[i] as nat && Ascii(b)[i] == b[i] as nat;
  }

  /** What is kept of a field is some of its values, as they are or without parameters. */
  predicate From(v: Value, u: Value) { v == u || v == u.(params := []) }

  lemma {:induction false} AttendeeIsFrom(vs: seq<Value>, o: Options, k: nat) returns (i: nat)
    requires k < |KeptAttendees(vs, o)|
    ensures i < |vs| && From(KeptAttendees(vs, o)[k], vs[i])
  {
    var n := |vs| - 1;
    if k < |KeptAttendees(vs[..n], o)| {
      i := AttendeeIsFrom(vs[..n], o, k);
    } else {
      i := n;
    }
  }

  lemma KeptIsFrom(f: Field, o: Options, k: nat) returns (i: nat)
    requires k < |KeptValues(f, o)|
    ensures i < |f.values| && From(KeptValues(f, o)[k], f.values[i])
  {
    if f.name == "ATTENDEE" {
      i := AttendeeIsFrom(f.values, o, k);
    } else {
      i := k;
    }
  }

  lemma FieldTells(f: Field, g: Field, o: Options)
    requires ClearField(f) && ClearField(g) && FieldsApart(f, g)
    ensures FieldMeaning(o)(f) == FieldMeaning(o)(g) ==> FieldContent(o)(f) == FieldContent(o)(g)
  {
    var vs, ws := KeptValues(f, o), KeptValues(g, o);
    if FieldMeaning(o)(f) == FieldMeaning(o)(g) {
      AsciiIsInjective(f.name, g.name);
      forall i, j | 0 <= i < |vs| && 0 <= j < |ws|
        ensures Serialize(vs[i]) == Serialize(ws[j]) <==> ContentOf(vs[i]) == ContentOf(ws[j])
      {
        var k := KeptIsFrom(f, o, i);
        var l := KeptIsFrom(g, o, j);
        assert Apart(f.values[k], g.values[l]);
        SerializeTells(vs[i], ws[j]);
      }
      ImagesAgree(Serialize, ContentOf, vs, ws);
    }
  }

  lemma FieldContentTells(f: Field, g: Field, o: Options)
    ensures FieldContent(o)(f) == FieldContent(o)(g) ==> FieldMeaning(o)(f) == FieldMeaning(o)(g)
  {
    var vs, ws := KeptValues(f, o), KeptValues(g, o);
    if FieldContent(o)(f) == FieldContent(o)(g) {
      forall i, j | 0 <= i < |vs| && 0 <= j < |ws| && ContentOf(vs[i]) == ContentOf(ws[j])
        ensures Serialize(vs[i]) == Serialize(ws[j])
      {
        ContentTells(vs[i], ws[j]);
      }
      ImagesAgree(ContentOf, Serialize, vs, ws);
    }
  }

  lemma {:induction false} FieldIsFrom(fields: seq<Field>, o: Options, k: nat) returns (i: nat)
    requires k < |KeptFields(fields, o)|
    ensures i < |fields| && fields[i] == KeptFields(fields, o)[k] && fields[i].name in SCHEDULING_PROPERTIES
  {
    var n := |fields| - 1;
    if k < |KeptFields(fields[..n], o)| {
      i := FieldIsFrom(fields[..n], o, k);
    } else {
      i := n;
    }
  }

  /** The key of a component is its name, UID and RECURRENCE-ID, the last being free of
      colons. */
  lemma KeyTells(c: Component, d: Component)
    requires Scheduling(c) && Scheduling(d) && COLON !in c.recurrenceId && COLON !in d.recurrenceId
    requires KeyOf(c) == KeyOf(d)
    ensures c.name == d.name && c.uid == d.uid && c.recurrenceId == d.recurrenceId
  {
    NameHasNoColon(c);
    NameHasNoColon(d);
    assert Ascii(":") == [COLON];
    assert KeyOf(c) == Ascii(c.name) + [COLON] + (c.uid + [COLON] + c.recurrenceId);
    assert KeyOf(d) == Ascii(d.name) + [COLON] + (d.uid + [COLON] + d.recurrenceId);
    EndIsFound(COLON, Ascii(c.name), Ascii(d.name), c.uid + [COLON] + c.recurrenceId, d.uid + [COLON] + d.recurrenceId);
    AsciiIsInjective(c.name, d.name);
    LastIsFound(c.uid, d.uid, c.recurrenceId, d.recurrenceId);
  }

  lemma NameHasNoColon(c: Component)
    requires Scheduling(c)
    ensures IsAscii(c.name) && COLON !in Ascii(c.name) && NulFree(Ascii(c.name))
  {
    assert c.name == "VEVENT" || c.name == "VTODO" || c.name == "VJOURNAL";
  }

  lemma LastIsFound(a: Bytes, b: Bytes, r: Bytes, s: Bytes)
    requires COLON !in r && COLON !in s && a + [COLON] + r == b + [COLON] + s
    ensures a == b && r == s
  {
    var x, y := a + [COLON] + r, b + [COLON] + s;
    assert x[|a|] == COLON && y[|b|] == COLON;
    assert forall k :: |a| < k < |x| ==> x[k] == r[k - |a| - 1];
    assert forall k :: |b| < k < |y| ==> y[k] == s[k - |b| - 1];
    assert |a| == |b|;
    assert x[..|a|] == a && y[..|b|] == b;
    assert x[|a| + 1..] == r && y[|b| + 1..] == s;
  }

  lemma CompTells(c: Component, d: Component, o: Options)
    requires Scheduling(c) && Scheduling(d) && ClearComp(c) && ClearComp(d) && CompsApart(c, d)
    ensures CompMeaningOf(o)(c) == CompMeaningOf(o)(d) ==> CompContent(o)(c) == CompContent(o)(d)
  {
    var fs, gs := KeptFields(c.fields, o), KeptFields(d.fields, o);
    if CompMeaningOf(o)(c) == CompMeaningOf(o)(d) {
      KeyTells(c, d);
      forall i, j | 0 <= i < |fs| && 0 <= j < |gs|
        ensures FieldMeaning(o)(fs[i]) == FieldMeaning(o)(gs[j]) ==> FieldContent(o)(fs[i]) == FieldContent(o)(gs[j])
      {
        var k := FieldIsFrom(c.fields, o, i);
        var l := FieldIsFrom(d.fields, o, j);
        assert FieldsApart(c.fields[k], d.fields[l]);
        FieldTells(fs[i], gs[j], o);
      }
      ImagesAgree(FieldMeaning(o), FieldContent(o), fs, gs);
    }
  }

  lemma CompContentTells(c: Component, d: Component, o: Options)
    ensures CompContent(o)(c) == CompContent(o)(d) ==> CompMeaningOf(o)(c) == CompMeaningOf(o)(d)
  {
    var fs, gs := KeptFields(c.fields, o), KeptFields(d.fields, o);
    if CompContent(o)(c) == CompContent(o)(d) {
      forall i, j | 0 <= i < |fs| && 0 <= j < |gs| { FieldContentTells(fs[i], gs[j], o); }
      ImagesAgree(FieldContent(o), FieldMeaning(o), fs, gs);
    }
  }

  lemma {:induction false} CompIsFrom(cal: seq<Component>, k: nat) returns (i: nat)
    requires k < |KeptComps(cal)|
    ensures i < |cal| && cal[i] == KeptComps(cal)[k] && Scheduling(cal[i])
  {
    var n := |cal| - 1;
    if k < |KeptComps(cal[..n])| {
      i := CompIsFrom(cal[..n], k);
    } else {
      i := n;
    }
  }

  /** Equal contents mean equal meanings, always; the other way for clear and separate ones. */
  lemma MeaningIsContent(a: seq<Component>, b: seq<Component>, o: Options)
    ensures CalContent(a, o) == CalContent(b, o) ==> Meaning(RawComps(a, o)) == Meaning(RawComps(b, o))
    ensures Clear(a) && Clear(b) && Separate(a, b) && Meaning(RawComps(a, o)) == Meaning(RawComps(b, o)) ==>
      CalContent(a, o) == CalContent(b, o)
  {
    var cs, ds := KeptComps(a), KeptComps(b);
    MeaningIs(a, o);
    MeaningIs(b, o);
    if CalContent(a, o) == CalContent(b, o) {
      forall i, j | 0 <= i < |cs| && 0 <= j < |ds| { CompContentTells(cs[i], ds[j], o); }
      ImagesAgree(CompContent(o), CompMeaningOf(o), cs, ds);
    }
    if Clear(a) && Clear(b) && Separate(a, b) && Meaning(RawComps(a, o)) == Meaning(RawComps(b, o)) {
      ClearMeaning(a, b, o);
    }
  }

  lemma ClearMeaning(a: seq<Component>, b: seq<Component>, o: Options)
    requires Clear(a) && Clear(b) && Separate(a, b)
    requires multiset(Map(CompMeaningOf(o), KeptComps(a))) == multiset(Map(CompMeaningOf(o), KeptComps(b)))
    ensures CalContent(a, o) == CalContent(b, o)
  {
    var cs, ds := KeptComps(a), KeptComps(b);
    forall i, j | 0 <= i < |cs| && 0 <= j < |ds|
      ensures CompMeaningOf(o)(cs[i]) == CompMeaningOf(o)(ds[j]) ==> CompContent(o)(cs[i]) == CompContent(o)(ds[j])
    {
      var k := CompIsFrom(a, i);
      var l := CompIsFrom(b, j);
      CompTells(cs[i], ds[j], o);
    }
    ImagesAgree(CompMeaningOf(o), CompContent(o), cs, ds);
  }

  // ----- nothing serialised holds a NUL

  lemma {:induction false} JoinIsNulFree(ps: seq<Param>)
    requires forall p <- ps :: NulFree(p.0) && NulFree(p.1)
    ensures NulFree(JoinParams(ps))
  {
    if ps == [] {
    } else {
      assert Ascii("=") == [EQUALS] && Ascii(";") == [SEMICOLON];
      SplitMembers(ps);
      JoinIsNulFree(ps[1..]);
    }
  }

  lemma ClearIsNulFree(v: Value)
    requires ClearValue(v)
    ensures NulFree(Serialize(v))
  {
    assert Ascii(":") == [COLON];
    SortMembers(ParamLeq, v.params);
    JoinIsNulFree(Sort(ParamLeq, v.params));
  }

  lemma RawPropIsNulFree(f: Field, o: Options)
    requires ClearField(f)
    ensures NulFreeProp(RawProp(f, o))
  {
    var vs := KeptValues(f, o);
    forall b <- RawProp(f, o).1 ensures NulFree(b) {
      var k: nat :| k < |vs| && b == Serialize(vs[k]);
      var i := KeptIsFrom(f, o, k);
      assert ClearValue(f.values[i]);
      ClearIsNulFree(vs[k]);
    }
  }

  lemma RawCompIsNulFree(c: Component, o: Options)
    requires Scheduling(c) && ClearComp(c)
    ensures NulFree(KeyOf(c)) && forall p <- RawProps(c.fields, o) :: NulFreeProp(p)
  {
    NameHasNoColon(c);
    assert Ascii(":") == [COLON];
    PropsAreKept(c.fields, o);
    forall p <- RawProps(c.fields, o) ensures NulFreeProp(p) {
      var k: nat :| k < |KeptFields(c.fields, o)| && p == RawProp(KeptFields(c.fields, o)[k], o);
      var i := FieldIsFrom(c.fields, o, k);
      RawPropIsNulFree(c.fields[i], o);
    }
  }

  lemma CalIsNulFree(cal: seq<Component>, o: Options)
    requires Clear(cal)
    ensures NulFreeComps(RawComps(cal, o))
  {
    CompsAreKept(cal, o);
    forall r <- RawComps(cal, o) ensures NulFree(r.0) && forall p <- r.1 :: NulFreeProp(p) {
      var k: nat :| k < |KeptComps(cal)| && r == RawComp(KeptComps(cal)[k], o);
      var i := CompIsFrom(cal, k);
      RawCompIsNulFree(cal[i], o);
    }
  }

  /** Equal contents give equal streams; and where calendars are clear and their values
      separate, a stream tells the contents: every scheduling component by name, UID and
      RECURRENCE-ID, with every scheduling property's values and parameters. */
  lemma StreamIsContent(a: seq<Component>, b: seq<Component>, o: Options)
    ensures CalContent(a, o) == CalContent(b, o) ==> Stream(a, o) == Stream(b, o)
    ensures Clear(a) && Clear(b) && Separate(a, b) ==>
      (Stream(a, o) == Stream(b, o) <==> CalContent(a, o) == CalContent(b, o))
  {
    MeaningIsContent(a, b, o);
    StreamIsMeaning(a, b, o);
    if Clear(a) && Clear(b) {
      CalIsNulFree(a, o);
      CalIsNulFree(b, o);
    }
  }
}
