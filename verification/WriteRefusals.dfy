/**
 What an attendee may not change, and what the signature notices, property by property
 (`pre_put_hook` in xandikos/web.py and SCHEDULING_PROPERTIES in xandikos/itip.py; sections 3.1
 and 3.2.10 of RFC 6638).
 */
module WriteRefusals {
  import opened Wrappers
  import opened Octets
  import opened Orders
  import opened SignatureStreams
  import opened Signatures
  import opened SerializedValues
  import opened SchedulingContents
  import opened AttendeeWrites

  /** The properties that scheduling is about, ATTENDEE apart. */
  const OTHERS_PROPERTIES: seq<string> := [
    "ORGANIZER", "DTSTART", "DTEND", "DUE", "DURATION", "RRULE", "RDATE", "EXDATE", "RECURRENCE-ID", "SEQUENCE",
    "STATUS", "SUMMARY", "LOCATION", "DESCRIPTION", "PRIORITY", "TRANSP", "CLASS", "URL", "CATEGORIES", "RESOURCES",
    "PERCENT-COMPLETE", "REQUEST-STATUS"]

  predicate OfScheduling(c: Component) { c.name == "VEVENT" || c.name == "VTODO" || c.name == "VJOURNAL" }

  predicate SameKey(c: Component, d: Component) {
    c.name == d.name && c.uid == d.uid && c.recurrenceId == d.recurrenceId
  }

  /** The values of a field with their parameters, in any order. */
  ghost function WholeField(f: Field): multiset<Content> { multiset(Map(ContentOf, f.values)) }

  /** No component of `b` with the key of `c` has the property with the values and parameters
      of `f`. */
  ghost predicate Lacks(b: seq<Component>, c: Component, f: Field) {
    forall d <- b, g <- d.fields :: SameKey(c, d) && g.name == f.name ==> WholeField(g) != WholeField(f)
  }

  /** `a` has a component with a property that no such component of `b` has with the same
      values and parameters. */
  ghost predicate Differs(a: seq<Component>, b: seq<Component>, name: string) {
    exists c <- a, f <- c.fields :: OfScheduling(c) && f.name == name && f.values != [] && Lacks(b, c, f)
  }

  /** The names are those of the code. */
  lemma NamesAre()
    ensures forall c: Component :: Scheduling(c) <==> OfScheduling(c)
    ensures forall n: string :: n in SCHEDULING_PROPERTIES <==> n == "ATTENDEE" || n in OTHERS_PROPERTIES
  {
  }

  lemma ImageIsThere<T, A>(h: T -> A, s: seq<T>, t: seq<T>, x: T) returns (y: T)
    requires multiset(Map(h, s)) == multiset(Map(h, t)) && x in s
    ensures y in t && h(y) == h(x)
  {
    var i :| 0 <= i < |s| && s[i] == x;
    assert Map(h, s)[i] == h(x) && h(x) in multiset(Map(h, t));
    assert h(x) in Map(h, t);
    var j :| 0 <= j < |t| && Map(h, t)[j] == h(x);
    y := t[j];
  }

  lemma {:induction false} KeptHas(cal: seq<Component>)
    ensures forall c :: c in KeptComps(cal) <==> c in cal && Scheduling(c)
  {
    if cal == [] {
    } else {
      KeptHas(cal[..|cal| - 1]);
      assert cal == cal[..|cal| - 1] + [cal[|cal| - 1]];
    }
  }

  lemma {:induction false} KeptFieldsHave(fields: seq<Field>, o: Options)
    ensures forall f :: f in KeptFields(fields, o) <==> f in fields && IsKept(f, o)
  {
    if fields == [] {
    } else {
      KeptFieldsHave(fields[..|fields| - 1], o);
      assert fields == fields[..|fields| - 1] + [fields[|fields| - 1]];
    }
  }

  /** Everything but ATTENDEE is kept whole, and so is that if nothing is to be hidden. */
  lemma KeptWhole(f: Field, o: Options)
    requires f.name != "ATTENDEE" || o == PLAIN
    ensures KeptValues(f, o) == f.values
  {
    if f.name == "ATTENDEE" { PlainAttendees(f.values); }
  }

  lemma {:induction false} PlainAttendees(vs: seq<Value>)
    ensures KeptAttendees(vs, PLAIN) == vs
  {
    if vs == [] {
    } else {
      var before, last := vs[..|vs| - 1], vs[|vs| - 1];
      PlainAttendees(before);
      assert !Skipped(last, PLAIN) && Masked(last, PLAIN) == last;
      assert vs == before + [last];
    }
  }

  lemma CompIsFound(a: seq<Component>, b: seq<Component>, o: Options, c: Component) returns (d: Component)
    requires CalContent(a, o) == CalContent(b, o) && c in a && Scheduling(c)
    ensures d in b && CompContent(o)(d) == CompContent(o)(c) && SameKey(c, d)
  {
    KeptHas(a);
    KeptHas(b);
    d := ImageIsThere(CompContent(o), KeptComps(a), KeptComps(b), c);
  }

  lemma FieldIsFound(c: Component, d: Component, o: Options, f: Field) returns (g: Field)
    requires CompContent(o)(d) == CompContent(o)(c) && f in c.fields && IsKept(f, o)
    ensures g in d.fields && FieldContent(o)(g) == FieldContent(o)(f)
  {
    KeptFieldsHave(c.fields, o);
    KeptFieldsHave(d.fields, o);
    g := ImageIsThere(FieldContent(o), KeptFields(c.fields, o), KeptFields(d.fields, o), f);
  }

  /** Of calendars with the same content, each has every such property of the other. */
  lemma PropertyIsFound(a: seq<Component>, b: seq<Component>, o: Options, c: Component, f: Field)
    requires CalContent(a, o) == CalContent(b, o) && c in a && Scheduling(c)
    requires f in c.fields && IsKept(f, o) && (f.name != "ATTENDEE" || o == PLAIN)
    ensures !Lacks(b, c, f)
  {
    var d := CompIsFound(a, b, o, c);
    var g := FieldIsFound(c, d, o, f);
    KeptWhole(f, o);
    KeptWhole(g, o);
    assert WholeField(g) == WholeField(f);
  }

  lemma NameIs(n: string)
    ensures n in SCHEDULING_PROPERTIES <==> n == "ATTENDEE" || n in OTHERS_PROPERTIES
    ensures "ATTENDEE" !in OTHERS_PROPERTIES
  {
  }

  lemma NamedIsKept(f: Field, o: Options)
    requires f.values != [] && f.name in SCHEDULING_PROPERTIES && (f.name != "ATTENDEE" || o == PLAIN)
    ensures IsKept(f, o)
  {
    if f.name == "ATTENDEE" { KeptWhole(f, o); }
  }

  lemma DifferenceIsContent(a: seq<Component>, b: seq<Component>, o: Options, name: string)
    requires Differs(a, b, name) && (name in OTHERS_PROPERTIES || (name == "ATTENDEE" && o == PLAIN))
    ensures CalContent(a, o) != CalContent(b, o)
  {
    var c, f :| c in a && f in c.fields && OfScheduling(c) && f.name == name && f.values != [] && Lacks(b, c, f);
    SchedulingIs(c);
    NameIs(name);
    NamedIsKept(f, o);
    if CalContent(a, o) == CalContent(b, o) { PropertyIsFound(a, b, o, c, f); }
  }

  lemma SchedulingIs(c: Component)
    ensures Scheduling(c) <==> OfScheduling(c)
  {
  }

  /** A change to any of the properties, of an event, a task or a journal entry, changes the
      signature. */
  lemma ChangeIsNoticed(a: seq<Component>, b: seq<Component>, name: string)
    requires Clear(a) && Clear(b) && Separate(a, b)
    requires name == "ATTENDEE" || name in OTHERS_PROPERTIES
    requires Differs(a, b, name) || Differs(b, a, name)
    ensures Stream(a, PLAIN) != Stream(b, PLAIN)
  {
    StreamIsContent(a, b, PLAIN);
    if Differs(a, b, name) { DifferenceIsContent(a, b, PLAIN, name); } else { DifferenceIsContent(b, a, PLAIN, name); }
  }

  /** And a change to nothing else does: other components, and other properties, may be
      anything. */
  lemma OtherChangeIsNot(a: seq<Component>, b: seq<Component>, uid: Bytes, id: Bytes, f: Field, g: Field)
    requires f.name == g.name && f.name != "ATTENDEE" && f.name !in OTHERS_PROPERTIES
    requires a == [Component("VEVENT", uid, id, [f])] && b == [Component("VEVENT", uid, id, [g])]
    ensures Stream(a, PLAIN) == Stream(b, PLAIN)
  {
    NamesAre();
    KeptFieldsHave([f], PLAIN);
    KeptFieldsHave([g], PLAIN);
    assert KeptFields([f], PLAIN) == [] == KeptFields([g], PLAIN) by {
      assert forall x :: x !in KeptFields([f], PLAIN) && x !in KeptFields([g], PLAIN);
    }
    OneCompKept(a, b, PLAIN);
    StreamIsContent(a, b, PLAIN);
  }

  /** What is hashed of an event with one property, letter by letter: "C", the component's
      name, UID and RECURRENCE-ID; "P" and the property's name; "V" and its value, with its
      parameter before it if it has one. */
  lemma StreamByLetter(uid: Bytes, id: Bytes, v: Value, o: Options)
    requires |v.params| <= 1
    ensures var value := if v.params == [] then v.rendered
                         else v.params[0].0 + ['=' as Octet] + v.params[0].1 + [':' as Octet] + v.rendered;
      var key := ['V' as Octet, 'E' as Octet, 'V' as Octet, 'E' as Octet, 'N' as Octet, 'T' as Octet, ':' as Octet] +
                 uid + [':' as Octet] + id;
      Stream([Component("VEVENT", uid, id, [Field("URL", [v])])], o) ==
      (['C' as Octet, 0] + key + [0]) +
      ((['P' as Octet, 0] + ['U' as Octet, 'R' as Octet, 'L' as Octet] + [0]) + (['V' as Octet, 0] + value + [0]))
  {
    var c := Component("VEVENT", uid, id, [Field("URL", [v])]);
    OneIsRaw(c, v, o);
    OneIsCanonical((KeyOf(c), [(Ascii("URL"), [Serialize(v)])]), (Ascii("URL"), [Serialize(v)]));
    OneIsSerialized(v);
    OneIsEncoded(KeyOf(c), Ascii("URL"), Serialize(v));
    KeyByLetter(c);
  }

  lemma OneIsRaw(c: Component, v: Value, o: Options)
    requires c.name == "VEVENT" && c.fields == [Field("URL", [v])]
    ensures RawComps([c], o) == [(KeyOf(c), [(Ascii("URL"), [Serialize(v)])])]
  {
    assert Map(Serialize, [v]) == [Serialize(v)] && c.fields[..0] == [] && [c][..0] == [];
    assert RawProps([], o) == [] && RawComps([], o) == [];
    assert RawProps(c.fields, o) == [(Ascii("URL"), [Serialize(v)])];
  }

  lemma KeyByLetter(c: Component)
    requires c.name == "VEVENT"
    ensures KeyOf(c) ==
      ['V' as Octet, 'E' as Octet, 'V' as Octet, 'E' as Octet, 'N' as Octet, 'T' as Octet, ':' as Octet] + c.uid +
      [':' as Octet] + c.recurrenceId
    ensures Ascii("URL") == ['U' as Octet, 'R' as Octet, 'L' as Octet]
  {
  }

  lemma OneIsSerialized(v: Value)
    requires |v.params| <= 1
    ensures Serialize(v) == if v.params == [] then v.rendered
                            else v.params[0].0 + ['=' as Octet] + v.params[0].1 + [':' as Octet] + v.rendered
  {
    if v.params != [] {
      OneIsSorted(ParamLeq, v.params[0]);
      assert v.params == [v.params[0]];
      assert JoinParams(v.params) == v.params[0].0 + Ascii("=") + v.params[0].1 + [];
    }
  }

  lemma OneIsSorted<T>(leq: (T, T) -> bool, x: T)
    ensures Sort(leq, [x]) == [x]
  {
    assert Sort(leq, [x][1..]) == [];
  }

  lemma OneIsCanonical(raw: Comp, p: Prop)
    requires raw.1 == [p] && |p.1| == 1
    ensures Canonical([raw]) == [raw]
  {
    OneIsSorted(BytesLeq, p.1[0]);
    assert p.1 == [p.1[0]] && CanonProp(p) == p;
    OneIsSorted(PropLeq, p);
    assert Map(CanonProp, [p]) == [p] && CanonComp(raw) == raw;
    OneIsSorted(CompLeq, raw);
    assert Map(CanonComp, [raw]) == [raw];
  }

  lemma OneIsEncoded(key: Bytes, name: Bytes, value: Bytes)
    ensures Encode(CompsTokens([(key, [(name, [value])])])) ==
      (['C' as Octet, 0] + key + [0]) + ((['P' as Octet, 0] + name + [0]) + (['V' as Octet, 0] + value + [0]))
  {
    var v := Token(VALUE, value);
    var p := Token(PROP, name);
    var c := Token(COMP, key);
    assert ValueTokens([value]) == [v] && PropTokens((name, [value])) == [p, v];
    assert PropsTokens([(name, [value])]) == [p, v] && CompTokens((key, [(name, [value])])) == [c, p, v];
    assert CompsTokens([(key, [(name, [value])])]) == [c, p, v];
    assert [c, p, v][1..] == [p, v] && [p, v][1..] == [v] && [v][1..] == [];
    assert Encode([v]) == TokenBytes(v) + [] == TokenBytes(v);
    assert Encode([p, v]) == TokenBytes(p) + TokenBytes(v);
  }

  // ----- who is refused what

  ghost predicate DistinctFields(c: Component) {
    forall i, j :: 0 <= i < j < |c.fields| ==> c.fields[i].name != c.fields[j].name
  }

  /** Some event, task or journal entry has the property with a value of the user's. */
  ghost predicate Names(cal: seq<Component>, own: set<Bytes>, prop: string) {
    exists c <- cal, f <- c.fields, v <- f.values :: OfScheduling(c) && f.name == prop && v.text in own
  }

  lemma {:induction false} ValuesOfField(fields: seq<Field>, f: Field)
    requires f in fields && forall i, j :: 0 <= i < j < |fields| ==> fields[i].name != fields[j].name
    ensures ValuesOf(fields, f.name) == f.values
  {
    if fields[0] == f {
    } else {
      var i :| 0 <= i < |fields| && fields[i] == f;
      assert fields[1..][i - 1] == f;
      ValuesOfField(fields[1..], f);
    }
  }

  lemma {:induction false} ValuesAreOfField(fields: seq<Field>, name: string)
    ensures forall v <- ValuesOf(fields, name) :: exists f <- fields :: f.name == name && v in f.values
  {
    if fields == [] {
    } else {
      ValuesAreOfField(fields[1..], name);
      assert forall f <- fields[1..] :: f in fields;
      assert fields[0] in fields;
    }
  }

  lemma NamesIs(cal: seq<Component>, own: set<Bytes>)
    requires forall c <- cal :: DistinctFields(c)
    ensures WasAttendee(cal, own) <==> Names(cal, own, "ATTENDEE")
    ensures WasOrganiser(cal, own) <==> Names(cal, own, "ORGANIZER")
  {
    forall prop ensures
      (exists c <- cal :: Scheduling(c) && exists v <- ValuesOf(c.fields, prop) :: v.text in own) <==>
      Names(cal, own, prop)
    {
      ValuesIsNames(cal, own, prop);
    }
  }

  lemma ValuesIsNames(cal: seq<Component>, own: set<Bytes>, prop: string)
    requires forall c <- cal :: DistinctFields(c)
    ensures (exists c <- cal :: Scheduling(c) && exists v <- ValuesOf(c.fields, prop) :: v.text in own) <==>
      Names(cal, own, prop)
  {
    NamesAre();
    if c :| c in cal && Scheduling(c) && exists v <- ValuesOf(c.fields, prop) :: v.text in own {
      var v :| v in ValuesOf(c.fields, prop) && v.text in own;
      ValuesAreOfField(c.fields, prop);
      var f :| f in c.fields && f.name == prop && v in f.values;
      assert OfScheduling(c);
    }
    if Names(cal, own, prop) {
      var c, f, v :| c in cal && f in c.fields && v in f.values && OfScheduling(c) && f.name == prop && v.text in own;
      ValuesOfField(c.fields, f);
      assert v in ValuesOf(c.fields, prop);
    }
  }

  /** An attendee who is not the organiser cannot change any of the properties that are the
      organiser's. */
  lemma AttendeeChangeIsRefused(new_: seq<Component>, old_: seq<Component>, own: set<Bytes>, forced: bool, name: string)
    requires Clear(new_) && Clear(old_) && Separate(new_, old_) && forall c <- old_ :: DistinctFields(c)
    requires Names(old_, own, "ATTENDEE") && !Names(old_, own, "ORGANIZER")
    requires name in OTHERS_PROPERTIES && (Differs(old_, new_, name) || Differs(new_, old_, name))
    ensures Refused(new_, old_, own, forced)
  {
    NamesIs(old_, own);
    AcceptedWriteKeeps(new_, old_, own, forced);
    forall o ensures CalContent(new_, o) != CalContent(old_, o) {
      if Differs(old_, new_, name) {
        DifferenceIsContent(old_, new_, o, name);
      } else {
        DifferenceIsContent(new_, old_, o, name);
      }
    }
  }

  /** The organiser is refused nothing. */
  lemma OrganiserIsNotRefused(new_: seq<Component>, old_: seq<Component>, own: set<Bytes>, forced: bool)
    requires Names(old_, own, "ORGANIZER") && forall c <- old_ :: DistinctFields(c)
    ensures !Refused(new_, old_, own, forced)
  {
    NamesIs(old_, own);
  }

  /** Nor is who was no attendee. */
  lemma StrangerIsNotRefused(new_: seq<Component>, old_: seq<Component>, own: set<Bytes>, forced: bool)
    requires !Names(old_, own, "ATTENDEE") && forall c <- old_ :: DistinctFields(c)
    ensures !Refused(new_, old_, own, forced)
  {
    NamesIs(old_, own);
  }

  // ----- what an attendee may do

  /** The same value, but that a value of the user's may have other parameters. */
  predicate OwnReply(v: Value, w: Value, own: set<Bytes>) {
    w == v.(params := w.params) && (v.text !in own ==> w == v)
  }

  /** The same field, but for the parameters of the user's own entries in ATTENDEE. */
  ghost predicate FieldReply(f: Field, g: Field, own: set<Bytes>) {
    if f.name == "ATTENDEE" then
      && g.name == f.name && |g.values| == |f.values|
      && forall i :: 0 <= i < |f.values| ==> OwnReply(f.values[i], g.values[i], own)
    else g == f
  }

  ghost predicate CompReply(c: Component, d: Component, own: set<Bytes>) {
    && SameKey(c, d) && |c.fields| == |d.fields|
    && forall i :: 0 <= i < |c.fields| ==> FieldReply(c.fields[i], d.fields[i], own)
  }

  /** A user may change the parameters of the own entries, PARTSTAT among them, and will not
      be refused whatever the calendar is. */
  lemma OwnReplyIsNotRefused(new_: seq<Component>, old_: seq<Component>, own: set<Bytes>, forced: bool)
    requires |new_| == |old_| && forall i :: 0 <= i < |old_| ==> CompReply(old_[i], new_[i], own)
    ensures !Refused(new_, old_, own, forced)
  {
    CompsStay(old_, new_, Checked(new_, old_, own), own);
    AllowedWriteIsAccepted(new_, old_, own, forced);
  }

  lemma {:induction false} AttendeesStay(vs: seq<Value>, ws: seq<Value>, o: Options, own: set<Bytes>)
    requires o.mask == Some(own) && |vs| == |ws| && forall i :: 0 <= i < |vs| ==> OwnReply(vs[i], ws[i], own)
    ensures KeptAttendees(vs, o) == KeptAttendees(ws, o)
  {
    if vs == [] {
    } else {
      AttendeesStay(vs[..|vs| - 1], ws[..|vs| - 1], o, own);
      assert OwnReply(vs[|vs| - 1], ws[|vs| - 1], own);
    }
  }

  lemma FieldStays(f: Field, g: Field, o: Options, own: set<Bytes>)
    requires o.mask == Some(own) && FieldReply(f, g, own)
    ensures IsKept(f, o) == IsKept(g, o) && FieldContent(o)(f) == FieldContent(o)(g)
  {
    if f.name == "ATTENDEE" { AttendeesStay(f.values, g.values, o, own); }
  }

  lemma {:induction false} FieldsStay(fs: seq<Field>, gs: seq<Field>, o: Options, own: set<Bytes>)
    requires o.mask == Some(own) && |fs| == |gs| && forall i :: 0 <= i < |fs| ==> FieldReply(fs[i], gs[i], own)
    ensures Map(FieldContent(o), KeptFields(fs, o)) == Map(FieldContent(o), KeptFields(gs, o))
  {
    if fs == [] {
    } else {
      var n := |fs| - 1;
      FieldsStay(fs[..n], gs[..n], o, own);
      FieldStays(fs[n], gs[n], o, own);
      LastContent(fs, o);
      LastContent(gs, o);
    }
  }

  lemma LastContent(fs: seq<Field>, o: Options)
    requires fs != []
    ensures var before, last := fs[..|fs| - 1], fs[|fs| - 1];
      Map(FieldContent(o), KeptFields(fs, o)) ==
      Map(FieldContent(o), KeptFields(before, o)) + if IsKept(last, o) then [FieldContent(o)(last)] else []
  {
    var before, last := KeptFields(fs[..|fs| - 1], o), fs[|fs| - 1];
    if IsKept(last, o) {
      MapOfMore(FieldContent(o), before, last);
    } else {
      assert before + [] == before;
    }
  }

  lemma MapOfMore<T, A>(h: T -> A, s: seq<T>, x: T)
    ensures Map(h, s + [x]) == Map(h, s) + [h(x)]
  {
  }

  lemma {:induction false} CompsStay(a: seq<Component>, b: seq<Component>, o: Options, own: set<Bytes>)
    requires o.mask == Some(own) && |a| == |b| && forall i :: 0 <= i < |a| ==> CompReply(a[i], b[i], own)
    ensures Map(CompContent(o), KeptComps(a)) == Map(CompContent(o), KeptComps(b))
  {
    if a == [] {
    } else {
      var n := |a| - 1;
      CompsStay(a[..n], b[..n], o, own);
      FieldsStay(a[n].fields, b[n].fields, o, own);
      assert CompContent(o)(a[n]) == CompContent(o)(b[n]);
    }
  }
}
