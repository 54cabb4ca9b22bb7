/**
 The scheduling signature of a calendar (`extract_scheduling_signature` in
 xandikos/itip.py; section 3.2.10 of RFC 6638), up to the hash taken of its stream.
 */
module Signatures {
  import opened Wrappers
  import opened Seqs
  import opened Octets
  import opened Orders
  import opened SignatureStreams

  const SCHEDULING_PROPERTIES: set<string> := {
    "ATTENDEE", "ORGANIZER", "DTSTART", "DTEND", "DUE", "DURATION", "RRULE", "RDATE", "EXDATE", "RECURRENCE-ID",
    "SEQUENCE", "STATUS", "SUMMARY", "LOCATION", "DESCRIPTION", "PRIORITY", "TRANSP", "CLASS", "URL", "CATEGORIES",
    "RESOURCES", "PERCENT-COMPLETE", "REQUEST-STATUS"}

  const SCHEDULING_COMPONENTS: set<string> := {"VEVENT", "VTODO", "VJOURNAL"}

  /** A property value: as text, as rendered by `to_ical`, its parameters, and those that
      its DELEGATED-FROM parameter names. */
  datatype Value = Value(text: Bytes, rendered: Bytes, params: seq<(Bytes, Bytes)>, delegatedFrom: seq<Bytes>)

  datatype Field = Field(name: string, values: seq<Value>)

  /** A component; an absent UID or RECURRENCE-ID is empty. */
  datatype Component = Component(name: string, uid: Bytes, recurrenceId: Bytes, fields: seq<Field>)

  /** `mask_own_attendee_params` and `skip_attendees`. */
  datatype Options = Options(mask: Option<set<Bytes>>, skip: Option<set<Bytes>>)

  const PLAIN := Options(None, None)

  /** The bytes of an ASCII string. */
  function Ascii(s: string): Bytes { seq(|s|, i requires 0 <= i < |s| => s[i] as nat % 256) }

  predicate IsAscii(s: string) { forall i :: 0 <= i < |s| ==> 0 < s[i] as nat < 128 }

  // ----- the orders Python sorts by

  predicate OctetLeq(a: Octet, b: Octet) { a <= b }

  predicate BytesLeq(a: Bytes, b: Bytes) { Lex(OctetLeq, a, b) }

  predicate ItemsLeq(a: seq<Bytes>, b: seq<Bytes>) { Lex(BytesLeq, a, b) }

  predicate PropLeq(p: Prop, q: Prop) { PairLex(BytesLeq, ItemsLeq, p, q) }

  predicate PropsLeq(a: seq<Prop>, b: seq<Prop>) { Lex(PropLeq, a, b) }

  predicate CompLeq(c: Comp, d: Comp) { PairLex(BytesLeq, PropsLeq, c, d) }

  predicate ParamLeq(p: (Bytes, Bytes), q: (Bytes, Bytes)) { PairLex(BytesLeq, BytesLeq, p, q) }

  lemma BytesOrder()
    ensures TotalOrder(BytesLeq)
  {
    LexIsTotal(OctetLeq);
    var leq := (a: Bytes, b: Bytes) => Lex(OctetLeq, a, b);
    assert forall a, b :: BytesLeq(a, b) == leq(a, b);
  }

  lemma PropOrder()
    ensures TotalOrder(PropLeq)
  {
    BytesOrder();
    LexIsTotal(BytesLeq);
    var leq := (a: seq<Bytes>, b: seq<Bytes>) => Lex(BytesLeq, a, b);
    assert forall a, b :: ItemsLeq(a, b) == leq(a, b);
    PairIsTotal(BytesLeq, ItemsLeq);
    var pair := (p: Prop, q: Prop) => PairLex(BytesLeq, ItemsLeq, p, q);
    assert forall p, q :: PropLeq(p, q) == pair(p, q);
  }

  lemma CompOrder()
    ensures TotalOrder(CompLeq)
  {
    BytesOrder();
    PropOrder();
    LexIsTotal(PropLeq);
    var leq := (a: seq<Prop>, b: seq<Prop>) => Lex(PropLeq, a, b);
    assert forall a, b :: PropsLeq(a, b) == leq(a, b);
    PairIsTotal(BytesLeq, PropsLeq);
    var pair := (c: Comp, d: Comp) => PairLex(BytesLeq, PropsLeq, c, d);
    assert forall c, d :: CompLeq(c, d) == pair(c, d);
  }

  // ----- serialised values

  function JoinParams(ps: seq<(Bytes, Bytes)>): Bytes {
    if ps == [] then []
    else ps[0].0 + Ascii("=") + ps[0].1 + (if |ps| == 1 then [] else Ascii(";") + JoinParams(ps[1..]))
  }

  /** `_serialize_scheduling_value`. */
  function Serialize(v: Value): Bytes {
    if v.params == [] then v.rendered else JoinParams(Sort(ParamLeq, v.params)) + Ascii(":") + v.rendered
  }

  /** `_serialize_attendee_value`. */
  function SerializeAttendee(v: Value, mask: Option<set<Bytes>>): Bytes {
    if mask.Some? && v.text in mask.value then v.rendered else Serialize(v)
  }

  predicate Skipped(v: Value, o: Options) { o.skip.Some? && v.text in o.skip.value }

  function AttendeeItems(vs: seq<Value>, o: Options): seq<Bytes> {
    if vs == [] then []
    else AttendeeItems(vs[..|vs| - 1], o) +
         if Skipped(vs[|vs| - 1], o) then [] else [SerializeAttendee(vs[|vs| - 1], o.mask)]
  }

  /** The values a field contributes; None where it is left out. */
  function FieldItems(f: Field, o: Options): Option<seq<Bytes>> {
    if f.name !in SCHEDULING_PROPERTIES then None
    else if f.name == "ATTENDEE" then
      var items := AttendeeItems(f.values, o);
      if items == [] then None else Some(items)
    else Some(Map(Serialize, f.values))
  }

  /** The properties of a component in the order given, before anything is sorted. */
  function RawProps(fields: seq<Field>, o: Options): seq<Prop> {
    if fields == [] then []
    else
      var f := fields[|fields| - 1];
      var items := FieldItems(f, o);
      RawProps(fields[..|fields| - 1], o) + if items.None? then [] else [(Ascii(f.name), items.value)]
  }

  function KeyOf(c: Component): Bytes { Ascii(c.name) + Ascii(":") + c.uid + Ascii(":") + c.recurrenceId }

  function RawComps(cal: seq<Component>, o: Options): seq<Comp> {
    if cal == [] then []
    else
      var c := cal[|cal| - 1];
      RawComps(cal[..|cal| - 1], o) +
      if c.name in SCHEDULING_COMPONENTS then [(KeyOf(c), RawProps(c.fields, o))] else []
  }

  // ----- the canonical form and its meaning

  function CanonProp(p: Prop): Prop { (p.0, Sort(BytesLeq, p.1)) }

  function CanonComp(c: Comp): Comp { (c.0, Sort(PropLeq, Map(CanonProp, c.1))) }

  function Canonical(raw: seq<Comp>): seq<Comp> { Sort(CompLeq, Map(CanonComp, raw)) }

  /** The stream that is hashed. */
  function Stream(cal: seq<Component>, o: Options): Bytes { Encode(CompsTokens(Canonical(RawComps(cal, o)))) }

  /** What a stream stands for: the components as a multiset of keys, each with the multiset
      of its fields, each with the multiset of its serialised values. */
  ghost function PropMeaning(p: Prop): (Bytes, multiset<Bytes>) { (p.0, multiset(p.1)) }

  ghost function CompMeaning(c: Comp): (Bytes, multiset<(Bytes, multiset<Bytes>)>) {
    (c.0, multiset(Map(PropMeaning, c.1)))
  }

  ghost function Meaning(raw: seq<Comp>): multiset<(Bytes, multiset<(Bytes, multiset<Bytes>)>)> {
    multiset(Map(CompMeaning, raw))
  }

  lemma PropCanonical(p: Prop, q: Prop)
    ensures CanonProp(p) == CanonProp(q) <==> PropMeaning(p) == PropMeaning(q)
  {
    BytesOrder();
    SortIsCanonical(BytesLeq, p.1, q.1);
  }

  lemma CompCanonical(c: Comp, d: Comp)
    ensures CanonComp(c) == CanonComp(d) <==> CompMeaning(c) == CompMeaning(d)
  {
    PropOrder();
    SortIsCanonical(PropLeq, Map(CanonProp, c.1), Map(CanonProp, d.1));
    forall i, j | 0 <= i < |c.1| && 0 <= j < |d.1|
      ensures CanonProp(c.1[i]) == CanonProp(d.1[j]) <==> PropMeaning(c.1[i]) == PropMeaning(d.1[j])
    {
      PropCanonical(c.1[i], d.1[j]);
    }
    if CanonComp(c) == CanonComp(d) { ImagesAgree(CanonProp, PropMeaning, c.1, d.1); }
    if CompMeaning(c) == CompMeaning(d) { ImagesAgree(PropMeaning, CanonProp, c.1, d.1); }
  }

  /** The canonical forms are the same just when the meanings are. */
  lemma CanonicalIsMeaning(a: seq<Comp>, b: seq<Comp>)
    ensures Canonical(a) == Canonical(b) <==> Meaning(a) == Meaning(b)
  {
    CompOrder();
    SortIsCanonical(CompLeq, Map(CanonComp, a), Map(CanonComp, b));
    forall i, j | 0 <= i < |a| && 0 <= j < |b|
      ensures CanonComp(a[i]) == CanonComp(b[j]) <==> CompMeaning(a[i]) == CompMeaning(b[j])
    {
      CompCanonical(a[i], b[j]);
    }
    if Canonical(a) == Canonical(b) { ImagesAgree(CanonComp, CompMeaning, a, b); }
    if Meaning(a) == Meaning(b) { ImagesAgree(CompMeaning, CanonComp, a, b); }
  }

  ghost predicate NulFreeProp(p: Prop) { NulFree(p.0) && forall v <- p.1 :: NulFree(v) }

  lemma CanonPropIsNulFree(p: Prop)
    requires NulFreeProp(p)
    ensures NulFreeProp(CanonProp(p))
  {
    SortMembers(BytesLeq, p.1);
  }

  lemma CanonCompIsNulFree(c: Comp)
    requires NulFree(c.0) && forall p <- c.1 :: NulFreeProp(p)
    ensures forall p <- CanonComp(c).1 :: NulFreeProp(p)
  {
    SortMembers(PropLeq, Map(CanonProp, c.1));
    forall p <- CanonComp(c).1 ensures NulFreeProp(p) {
      var j :| 0 <= j < |c.1| && Map(CanonProp, c.1)[j] == p;
      CanonPropIsNulFree(c.1[j]);
    }
  }

  lemma CanonicalIsNulFree(raw: seq<Comp>)
    requires NulFreeComps(raw)
    ensures NulFreeComps(Canonical(raw))
  {
    var mapped := Map(CanonComp, raw);
    SortPermutes(CompLeq, mapped);
    forall c <- Canonical(raw) ensures NulFree(c.0) && forall p <- c.1 :: NulFreeProp(p) {
      assert c in multiset(Canonical(raw));
      assert c in mapped;
      var i :| 0 <= i < |raw| && Map(CanonComp, raw)[i] == c;
      assert raw[i] in raw && forall p <- raw[i].1 :: NulFreeProp(p);
      CanonCompIsNulFree(raw[i]);
    }
  }

  /** The stream forgets every order, and where nothing contains NUL it forgets nothing
      else: two calendars have the same stream just when they mean the same. */
  lemma StreamIsMeaning(a: seq<Component>, b: seq<Component>, o: Options)
    ensures Meaning(RawComps(a, o)) == Meaning(RawComps(b, o)) ==> Stream(a, o) == Stream(b, o)
    ensures NulFreeComps(RawComps(a, o)) && NulFreeComps(RawComps(b, o)) && Stream(a, o) == Stream(b, o) ==>
      Meaning(RawComps(a, o)) == Meaning(RawComps(b, o))
  {
    var ra, rb := RawComps(a, o), RawComps(b, o);
    CanonicalIsMeaning(ra, rb);
    if NulFreeComps(ra) && NulFreeComps(rb) && Stream(a, o) == Stream(b, o) {
      CanonicalIsNulFree(ra);
      CanonicalIsNulFree(rb);
      StreamIsInjective(Canonical(ra), Canonical(rb));
    }
  }

  // ----- the function as it runs

  lemma {:induction false} EncodeAppend(a: seq<Token>, b: seq<Token>)
    ensures Encode(a + b) == Encode(a) + Encode(b)
  {
    if a == [] {
      assert a + b == b;
    } else {
      assert (a + b)[1..] == a[1..] + b;
      EncodeAppend(a[1..], b);
    }
  }

  lemma {:induction false} ValueTokensAppend(a: seq<Bytes>, b: seq<Bytes>)
    ensures ValueTokens(a + b) == ValueTokens(a) + ValueTokens(b)
  {
    if a == [] {
      assert a + b == b;
    } else {
      assert (a + b)[1..] == a[1..] + b;
      ValueTokensAppend(a[1..], b);
    }
  }

  lemma {:induction false} PropsTokensAppend(a: seq<Prop>, b: seq<Prop>)
    ensures PropsTokens(a + b) == PropsTokens(a) + PropsTokens(b)
  {
    if a == [] {
      assert a + b == b;
    } else {
      assert (a + b)[1..] == a[1..] + b;
      PropsTokensAppend(a[1..], b);
    }
  }

  lemma {:induction false} CompsTokensAppend(a: seq<Comp>, b: seq<Comp>)
    ensures CompsTokens(a + b) == CompsTokens(a) + CompsTokens(b)
  {
    if a == [] {
      assert a + b == b;
    } else {
      assert (a + b)[1..] == a[1..] + b;
      CompsTokensAppend(a[1..], b);
    }
  }

  /** The hashing loops: what is fed to the hash for one property, appended to `h`. */
  method FeedProp(h: Bytes, p: Prop) returns (out: Bytes)
    ensures out == h + Encode(PropTokens(p))
  {
    out := h + [PROP, 0] + p.0 + [0];
    ghost var head := out;
    assert Encode([Token(PROP, p.0)]) == TokenBytes(Token(PROP, p.0)) + Encode([]);
    for i := 0 to |p.1|
      invariant out == head + Encode(ValueTokens(p.1[..i]))
    {
      assert p.1[..i + 1] == p.1[..i] + [p.1[i]];
      ValueTokensAppend(p.1[..i], [p.1[i]]);
      EncodeAppend(ValueTokens(p.1[..i]), ValueTokens([p.1[i]]));
      assert Encode(ValueTokens([p.1[i]])) == TokenBytes(Token(VALUE, p.1[i])) by { OneValue(p.1[i]); }
      out := out + ([VALUE, 0] + p.1[i] + [0]);
    }
    assert p.1[..|p.1|] == p.1;
    EncodeAppend([Token(PROP, p.0)], ValueTokens(p.1));
  }

  lemma OneValue(v: Bytes)
    ensures Encode(ValueTokens([v])) == TokenBytes(Token(VALUE, v))
  {
    assert [v][1..] == [];
    assert ValueTokens([v]) == [Token(VALUE, v)] + ValueTokens([]);
    assert [Token(VALUE, v)][1..] == [];
    assert Encode([Token(VALUE, v)]) == TokenBytes(Token(VALUE, v)) + Encode([]);
  }

  lemma PropsStep(ps: seq<Prop>, i: nat)
    requires i < |ps|
    ensures Encode(PropsTokens(ps[..i + 1])) == Encode(PropsTokens(ps[..i])) + Encode(PropTokens(ps[i]))
  {
    assert ps[..i + 1] == ps[..i] + [ps[i]];
    PropsTokensAppend(ps[..i], [ps[i]]);
    assert PropsTokens([ps[i]]) == PropTokens(ps[i]) + PropsTokens([]) == PropTokens(ps[i]);
    EncodeAppend(PropsTokens(ps[..i]), PropTokens(ps[i]));
  }

  lemma CompHead(h: Bytes, c: Comp)
    ensures h + [COMP, 0] + c.0 + [0] + Encode(PropsTokens(c.1)) == h + Encode(CompTokens(c))
  {
    assert Encode([Token(COMP, c.0)]) == TokenBytes(Token(COMP, c.0)) + Encode([]);
    EncodeAppend([Token(COMP, c.0)], PropsTokens(c.1));
  }

  method FeedComp(h: Bytes, c: Comp) returns (out: Bytes)
    ensures out == h + Encode(CompTokens(c))
  {
    out := h + [COMP, 0] + c.0 + [0];
    ghost var head := out;
    CompHead(h, c);
    for i := 0 to |c.1|
      invariant out == head + Encode(PropsTokens(c.1[..i]))
    {
      PropsStep(c.1, i);
      out := FeedProp(out, c.1[i]);
    }
    assert c.1[..|c.1|] == c.1;
  }

  /** `extract_scheduling_signature` up to the digest: lists are filled, sorted, and fed. */
  method ExtractSchedulingSignature(cal: seq<Component>, o: Options) returns (stream: Bytes)
    ensures stream == Stream(cal, o)
  {
    var components: seq<Comp> := [];
    for i := 0 to |cal|
      invariant components == Map(CanonComp, RawComps(cal[..i], o))
    {
      assert cal[..i + 1][..i] == cal[..i];
      if cal[i].name in SCHEDULING_COMPONENTS {
        var props := SortedProps(cal[i].fields, o);
        components := components + [(KeyOf(cal[i]), props)];
      }
    }
    assert cal[..|cal|] == cal;
    components := Sort(CompLeq, components);
    stream := [];
    for i := 0 to |components|
      invariant stream == Encode(CompsTokens(components[..i]))
    {
      assert components[..i + 1] == components[..i] + [components[i]];
      CompsTokensAppend(components[..i], [components[i]]);
      assert CompsTokens([components[i]]) == CompTokens(components[i]) + CompsTokens([]) == CompTokens(components[i]);
      EncodeAppend(CompsTokens(components[..i]), CompTokens(components[i]));
      stream := FeedComp(stream, components[i]);
    }
    assert components[..|components|] == components;
  }

  /** The inner loop: the fields of one component, their values sorted, then sorted. */
  method SortedProps(fields: seq<Field>, o: Options) returns (props: seq<Prop>)
    ensures props == Sort(PropLeq, Map(CanonProp, RawProps(fields, o)))
  {
    props := [];
    for i := 0 to |fields|
      invariant props == Map(CanonProp, RawProps(fields[..i], o))
    {
      assert fields[..i + 1][..i] == fields[..i];
      var items := FieldItems(fields[i], o);
      if items.None? { continue; }
      var sorted := Sort(BytesLeq, items.value);
      props := props + [(Ascii(fields[i].name), sorted)];
    }
    assert fields[..|fields|] == fields;
    props := Sort(PropLeq, props);
  }
}
