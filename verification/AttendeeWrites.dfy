/**
 What an attendee may change on a stored scheduling object (`pre_put_hook`,
 `_reject_unauthorised_attendee_change` and `_delegates_of` in xandikos/web.py;
 sections 3.1 and 3.2.6 of RFC 6638).  Streams stand for their hashes, which are taken
 not to collide.
 */
module AttendeeWrites {
  import opened Wrappers
  import opened Seqs
  import opened Octets
  import opened Orders
  import opened SignatureStreams
  import opened Signatures
  import opened SerializedValues
  import opened SchedulingContents

  /** `comp.get(name, [])`. */
  function ValuesOf(fields: seq<Field>, name: string): seq<Value> {
    if fields == [] then []
    else if fields[0].name == name then fields[0].values
    else ValuesOf(fields[1..], name)
  }

  function Attendees(c: Component): seq<Value> { ValuesOf(c.fields, "ATTENDEE") }

  predicate DelegatedBy(v: Value, own: set<Bytes>) { exists s <- v.delegatedFrom :: s in own }

  /** The addresses that name one of `own` in DELEGATED-FROM. */
  function Delegates(cal: seq<Component>, own: set<Bytes>): set<Bytes> {
    set c <- cal, v <- Attendees(c) | Scheduling(c) && DelegatedBy(v, own) :: v.text
  }

  /** `_delegates_of`. */
  method DelegatesOf(cal: seq<Component>, own: set<Bytes>) returns (out: set<Bytes>)
    ensures out == Delegates(cal, own)
  {
    out := {};
    for i := 0 to |cal|
      invariant out == Delegates(cal[..i], own)
    {
      assert cal[..i + 1] == cal[..i] + [cal[i]];
      if !Scheduling(cal[i]) { continue; }
      var attendees := Attendees(cal[i]);
      ghost var before := out;
      for j := 0 to |attendees|
        invariant out == before + set v <- attendees[..j] | DelegatedBy(v, own) :: v.text
      {
        assert attendees[..j + 1] == attendees[..j] + [attendees[j]];
        if DelegatedBy(attendees[j], own) {
          out := out + {attendees[j].text};
        }
      }
      assert attendees[..|attendees|] == attendees;
    }
    assert cal[..|cal|] == cal;
  }

  predicate WasAttendee(cal: seq<Component>, own: set<Bytes>) {
    exists c <- cal :: Scheduling(c) && exists v <- Attendees(c) :: v.text in own
  }

  predicate WasOrganiser(cal: seq<Component>, own: set<Bytes>) {
    exists c <- cal :: Scheduling(c) && exists v <- ValuesOf(c.fields, "ORGANIZER") :: v.text in own
  }

  /** The options of the check: own parameters are masked, new delegates are skipped. */
  function Checked(new_: seq<Component>, old_: seq<Component>, own: set<Bytes>): Options {
    Options(Some(own), Some(Delegates(new_, own) - Delegates(old_, own)))
  }

  /** Two calendars the check cannot tell apart: as they are, unless a send is forced, or
      with the liberties of an attendee taken off. */
  predicate LooksAllowed(new_: seq<Component>, old_: seq<Component>, own: set<Bytes>, forced: bool) {
    || (Stream(new_, PLAIN) == Stream(old_, PLAIN) && !forced)
    || Stream(new_, Checked(new_, old_, own)) == Stream(old_, Checked(new_, old_, own))
  }

  predicate Refused(new_: seq<Component>, old_: seq<Component>, own: set<Bytes>, forced: bool) {
    WasAttendee(old_, own) && !WasOrganiser(old_, own) && !LooksAllowed(new_, old_, own, forced)
  }

  /** The part of `pre_put_hook` that decides whether a write over `old_` is refused. */
  method RefuseWrite(new_: seq<Component>, old_: seq<Component>, own: set<Bytes>, forced: bool) returns (refused: bool)
    ensures refused <==> Refused(new_, old_, own, forced)
  {
    var oldDelegates := DelegatesOf(old_, own);
    var allDelegates := DelegatesOf(new_, own);
    var newDelegates := allDelegates - oldDelegates;
    var newSig := ExtractSchedulingSignature(new_, PLAIN);
    var oldSig := ExtractSchedulingSignature(old_, PLAIN);
    if newSig == oldSig && !forced { return false; }
    if WasAttendee(old_, own) && !WasOrganiser(old_, own) {
      var o := Options(Some(own), Some(newDelegates));
      var newMasked := ExtractSchedulingSignature(new_, o);
      var oldMasked := ExtractSchedulingSignature(old_, o);
      return newMasked != oldMasked;
    }
    return false;
  }

  // ----- what an accepted write keeps

  /** The contents of the calendars are the same, but for what the options hide. */
  ghost predicate SameContent(a: seq<Component>, b: seq<Component>, o: Options) { CalContent(a, o) == CalContent(b, o) }

  /** What the check lets through of an attendee who is not the organiser: exactly the
      writes after which the scheduling components are the same, one for one, with the same
      values and parameters of every scheduling property, but for the parameters of the
      user's own ATTENDEE entries and the entries of addresses that newly name the user in
      DELEGATED-FROM. */
  lemma AcceptedWriteKeeps(new_: seq<Component>, old_: seq<Component>, own: set<Bytes>, forced: bool)
    requires Clear(new_) && Clear(old_) && Separate(new_, old_)
    ensures LooksAllowed(new_, old_, own, forced) <==>
      || (SameContent(new_, old_, PLAIN) && !forced)
      || SameContent(new_, old_, Checked(new_, old_, own))
  {
    StreamIsContent(new_, old_, PLAIN);
    StreamIsContent(new_, old_, Checked(new_, old_, own));
  }

  /** Clear or not, a write that changes no more than that is let through. */
  lemma AllowedWriteIsAccepted(new_: seq<Component>, old_: seq<Component>, own: set<Bytes>, forced: bool)
    requires SameContent(new_, old_, Checked(new_, old_, own))
    ensures LooksAllowed(new_, old_, own, forced)
  {
    StreamIsContent(new_, old_, Checked(new_, old_, own));
  }

  // ----- the entries of other attendees

  predicate Own(v: Value, o: Options) { o.mask.Some? && v.text in o.mask.value }

  /** The entries that are neither the user's own nor new delegates'. */
  function Others(vs: seq<Value>, o: Options): seq<Value> {
    if vs == [] then []
    else
      var v := vs[|vs| - 1];
      Others(vs[..|vs| - 1], o) + if Skipped(v, o) || Own(v, o) then [] else [v]
  }

  /** An address is rendered as it is. */
  ghost predicate Addresses(vs: seq<Value>) { forall i :: 0 <= i < |vs| ==> vs[i].rendered == vs[i].text }

  lemma {:induction false} OthersAreKept(vs: seq<Value>, o: Options, y: Content)
    requires Addresses(vs)
    ensures multiset(Map(ContentOf, Others(vs, o)))[y] ==
      if o.mask.Some? && y.0 in o.mask.value then 0 else multiset(Map(ContentOf, KeptAttendees(vs, o)))[y]
  {
    if vs == [] {
    } else {
      var n := |vs| - 1;
      OthersAreKept(vs[..n], o, y);
      var others, kept := Others(vs[..n], o), KeptAttendees(vs[..n], o);
      assert Skipped(vs[n], o) || Own(vs[n], o) ==> Others(vs, o) == others;
      assert Skipped(vs[n], o) ==> KeptAttendees(vs, o) == kept;
      assert vs[n].rendered == vs[n].text && Addresses(vs[..n]);
      ContentCount(others, vs[n], y);
      ContentCount(kept, Masked(vs[n], o), y);
    }
  }

  lemma ContentCount(vs: seq<Value>, v: Value, y: Content)
    ensures multiset(Map(ContentOf, vs + [v]))[y] ==
      multiset(Map(ContentOf, vs))[y] + if ContentOf(v) == y then 1 else 0
  {
    assert Map(ContentOf, vs + [v]) == Map(ContentOf, vs) + [ContentOf(v)];
  }

  /** Where an ATTENDEE field has the same content, the entries of all others are the same,
      with all their parameters. */
  lemma OthersEntriesAreKept(f: Field, g: Field, o: Options)
    requires f.name == g.name == "ATTENDEE" && Addresses(f.values) && Addresses(g.values)
    requires FieldContent(o)(f) == FieldContent(o)(g)
    ensures multiset(Map(ContentOf, Others(f.values, o))) == multiset(Map(ContentOf, Others(g.values, o)))
  {
    var a, b := multiset(Map(ContentOf, Others(f.values, o))), multiset(Map(ContentOf, Others(g.values, o)));
    forall y ensures a[y] == b[y] {
      OthersAreKept(f.values, o, y);
      OthersAreKept(g.values, o, y);
    }
  }

  /** The entries that are not the user's own. */
  function Foreign(vs: seq<Value>, own: set<Bytes>): seq<Value> {
    if vs == [] then []
    else Foreign(vs[..|vs| - 1], own) + if vs[|vs| - 1].text in own then [] else [vs[|vs| - 1]]
  }

  lemma {:induction false} OthersCount(vs: seq<Value>, o: Options, y: Content)
    requires o.mask.Some?
    ensures multiset(Map(ContentOf, Others(vs, o)))[y] <= multiset(Map(ContentOf, Foreign(vs, o.mask.value)))[y]
  {
    if vs == [] {
    } else {
      var n := |vs| - 1;
      OthersCount(vs[..n], o, y);
      var others, foreign := Others(vs[..n], o), Foreign(vs[..n], o.mask.value);
      ContentCount(others, vs[n], y);
      ContentCount(foreign, vs[n], y);
      assert others + [] == others && foreign + [] == foreign;
    }
  }

  lemma {:induction false} OthersAreForeign(vs: seq<Value>, o: Options)
    requires o.mask.Some? && forall i :: 0 <= i < |vs| ==> !Skipped(vs[i], o)
    ensures Others(vs, o) == Foreign(vs, o.mask.value)
  {
    if vs == [] {
    } else {
      OthersAreForeign(vs[..|vs| - 1], o);
    }
  }

  /** Where the addresses newly delegated to are none of an old field's, its entries of
      others are all still there, with all their parameters. */
  lemma OldEntriesSurvive(f: Field, g: Field, o: Options)
    requires o.mask.Some? && f.name == g.name == "ATTENDEE" && Addresses(f.values) && Addresses(g.values)
    requires FieldContent(o)(f) == FieldContent(o)(g)
    requires forall i :: 0 <= i < |f.values| ==> !Skipped(f.values[i], o)
    ensures multiset(Map(ContentOf, Foreign(f.values, o.mask.value))) <=
      multiset(Map(ContentOf, Foreign(g.values, o.mask.value)))
  {
    OthersEntriesAreKept(f, g, o);
    OthersAreForeign(f.values, o);
    var kept := multiset(Map(ContentOf, Others(g.values, o)));
    var now := multiset(Map(ContentOf, Foreign(g.values, o.mask.value)));
    forall y ensures kept[y] <= now[y] { OthersCount(g.values, o, y); }
  }

  function WithAttendees(uid: Bytes, vs: seq<Value>): seq<Component> {
    [Component("VEVENT", uid, [], [Field("ATTENDEE", vs)])]
  }

  /** Otherwise they need not be: by claiming that another attendee has been delegated to, the
      user can give that entry any parameters. */
  lemma DelegationCoversRewrite(uid: Bytes, me: Bytes, other: Bytes, before: seq<Param>, after: seq<Param>)
      returns (old_: seq<Component>, new_: seq<Component>)
    requires me != other
    ensures old_ == WithAttendees(uid, [Value(me, me, [], []), Value(other, other, before, [])])
    ensures new_ == WithAttendees(uid, [Value(me, me, [], []), Value(other, other, after, [me])])
    ensures LooksAllowed(new_, old_, {me}, false)
  {
    var user, was, now := Value(me, me, [], []), Value(other, other, before, []), Value(other, other, after, [me]);
    old_, new_ := WithAttendees(uid, [user, was]), WithAttendees(uid, [user, now]);
    DelegatesOfOne(uid, user, was, {me});
    DelegatesOfOne(uid, user, now, {me});
    var o := Checked(new_, old_, {me});
    assert now.delegatedFrom[0] == me && DelegatedBy(now, {me}) && !DelegatedBy(was, {me});
    assert Delegates(new_, {me}) == {other} && Delegates(old_, {me}) == {};
    assert Delegates(new_, {me}) - Delegates(old_, {me}) == {other};
    SameButDelegate(uid, user, was, now, o);
    AllowedWriteIsAccepted(new_, old_, {me}, false);
  }

  lemma DelegatesOfOne(uid: Bytes, user: Value, v: Value, own: set<Bytes>)
    requires user.delegatedFrom == []
    ensures Delegates(WithAttendees(uid, [user, v]), own) == if DelegatedBy(v, own) then {v.text} else {}
  {
    var cal := WithAttendees(uid, [user, v]);
    assert cal[0] in cal && Attendees(cal[0]) == [user, v];
    assert v in Attendees(cal[0]);
  }

  lemma SameButDelegate(uid: Bytes, user: Value, v: Value, w: Value, o: Options)
    requires !Skipped(user, o) && Skipped(v, o) && Skipped(w, o)
    ensures SameContent(WithAttendees(uid, [user, w]), WithAttendees(uid, [user, v]), o)
  {
    var f, g := Field("ATTENDEE", [user, v]), Field("ATTENDEE", [user, w]);
    OnlyUserKept(user, v, o);
    OnlyUserKept(user, w, o);
    assert FieldContent(o)(f) == FieldContent(o)(g);
    OneFieldAlike(uid, f, g, o);
    OneCompKept(WithAttendees(uid, [user, w]), WithAttendees(uid, [user, v]), o);
  }

  lemma OneFieldAlike(uid: Bytes, f: Field, g: Field, o: Options)
    requires IsKept(f, o) && IsKept(g, o) && FieldContent(o)(f) == FieldContent(o)(g)
    ensures CompContent(o)(Component("VEVENT", uid, [], [f])) == CompContent(o)(Component("VEVENT", uid, [], [g]))
  {
    OneFieldKept(f, o);
    OneFieldKept(g, o);
    assert Map(FieldContent(o), [f]) == Map(FieldContent(o), [g]);
  }

  lemma OnlyUserKept(user: Value, other: Value, o: Options)
    requires !Skipped(user, o) && Skipped(other, o)
    ensures KeptAttendees([user, other], o) == [Masked(user, o)]
  {
    assert [user, other][..1] == [user] && [user][..0] == [];
    assert KeptAttendees([], o) == [];
    assert KeptAttendees([user], o) == [Masked(user, o)];
  }

  lemma OneFieldKept(f: Field, o: Options)
    requires IsKept(f, o)
    ensures KeptFields([f], o) == [f]
  {
    assert [f][..0] == [] && KeptFields([], o) == [];
  }

  lemma OneCompKept(a: seq<Component>, b: seq<Component>, o: Options)
    requires |a| == |b| == 1 && Scheduling(a[0]) && Scheduling(b[0]) && CompContent(o)(a[0]) == CompContent(o)(b[0])
    ensures CalContent(a, o) == CalContent(b, o)
  {
    assert a[..0] == [] && b[..0] == [] && KeptComps([]) == [];
    assert KeptComps(a) == [a[0]] && KeptComps(b) == [b[0]];
  }
}
