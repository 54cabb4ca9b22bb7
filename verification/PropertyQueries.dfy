/**
 What a query for one property comes to, on a file and on its index, in plain terms
 (PropertyFilter, TextMatcher and PropertyTimeRangeMatcher in xandikos/icalendar.py; sections
 9.7.2, 9.7.5 and 9.9 of RFC 4791).
 */
module PropertyQueries {
  import opened Wrappers
  import opened Seqs
  import opened Calendars
  import opened RuleSets
  import opened IndexRows
  import opened Indexing
  import opened Filters
  import opened FilterAgreement
  import opened FilterLimits
  import opened CalendarQueries

  /** `prop-filter` with one text-match: negated, the text must not match. */
  function TextQuery(prop: string, collates: Value -> bool, negate: bool): Filter {
    PropFilter(prop, false, None, [TextMatcher(collates, negate)])
  }

  function RangeOfProp(prop: string, start: int, end: int): Filter {
    PropFilter(prop, false, Some(Range(start, end)), [])
  }

  /** One condition on a property in a component called `name` of a calendar. */
  function PropQuery(name: string, p: Filter): seq<Filter> {
    [CompFilter("VCALENDAR", false, None, [CompFilter(name, false, None, [p])])]
  }

  lemma TextMatchIs(prop: string, collates: Value -> bool, negate: bool, c: Component)
    ensures MatchProp(TextQuery(prop, collates, negate), c.props) == Yes <==>
      prop in c.props && (if negate then !collates(c.props[prop]) else collates(c.props[prop]))
  {
    var f := TextQuery(prop, collates, negate);
    assert |f.texts| == 1 && f.texts[0] == TextMatcher(collates, negate);
  }

  /** The range of a property is met from its start to its end, both included. */
  lemma PropRangeIs(prop: string, start: int, end: int, c: Component)
    requires prop in c.props ==> c.props[prop].Instant?
    ensures MatchProp(RangeOfProp(prop, start, end), c.props) == Yes <==>
      prop in c.props && start <= c.props[prop].at <= end
  {
  }

  lemma AbsenceIs(prop: string, range: Option<Range>, texts: seq<TextMatcher>, c: Component)
    ensures MatchProp(PropFilter(prop, true, range, texts), c.props) == Yes <==> prop !in c.props
  {
  }

  // ----- categories

  /** The matcher on a list of categories asks itself of each of them, and negates the answer
      that it has negated for each already. */
  function CategoryMatcher(cats: Value -> seq<string>, collates: string -> bool, negate: bool): TextMatcher {
    TextMatcher((v: Value) => exists i | 0 <= i < |cats(v)| :: if negate then !collates(cats(v)[i])
                                                                else collates(cats(v)[i]), negate)
  }

  function CategoryQuery(cats: Value -> seq<string>, collates: string -> bool, negate: bool): Filter {
    PropFilter("CATEGORIES", false, None, [CategoryMatcher(cats, collates, negate)])
  }

  /** Some category matches; or, if the match is negated, every one does. */
  lemma CategoriesAre(cats: Value -> seq<string>, collates: string -> bool, negate: bool, c: Component)
    ensures MatchProp(CategoryQuery(cats, collates, negate), c.props) == Yes <==>
      "CATEGORIES" in c.props &&
      if negate then forall s <- cats(c.props["CATEGORIES"]) :: collates(s)
      else exists s <- cats(c.props["CATEGORIES"]) :: collates(s)
  {
    TextMatchIs("CATEGORIES", CategoryMatcher(cats, collates, negate).collates, negate, c);
    if "CATEGORIES" in c.props {
      var all := cats(c.props["CATEGORIES"]);
      assert forall s <- all :: exists i | 0 <= i < |all| :: all[i] == s;
      assert forall i :: 0 <= i < |all| ==> all[i] in all;
    }
  }

  /** So a negated match says what it should, that no category matches, just when there is
      none, or there are both such that match and such that do not. */
  lemma NegatedCategoriesAgreeJustWhen(cats: Value -> seq<string>, collates: string -> bool, c: Component)
    requires "CATEGORIES" in c.props
    ensures (MatchProp(CategoryQuery(cats, collates, true), c.props) == Yes <==>
             forall s <- cats(c.props["CATEGORIES"]) :: !collates(s)) <==>
      var all := cats(c.props["CATEGORIES"]);
      all == [] || ((exists s <- all :: collates(s)) && (exists s <- all :: !collates(s)))
  {
    CategoriesAre(cats, collates, true, c);
    var all := cats(c.props["CATEGORIES"]);
    if all != [] { assert all[0] in all; }
  }

  function Only(category: string): Value -> seq<string> { _ => [category] }

  function Is(wanted: string): string -> bool { s => s == wanted }

  /** One category, and the match negated: found if it is the text, missed if it is not. */
  lemma OnlyCategoryIsTurned(category: string, wanted: string, c: Component)
    requires "CATEGORIES" in c.props
    ensures MatchProp(CategoryQuery(Only(category), Is(wanted), true), c.props) == Yes <==> category == wanted
  {
    CategoriesAre(Only(category), Is(wanted), true, c);
    assert category in Only(category)(c.props["CATEGORIES"]);
  }

  // ----- columns

  /** In the column: a value that meets the condition, whichever component it is of. */
  lemma TextColumnIs(prop: string, collates: Value -> bool, negate: bool, keys: set<Path>, cs: seq<Component>)
    requires [P(prop)] in keys
    ensures MatchPropIndexes(TextQuery(prop, collates, negate), Indexed(keys, cs)) ==
      Decide(exists c <- cs :: prop in c.props &&
               if negate then !collates(c.props[prop]) else collates(c.props[prop]))
  {
    var f := TextQuery(prop, collates, negate);
    PropIsColumn(f, keys, cs);
    PropOfMany(f, cs);
    forall c <- cs ensures MatchProp(f, c.props) == Yes <==>
      prop in c.props && (if negate then !collates(c.props[prop]) else collates(c.props[prop]))
    {
      TextMatchIs(prop, collates, negate, c);
    }
  }

  lemma RangeColumnIs(prop: string, start: int, end: int, keys: set<Path>, cs: seq<Component>)
    requires [P(prop)] in keys && forall c <- cs :: prop in c.props ==> c.props[prop].Instant?
    ensures MatchPropIndexes(RangeOfProp(prop, start, end), Indexed(keys, cs)) ==
      Decide(exists c <- cs :: prop in c.props && start <= c.props[prop].at <= end)
  {
    var f := RangeOfProp(prop, start, end);
    PropIsColumn(f, keys, cs);
    PropOfMany(f, cs);
    forall c <- cs ensures MatchProp(f, c.props) == Yes <==> prop in c.props && start <= c.props[prop].at <= end {
      PropRangeIs(prop, start, end, c);
    }
  }

  /** The file's answer to a whole query: some component of that name meets the condition. */
  lemma PropQueryIs(name: string, p: Filter, cal: Component, parse: RuleParser)
    requires GoodParser(parse) && p.PropFilter?
    ensures Check(PropQuery(name, p), cal, parse) <==>
      cal.name == "VCALENDAR" && exists c <- cal.subs :: c.name == name && MatchProp(p, c.props) == Yes
  {
    var inner := CompFilter(name, false, None, [p]);
    var outer := CompFilter("VCALENDAR", false, None, [inner]);
    assert FirstRange(PropQuery(name, p)) == None by {
      assert FirstRange([p]) == None && FirstRange([p][1..]) == None;
      assert FirstRange([inner]) == None && FirstRange([inner][1..]) == None;
      assert FirstRange([outer][1..]) == None;
    }
    forall c <- cal.subs
      ensures Match(inner, c) == if c.name == name && MatchProp(p, c.props) == Yes then Yes else No
    {
      assert MatchAll([p][1..], c) == Yes;
    }
    AnyOfDecided(inner, cal.subs);
    OneChildFile(inner, cal);
    OneChildFile(outer, cal);
  }

  lemma InnerDenotes(name: string, p: Filter, cal: Component)
    requires p.PropFilter? && !p.isNotDefined && Conditions(p) <= 1
    ensures Denotes(CompFilter(name, false, None, [p]), [cal]) <==>
      exists c <- cal.subs :: c.name == name && MatchProp(p, c.props) == Yes
  {
    var f, cs := CompFilter(name, false, None, [p]), Named([cal], name);
    assert AllSubs([cal]) == cal.subs + AllSubs([]) == cal.subs;
    PropOfMany(p, cs);
    OneChildDenotes(f, [cal]);
    if c :| c in cs && MatchProp(p, c.props) == Yes { assert c in cal.subs && c.name == name; }
    if c :| c in cal.subs && c.name == name && MatchProp(p, c.props) == Yes { assert c in cs; }
  }

  lemma OneChildDenotes(f: Filter, ps: seq<Component>)
    requires f.CompFilter? && !f.isNotDefined && |f.children| == 1
    ensures Denotes(f, ps) <==> Named(ps, f.name) != [] && Denotes(f.children[0], Named(ps, f.name))
  {
    var g, cs := f.children[0], Named(ps, f.name);
    assert Denotes(f, ps) == (cs != [] && forall i :: 0 <= i < 1 ==> Denotes(f.children[i], cs));
    assert (forall i :: 0 <= i < 1 ==> Denotes(f.children[i], cs)) <==> Denotes(g, cs);
  }

  lemma OuterDenotes(inner: Filter, cal: Component)
    ensures Denotes(CompFilter("VCALENDAR", false, None, [inner]), [Root(cal)]) <==>
      cal.name == "VCALENDAR" && Denotes(inner, [cal])
  {
    assert AllSubs([Root(cal)]) == [cal] + AllSubs([]) == [cal];
    assert OfName([cal], "VCALENDAR") == (if cal.name == "VCALENDAR" then [cal] else []) + OfName([], "VCALENDAR");
    assert Named([Root(cal)], "VCALENDAR") == if cal.name == "VCALENDAR" then [cal] else [];
    OneChildDenotes(CompFilter("VCALENDAR", false, None, [inner]), [Root(cal)]);
  }

  /** And its index's, which is the same. */
  lemma PropQueryAgrees(name: string, p: Filter, cal: Component, keys: set<Path>, parse: RuleParser)
    requires GoodParser(parse) && p.PropFilter? && !p.isNotDefined && Conditions(p) <= 1
    requires Covered(ChildKeys(PropQuery(name, p)), keys)
    ensures CheckFromIndexes(PropQuery(name, p), Indexed(keys, [Root(cal)]), parse) ==
      Decide(Check(PropQuery(name, p), cal, parse))
  {
    var inner := CompFilter(name, false, None, [p]);
    var outer := CompFilter("VCALENDAR", false, None, [inner]);
    OneChildKeys(outer, keys);
    ColumnsDecide(outer, keys, [Root(cal)], parse);
    OneChildIndex(outer, Indexed(keys, [Root(cal)]), parse);
    OuterDenotes(inner, cal);
    InnerDenotes(name, p, cal);
    PropQueryIs(name, p, cal, parse);
  }

  /** So for one text-match: an event is found by a property whose text matches, or if the
      match is negated, by one whose text does not; not by one that it lacks. */
  lemma TextQueryIs(prop: string, collates: Value -> bool, negate: bool, cal: Component, keys: set<Path>,
                    parse: RuleParser)
    requires GoodParser(parse)
    requires Covered(ChildKeys(PropQuery("VEVENT", TextQuery(prop, collates, negate))), keys)
    ensures var fs := PropQuery("VEVENT", TextQuery(prop, collates, negate));
      && (Check(fs, cal, parse) <==>
          cal.name == "VCALENDAR" &&
          exists c <- cal.subs :: c.name == "VEVENT" && prop in c.props &&
            (if negate then !collates(c.props[prop]) else collates(c.props[prop])))
      && CheckFromIndexes(fs, Indexed(keys, [Root(cal)]), parse) == Decide(Check(fs, cal, parse))
  {
    var f := TextQuery(prop, collates, negate);
    PropQueryIs("VEVENT", f, cal, parse);
    PropQueryAgrees("VEVENT", f, cal, keys, parse);
    forall c <- cal.subs ensures MatchProp(f, c.props) == Yes <==>
      prop in c.props && (if negate then !collates(c.props[prop]) else collates(c.props[prop]))
    {
      TextMatchIs(prop, collates, negate, c);
    }
  }

  /** And for one range on a property. */
  lemma PropRangeQueryIs(prop: string, start: int, end: int, cal: Component, keys: set<Path>, parse: RuleParser)
    requires GoodParser(parse) && forall c <- cal.subs :: prop in c.props ==> c.props[prop].Instant?
    requires Covered(ChildKeys(PropQuery("VEVENT", RangeOfProp(prop, start, end))), keys)
    ensures var fs := PropQuery("VEVENT", RangeOfProp(prop, start, end));
      && (Check(fs, cal, parse) <==>
          cal.name == "VCALENDAR" &&
          exists c <- cal.subs :: c.name == "VEVENT" && prop in c.props && start <= c.props[prop].at <= end)
      && CheckFromIndexes(fs, Indexed(keys, [Root(cal)]), parse) == Decide(Check(fs, cal, parse))
  {
    var f := RangeOfProp(prop, start, end);
    PropQueryIs("VEVENT", f, cal, parse);
    PropQueryAgrees("VEVENT", f, cal, keys, parse);
    forall c <- cal.subs ensures MatchProp(f, c.props) == Yes <==> prop in c.props && start <= c.props[prop].at <= end {
      PropRangeIs(prop, start, end, c);
    }
  }
}
