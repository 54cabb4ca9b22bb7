/**
 Calendar queries on a store of calendars: the two halves put together
 (xandikos/store/__init__.py and xandikos/icalendar.py).
 */
module CalendarStores {
  import opened Wrappers
  import opened Calendars
  import opened RuleSets
  import opened Recurrences
  import opened Occurrences
  import opened Expansion
  import opened IndexRows
  import opened Indexing
  import opened IndexedTimeRanges
  import opened Filters
  import opened CalendarQueries
  import Stores

  /** Whether a calendar validates, its UID, and its normal form. */
  datatype Kind = Kind(valid: Component -> bool, uid: Component -> Option<string>, normal: Component -> Component)

  /** Calendars as files of a store. */
  ghost function CalendarFiles(k: Kind): Stores.FileType<Component> {
    Stores.FileType((cal: Component, key: Path) => Values([Root(cal)], key), k.valid, k.uid, k.normal)
  }

  ghost predicate Components(fs: seq<Filter>) { forall i :: 0 <= i < |fs| ==> fs[i].CompFilter? }

  /** CalendarFilter as the store sees it. */
  ghost function CalendarFilter(fs: seq<Filter>, parse: RuleParser): Stores.StoreFilter<Component>
    requires GoodParser(parse) && Components(fs)
  {
    Stores.StoreFilter("text/calendar", Some(ChildKeys(fs)),
                       (cal: Component) => Check(fs, cal, parse),
                       (ix: Indexes) => CheckFromIndexes(fs, ix, parse))
  }

  /** No OR-list of a calendar filter is empty. */
  lemma {:induction false} KeysAreGiven(f: Filter)
    ensures forall l <- IndexKeys(f) :: l != []
    decreases f
  {
    if f.PropFilter? {
    } else {
      var range := if f.range.Some? then RangeKeys(RangeProps(f.name)) else [];
      var below := ChildKeys(f.children) + range;
      ChildKeysAreGiven(f.children);
      RangeKeysAreGiven(RangeProps(f.name));
      forall l <- Prefixed(C(f.name), below) ensures l != [] {
        var i :| 0 <= i < |below| && Prefixed(C(f.name), below)[i] == l;
        assert below[i] in below;
      }
    }
  }

  lemma {:induction false} ChildKeysAreGiven(fs: seq<Filter>)
    ensures forall l <- ChildKeys(fs) :: l != []
    decreases fs
  {
    if fs == [] {
    } else {
      KeysAreGiven(fs[0]);
      ChildKeysAreGiven(fs[1..]);
    }
  }

  lemma {:induction false} RangeKeysAreGiven(names: seq<string>)
    ensures forall l <- RangeKeys(names) :: l != []
  {
    if names == [] {
    } else {
      RangeKeysAreGiven(names[1..]);
    }
  }

  lemma SameIndexes(cal: Component, keys: set<Path>, kind: Kind)
    ensures Stores.IndexesOf(CalendarFiles(kind), cal, keys) == Indexed(keys, [Root(cal)])
  {
  }

  /** A recurring calendar and a range query that its index answers as its file does. */
  ghost predicate PlainRange(fs: seq<Filter>, cal: Component, m: Component, range: Range, children: seq<Filter>,
                             parse: RuleParser)
    requires GoodParser(parse)
  {
    && fs == RangeQuery(m.name, range, children) && IsRecurring(m) && Lone(cal, m) && Invariant(children, m)
    && Plain(m, RuleOf(m, parse), parse) && PlainSet(m, parse) && MeetsAlike(m, range, children, parse)
    && MIN_TIME <= range.start <= MAX_TIME
  }

  /** The calendars on which a query's index can be compared with the file. */
  ghost predicate Answerable(fs: seq<Filter>, cal: Component, parse: RuleParser)
    requires GoodParser(parse)
  {
    Settled(fs, cal) || exists m, range, children :: PlainRange(fs, cal, m, range, children, parse)
  }

  lemma AnswerableAgrees(fs: seq<Filter>, cal: Component, keys: set<Path>, parse: RuleParser)
    requires GoodParser(parse) && Components(fs) && Answerable(fs, cal, parse) && Covered(ChildKeys(fs), keys)
    ensures Sound(CheckFromIndexes(fs, Indexed(keys, [Root(cal)]), parse), Check(fs, cal, parse))
  {
    if Settled(fs, cal) {
      QueryAgrees(fs, cal, keys, parse);
    } else {
      var m, range, children :| PlainRange(fs, cal, m, range, children, parse);
      AgreeJustWhen(m, range, children, cal, keys, parse);
    }
  }

  /** A query is sound on every calendar it is answerable on, whatever keys the index has
      beyond those it needs. */
  lemma CalendarQueryIsSound(fs: seq<Filter>, cal: Component, parse: RuleParser, kind: Kind)
    requires GoodParser(parse) && Components(fs) && Answerable(fs, cal, parse)
    ensures Stores.SoundOn(CalendarFiles(kind), CalendarFilter(fs, parse), cal)
  {
    ChildKeysAreGiven(fs);
    forall keys: set<Path> | Stores.Served(ChildKeys(fs), keys)
      ensures Sound(CheckFromIndexes(fs, Stores.IndexesOf(CalendarFiles(kind), cal, keys), parse),
                    Check(fs, cal, parse))
    {
      SameIndexes(cal, keys, kind);
      AnswerableAgrees(fs, cal, keys, parse);
    }
  }

  /** In particular range queries are, on calendars in which one plain component recurs. */
  lemma RangeQueryIsSound(m: Component, range: Range, children: seq<Filter>, cal: Component, parse: RuleParser,
                          kind: Kind)
    requires GoodParser(parse) && Components(RangeQuery(m.name, range, children))
    requires PlainRange(RangeQuery(m.name, range, children), cal, m, range, children, parse)
    ensures Stores.SoundOn(CalendarFiles(kind), CalendarFilter(RangeQuery(m.name, range, children), parse), cal)
  {
    CalendarQueryIsSound(RangeQuery(m.name, range, children), cal, parse, kind);
  }

  type CalendarItem = Stores.Item<Component>

  /** A query lists the items of the type text/calendar that it holds of, and no others. */
  lemma QueryLists(items: seq<CalendarItem>, fs: seq<Filter>, parse: RuleParser, m: Stores.Match<Component>)
    requires GoodParser(parse) && Components(fs)
    ensures m in Stores.Naive(items, CalendarFilter(fs, parse)) <==> exists i ::
      0 <= i < |items| && items[i].contentType == "text/calendar" && Check(fs, items[i].file, parse) &&
      m == Stores.Match(items[i].name, items[i].file, items[i].etag)
  {
    Stores.NaiveIs(items, CalendarFilter(fs, parse), m);
  }

  /** A calendar query that is answerable on every calendar among the items. */
  ghost predicate AsksFor(filter: Stores.StoreFilter<Component>, fs: seq<Filter>, items: seq<CalendarItem>,
                          parse: RuleParser)
    requires GoodParser(parse)
  {
    && Components(fs) && filter == CalendarFilter(fs, parse)
    && forall i :: 0 <= i < |items| && items[i].contentType == filter.contentType ==>
         Answerable(fs, items[i].file, parse)
  }

  /** Every query of the run is answerable on every calendar then held, and normalising keeps
      the UIDs of what is imported. */
  ghost predicate RunAnswerable(t: Stores.FileType<Component>, unique: bool, c: Stores.Contents<Component>,
                                ops: seq<Stores.Op<Component>>, parse: RuleParser)
    requires GoodParser(parse)
    decreases |ops|
  {
    ops == [] ||
    ((ops[0].RunQuery? ==> exists fs :: AsksFor(ops[0].filter, fs, c.items, parse)) &&
     (ops[0].Import? ==> Stores.KeepsUid(t, ops[0].file)) &&
     RunAnswerable(t, unique, Stores.Step(t, unique, c, ops[0]).0, ops[1..], parse))
  }

  /** So over any such run, with any imports, deletes and handler loads in between, the store
      answers every calendar query from its index as the naive scan would. */
  lemma {:induction false} CalendarRunIsSound(kind: Kind, unique: bool, c: Stores.Contents<Component>,
                                              ops: seq<Stores.Op<Component>>, parse: RuleParser)
    requires GoodParser(parse) && RunAnswerable(CalendarFiles(kind), unique, c, ops, parse)
    ensures Stores.RunSound(CalendarFiles(kind), unique, c, ops)
    decreases |ops|
  {
    var t := CalendarFiles(kind);
    if ops == [] {
    } else {
      if ops[0].RunQuery? {
        var fs :| AsksFor(ops[0].filter, fs, c.items, parse);
        forall i | 0 <= i < |c.items| && c.items[i].contentType == ops[0].filter.contentType
          ensures Stores.SoundOn(t, ops[0].filter, c.items[i].file)
        {
          CalendarQueryIsSound(fs, c.items[i].file, parse, kind);
        }
      }
      CalendarRunIsSound(kind, unique, Stores.Step(t, unique, c, ops[0]).0, ops[1..], parse);
    }
  }
}
