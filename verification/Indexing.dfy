/**
 Computing the values of an index key for a calendar (`ICalendarFile._get_index` and
 `File.get_indexes` in xandikos/icalendar.py and xandikos/store/__init__.py).
 */
module Indexing {
  import opened Wrappers
  import opened Seqs
  import opened Calendars
  import opened IndexRows

  /** The components of `cs` called `name`, in order. */
  function OfName(cs: seq<Component>, name: string): (r: seq<Component>)
    ensures forall c :: c in r <==> c in cs && c.name == name
  {
    if cs == [] then []
    else
      SplitMembers(cs);
      (if cs[0].name == name then [cs[0]] else []) + OfName(cs[1..], name)
  }

  /** The subcomponents of all of `cs`, in order. */
  function AllSubs(cs: seq<Component>): seq<Component> {
    if cs == [] then [] else cs[0].subs + AllSubs(cs[1..])
  }

  function Named(cs: seq<Component>, name: string): seq<Component> { OfName(AllSubs(cs), name) }

  /** The values of property `name` over `cs`, in order. */
  function PropertyValues(cs: seq<Component>, name: string): seq<IndexValue> {
    if cs == [] then []
    else (if name in cs[0].props then [Ical(cs[0].props[name])] else []) + PropertyValues(cs[1..], name)
  }

  function Presents(n: nat): seq<IndexValue> { seq(n, _ => Present) }

  /** The values found along `path` below the components `cs`. */
  function Values(cs: seq<Component>, path: Path): seq<IndexValue>
    decreases path
  {
    if path == [] then Presents(|cs|)
    else if path[0].C? then Values(Named(cs, path[0].name), path[1..])
    else if |path| == 1 then PropertyValues(cs, path[0].name)
    else []
  }

  /** A calendar as the one subcomponent of a nameless root, so that keys start at the root. */
  function Root(calendar: Component): Component { Component("", map[], [calendar]) }

  /** The index of a calendar for a set of keys. */
  function Indexed(keys: set<Path>, cs: seq<Component>): Indexes { map k <- keys :: Values(cs, k) }

  lemma {:induction false} OfNameConcat(a: seq<Component>, b: seq<Component>, name: string)
    ensures OfName(a + b, name) == OfName(a, name) + OfName(b, name)
  {
    if a == [] {
      assert a + b == b;
    } else {
      assert (a + b)[1..] == a[1..] + b;
      OfNameConcat(a[1..], b, name);
    }
  }

  lemma {:induction false} AllSubsConcat(a: seq<Component>, b: seq<Component>)
    ensures AllSubs(a + b) == AllSubs(a) + AllSubs(b)
  {
    if a == [] {
      assert a + b == b;
    } else {
      assert (a + b)[1..] == a[1..] + b;
      AllSubsConcat(a[1..], b);
    }
  }

  lemma NamedConcat(a: seq<Component>, b: seq<Component>, name: string)
    ensures Named(a + b, name) == Named(a, name) + Named(b, name)
  {
    AllSubsConcat(a, b);
    OfNameConcat(AllSubs(a), AllSubs(b), name);
  }

  // ----- the worklist

  /** Keys as filters write them: not empty, and a property can only come last. */
  ghost predicate WellFormedKey(key: Path) { key != [] && forall i :: 0 <= i < |key| - 1 ==> key[i].C? }

  /** A component and the segments it is still to be matched against. */
  datatype Item = Item(c: Component, segments: Path)

  function Items(cs: seq<Component>, segments: Path): (r: seq<Item>)
    ensures |r| == |cs| && forall i :: 0 <= i < |cs| ==> r[i] == Item(cs[i], segments)
  {
    seq(|cs|, i requires 0 <= i < |cs| => Item(cs[i], segments))
  }

  /** The number of components in a forest. */
  ghost function Size(cs: seq<Component>): nat {
    if cs == [] then 0 else 1 + Size(cs[0].subs) + Size(cs[1..])
  }

  lemma {:induction false} SizeConcat(a: seq<Component>, b: seq<Component>)
    ensures Size(a + b) == Size(a) + Size(b)
  {
    if a == [] {
      assert a + b == b;
    } else {
      assert (a + b)[1..] == a[1..] + b;
      SizeConcat(a[1..], b);
    }
  }

  /** What `segments` yields for components whose names are still to be compared. */
  ghost function Unfiltered(cs: seq<Component>, segments: Path): seq<IndexValue> {
    if segments == [] || !segments[0].C? then [] else Values(OfName(cs, segments[0].name), segments[1..])
  }

  predicate Descends(segments: Path) { |segments| > 1 && segments[1].C? }

  /** The worklist in the middle of a level: `now` is still to be matched against `segments`,
      `next` against its tail, and `rest` has been found. */
  ghost predicate Searching(target: seq<IndexValue>, segments: Path, now: seq<Component>, next: seq<Component>,
                            rest: seq<Component>)
  {
    if segments != [] && segments[0].C? then
      if Descends(segments) then
        rest == [] && target == Unfiltered(next + AllSubs(OfName(now, segments[0].name)), segments[1..])
      else next == [] && target == Values(rest + OfName(now, segments[0].name), segments[1..])
    else rest == [] && next == [] && target == []
  }

  lemma {:induction false} NoValues(path: Path)
    ensures Values([], path) == []
  {
    if path == [] || path[0].P? {
    } else {
      NoValues(path[1..]);
    }
  }

  /** The next level begins when the current one is used up. */
  lemma NextLevel(target: seq<IndexValue>, segments: Path, next: seq<Component>, rest: seq<Component>)
    requires Searching(target, segments, [], next, rest) && next != []
    ensures segments != [] && Searching(target, segments[1..], next, [], rest)
  {
    var tail := segments[1..];
    assert next + AllSubs(OfName([], segments[0].name)) == next;
    if Descends(tail) {
      assert [] + AllSubs(OfName(next, tail[0].name)) == AllSubs(OfName(next, tail[0].name));
    } else {
      assert [] + OfName(next, tail[0].name) == OfName(next, tail[0].name);
    }
  }

  /** One component is taken off the worklist. */
  lemma TakeOne(target: seq<IndexValue>, segments: Path, now: seq<Component>, next: seq<Component>,
                rest: seq<Component>)
    requires now != [] && Searching(target, segments, now, next, rest)
    ensures var c := now[0];
      var hit := segments != [] && segments[0] == C(c.name);
      Searching(target, segments, now[1..],
                if hit && Descends(segments) then next + c.subs else next,
                if hit && !Descends(segments) then rest + [c] else rest)
  {
    var c := now[0];
    if segments != [] && segments[0] == C(c.name) {
      var more := OfName(now[1..], c.name);
      assert OfName(now, c.name) == [c] + more;
      if Descends(segments) {
        AllSubsConcat([c], more);
        assert AllSubs([c]) == c.subs;
        assert next + (c.subs + AllSubs(more)) == next + c.subs + AllSubs(more);
      } else {
        assert rest + ([c] + more) == rest + [c] + more;
      }
    } else if segments != [] && segments[0].C? {
      assert [] + OfName(now[1..], segments[0].name) == OfName(now[1..], segments[0].name);
    }
  }

  function Tail(segments: Path): Path { if segments == [] then [] else segments[1..] }

  lemma Begin(calendar: Component, key: Path)
    requires WellFormedKey(key)
    ensures Searching(Values([Root(calendar)], key), key, [calendar], [], [])
  {
    assert AllSubs([Root(calendar)]) == [calendar];
    assert key[0].P? ==> |key| == 1 && PropertyValues([Root(calendar)], key[0].name) == [];
    var hits := OfName([calendar], key[0].name);
    assert [] + hits == hits && [] + AllSubs(hits) == AllSubs(hits);
  }

  lemma Finish(target: seq<IndexValue>, segments: Path, found: seq<Component>)
    requires Searching(target, segments, [], [], found)
    ensures target == Values(found, Tail(segments)) && Values([], Tail(segments)) == []
    ensures found != [] && Tail(segments) != [] ==> Tail(segments)[0].P?
  {
    NoValues(Tail(segments));
    if segments != [] && segments[0].C? {
      assert found + OfName([], segments[0].name) == found;
      assert [] + AllSubs(OfName([], segments[0].name)) == [];
      if Descends(segments) { NoValues(segments[1..][1..]); }
    }
  }

  lemma {:induction false} PropertyValuesConcat(a: seq<Component>, b: seq<Component>, name: string)
    ensures PropertyValues(a + b, name) == PropertyValues(a, name) + PropertyValues(b, name)
  {
    if a == [] {
      assert a + b == b;
    } else {
      assert (a + b)[1..] == a[1..] + b;
      PropertyValuesConcat(a[1..], b, name);
      var first := if name in a[0].props then [Ical(a[0].props[name])] else [];
      var p, q := PropertyValues(a[1..], name), PropertyValues(b, name);
      assert first + (p + q) == first + p + q;
    }
  }

  lemma ValuesStep(found: seq<Component>, i: nat, path: Path)
    requires i < |found| && |path| <= 1 && (path != [] ==> path[0].P?)
    ensures Values(found[..i + 1], path) == Values(found[..i], path) +
      (if path == [] then [Present]
       else if path[0].name in found[i].props then [Ical(found[i].props[path[0].name])]
       else [])
  {
    assert found[..i + 1] == found[..i] + [found[i]];
    if path != [] { PropertyValuesConcat(found[..i], [found[i]], path[0].name); }
  }

  /** `_get_index`: breadth-first search for the components on the key's path, then their
      values, in document order. */
  method GetIndex(calendar: Component, key: Path) returns (values: seq<IndexValue>)
    requires WellFormedKey(key)
    ensures values == Values([Root(calendar)], key)
  {
    var rest, found, tail := Search(calendar, key);
    values := [];
    for i := 0 to |rest|
      invariant |found| == |rest|
      invariant values == Values(found[..i], tail)
    {
      var c, path := rest[i].c, rest[i].segments;
      ValuesStep(found, i, path);
      if path == [] {
        values := values + [Present];
      } else if path[0].P? {
        if path[0].name in c.props {
          values := values + [Ical(c.props[path[0].name])];
        }
      }
    }
    assert found[..|found|] == found;
  }

  /** The state of the worklist loop in terms of levels. */
  ghost predicate Worklist(target: seq<IndexValue>, todo: seq<Item>, rest: seq<Item>, l: Level) {
    && todo == Items(l.now, l.segments) + Items(l.next, Tail(l.segments))
    && rest == Items(l.found, Tail(l.segments))
    && Searching(target, l.segments, l.now, l.next, l.found)
    && forall i :: 0 <= i < |l.segments| - 1 ==> l.segments[i].C?
  }

  datatype Level = Level(segments: Path, now: seq<Component>, next: seq<Component>, found: seq<Component>)

  /** The level whose turn it is. */
  ghost function Current(l: Level): Level {
    if l.now == [] && l.segments != [] then Level(l.segments[1..], l.next, [], l.found) else l
  }

  ghost function Popped(l: Level): Level
    requires l.now != []
  {
    var c := l.now[0];
    var hit := l.segments != [] && l.segments[0] == C(c.name);
    Level(l.segments, l.now[1..], if hit && Descends(l.segments) then l.next + c.subs else l.next,
          if hit && !Descends(l.segments) then l.found + [c] else l.found)
  }

  ghost function LevelSize(l: Level): nat { Size(l.now) + Size(l.next) }

  lemma CurrentLevel(target: seq<IndexValue>, todo: seq<Item>, rest: seq<Item>, l: Level)
    requires todo != [] && Worklist(target, todo, rest, l)
    ensures Worklist(target, todo, rest, Current(l)) && Current(l).now != [] && LevelSize(Current(l)) == LevelSize(l)
    ensures todo[0] == Item(Current(l).now[0], Current(l).segments)
  {
    if l.now == [] {
      NextLevel(target, l.segments, l.next, l.found);
      assert l.found == [];
    }
  }

  lemma PoppedLevel(target: seq<IndexValue>, todo: seq<Item>, rest: seq<Item>, l: Level)
    requires l.now != [] && Worklist(target, todo, rest, l)
    ensures var c := l.now[0];
      var hit := l.segments != [] && l.segments[0] == C(c.name);
      Worklist(target,
           if hit && Descends(l.segments) then todo[1..] + Items(c.subs, l.segments[1..]) else todo[1..],
           if hit && !Descends(l.segments) then rest + [Item(c, l.segments[1..])] else rest,
           Popped(l))
  {
    var c, tail := l.now[0], Tail(l.segments);
    TakeOne(target, l.segments, l.now, l.next, l.found);
    TodoTail(todo, l.now, l.segments, l.next, tail);
    if l.segments != [] && l.segments[0] == C(c.name) {
      if Descends(l.segments) {
        TodoMore(Items(l.now[1..], l.segments), l.next, c.subs, tail);
      } else {
        ItemsConcat(l.found, [c], tail);
        assert Items([c], tail) == [Item(c, tail)];
      }
    }
  }

  lemma TodoTail(todo: seq<Item>, now: seq<Component>, segments: Path, next: seq<Component>, tail: Path)
    requires now != [] && todo == Items(now, segments) + Items(next, tail)
    ensures todo[1..] == Items(now[1..], segments) + Items(next, tail)
  {
    assert Items(now, segments)[1..] == Items(now[1..], segments);
  }

  lemma TodoMore(others: seq<Item>, next: seq<Component>, subs: seq<Component>, tail: Path)
    ensures others + Items(next, tail) + Items(subs, tail) == others + Items(next + subs, tail)
  {
    ItemsConcat(next, subs, tail);
  }

  lemma ItemsConcat(a: seq<Component>, b: seq<Component>, segments: Path)
    ensures Items(a + b, segments) == Items(a, segments) + Items(b, segments)
  {
  }

  lemma PoppedIsSmaller(l: Level)
    requires l.now != []
    ensures LevelSize(Popped(l)) < LevelSize(l)
  {
    SizeConcat(l.next, l.now[0].subs);
  }

  /** The worklist loop: the components found, all with the same segments left. */
  method Search(calendar: Component, key: Path) returns (rest: seq<Item>, ghost found: seq<Component>, ghost tail: Path)
    requires WellFormedKey(key)
    ensures rest == Items(found, tail)
    ensures Values([Root(calendar)], key) == Values(found, tail) && Values([], tail) == []
    ensures found != [] ==> |tail| <= 1 && (tail != [] ==> tail[0].P?)
  {
    var todo: seq<Item> := [Item(calendar, key)];
    rest := [];
    ghost var target, l := Values([Root(calendar)], key), Level(key, [calendar], [], []);
    Begin(calendar, key);
    while todo != []
      invariant Worklist(target, todo, rest, l)
      decreases LevelSize(l)
    {
      CurrentLevel(target, todo, rest, l);
      l := Current(l);
      PoppedLevel(target, todo, rest, l);
      PoppedIsSmaller(l);
      l := Popped(l);
      var c, path := todo[0].c, todo[0].segments;
      todo := todo[1..];
      if path != [] && path[0].C? && c.name == path[0].name {
        if |path| > 1 && path[1].C? {
          todo := todo + Items(c.subs, path[1..]);
        } else {
          rest := rest + [Item(c, path[1..])];
        }
      }
    }
    found, tail := l.found, Tail(l.segments);
    Finish(target, l.segments, found);
  }
}
