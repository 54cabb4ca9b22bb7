/**
 The memory store and its queries (MemoryStore in xandikos/store/memory.py and
 `Store.iter_with_filter` in xandikos/store/__init__.py), for any kind of parsed file F.
 */
module Stores {
  import opened Wrappers
  import opened Seqs
  import opened Calendars
  import opened IndexRows
  import opened KeyManager

  /** A filter: what it needs of the index (None where it cannot say), its answer on a
      file, and its answer on a file's index. */
  datatype StoreFilter<!F> = StoreFilter(
    contentType: string,
    indexKeys: Option<seq<seq<Path>>>,
    check: F -> bool,
    checkFromIndexes: Indexes -> Answer)

  datatype Item<F> = Item(name: string, contentType: string, file: F, etag: Etag)

  datatype Match<F> = Match(name: string, file: F, etag: Etag)

  datatype StoreError = InvalidFileContents | DuplicateUid | InvalidETag | NoSuchItem

  /** What one kind of file gives: its index values, whether it validates, its UID, and the
      normal form that is stored for it. */
  datatype FileType<!F> = FileType(
    index: (F, Path) -> seq<IndexValue>,
    valid: F -> bool,
    uid: F -> Option<string>,
    normal: F -> F)

  /** Normalising a valid file keeps its UID. */
  predicate KeepsUid<F>(t: FileType<F>, file: F) { t.valid(file) ==> t.uid(t.normal(file)) == t.uid(file) }

  function IndexesOf<F>(t: FileType<F>, file: F, keys: set<Path>): Indexes { map k <- keys :: t.index(file, k) }

  /** The keys found for a filter: some key of each OR-list that has any. */
  ghost predicate Served(lists: seq<seq<Path>>, keys: set<Path>) {
    forall l <- lists :: l != [] ==> exists k <- l :: k in keys
  }

  /** On this file the filter's index answer is its file answer, or is put off to the file,
      whatever keys the index holds beyond those needed. */
  ghost predicate SoundOn<F>(t: FileType<F>, filter: StoreFilter<F>, file: F) {
    filter.indexKeys.Some? ==>
      forall keys: set<Path> :: Served(filter.indexKeys.value, keys) ==>
        var a := filter.checkFromIndexes(IndexesOf(t, file, keys));
        a == Undecided || a == Decide(filter.check(file))
  }

  // ----- the items, in insertion order

  predicate HasItem<F>(items: seq<Item<F>>, name: string) { exists i | 0 <= i < |items| :: items[i].name == name }

  function IndexOf<F>(items: seq<Item<F>>, name: string): (i: nat)
    requires HasItem(items, name)
    ensures i < |items| && items[i].name == name
  {
    if items[0].name == name then 0
    else
      assert HasItem(items[1..], name) by {
        var i :| 0 <= i < |items| && items[i].name == name;
        assert items[1..][i - 1] == items[i];
      }
      1 + IndexOf(items[1..], name)
  }

  /** `items[name] = ...` on a dict: an existing key keeps its place. */
  function Put<F>(items: seq<Item<F>>, item: Item<F>): seq<Item<F>> {
    if HasItem(items, item.name) then items[IndexOf(items, item.name) := item] else items + [item]
  }

  function Without<F>(items: seq<Item<F>>, name: string): seq<Item<F>>
    requires HasItem(items, name)
  {
    var i := IndexOf(items, name);
    items[..i] + items[i + 1..]
  }

  ghost predicate DistinctNames<F>(items: seq<Item<F>>) {
    forall i, j :: 0 <= i < j < |items| ==> items[i].name != items[j].name
  }

  /** The naive scan: every item of the filter's content type whose file it holds for. */
  function Naive<F>(items: seq<Item<F>>, filter: StoreFilter<F>): seq<Match<F>> {
    if items == [] then []
    else
      var last := items[|items| - 1];
      Naive(items[..|items| - 1], filter) +
      if filter.contentType == last.contentType && filter.check(last.file)
      then [Match(last.name, last.file, last.etag)] else []
  }

  lemma {:induction false} NaiveIs<F>(items: seq<Item<F>>, filter: StoreFilter<F>, m: Match<F>)
    ensures m in Naive(items, filter) <==> exists i ::
      0 <= i < |items| && items[i].contentType == filter.contentType && filter.check(items[i].file) &&
      m == Match(items[i].name, items[i].file, items[i].etag)
  {
    if items == [] {
    } else {
      NaiveIs(items[..|items| - 1], filter, m);
    }
  }

  // ----- the store without an index, as a function

  datatype Contents<F> = Contents(items: seq<Item<F>>, counter: nat)

  /** The items of the filter's content type are all among the etags. */
  ghost predicate Looked<F>(items: seq<Item<F>>, filter: StoreFilter<F>, etags: set<Etag>) {
    forall i :: 0 <= i < |items| && items[i].contentType == filter.contentType ==> items[i].etag in etags
  }

  lemma NaiveNext<F>(items: seq<Item<F>>, i: nat, filter: StoreFilter<F>)
    requires i < |items|
    ensures Naive(items[..i + 1], filter) == Naive(items[..i], filter) +
      if items[i].contentType == filter.contentType && filter.check(items[i].file)
      then [Match(items[i].name, items[i].file, items[i].etag)] else []
    ensures forall e: set<Etag> ::
      Looked(items[..i], filter, e) && (items[i].contentType != filter.contentType || items[i].etag in e) ==>
      Looked(items[..i + 1], filter, e)
  {
    assert items[..i + 1][..i] == items[..i];
  }

  predicate HasUid<F>(t: FileType<F>, item: Item<F>, uid: string) { t.uid(item.file) == Some(uid) }

  /** Some item of another name carries the file's UID. */
  predicate UidTaken<F>(t: FileType<F>, items: seq<Item<F>>, name: string, file: F) {
    t.uid(file).Some? && exists i | 0 <= i < |items| :: items[i].name != name && HasUid(t, items[i], t.uid(file).value)
  }

  function EtagOf<F>(items: seq<Item<F>>, name: string): Option<Etag> {
    if HasItem(items, name) then Some(items[IndexOf(items, name)].etag) else None
  }

  /** `import_one`: an invalid file, a taken UID or a wrong etag changes nothing; else the
      file is stored in its normal form. */
  function Imported<F>(t: FileType<F>, unique: bool, c: Contents<F>, name: string, contentType: string, file: F,
                       replaceEtag: Option<Etag>): (Contents<F>, Result<Etag, StoreError>) {
    if !t.valid(file) then (c, Err(InvalidFileContents))
    else if unique && UidTaken(t, c.items, name, file) then (c, Err(DuplicateUid))
    else if replaceEtag.Some? && EtagOf(c.items, name) != replaceEtag then (c, Err(InvalidETag))
    else
      var etag := c.counter + 1;
      (Contents(Put(c.items, Item(name, contentType, t.normal(file), etag)), etag), Ok(etag))
  }

  /** `delete_one`. */
  function Deleted<F>(c: Contents<F>, name: string, etag: Option<Etag>): (Contents<F>, Result<(), StoreError>) {
    if !HasItem(c.items, name) then (c, Err(NoSuchItem))
    else if etag.Some? && EtagOf(c.items, name) != etag then (c, Err(InvalidETag))
    else (Contents(Without(c.items, name), c.counter), Ok(()))
  }

  ghost predicate UniqueUids<F>(t: FileType<F>, items: seq<Item<F>>) {
    forall i, j :: 0 <= i < j < |items| && t.uid(items[i].file).Some? ==> t.uid(items[i].file) != t.uid(items[j].file)
  }

  /** Names stay distinct, and so do UIDs where the store asks for it. */
  lemma ImportKeeps<F>(t: FileType<F>, unique: bool, c: Contents<F>, name: string, contentType: string, file: F,
                       replaceEtag: Option<Etag>)
    requires KeepsUid(t, file) && DistinctNames(c.items) && (unique ==> UniqueUids(t, c.items))
    ensures var (d, _) := Imported(t, unique, c, name, contentType, file, replaceEtag);
      DistinctNames(d.items) && (unique ==> UniqueUids(t, d.items))
  {
    var (d, r) := Imported(t, unique, c, name, contentType, file, replaceEtag);
    if r.Ok? && unique {
      forall i, j | 0 <= i < j < |d.items| && t.uid(d.items[i].file).Some?
        ensures t.uid(d.items[i].file) != t.uid(d.items[j].file)
      {
        var u := t.uid(d.items[i].file).value;
        assert HasUid(t, d.items[i], u) && (HasUid(t, d.items[j], u) <==> t.uid(d.items[j].file) == Some(u));
        assert d.items[i].name == name ==> d.items[i].file == t.normal(file);
        assert d.items[j].name == name ==> d.items[j].file == t.normal(file);
        assert d.items[i].name != name ==> i < |c.items| && d.items[i] == c.items[i];
        assert d.items[j].name != name ==> j < |c.items| && d.items[j] == c.items[j];
      }
    }
  }

  lemma DeleteKeeps<F>(t: FileType<F>, c: Contents<F>, name: string, etag: Option<Etag>)
    requires DistinctNames(c.items)
    ensures var (d, r) := Deleted(c, name, etag);
      && DistinctNames(d.items) && (UniqueUids(t, c.items) ==> UniqueUids(t, d.items))
      && (r.Ok? ==> !HasItem(d.items, name))
  {
    var (d, r) := Deleted(c, name, etag);
    if r.Ok? {
      var k := IndexOf(c.items, name);
      assert forall i :: 0 <= i < |d.items| ==> d.items[i] == c.items[if i < k then i else i + 1];
    }
  }

  // ----- the conditional writes in plain terms

  /** No item of that name has the etag. */
  ghost predicate Stale<F>(items: seq<Item<F>>, name: string, etag: Etag) {
    forall i :: 0 <= i < |items| && items[i].name == name ==> items[i].etag != etag
  }

  /** The items of other names are the same. */
  ghost predicate OthersStay<F>(was: seq<Item<F>>, now: seq<Item<F>>, name: string) {
    && (forall i :: 0 <= i < |was| && was[i].name != name ==> exists j :: 0 <= j < |now| && now[j] == was[i])
    && (forall j :: 0 <= j < |now| && now[j].name != name ==> exists i :: 0 <= i < |was| && was[i] == now[j])
  }

  /** What importing does: a file that does not validate, a UID that an item of another name
      has, or an etag that the item does not have (or no item at all where there is to be
      one) refuse it, in this order, and change nothing; else the item is what was given, in
      its normal form, under an etag no item has had. */
  ghost predicate Written<F>(t: FileType<F>, unique: bool, was: Contents<F>, now: Contents<F>, name: string,
                             contentType: string, file: F, replaceEtag: Option<Etag>, r: Result<Etag, StoreError>) {
    if !t.valid(file) then r == Err(InvalidFileContents) && now == was
    else if unique && t.uid(file).Some? && SharesUid(t, was.items, name, file) then r == Err(DuplicateUid) && now == was
    else if replaceEtag.Some? && Stale(was.items, name, replaceEtag.value) then r == Err(InvalidETag) && now == was
    else
      && r == Ok(was.counter + 1) && now.counter == was.counter + 1
      && OthersStay(was.items, now.items, name)
      && HoldsOnly(now.items, Item(name, contentType, t.normal(file), was.counter + 1))
  }

  /** An item of another name has the same UID. */
  ghost predicate SharesUid<F>(t: FileType<F>, items: seq<Item<F>>, name: string, file: F) {
    exists i :: 0 <= i < |items| && items[i].name != name && t.uid(items[i].file) == t.uid(file)
  }

  /** There is an item of that name, and it is the one given. */
  ghost predicate HoldsOnly<F>(items: seq<Item<F>>, item: Item<F>) {
    && (exists i :: 0 <= i < |items| && items[i].name == item.name)
    && (forall i :: 0 <= i < |items| && items[i].name == item.name ==> items[i] == item)
  }

  /** And deleting: an item that is not there, or does not have the etag, changes nothing;
      else the item is gone and the others are not. */
  ghost predicate Gone<F>(was: Contents<F>, now: Contents<F>, name: string, etag: Option<Etag>,
                          r: Result<(), StoreError>) {
    if forall i :: 0 <= i < |was.items| ==> was.items[i].name != name then r == Err(NoSuchItem) && now == was
    else if etag.Some? && Stale(was.items, name, etag.value) then r == Err(InvalidETag) && now == was
    else
      && r == Ok(()) && now.counter == was.counter && OthersStay(was.items, now.items, name)
      && forall i :: 0 <= i < |now.items| ==> now.items[i].name != name
  }

  lemma EtagIsStale<F>(items: seq<Item<F>>, name: string, etag: Etag)
    requires DistinctNames(items)
    ensures EtagOf(items, name) != Some(etag) <==> Stale(items, name, etag)
  {
    if HasItem(items, name) { assert items[IndexOf(items, name)].name == name; }
  }

  lemma PutIsWritten<F>(items: seq<Item<F>>, item: Item<F>)
    requires DistinctNames(items)
    ensures OthersStay(items, Put(items, item), item.name)
    ensures HoldsOnly(Put(items, item), item)
  {
    var now := Put(items, item);
    PutIs(items, item);
    var k := if HasItem(items, item.name) then IndexOf(items, item.name) else |items|;
    assert now[k] == item;
    forall i | 0 <= i < |items| && items[i].name != item.name ensures exists j :: 0 <= j < |now| && now[j] == items[i] {
      assert now[i] == items[i];
    }
  }

  lemma ImportedIsWritten<F>(t: FileType<F>, unique: bool, c: Contents<F>, name: string, contentType: string, file: F,
                             replaceEtag: Option<Etag>)
    requires DistinctNames(c.items)
    ensures var (d, r) := Imported(t, unique, c, name, contentType, file, replaceEtag);
      Written(t, unique, c, d, name, contentType, file, replaceEtag, r)
  {
    TakenIsShared(t, c.items, name, file);
    if replaceEtag.Some? { EtagIsStale(c.items, name, replaceEtag.value); }
    var refused := !t.valid(file) || (unique && UidTaken(t, c.items, name, file)) ||
      (replaceEtag.Some? && EtagOf(c.items, name) != replaceEtag);
    if !refused {
      var item := Item(name, contentType, t.normal(file), c.counter + 1);
      PutIsWritten(c.items, item);
      assert Imported(t, unique, c, name, contentType, file, replaceEtag) ==
        (Contents(Put(c.items, item), c.counter + 1), Ok(c.counter + 1));
    }
  }

  lemma TakenIsShared<F>(t: FileType<F>, items: seq<Item<F>>, name: string, file: F)
    ensures UidTaken(t, items, name, file) <==> t.uid(file).Some? && SharesUid(t, items, name, file)
  {
    if t.uid(file).Some? {
      assert forall i :: 0 <= i < |items| ==>
        (HasUid(t, items[i], t.uid(file).value) <==> t.uid(items[i].file) == t.uid(file));
    }
  }

  lemma DeletedIsGone<F>(t: FileType<F>, c: Contents<F>, name: string, etag: Option<Etag>)
    requires DistinctNames(c.items)
    ensures var (d, r) := Deleted(c, name, etag); Gone(c, d, name, etag, r)
  {
    if etag.Some? { EtagIsStale(c.items, name, etag.value); }
    DeleteKeeps(t, c, name, etag);
    if HasItem(c.items, name) { WithoutStays(c.items, name); }
  }

  lemma WithoutStays<F>(items: seq<Item<F>>, name: string)
    requires DistinctNames(items) && HasItem(items, name)
    ensures OthersStay(items, Without(items, name), name)
  {
    var now := Without(items, name);
    forall i | 0 <= i < |items| && items[i].name != name ensures exists j :: 0 <= j < |now| && now[j] == items[i] {
      var j := StaysAt(items, name, i);
    }
    forall j | 0 <= j < |now| ensures exists i :: 0 <= i < |items| && items[i] == now[j] {
      var i := CameFrom(items, name, j);
    }
  }

  // ----- runs

  datatype Op<!F> =
    | Import(name: string, contentType: string, file: F, replaceEtag: Option<Etag>)
    | Delete(name: string, etag: Option<Etag>)
    | RunQuery(filter: StoreFilter<F>)
    | LoadHandler(keys: set<Path>)

  datatype Reply<F> =
    | ImportReply(imported: Result<Etag, StoreError>)
    | DeleteReply(deleted: Result<(), StoreError>)
    | QueryReply(matches: seq<Match<F>>)
    | LoadReply
    | AssertionError

  /** One operation on a store that has no index: queries are naive scans. */
  function Step<F>(t: FileType<F>, unique: bool, c: Contents<F>, op: Op<F>): (Contents<F>, Reply<F>) {
    match op
    case Import(name, contentType, file, replaceEtag) =>
      var (d, r) := Imported(t, unique, c, name, contentType, file, replaceEtag);
      (d, ImportReply(r))
    case Delete(name, etag) => var (d, r) := Deleted(c, name, etag); (d, DeleteReply(r))
    case RunQuery(filter) => (c, QueryReply(Naive(c.items, filter)))
    case LoadHandler(_) => (c, LoadReply)
  }

  function Replies<F>(t: FileType<F>, unique: bool, c: Contents<F>, ops: seq<Op<F>>): seq<Reply<F>>
    decreases |ops|
  {
    if ops == [] then []
    else var (d, r) := Step(t, unique, c, ops[0]); [r] + Replies(t, unique, d, ops[1..])
  }

  /** What the store holds after the operations. */
  function Final<F>(t: FileType<F>, unique: bool, c: Contents<F>, ops: seq<Op<F>>): Contents<F>
    decreases |ops|
  {
    if ops == [] then c else Final(t, unique, Step(t, unique, c, ops[0]).0, ops[1..])
  }

  /** Over any run no two items share a name, nor a UID where the store asks for it. */
  lemma {:induction false} RunKeepsUids<F>(t: FileType<F>, unique: bool, c: Contents<F>, ops: seq<Op<F>>)
    requires DistinctNames(c.items) && (unique ==> UniqueUids(t, c.items))
    requires forall i :: 0 <= i < |ops| && ops[i].Import? ==> KeepsUid(t, ops[i].file)
    ensures var d := Final(t, unique, c, ops); DistinctNames(d.items) && (unique ==> UniqueUids(t, d.items))
    decreases |ops|
  {
    if ops == [] {
    } else {
      match ops[0] {
        case Import(name, contentType, file, replaceEtag) =>
          ImportKeeps(t, unique, c, name, contentType, file, replaceEtag);
        case Delete(name, etag) => DeleteKeeps(t, c, name, etag);
        case _ =>
      }
      RunKeepsUids(t, unique, Step(t, unique, c, ops[0]).0, ops[1..]);
    }
  }

  ghost predicate QuerySound<F>(t: FileType<F>, items: seq<Item<F>>, filter: StoreFilter<F>) {
    forall i :: 0 <= i < |items| && items[i].contentType == filter.contentType ==> SoundOn(t, filter, items[i].file)
  }

  /** Every query of the run is sound on what the store then holds, and normalising keeps the
      UIDs of what is imported. */
  ghost predicate RunSound<F>(t: FileType<F>, unique: bool, c: Contents<F>, ops: seq<Op<F>>)
    decreases |ops|
  {
    ops == [] ||
    ((ops[0].RunQuery? ==> QuerySound(t, c.items, ops[0].filter)) &&
     (ops[0].Import? ==> KeepsUid(t, ops[0].file)) &&
     RunSound(t, unique, Step(t, unique, c, ops[0]).0, ops[1..]))
  }

  // ----- what the operations do to the keys of the index

  /** What an operation asks of the key manager. */
  function EventsOf<F>(op: Op<F>): seq<Event> {
    match op
    case RunQuery(filter) => if filter.indexKeys.Some? then [Query(filter.indexKeys.value)] else []
    case LoadHandler(keys) => [Load(keys)]
    case _ => []
  }

  function AllEvents<F>(ops: seq<Op<F>>): seq<Event> {
    if ops == [] then [] else EventsOf(ops[0]) + AllEvents(ops[1..])
  }

  function StatusAfter<F>(s: State, op: Op<F>, threshold: int): State {
    if EventsOf(op) == [] then s else Next(s, EventsOf(op)[0], threshold)
  }

  lemma EventsFirst<F>(s: State, ops: seq<Op<F>>, threshold: int)
    requires ops != []
    ensures After(s, AllEvents(ops), threshold) ==
      After(StatusAfter(s, ops[0], threshold), AllEvents(ops[1..]), threshold)
  {
    var first, rest := EventsOf(ops[0]), AllEvents(ops[1..]);
    if first == [] {
      assert first + rest == rest;
    } else {
      assert first == [first[0]];
      AfterFirst(s, first[0], rest, threshold);
    }
  }

  // ----- the store

  /** The index holds, for every etag it knows, what the file of that etag gives. */
  ghost predicate IndexTrue<F>(t: FileType<F>, known: map<Etag, F>, index: MemoryIndex)
    reads index
  {
    && index.inIndex <= known.Keys
    && forall k <- index.indexes, e <- index.inIndex ::
         e in index.indexes[k] && index.indexes[k][e] == t.index(known[e], k)
  }

  // ----- the UID maps

  type UidMap = map<string, (string, Etag)>
  type NameMap = map<string, (Etag, Option<string>)>

  /** The UID maps are exactly those of the items. */
  ghost predicate UidsTrue<F>(t: FileType<F>, items: seq<Item<F>>, uidToName: UidMap, nameToUid: NameMap) {
    && (forall i :: 0 <= i < |items| ==> Named(t, items[i], nameToUid) && Filed(t, items[i], uidToName))
    && (forall n <- nameToUid :: HasItem(items, n))
    && (forall u <- uidToName :: exists i | 0 <= i < |items| :: HasUid(t, items[i], u))
  }

  ghost predicate Named<F>(t: FileType<F>, item: Item<F>, nameToUid: NameMap) {
    item.name in nameToUid && nameToUid[item.name] == (item.etag, t.uid(item.file))
  }

  ghost predicate Filed<F>(t: FileType<F>, item: Item<F>, uidToName: UidMap) {
    t.uid(item.file).Some? ==>
      t.uid(item.file).value in uidToName && uidToName[t.uid(item.file).value] == (item.name, item.etag)
  }

  /** Asking the map whether another item has the UID is asking the items. */
  lemma UidMapIsScan<F>(t: FileType<F>, items: seq<Item<F>>, uidToName: UidMap, nameToUid: NameMap, name: string,
                        file: F)
    requires UidsTrue(t, items, uidToName, nameToUid) && t.uid(file).Some?
    ensures UidTaken(t, items, name, file) <==>
      t.uid(file).value in uidToName && uidToName[t.uid(file).value].0 != name
  {
    var u := t.uid(file).value;
    if u in uidToName {
      var i :| 0 <= i < |items| && HasUid(t, items[i], u);
      assert Filed(t, items[i], uidToName);
    }
    if i :| 0 <= i < |items| && items[i].name != name && HasUid(t, items[i], u) {
      assert Filed(t, items[i], uidToName);
    }
  }

  /** The maps once the item called `name` is taken out of them. */
  function UidsWithout(uidToName: UidMap, nameToUid: NameMap, name: string): UidMap {
    if name in nameToUid && nameToUid[name].1.Some? then uidToName - {nameToUid[name].1.value} else uidToName
  }

  /** No item but the one called `name` has its UID. */
  lemma OthersKeepUid<F>(t: FileType<F>, items: seq<Item<F>>, uidToName: UidMap, nameToUid: NameMap, name: string,
                         i: nat)
    requires DistinctNames(items) && UidsTrue(t, items, uidToName, nameToUid)
    requires i < |items| && items[i].name != name
    ensures Filed(t, items[i], UidsWithout(uidToName, nameToUid, name))
  {
    assert Filed(t, items[i], uidToName);
    if name in nameToUid {
      assert HasItem(items, name);
      var j :| 0 <= j < |items| && items[j].name == name;
      assert Named(t, items[j], nameToUid) && Filed(t, items[j], uidToName);
    }
  }

  lemma UidsAfterImport<F>(t: FileType<F>, items: seq<Item<F>>, uidToName: UidMap, nameToUid: NameMap, item: Item<F>)
    requires DistinctNames(items) && UidsTrue(t, items, uidToName, nameToUid)
    requires !UidTaken(t, items, item.name, item.file)
    ensures var uids := UidsWithout(uidToName, nameToUid, item.name);
      UidsTrue(t, Put(items, item),
               if t.uid(item.file).Some? then uids[t.uid(item.file).value := (item.name, item.etag)] else uids,
               nameToUid[item.name := (item.etag, t.uid(item.file))])
  {
    var now := Put(items, item);
    var uids := UidsWithout(uidToName, nameToUid, item.name);
    var uidToName' := if t.uid(item.file).Some? then uids[t.uid(item.file).value := (item.name, item.etag)] else uids;
    var nameToUid' := nameToUid[item.name := (item.etag, t.uid(item.file))];
    forall i | 0 <= i < |now| ensures Named(t, now[i], nameToUid') && Filed(t, now[i], uidToName') {
      if now[i].name != item.name {
        assert i < |items| && now[i] == items[i];
        assert Named(t, items[i], nameToUid);
        OthersKeepUid(t, items, uidToName, nameToUid, item.name, i);
        assert t.uid(item.file).Some? ==> !HasUid(t, items[i], t.uid(item.file).value);
      } else {
        assert now[i] == item;
      }
    }
    forall n <- nameToUid' ensures HasItem(now, n) { PutHas(items, item, n); }
    forall u <- uidToName' ensures exists i | 0 <= i < |now| :: HasUid(t, now[i], u) {
      UidStillThere(t, items, uidToName, nameToUid, item, u);
    }
  }

  lemma PutIs<F>(items: seq<Item<F>>, item: Item<F>)
    requires DistinctNames(items)
    ensures DistinctNames(Put(items, item))
    ensures forall i :: 0 <= i < |Put(items, item)| ==>
      Put(items, item)[i] == item || (i < |items| && Put(items, item)[i] == items[i])
  {
  }

  lemma PutHas<F>(items: seq<Item<F>>, item: Item<F>, n: string)
    ensures HasItem(items, n) || n == item.name ==> HasItem(Put(items, item), n)
  {
    var now := Put(items, item);
    var k := if HasItem(items, item.name) then IndexOf(items, item.name) else |items|;
    assert now[k] == item;
    if i :| 0 <= i < |items| && items[i].name == n {
      assert now[i].name == n;
    }
  }

  lemma UidStillThere<F>(t: FileType<F>, items: seq<Item<F>>, uidToName: UidMap, nameToUid: NameMap, item: Item<F>,
                         u: string)
    requires DistinctNames(items) && UidsTrue(t, items, uidToName, nameToUid)
    requires u in UidsWithout(uidToName, nameToUid, item.name) || t.uid(item.file) == Some(u)
    ensures exists i | 0 <= i < |Put(items, item)| :: HasUid(t, Put(items, item)[i], u)
  {
    var now := Put(items, item);
    var k := if HasItem(items, item.name) then IndexOf(items, item.name) else |items|;
    assert now[k] == item;
    if t.uid(item.file) == Some(u) {
      assert HasUid(t, now[k], u);
    } else {
      var i :| 0 <= i < |items| && HasUid(t, items[i], u);
      assert Named(t, items[i], nameToUid);
      assert items[i].name != item.name;
      assert HasUid(t, now[i], u);
    }
  }

  /** The item at place `j` once the item at place `k` is gone. */
  lemma StaysAt<F>(items: seq<Item<F>>, name: string, j: nat) returns (i: nat)
    requires DistinctNames(items) && HasItem(items, name) && j < |items| && items[j].name != name
    ensures i < |Without(items, name)| && Without(items, name)[i] == items[j]
  {
    i := if j < IndexOf(items, name) then j else j - 1;
  }

  lemma CameFrom<F>(items: seq<Item<F>>, name: string, i: nat) returns (j: nat)
    requires DistinctNames(items) && HasItem(items, name) && i < |Without(items, name)|
    ensures j < |items| && Without(items, name)[i] == items[j] && items[j].name != name
  {
    j := if i < IndexOf(items, name) then i else i + 1;
  }

  lemma UidsAfterDelete<F>(t: FileType<F>, items: seq<Item<F>>, uidToName: UidMap, nameToUid: NameMap, name: string)
    requires DistinctNames(items) && UidsTrue(t, items, uidToName, nameToUid) && HasItem(items, name)
    ensures UidsTrue(t, Without(items, name), UidsWithout(uidToName, nameToUid, name), nameToUid - {name})
  {
    var now, uids := Without(items, name), UidsWithout(uidToName, nameToUid, name);
    forall i | 0 <= i < |now| ensures Named(t, now[i], nameToUid - {name}) && Filed(t, now[i], uids) {
      var j := CameFrom(items, name, i);
      assert Named(t, items[j], nameToUid);
      OthersKeepUid(t, items, uidToName, nameToUid, name, j);
    }
    forall n <- nameToUid - {name} ensures HasItem(now, n) {
      var j :| 0 <= j < |items| && items[j].name == n;
      var i := StaysAt(items, name, j);
    }
    forall u <- uids ensures exists i | 0 <= i < |now| :: HasUid(t, now[i], u) {
      UidLeft(t, items, uidToName, nameToUid, name, u);
    }
  }

  lemma UidOfOther<F>(t: FileType<F>, items: seq<Item<F>>, uidToName: UidMap, nameToUid: NameMap, name: string,
                      u: string) returns (j: nat)
    requires UidsTrue(t, items, uidToName, nameToUid) && u in UidsWithout(uidToName, nameToUid, name)
    ensures j < |items| && HasUid(t, items[j], u) && items[j].name != name
  {
    j :| 0 <= j < |items| && HasUid(t, items[j], u);
    assert Named(t, items[j], nameToUid);
  }

  lemma UidLeft<F>(t: FileType<F>, items: seq<Item<F>>, uidToName: UidMap, nameToUid: NameMap, name: string, u: string)
    requires DistinctNames(items) && UidsTrue(t, items, uidToName, nameToUid) && HasItem(items, name)
    requires u in UidsWithout(uidToName, nameToUid, name)
    ensures exists i | 0 <= i < |Without(items, name)| :: HasUid(t, Without(items, name)[i], u)
  {
    var j := UidOfOther(t, items, uidToName, nameToUid, name, u);
    var i := StaysAt(items, name, j);
    assert HasUid(t, Without(items, name)[i], u);
  }

  lemma {:induction false} NeededServe(lists: seq<seq<Path>>, available: set<Path>)
    ensures forall k <- NeededKeys(lists, available) :: k in available
    ensures MissingKeys(lists, available) == [] ==> Served(lists, set k <- NeededKeys(lists, available))
  {
    if lists == [] {
    } else {
      var n := |lists| - 1;
      SplitLast(lists);
      NeededServe(lists[..n], available);
      var needed := NeededKeys(lists, available);
      forall l <- lists | MissingKeys(lists, available) == [] && l != [] ensures exists k <- l :: k in set x <- needed {
        if l == lists[n] {
          var k :| k in l && k in available;
          assert k in OfSet(l, available);
          assert k in needed;
        } else {
          var k :| k in l && k in set x <- NeededKeys(lists[..n], available);
          assert k in needed;
        }
      }
    }
  }

  class MemoryStore<F> {
    const types: FileType<F>
    const requireUniqueUids: bool
    const doubleCheckIndexes: bool
    const index: MemoryIndex
    const manager: AutoIndexManager
    var items: seq<Item<F>>
    var counter: nat
    var uidToName: map<string, (string, Etag)>
    var nameToUid: map<string, (Etag, Option<string>)>
    /** Every etag ever given out, with the file it was given for. */
    ghost var known: map<Etag, F>

    ghost predicate Valid()
      reads this, index
    {
      && manager.index == index
      && DistinctNames(items)
      && (forall e <- known :: e <= counter)
      && (forall i :: 0 <= i < |items| ==> items[i].etag in known && known[items[i].etag] == items[i].file)
      && IndexTrue(types, known, index)
      && (requireUniqueUids ==> UidsTrue(types, items, uidToName, nameToUid))
    }

    constructor (types: FileType<F>, requireUniqueUids: bool, doubleCheckIndexes: bool, threshold: int)
      ensures Valid() && fresh(index) && fresh(manager) && items == [] && counter == 0
      ensures this.types == types && this.requireUniqueUids == requireUniqueUids
    {
      var ix := new MemoryIndex();
      index := ix;
      manager := new AutoIndexManager(ix, threshold);
      this.types, this.requireUniqueUids, this.doubleCheckIndexes := types, requireUniqueUids, doubleCheckIndexes;
      items, counter, uidToName, nameToUid, known := [], 0, map[], map[], map[];
    }

    function State(): Contents<F>
      reads this
    {
      Contents(items, counter)
    }

    /** `_index_file`. */
    method IndexFile(etag: Etag, file: F)
      requires Valid() && etag in known && known[etag] == file
      modifies index
      ensures Valid() && index.indexes.Keys == old(index.indexes.Keys)
      ensures index.inIndex == if index.indexes == map[] then old(index.inIndex) else old(index.inIndex) + {etag}
    {
      var keys := index.AvailableKeys();
      if keys == {} { return; }
      index.AddValues(etag, IndexesOf(types, file, keys));
    }

    /** `_iter_with_filter_naive`. */
    method IterWithFilterNaive(filter: StoreFilter<F>) returns (out: seq<Match<F>>)
      ensures out == Naive(items, filter)
    {
      out := [];
      for i := 0 to |items|
        invariant out == Naive(items[..i], filter)
      {
        assert items[..i + 1][..i] == items[..i];
        var item := items[i];
        if filter.contentType != item.contentType { continue; }
        if filter.check(item.file) {
          out := out + [Match(item.name, item.file, item.etag)];
        }
      }
      assert items[..|items|] == items;
    }

    /** The values of the needed keys for one item: looked up, or computed for every
        available key and kept where the index lacks them.  None stands for AssertionError. */
    method ValuesFor(item: Item<F>, keys: seq<Path>) returns (r: Option<Indexes>, ghost used: set<Path>)
      requires IndexTrue(types, known, index) && item.etag in known && known[item.etag] == item.file
      requires forall k <- keys :: k in index.indexes
      modifies index
      ensures IndexTrue(types, known, index) && index.indexes.Keys == old(index.indexes.Keys)
      ensures index.inIndex == old(index.inIndex) + {item.etag}
      ensures r == Some(IndexesOf(types, item.file, used)) && (set k <- keys) <= used
    {
      used := set k <- keys;
      var lookup := index.GetValues(item.etag, keys);
      match lookup {
        case Unavailable => return None, used;
        case NotIndexed =>
          used := index.AvailableKeys();
          var values := IndexesOf(types, item.file, index.AvailableKeys());
          index.AddValues(item.etag, values);
          return Some(values), used;
        case Found(values) =>
          assert forall k <- keys :: index.ValueOf(k, item.etag) == types.index(item.file, k);
          assert values == IndexesOf(types, item.file, used);
          if doubleCheckIndexes && values != IndexesOf(types, item.file, set k <- keys) { return None, used; }
          return Some(values), used;
      }
    }

    /** One turn of the loop of `_iter_with_filter_indexes`: the index answers for the item,
        or its file does where the index does not decide. */
    method Holds(filter: StoreFilter<F>, item: Item<F>, keys: seq<Path>) returns (r: Option<bool>)
      requires IndexTrue(types, known, index) && item.etag in known && known[item.etag] == item.file
      requires filter.indexKeys.Some? && Served(filter.indexKeys.value, set k <- keys)
      requires (forall k <- keys :: k in index.indexes) && SoundOn(types, filter, item.file)
      modifies index
      ensures IndexTrue(types, known, index) && index.indexes.Keys == old(index.indexes.Keys)
      ensures index.inIndex == old(index.inIndex) + {item.etag}
      ensures r == Some(filter.check(item.file))
    {
      var values, used := ValuesFor(item, keys);
      if values.None? { return None; }
      assert Served(filter.indexKeys.value, used);
      var a := filter.checkFromIndexes(values.value);
      if doubleCheckIndexes && a != Undecided && a != Decide(filter.check(item.file)) { return None; }
      return Some(a == Yes || (a == Undecided && filter.check(item.file)));
    }

    /** `_iter_with_filter_indexes`; None stands for any of its assertions failing.  What was
        looked at is in the index afterwards. */
    method IterWithFilterIndexes(filter: StoreFilter<F>, keys: seq<Path>) returns (r: Option<seq<Match<F>>>)
      requires Valid() && filter.indexKeys.Some?
      requires (forall k <- keys :: k in index.indexes) && Served(filter.indexKeys.value, set k <- keys)
      requires QuerySound(types, items, filter)
      modifies index
      ensures Valid() && r == Some(Naive(items, filter)) && index.indexes.Keys == old(index.indexes.Keys)
      ensures Looked(items, filter, index.inIndex)
    {
      var out: seq<Match<F>> := [];
      for i := 0 to |items|
        invariant IndexTrue(types, known, index) && index.indexes.Keys == old(index.indexes.Keys)
        invariant out == Naive(items[..i], filter) && Looked(items[..i], filter, index.inIndex)
      {
        NaiveNext(items, i, filter);
        if filter.contentType != items[i].contentType { continue; }
        var holds := Holds(filter, items[i], keys);
        if holds.None? { return None; }
        if holds.value {
          out := out + [Match(items[i].name, items[i].file, items[i].etag)];
        }
      }
      assert items[..|items|] == items;
      return Some(out);
    }

    /** `iter_with_filter`: with or without the index, the answer is the naive scan's. */
    method IterWithFilter(filter: StoreFilter<F>) returns (r: Option<seq<Match<F>>>)
      requires Valid() && QuerySound(types, items, filter)
      modifies index, manager
      ensures Valid() && r == Some(Naive(items, filter))
      ensures old(index.indexes.Keys) <= index.indexes.Keys
      ensures manager.Status() == StatusAfter(old(manager.Status()), RunQuery(filter), manager.threshold)
    {
      if filter.indexKeys.Some? {
        var presentKeys := manager.FindPresentKeys(filter.indexKeys.value);
        if presentKeys.Some? {
          NeededServe(filter.indexKeys.value, index.AvailableKeys());
          r := IterWithFilterIndexes(filter, presentKeys.value);
          return;
        }
      }
      var out := IterWithFilterNaive(filter);
      return Some(out);
    }

    /** `load_extra_file_handler`: its default keys become available. */
    method LoadExtraFileHandler(defaultIndexKeys: set<Path>)
      requires Valid()
      modifies index
      ensures Valid() && index.indexes.Keys == old(index.indexes.Keys) + defaultIndexKeys
      ensures manager.Status() == Next(old(manager.Status()), Load(defaultIndexKeys), manager.threshold)
    {
      index.Extend(defaultIndexKeys);
    }

    /** `_check_duplicate`. */
    method CheckDuplicate(name: string, file: F, replaceEtag: Option<Etag>) returns (e: Option<StoreError>)
      requires Valid()
      ensures e == if requireUniqueUids && UidTaken(types, items, name, file) then Some(DuplicateUid)
                   else if replaceEtag.Some? && EtagOf(items, name) != replaceEtag then Some(InvalidETag)
                   else None
    {
      var uid := types.uid(file);
      if uid.Some? && requireUniqueUids {
        UidMapIsScan(types, items, uidToName, nameToUid, name, file);
        if uid.value in uidToName && uidToName[uid.value].0 != name { return Some(DuplicateUid); }
      }
      if replaceEtag.Some? && EtagOf(items, name) != replaceEtag { return Some(InvalidETag); }
      return None;
    }

    /** `import_one`: the store without an index would do the same.  Normalising changes the
        parsed file, so it is the normal form that is indexed. */
    method ImportOne(name: string, contentType: string, file: F, replaceEtag: Option<Etag>)
        returns (r: Result<Etag, StoreError>)
      requires Valid() && KeepsUid(types, file)
      modifies this, index
      ensures Valid()
      ensures (State(), r) == Imported(types, requireUniqueUids, old(State()), name, contentType, file, replaceEtag)
      ensures Written(types, requireUniqueUids, old(State()), State(), name, contentType, file, replaceEtag, r)
      ensures index.indexes.Keys == old(index.indexes.Keys)
    {
      ImportedIsWritten(types, requireUniqueUids, State(), name, contentType, file, replaceEtag);
      if !types.valid(file) { return Err(InvalidFileContents); }
      var e := CheckDuplicate(name, file, replaceEtag);
      if e.Some? { return Err(e.value); }
      ghost var before := State();
      var etag := StoreItem(name, contentType, types.normal(file));
      assert Imported(types, requireUniqueUids, before, name, contentType, file, replaceEtag) == (State(), Ok(etag));
      IndexFile(etag, types.normal(file));
      return Ok(etag);
    }

    /** The part of `import_one` that changes the items and the UID maps. */
    method StoreItem(name: string, contentType: string, file: F) returns (etag: Etag)
      requires Valid() && (requireUniqueUids ==> !UidTaken(types, items, name, file))
      modifies this
      ensures Valid() && etag == counter == old(counter) + 1
      ensures items == Put(old(items), Item(name, contentType, file, etag))
      ensures etag in known && known[etag] == file
    {
      counter := counter + 1;
      etag := counter;
      var item := Item(name, contentType, file, etag);
      PutIs(items, item);
      if requireUniqueUids {
        UidsAfterImport(types, items, uidToName, nameToUid, item);
      }
      known := known[etag := file];
      items := Put(items, item);
      ForgetUid(name);
      nameToUid := nameToUid[name := (etag, types.uid(file))];
      if types.uid(file).Some? {
        uidToName := uidToName[types.uid(file).value := (name, etag)];
      }
    }

    /** The UID of the item that is replaced or deleted is taken out of the map. */
    method ForgetUid(name: string)
      modifies this`uidToName
      ensures uidToName == UidsWithout(old(uidToName), nameToUid, name)
    {
      if name in nameToUid {
        var oldUid := nameToUid[name].1;
        if oldUid.Some? && oldUid.value in uidToName {
          uidToName := uidToName - {oldUid.value};
        }
      }
    }

    method RemoveItem(name: string)
      requires Valid() && HasItem(items, name)
      modifies this
      ensures Valid() && State() == Contents(Without(old(items), name), old(counter))
    {
      DeleteKeeps(types, State(), name, None);
      if requireUniqueUids {
        UidsAfterDelete(types, items, uidToName, nameToUid, name);
      }
      ForgetUid(name);
      nameToUid := nameToUid - {name};
      items := Without(items, name);
    }

    /** `delete_one`. */
    method DeleteOne(name: string, etag: Option<Etag>) returns (r: Result<(), StoreError>)
      requires Valid()
      modifies this
      ensures Valid() && (State(), r) == Deleted(old(State()), name, etag)
      ensures Gone(old(State()), State(), name, etag, r)
    {
      DeletedIsGone(types, State(), name, etag);
      if !HasItem(items, name) { return Err(NoSuchItem); }
      if etag.Some? && EtagOf(items, name) != etag { return Err(InvalidETag); }
      RemoveItem(name);
      return Ok(());
    }

    /** Over any run of imports, deletes, queries and handler loads the store with its index
        answers as the store without one, and none of its assertions fails; and the key
        manager goes through the events of the run. */
    method Run(ops: seq<Op<F>>) returns (replies: seq<Reply<F>>)
      requires Valid() && RunSound(types, requireUniqueUids, State(), ops)
      modifies this, index, manager
      ensures Valid() && replies == Replies(types, requireUniqueUids, old(State()), ops)
      ensures manager.Status() == After(old(manager.Status()), AllEvents(ops), manager.threshold)
      decreases |ops|
    {
      if ops == [] { return []; }
      EventsFirst(manager.Status(), ops, manager.threshold);
      var reply := RunOne(ops[0]);
      var rest := Run(ops[1..]);
      replies := [reply] + rest;
    }

    /** One operation. */
    method RunOne(op: Op<F>) returns (reply: Reply<F>)
      requires Valid() && (op.RunQuery? ==> QuerySound(types, items, op.filter))
      requires op.Import? ==> KeepsUid(types, op.file)
      modifies this, index, manager
      ensures Valid() && (State(), reply) == Step(types, requireUniqueUids, old(State()), op)
      ensures manager.Status() == StatusAfter(old(manager.Status()), op, manager.threshold)
    {
      match op {
        case Import(name, contentType, file, replaceEtag) =>
          var r := ImportOne(name, contentType, file, replaceEtag);
          reply := ImportReply(r);
        case Delete(name, etag) =>
          var r := DeleteOne(name, etag);
          reply := DeleteReply(r);
        case RunQuery(filter) =>
          var r := IterWithFilter(filter);
          reply := if r.Some? then QueryReply(r.value) else AssertionError;
        case LoadHandler(keys) =>
          LoadExtraFileHandler(keys);
          reply := LoadReply;
      }
    }
  }
}
