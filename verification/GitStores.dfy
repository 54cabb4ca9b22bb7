/**
 The git store: snapshots of the collection as trees, their differences, and the UID
 bookkeeping (GitStore and BareGitStore in xandikos/store/git.py).
 */
module GitStores {
  import opened Wrappers
  import opened Seqs

  type Sha = string

  /** The entries of a tree: names and the ids of their blobs. */
  type Tree = map<string, Sha>

  /** What the store takes from its surroundings: the id of a tree, the order a tree lists
      its names in, which names hold metadata, the content type of a name; and of a blob
      read as a file of some name, its UID, whether it is valid, and the blob that is stored
      for it. */
  datatype Env = Env(
    treeId: Tree -> string,
    listing: Tree -> seq<string>,
    isMetadata: string -> bool,
    contentType: string -> string,
    uid: (string, Sha) -> Option<string>,
    valid: (string, Sha) -> bool,
    normal: (string, Sha) -> Sha)

  /** Tree ids are injective, a listing gives every name once, and normalising keeps the UID
      of what is valid. */
  ghost predicate GoodEnv(env: Env) {
    && (forall a: Tree, b: Tree :: env.treeId(a) == env.treeId(b) ==> a == b)
    && (forall t: Tree :: (forall n :: n in env.listing(t) <==> n in t) && Distinct(env.listing(t)))
    && (forall n, b :: env.valid(n, b) ==> env.uid(n, env.normal(n, b)) == env.uid(n, b))
  }

  ghost predicate Distinct(names: seq<string>) { forall i, j :: 0 <= i < j < |names| ==> names[i] != names[j] }

  function Lookup(t: Tree, name: string): Option<Sha> { if name in t then Some(t[name]) else None }

  /** The entries that are items of the collection. */
  function Visible(env: Env, t: Tree): Tree { map n <- t | !env.isMetadata(n) :: t[n] }

  /** `_iterblobs`: the visible names in listing order. */
  function Names(env: Env, names: seq<string>): seq<string> {
    if names == [] then []
    else (if env.isMetadata(names[0]) then [] else [names[0]]) + Names(env, names[1..])
  }

  lemma {:induction false} NamesAre(env: Env, names: seq<string>)
    requires Distinct(names)
    ensures Distinct(Names(env, names))
    ensures forall n :: n in Names(env, names) <==> n in names && !env.isMetadata(n)
  {
    if names == [] {
    } else {
      SplitMembers(names);
      assert forall i :: 0 <= i < |names[1..]| ==> names[1..][i] == names[i + 1];
      NamesAre(env, names[1..]);
      if !env.isMetadata(names[0]) {
        var rest := Names(env, names[1..]);
        assert names[0] !in rest by { assert names[0] !in names[1..]; }
        forall i, j | 0 <= i < j < 1 + |rest| ensures ([names[0]] + rest)[i] != ([names[0]] + rest)[j] {
          assert rest[j - 1] in rest;
        }
      }
    }
  }

  /** One entry of `iter_changes`. */
  datatype Change = Change(name: string, contentType: string, before: Option<Sha>, after: Option<Sha>)

  datatype Error = InvalidFileContents | InvalidCTag | DuplicateUid | InvalidETag | NoSuchItem

  // ----- differences between two trees

  /** The changes at the given names, in order. */
  function ChangesAt(env: Env, names: seq<string>, a: Tree, b: Tree): seq<Change> {
    if names == [] then []
    else
      var n := names[|names| - 1];
      ChangesAt(env, names[..|names| - 1], a, b) +
      if Lookup(a, n) != Lookup(b, n) then [Change(n, env.contentType(n), Lookup(a, n), Lookup(b, n))] else []
  }

  function Gone(names: seq<string>, b: Tree): seq<string> {
    if names == [] then []
    else Gone(names[..|names| - 1], b) + if names[|names| - 1] in b then [] else [names[|names| - 1]]
  }

  /** The difference of two trees: what is new or changed, then what is gone. */
  function Diff(env: Env, a: Tree, b: Tree): seq<Change> {
    var names := Names(env, env.listing(a));
    ChangesAt(env, Names(env, env.listing(b)), Visible(env, a), Visible(env, b)) +
    ChangesAt(env, Gone(names, Visible(env, b)), Visible(env, a), Visible(env, b))
  }

  ghost predicate IsChange(env: Env, a: Tree, b: Tree, c: Change) {
    && c.before == Lookup(a, c.name) && c.after == Lookup(b, c.name) && c.before != c.after
    && c.contentType == env.contentType(c.name)
  }

  ghost predicate NamedOnce(cs: seq<Change>) { forall i, j :: 0 <= i < j < |cs| ==> cs[i].name != cs[j].name }

  lemma {:induction false} ChangesAre(env: Env, names: seq<string>, a: Tree, b: Tree)
    requires Distinct(names)
    ensures NamedOnce(ChangesAt(env, names, a, b))
    ensures forall c :: c in ChangesAt(env, names, a, b) <==> c.name in names && IsChange(env, a, b, c)
  {
    if names == [] {
    } else {
      var n := |names| - 1;
      SplitLast(names);
      ChangesAre(env, names[..n], a, b);
      assert names[n] !in names[..n];
      var before := ChangesAt(env, names[..n], a, b);
      forall i | 0 <= i < |before| ensures before[i].name != names[n] { assert before[i] in before; }
    }
  }

  lemma {:induction false} GoneAre(names: seq<string>, b: Tree)
    requires Distinct(names)
    ensures Distinct(Gone(names, b)) && forall n :: n in Gone(names, b) <==> n in names && n !in b
  {
    if names == [] {
    } else {
      var k := |names| - 1;
      SplitLast(names);
      GoneAre(names[..k], b);
      var rest := Gone(names[..k], b);
      forall i | 0 <= i < |rest| ensures rest[i] != names[k] { assert rest[i] in rest && names[k] !in names[..k]; }
    }
  }

  /** The difference names every visible entry that differs, once, and nothing else. */
  lemma DiffIs(env: Env, a: Tree, b: Tree)
    requires GoodEnv(env)
    ensures NamedOnce(Diff(env, a, b))
    ensures forall c :: c in Diff(env, a, b) <==> IsChange(env, Visible(env, a), Visible(env, b), c)
  {
    var va, vb := Visible(env, a), Visible(env, b);
    var na, nb := Names(env, env.listing(a)), Names(env, env.listing(b));
    NamesAre(env, env.listing(a));
    NamesAre(env, env.listing(b));
    GoneAre(na, vb);
    ChangesAre(env, nb, va, vb);
    ChangesAre(env, Gone(na, vb), va, vb);
    var xs, ys := ChangesAt(env, nb, va, vb), ChangesAt(env, Gone(na, vb), va, vb);
    forall i, j | 0 <= i < |xs| && 0 <= j < |ys| ensures xs[i].name != ys[j].name {
      assert xs[i] in xs && ys[j] in ys;
    }
  }

  // ----- UIDs

  /** Name to (etag, uid), and uid to (name, etag). */
  datatype UidMaps = UidMaps(byName: map<string, (Sha, Option<string>)>, byUid: map<string, (string, Sha)>)

  /** The maps a full scan of the given names installs; the last name with a UID has it. */
  function FullScan(env: Env, names: seq<string>, t: Tree): UidMaps
    requires forall n <- names :: n in t
  {
    if names == [] then UidMaps(map[], map[])
    else
      SplitLast(names);
      var n := names[|names| - 1];
      var m := FullScan(env, names[..|names| - 1], t);
      var uid := env.uid(n, t[n]);
      UidMaps(m.byName[n := (t[n], uid)], if uid.Some? then m.byUid[uid.value := (n, t[n])] else m.byUid)
  }

  /** No two visible entries have the same UID. */
  ghost predicate UniqueUids(env: Env, t: Tree) {
    forall a, b :: a in t && b in t && a != b && !env.isMetadata(a) && !env.isMetadata(b) && env.uid(a, t[a]).Some? ==>
      env.uid(a, t[a]) != env.uid(b, t[b])
  }

  /** Some visible entry of another name has the UID. */
  predicate UidTaken(env: Env, t: Tree, name: string, uid: Option<string>) {
    uid.Some? && exists n <- t :: n != name && !env.isMetadata(n) && env.uid(n, t[n]) == uid
  }

  lemma {:induction false} ScanIs(env: Env, names: seq<string>, t: Tree)
    requires forall n <- names :: n in t
    ensures var m := FullScan(env, names, t);
      && (forall n :: n in m.byName <==> n in names)
      && (forall n <- names :: m.byName[n] == (t[n], env.uid(n, t[n])))
      && (forall u <- m.byUid :: m.byUid[u].0 in names && m.byUid[u].1 == t[m.byUid[u].0] &&
                                 env.uid(m.byUid[u].0, t[m.byUid[u].0]) == Some(u))
      && (forall n <- names :: env.uid(n, t[n]).Some? ==> env.uid(n, t[n]).value in m.byUid)
  {
    if names == [] {
    } else {
      SplitLast(names);
      ScanIs(env, names[..|names| - 1], t);
    }
  }

  lemma ScanStep(env: Env, names: seq<string>, i: nat, t: Tree)
    requires i < |names| && forall n <- names :: n in t
    ensures forall n <- names[..i + 1] :: n in t
    ensures var m, uid := FullScan(env, names[..i], t), env.uid(names[i], t[names[i]]);
      FullScan(env, names[..i + 1], t) ==
      UidMaps(m.byName[names[i] := (t[names[i]], uid)],
              if uid.Some? then m.byUid[uid.value := (names[i], t[names[i]])] else m.byUid)
  {
    assert names[..i + 1][..i] == names[..i];
  }

  /** Where UIDs are unique, the scanned map tells exactly whether another entry has one. */
  lemma ScanFindsTaken(env: Env, t: Tree, name: string, uid: string)
    requires GoodEnv(env) && UniqueUids(env, t)
    ensures var names := Names(env, env.listing(t));
      && (forall n <- names :: n in t)
      && var m := FullScan(env, names, t);
         UidTaken(env, t, name, Some(uid)) <==> uid in m.byUid && m.byUid[uid].0 != name
  {
    var names := Names(env, env.listing(t));
    NamesAre(env, env.listing(t));
    ScanIs(env, names, t);
  }

  // ----- the store

  /** Every tree is filed under its own id. */
  ghost predicate GoodObjects(env: Env, objects: map<string, Tree>) {
    forall id <- objects :: env.treeId(objects[id]) == id
  }

  /** What is remembered of a name is the UID of the blob it then had, which need not be
      the one it has now. */
  ghost predicate CacheTrue(env: Env, byName: map<string, (Sha, Option<string>)>) {
    forall n <- byName :: byName[n].1 == env.uid(n, byName[n].0)
  }

  lemma NamesOfTree(env: Env, t: Tree)
    requires GoodEnv(env)
    ensures Distinct(Names(env, env.listing(t)))
    ensures forall n :: n in Names(env, env.listing(t)) <==> n in Visible(env, t)
  {
    NamesAre(env, env.listing(t));
  }

  lemma ChangesStep(env: Env, names: seq<string>, i: nat, a: Tree, b: Tree)
    requires i < |names|
    ensures ChangesAt(env, names[..i + 1], a, b) == ChangesAt(env, names[..i], a, b) +
      (if Lookup(a, names[i]) != Lookup(b, names[i])
       then [Change(names[i], env.contentType(names[i]), Lookup(a, names[i]), Lookup(b, names[i]))] else [])
  {
    assert names[..i + 1][..i] == names[..i];
  }

  lemma ChangesAppend(env: Env, names: seq<string>, n: string, a: Tree, b: Tree)
    ensures ChangesAt(env, names + [n], a, b) == ChangesAt(env, names, a, b) +
      (if Lookup(a, n) != Lookup(b, n) then [Change(n, env.contentType(n), Lookup(a, n), Lookup(b, n))] else [])
  {
    assert (names + [n])[..|names|] == names;
  }

  lemma GoneStep(env: Env, names: seq<string>, i: nat, a: Tree, b: Tree)
    requires i < |names| && names[i] in a
    ensures ChangesAt(env, Gone(names[..i + 1], b), a, b) == ChangesAt(env, Gone(names[..i], b), a, b) +
      (if names[i] in b then []
       else [Change(names[i], env.contentType(names[i]), Some(a[names[i]]), None)])
  {
    assert names[..i + 1][..i] == names[..i];
    var gone := Gone(names[..i], b);
    if names[i] in b {
      assert Gone(names[..i + 1], b) == gone + [] == gone;
    } else {
      assert Gone(names[..i + 1], b) == gone + [names[i]];
      ChangesAppend(env, gone, names[i], a, b);
    }
  }

  /** The entries of `previous` once the names in `met` have been deleted. */
  function Previous(env: Env, va: Tree, met: seq<string>): map<string, (string, Sha)> {
    map n <- va | n !in met :: (env.contentType(n), va[n])
  }

  class GitStore {
    const env: Env
    const requireUniqueUids: bool
    var objects: map<string, Tree>
    /** The tree of the commit the ref points to; None while there is no commit. */
    var head: Option<Tree>
    var fnameToUid: map<string, (Sha, Option<string>)>
    var uidToFname: map<string, (string, Sha)>

    ghost predicate Valid()
      reads this
    {
      && GoodEnv(env) && GoodObjects(env, objects)
      && (head.Some? ==> env.treeId(head.value) in objects)
      && CacheTrue(env, fnameToUid)
      && (requireUniqueUids ==> UniqueUids(env, CurrentTree()))
    }

    constructor (env: Env, requireUniqueUids: bool)
      requires GoodEnv(env)
      ensures Valid() && head.None? && objects == map[]
      ensures this.env == env && this.requireUniqueUids == requireUniqueUids
    {
      this.env, this.requireUniqueUids := env, requireUniqueUids;
      objects, head, fnameToUid, uidToFname := map[], None, map[], map[];
    }

    /** `_get_current_tree`. */
    function CurrentTree(): Tree
      reads this
    {
      if head.Some? then head.value else map[]
    }

    function GetCtag(): string
      reads this
    {
      env.treeId(CurrentTree())
    }

    /** `iter_changes`: the difference of two stored trees.  The empty tree is stored first
        when the older side is not given. */
    method IterChanges(oldCtag: Option<string>, newCtag: string) returns (r: Result<seq<Change>, Error>)
      requires Valid()
      modifies this`objects
      ensures Valid()
      ensures var older := if oldCtag.Some? then oldCtag.value else env.treeId(map[]);
        && objects == (if oldCtag.Some? then old(objects) else old(objects)[env.treeId(map[]) := map[]])
        && r == if older in objects && newCtag in objects
                then Ok(Diff(env, objects[older], objects[newCtag])) else Err(InvalidCTag)
    {
      var older: string;
      if oldCtag.None? {
        var t: Tree := map[];
        objects := objects[env.treeId(t) := t];
        older := env.treeId(t);
      } else {
        older := oldCtag.value;
      }
      if older !in objects || newCtag !in objects { return Err(InvalidCTag); }
      var changes := CompareTrees(objects[older], objects[newCtag]);
      return Ok(changes);
    }

    /** The loops of `iter_changes`: entries met in the newer tree are deleted from
        `previous`; what is left there is gone. */
    method CompareTrees(a: Tree, b: Tree) returns (out: seq<Change>)
      requires GoodEnv(env)
      ensures out == Diff(env, a, b)
    {
      ghost var va, vb := Visible(env, a), Visible(env, b);
      var oldNames, newNames := Names(env, env.listing(a)), Names(env, env.listing(b));
      NamesOfTree(env, a);
      NamesOfTree(env, b);
      var previous := map n <- oldNames :: (env.contentType(n), a[n]);
      assert previous == Previous(env, va, []);
      previous, out := NewAndChanged(previous, newNames, b, va, vb);
      var gone := LeftOver(previous, oldNames, va, vb, newNames);
      out := out + gone;
    }

    /** The second loop. */
    method LeftOver(previous: map<string, (string, Sha)>, oldNames: seq<string>, ghost va: Tree, ghost vb: Tree,
                    ghost newNames: seq<string>) returns (out: seq<Change>)
      requires previous == Previous(env, va, newNames)
      requires (forall n :: n in newNames <==> n in vb) && (forall n <- oldNames :: n in va)
      ensures out == ChangesAt(env, Gone(oldNames, vb), va, vb)
    {
      out := [];
      for i := 0 to |oldNames|
        invariant out == ChangesAt(env, Gone(oldNames[..i], vb), va, vb)
      {
        var n := oldNames[i];
        assert n in oldNames;
        GoneStep(env, oldNames, i, va, vb);
        if n in previous {
          out := out + [Change(n, previous[n].0, Some(previous[n].1), None)];
        }
      }
      assert oldNames[..|oldNames|] == oldNames;
    }

    /** The first loop. */
    method NewAndChanged(older: map<string, (string, Sha)>, newNames: seq<string>, b: Tree, ghost va: Tree,
                         ghost vb: Tree)
        returns (previous: map<string, (string, Sha)>, out: seq<Change>)
      requires older == Previous(env, va, []) && Distinct(newNames)
      requires forall n <- newNames :: n in b && n in vb && b[n] == vb[n]
      ensures previous == Previous(env, va, newNames) && out == ChangesAt(env, newNames, va, vb)
    {
      previous, out := older, [];
      for i := 0 to |newNames|
        invariant out == ChangesAt(env, newNames[..i], va, vb)
        invariant previous == Previous(env, va, newNames[..i])
      {
        var n := newNames[i];
        ChangesStep(env, newNames, i, va, vb);
        assert n in newNames && newNames[..i + 1] == newNames[..i] + [n] && n !in newNames[..i];
        var oldEtag: Option<Sha> := None;
        if n in previous {
          var oldContentType := previous[n].0;
          oldEtag := Some(previous[n].1);
          assert oldContentType == env.contentType(n);
        }
        assert oldEtag == Lookup(va, n);
        if oldEtag != Some(b[n]) {
          out := out + [Change(n, env.contentType(n), oldEtag, Some(b[n]))];
        }
        if oldEtag.Some? {
          previous := previous - {n};
        }
        assert previous == Previous(env, va, newNames[..i] + [n]);
      }
      assert newNames[..|newNames|] == newNames;
    }

    /** `_scan_uids`: entries whose blob has not changed are taken from the cache, and the
        maps installed are those of a full scan all the same. */
    method ScanUids()
      requires Valid()
      modifies this`fnameToUid, this`uidToFname
      ensures Valid()
      ensures var names := Names(env, env.listing(CurrentTree()));
        && (forall n <- names :: n in CurrentTree())
        && UidMaps(fnameToUid, uidToFname) == FullScan(env, names, CurrentTree())
    {
      var existing := fnameToUid;
      var names := Names(env, env.listing(CurrentTree()));
      NamesOfTree(env, CurrentTree());
      assert forall n <- names :: n in Visible(env, CurrentTree());
      var m := ScanTree(existing, names, CurrentTree());
      ScanIs(env, names, CurrentTree());
      fnameToUid, uidToFname := m.byName, m.byUid;
    }

    /** The loop of `_scan_uids`. */
    method ScanTree(existing: map<string, (Sha, Option<string>)>, names: seq<string>, t: Tree) returns (m: UidMaps)
      requires CacheTrue(env, existing) && forall n <- names :: n in t
      ensures m == FullScan(env, names, t)
    {
      m := UidMaps(map[], map[]);
      for i := 0 to |names|
        invariant (forall n <- names[..i] :: n in t) && m == FullScan(env, names[..i], t)
      {
        var n := names[i];
        ScanStep(env, names, i, t);
        assert n in names;
        var uid := if n in existing && existing[n].0 == t[n] then existing[n].1 else env.uid(n, t[n]);
        assert uid == env.uid(n, t[n]);
        m := UidMaps(m.byName[n := (t[n], uid)], if uid.Some? then m.byUid[uid.value := (n, t[n])] else m.byUid);
      }
      assert names[..|names|] == names;
    }

    /** `_check_duplicate`. */
    method CheckDuplicate(uid: Option<string>, name: string, replaceEtag: Option<Sha>) returns (e: Option<Error>)
      requires Valid()
      modifies this`fnameToUid, this`uidToFname
      ensures Valid()
      ensures e == if requireUniqueUids && UidTaken(env, CurrentTree(), name, uid) then Some(DuplicateUid)
                   else if replaceEtag.Some? && Lookup(CurrentTree(), name) != replaceEtag then Some(InvalidETag)
                   else None
    {
      if uid.Some? && requireUniqueUids {
        ScanUids();
        ScanFindsTaken(env, CurrentTree(), name, uid.value);
        if uid.value in uidToFname && uidToFname[uid.value].0 != name { return Some(DuplicateUid); }
      }
      if replaceEtag.Some? && Lookup(CurrentTree(), name) != replaceEtag { return Some(InvalidETag); }
      return None;
    }

    /** `import_one` of some content: what is invalid, has a UID that is taken or comes with
        a wrong etag changes nothing, else the content is stored in its normal form. */
    method ImportOne(name: string, content: Sha, replaceEtag: Option<Sha>) returns (r: Result<Sha, Error>)
      requires Valid()
      modifies this
      ensures Valid()
      ensures var t := old(CurrentTree());
        var blob := env.normal(name, content);
        if !env.valid(name, content) then
          r == Err(InvalidFileContents) && head == old(head) && objects == old(objects)
        else if requireUniqueUids && UidTaken(env, t, name, env.uid(name, content)) then
          r == Err(DuplicateUid) && head == old(head) && objects == old(objects)
        else if replaceEtag.Some? && Lookup(t, name) != replaceEtag then
          r == Err(InvalidETag) && head == old(head) && objects == old(objects)
        else
          && r == Ok(blob) && CurrentTree() == t[name := blob] && head.Some?
          && objects == old(objects)[env.treeId(t[name := blob]) := t[name := blob]]
    {
      if !env.valid(name, content) { return Err(InvalidFileContents); }
      var uid := env.uid(name, content);
      var e := CheckDuplicate(uid, name, replaceEtag);
      if e.Some? { return Err(e.value); }
      var blob := env.normal(name, content);
      Store(name, blob);
      return Ok(blob);
    }

    /** `_import_one`. */
    method Store(name: string, blob: Sha)
      requires Valid() && (requireUniqueUids ==> !UidTaken(env, CurrentTree(), name, env.uid(name, blob)))
      modifies this`objects, this`head
      ensures Valid()
      ensures var tree := old(CurrentTree())[name := blob];
        head.Some? && CurrentTree() == tree && objects == old(objects)[env.treeId(tree) := tree]
    {
      var t := CurrentTree();
      var oldTreeId := env.treeId(t);
      var tree := t[name := blob];
      assert name in tree;
      if requireUniqueUids { ImportKeepsUnique(env, t, name, blob); }
      objects := objects[env.treeId(tree) := tree];
      if env.treeId(tree) != oldTreeId {
        head := Some(tree);
      }
    }

    /** `delete_one`. */
    method DeleteOne(name: string, etag: Option<Sha>) returns (r: Result<(), Error>)
      requires Valid()
      modifies this
      ensures Valid()
      ensures var t := old(CurrentTree());
        if name !in t then r == Err(NoSuchItem) && head == old(head) && objects == old(objects)
        else if etag.Some? && etag.value != t[name] then
          r == Err(InvalidETag) && head == old(head) && objects == old(objects)
        else
          && r == Ok(()) && head == Some(t - {name})
          && objects == old(objects)[env.treeId(t - {name}) := t - {name}]
    {
      var tree := CurrentTree();
      if name !in tree { return Err(NoSuchItem); }
      if etag.Some? && tree[name] != etag.value { return Err(InvalidETag); }
      tree := tree - {name};
      objects := objects[env.treeId(tree) := tree];
      head := Some(tree);
      return Ok(());
    }
  }

  /** An import that finds its UID free keeps UIDs unique. */
  lemma ImportKeepsUnique(env: Env, t: Tree, name: string, blob: Sha)
    requires UniqueUids(env, t) && !UidTaken(env, t, name, env.uid(name, blob))
    ensures UniqueUids(env, t[name := blob])
  {
  }
}
