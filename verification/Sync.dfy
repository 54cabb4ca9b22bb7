/**
 The sync-collection report as a protocol between the server and its clients
 (SyncCollectionReporter.report in xandikos/sync.py and `iter_differences_since` in
 xandikos/web.py; section 3 of RFC 6578).  A report reads the new token first and
 computes the differences later; anything may happen in between.
 */
module Sync {
  import opened Wrappers
  import opened Seqs
  import opened GitStores

  /** A response of the report: 404 for a member that is gone, else its new getetag where
      that differs from the old one. */
  datatype Status = NotFound(name: string) | PropStat(name: string, etag: Option<Sha>)

  function StatusOf(c: Change): Status {
    if c.after.None? then NotFound(c.name)
    else PropStat(c.name, if c.before.None? || c.before != c.after then c.after else None)
  }

  function Statuses(cs: seq<Change>): seq<Status> {
    if cs == [] then [] else Statuses(cs[..|cs| - 1]) + [StatusOf(cs[|cs| - 1])]
  }

  /** The loop of the report, for a request that asks for getetag. */
  method ReportStatuses(changes: seq<Change>) returns (out: seq<Status>)
    ensures out == Statuses(changes)
  {
    out := [];
    for i := 0 to |changes|
      invariant out == Statuses(changes[..i])
    {
      var c := changes[i];
      assert changes[..i + 1][..i] == changes[..i];
      if c.after.None? {
        out := out + [NotFound(c.name)];
      } else {
        var propstat: Option<Sha> := None;
        if c.before.None? {
          propstat := c.after;
        } else if c.before != c.after {
          propstat := c.after;
        }
        out := out + [PropStat(c.name, propstat)];
      }
    }
    assert changes[..|changes|] == changes;
  }

  /** What a client does with one response. */
  function Replay(mirror: Tree, s: Status): Tree {
    match s
    case NotFound(name) => mirror - {name}
    case PropStat(name, etag) => if etag.Some? then mirror[name := etag.value] else mirror
  }

  function ReplayAll(mirror: Tree, ss: seq<Status>): Tree {
    if ss == [] then mirror else Replay(ReplayAll(mirror, ss[..|ss| - 1]), ss[|ss| - 1])
  }

  lemma ReplayLast(mirror: Tree, cs: seq<Change>, c: Change)
    ensures ReplayAll(mirror, Statuses(cs + [c])) == Replay(ReplayAll(mirror, Statuses(cs)), StatusOf(c))
  {
    assert (cs + [c])[..|cs|] == cs;
    StatusesLength(cs);
    assert (Statuses(cs) + [StatusOf(c)])[..|cs|] == Statuses(cs);
  }

  lemma ReplayOne(mirror: Tree, c: Change)
    requires c.before != c.after
    ensures Lookup(Replay(mirror, StatusOf(c)), c.name) == c.after
    ensures forall n :: n != c.name ==> Lookup(Replay(mirror, StatusOf(c)), n) == Lookup(mirror, n)
  {
  }

  /** What the last change of a name leaves there. */
  function LastAfter(cs: seq<Change>, n: string): Option<Option<Sha>> {
    if cs == [] then None
    else if cs[|cs| - 1].name == n then Some(cs[|cs| - 1].after)
    else LastAfter(cs[..|cs| - 1], n)
  }

  /** Replaying moves the names that change, and only them. */
  lemma {:induction false} ReplayMoves(mirror: Tree, cs: seq<Change>, n: string)
    requires forall i :: 0 <= i < |cs| ==> cs[i].before != cs[i].after
    ensures Lookup(ReplayAll(mirror, Statuses(cs)), n) ==
      if LastAfter(cs, n).Some? then LastAfter(cs, n).value else Lookup(mirror, n)
  {
    if cs == [] {
    } else {
      var k := |cs| - 1;
      ReplayMoves(mirror, cs[..k], n);
      assert cs == cs[..k] + [cs[k]];
      ReplayLast(mirror, cs[..k], cs[k]);
      ReplayOne(ReplayAll(mirror, Statuses(cs[..k])), cs[k]);
    }
  }

  lemma {:induction false} LastAfterIs(cs: seq<Change>, n: string)
    ensures LastAfter(cs, n).None? ==> forall c <- cs :: c.name != n
    ensures LastAfter(cs, n).Some? ==> exists c <- cs :: c.name == n && Some(c.after) == LastAfter(cs, n)
  {
    if cs == [] {
    } else {
      SplitLast(cs);
      LastAfterIs(cs[..|cs| - 1], n);
    }
  }

  lemma {:induction false} StatusesLength(cs: seq<Change>)
    ensures |Statuses(cs)| == |cs|
  {
    if cs == [] {
    } else {
      StatusesLength(cs[..|cs| - 1]);
    }
  }

  lemma ReportMovesName(env: Env, a: Tree, b: Tree, n: string)
    requires GoodEnv(env)
    ensures Lookup(ReplayAll(Visible(env, a), Statuses(Diff(env, a, b))), n) == Lookup(Visible(env, b), n)
  {
    var va, vb, cs := Visible(env, a), Visible(env, b), Diff(env, a, b);
    DiffIs(env, a, b);
    forall i | 0 <= i < |cs| ensures cs[i].before != cs[i].after { assert cs[i] in cs; }
    ReplayMoves(va, cs, n);
    LastAfterIs(cs, n);
    var c := Change(n, env.contentType(n), Lookup(va, n), Lookup(vb, n));
    assert Lookup(va, n) != Lookup(vb, n) ==> c in cs;
  }

  lemma SameLookups(s: Tree, t: Tree)
    requires forall n :: Lookup(s, n) == Lookup(t, n)
    ensures s == t
  {
    forall n ensures (n in s <==> n in t) && (n in s ==> s[n] == t[n]) {
      assert Lookup(s, n) == Lookup(t, n);
    }
  }

  /** A mirror of the old snapshot becomes a mirror of the new one. */
  lemma ReportUpdatesMirror(env: Env, a: Tree, b: Tree)
    requires GoodEnv(env)
    ensures ReplayAll(Visible(env, a), Statuses(Diff(env, a, b))) == Visible(env, b)
  {
    forall n { ReportMovesName(env, a, b, n); }
    SameLookups(ReplayAll(Visible(env, a), Statuses(Diff(env, a, b))), Visible(env, b));
  }

  /** A list of changes that is cut, with the newest token sent all the same, loses what is
      cut for good: replaying its first `n` changes gives the new snapshot only if there are
      no more than that. */
  lemma CutReportFallsShort(env: Env, a: Tree, b: Tree, n: nat)
    requires GoodEnv(env) && n <= |Diff(env, a, b)|
    ensures ReplayAll(Visible(env, a), Statuses(Diff(env, a, b)[..n])) == Visible(env, b) <==> n == |Diff(env, a, b)|
  {
    var va, vb, cs := Visible(env, a), Visible(env, b), Diff(env, a, b);
    DiffIs(env, a, b);
    if n == |cs| {
      assert cs[..n] == cs;
      ReportUpdatesMirror(env, a, b);
    } else {
      forall i | 0 <= i < n ensures cs[..n][i].before != cs[..n][i].after { assert cs[i] in cs; }
      ReplayMoves(va, cs[..n], cs[n].name);
      LastAfterIs(cs[..n], cs[n].name);
      assert cs[n] in cs;
    }
  }

  // ----- server and clients

  datatype Server = Server(objects: map<string, Tree>, head: Option<Tree>)

  /** A client: its copy, its token, and the token its current report will end with. */
  datatype Client = Client(mirror: Tree, token: Option<string>, reading: Option<string>, failed: bool)

  datatype World = World(server: Server, clients: seq<Client>)

  datatype Event =
    | Put(name: string, content: Sha, replaceEtag: Option<Sha>)
    | Remove(name: string, etag: Option<Sha>)
    | BeginReport(client: nat)
    | FinishReport(client: nat)

  function Current(s: Server): Tree { if s.head.Some? then s.head.value else map[] }

  function Store(env: Env, s: Server, t: Tree): Server { Server(s.objects[env.treeId(t) := t], Some(t)) }

  function Imported(env: Env, unique: bool, s: Server, name: string, content: Sha, replaceEtag: Option<Sha>): Server {
    var t := Current(s);
    if !env.valid(name, content) then s
    else if unique && UidTaken(env, t, name, env.uid(name, content)) then s
    else if replaceEtag.Some? && Lookup(t, name) != replaceEtag then s
    else Store(env, s, t[name := env.normal(name, content)])
  }

  function Removed(env: Env, s: Server, name: string, etag: Option<Sha>): Server {
    var t := Current(s);
    if name !in t || (etag.Some? && etag.value != t[name]) then s else Store(env, s, t - {name})
  }

  /** The trees a report can look up: the empty one is stored when there is no old token. */
  function Reachable(env: Env, s: Server, token: Option<string>): map<string, Tree> {
    if token.Some? then s.objects else s.objects[env.treeId(map[]) := map[]]
  }

  /** The second half of a report: the differences are computed and replayed. */
  function Finished(env: Env, s: Server, c: Client): Client {
    if c.reading.None? then c
    else
      var objects := Reachable(env, s, c.token);
      var older := if c.token.Some? then c.token.value else env.treeId(map[]);
      if older in objects && c.reading.value in objects then
        var report := Statuses(Diff(env, objects[older], objects[c.reading.value]));
        Client(ReplayAll(c.mirror, report), c.reading, None, c.failed)
      else c.(reading := None, failed := true)
  }

  function Step(env: Env, unique: bool, w: World, e: Event): World {
    match e
    case Put(name, content, replaceEtag) => w.(server := Imported(env, unique, w.server, name, content, replaceEtag))
    case Remove(name, etag) => w.(server := Removed(env, w.server, name, etag))
    case BeginReport(i) =>
      if i >= |w.clients| then w
      else w.(clients := w.clients[i := w.clients[i].(reading := Some(env.treeId(Current(w.server))))])
    case FinishReport(i) =>
      if i >= |w.clients| || w.clients[i].reading.None? then w
      else World(w.server.(objects := Reachable(env, w.server, w.clients[i].token)),
                 w.clients[i := Finished(env, w.server, w.clients[i])])
  }

  function After(env: Env, unique: bool, w: World, events: seq<Event>): World {
    if events == [] then w else Step(env, unique, After(env, unique, w, events[..|events| - 1]), events[|events| - 1])
  }

  /** A new collection, and clients that have not synced yet. */
  predicate Initial(w: World) {
    && w.server == Server(map[], None)
    && forall c <- w.clients :: c == Client(map[], None, None, false)
  }

  /** A client's copy is the collection at its token, and its reports are answered. */
  ghost predicate Synced(env: Env, s: Server, c: Client) {
    && !c.failed
    && (c.token.None? ==> c.mirror == map[])
    && (c.token.Some? ==> c.token.value in s.objects && c.mirror == Visible(env, s.objects[c.token.value]))
  }

  /** A token read while there was no commit names a tree that a first report will store. */
  ghost predicate Readable(env: Env, s: Server, c: Client) {
    c.reading.Some? ==> c.reading.value in s.objects || (c.token.None? && c.reading.value == env.treeId(map[]))
  }

  ghost predicate Good(env: Env, unique: bool, w: World) {
    && GoodObjects(env, w.server.objects)
    && (w.server.head.Some? ==> env.treeId(w.server.head.value) in w.server.objects)
    && (w.server.head.None? ==> w.server.objects.Keys <= {env.treeId(map[])})
    && (unique ==> UniqueUids(env, Current(w.server)))
    && forall c <- w.clients :: Synced(env, w.server, c) && Readable(env, w.server, c)
  }

  lemma StoreKeeps(env: Env, unique: bool, w: World, t: Tree)
    requires GoodEnv(env) && Good(env, unique, w) && (unique ==> UniqueUids(env, t))
    ensures Good(env, unique, w.(server := Store(env, w.server, t)))
  {
    var s := Store(env, w.server, t);
    assert forall id <- w.server.objects :: id in s.objects && s.objects[id] == w.server.objects[id];
  }

  /** A finished report leaves its client synced with the token it read. */
  lemma FinishedIsSynced(env: Env, s: Server, c: Client)
    requires GoodEnv(env) && GoodObjects(env, s.objects) && Synced(env, s, c) && Readable(env, s, c) && c.reading.Some?
    ensures var objects := Reachable(env, s, c.token);
      && GoodObjects(env, objects)
      && Synced(env, s.(objects := objects), Finished(env, s, c)) && Finished(env, s, c).reading.None?
      && Finished(env, s, c).token == c.reading
  {
    var objects := Reachable(env, s, c.token);
    var older := if c.token.Some? then c.token.value else env.treeId(map[]);
    assert Visible(env, map[]) == map[];
    ReportUpdatesMirror(env, objects[older], objects[c.reading.value]);
  }

  lemma FinishKeeps(env: Env, unique: bool, w: World, i: nat)
    requires GoodEnv(env) && Good(env, unique, w) && i < |w.clients| && w.clients[i].reading.Some?
    ensures Good(env, unique, Step(env, unique, w, FinishReport(i)))
  {
    var c, v := w.clients[i], Step(env, unique, w, FinishReport(i));
    var objects := Reachable(env, w.server, c.token);
    assert c in w.clients;
    FinishedIsSynced(env, w.server, c);
    assert GoodObjects(env, w.server.objects);
    assert forall id <- w.server.objects :: id in objects && objects[id] == w.server.objects[id];
    forall d <- v.clients ensures Synced(env, v.server, d) && Readable(env, v.server, d) {
      var k :| 0 <= k < |v.clients| && v.clients[k] == d;
      if k != i {
        assert d == w.clients[k] && d in w.clients;
        assert Synced(env, w.server, d) && Readable(env, w.server, d);
      }
    }
  }

  lemma StepKeeps(env: Env, unique: bool, w: World, e: Event)
    requires GoodEnv(env) && Good(env, unique, w)
    ensures Good(env, unique, Step(env, unique, w, e))
  {
    var t, v := Current(w.server), Step(env, unique, w, e);
    match e {
      case Put(name, content, _) =>
        if v != w {
          var blob := env.normal(name, content);
          if unique { ImportKeepsUnique(env, t, name, blob); }
          StoreKeeps(env, unique, w, t[name := blob]);
        }
      case Remove(name, _) =>
        if v != w { StoreKeeps(env, unique, w, t - {name}); }
      case BeginReport(i) =>
        forall d <- v.clients ensures Synced(env, v.server, d) && Readable(env, v.server, d) {
          var k :| 0 <= k < |v.clients| && v.clients[k] == d;
          assert w.clients[k] in w.clients;
        }
      case FinishReport(i) =>
        if i < |w.clients| && w.clients[i].reading.Some? { FinishKeeps(env, unique, w, i); }
    }
  }

  /** Over any run every client mirrors the collection at its token, no report is refused,
      and no two items share a UID, however imports, deletes and the halves of the reports
      are interleaved. */
  lemma {:induction false} ClientsStaySynced(env: Env, unique: bool, w: World, events: seq<Event>)
    requires GoodEnv(env) && Initial(w)
    ensures var v := After(env, unique, w, events);
      && Good(env, unique, v)
      && forall c <- v.clients :: Synced(env, v.server, c)
  {
    if events == [] {
    } else {
      var n := |events| - 1;
      ClientsStaySynced(env, unique, w, events[..n]);
      StepKeeps(env, unique, After(env, unique, w, events[..n]), events[n]);
    }
  }

  /** A report that no server event interrupts leaves the client with the current collection. */
  lemma ReportCatchesUp(env: Env, unique: bool, w: World, i: nat)
    requires GoodEnv(env) && Good(env, unique, w) && i < |w.clients|
    ensures var v := Step(env, unique, Step(env, unique, w, BeginReport(i)), FinishReport(i));
      v.clients[i].mirror == Visible(env, Current(w.server))
  {
    var u := Step(env, unique, w, BeginReport(i));
    StepKeeps(env, unique, w, BeginReport(i));
    StepKeeps(env, unique, u, FinishReport(i));
    var v := Step(env, unique, u, FinishReport(i));
    assert v.clients[i] in v.clients && u.clients[i] in u.clients;
    FinishedIsSynced(env, u.server, u.clients[i]);
    assert env.treeId(v.server.objects[v.clients[i].token.value]) == env.treeId(Current(w.server));
  }

  /** Trees are never dropped, and an id never comes to name another tree. */
  lemma StepKeepsTrees(env: Env, unique: bool, w: World, e: Event, token: string)
    requires GoodEnv(env) && GoodObjects(env, w.server.objects) && token in w.server.objects
    ensures var v := Step(env, unique, w, e);
      token in v.server.objects && v.server.objects[token] == w.server.objects[token]
  {
    assert env.treeId(w.server.objects[token]) == token;
  }

  /** Every token that can be looked up once can be looked up ever after, as the same tree. */
  lemma {:induction false} TokensStayValid(env: Env, unique: bool, w: World, events: seq<Event>, token: string)
    requires GoodEnv(env) && Good(env, unique, w) && token in w.server.objects
    ensures var v := After(env, unique, w, events);
      Good(env, unique, v) && token in v.server.objects && v.server.objects[token] == w.server.objects[token]
  {
    if events == [] {
    } else {
      var n := |events| - 1;
      var v := After(env, unique, w, events[..n]);
      TokensStayValid(env, unique, w, events[..n], token);
      StepKeeps(env, unique, v, events[n]);
      StepKeepsTrees(env, unique, v, events[n], token);
    }
  }

  /** The token of a collection never written to, read from its property, is refused until
      some report has started from nothing; then it is accepted for good. */
  lemma FreshTokenIsRefused(env: Env, w: World)
    requires GoodEnv(env) && w.server.head.None? && Good(env, true, w)
    ensures var token := env.treeId(Current(w.server));
      token in w.server.objects <==> w.server.objects != map[]
  {
    if w.server.objects != map[] {
      var id :| id in w.server.objects;
      assert id in w.server.objects.Keys;
    }
  }

  // ----- the store itself takes these steps

  /** Running events against a store gives what the state machine gives. */
  method Run(store: GitStore, clients: seq<Client>, events: seq<Event>) returns (now: seq<Client>)
    requires store.Valid()
    modifies store
    ensures store.Valid()
    ensures World(Server(store.objects, store.head), now) ==
            After(store.env, store.requireUniqueUids,
                  World(Server(old(store.objects), old(store.head)), clients), events)
  {
    now := clients;
    ghost var w := World(Server(store.objects, store.head), clients);
    for i := 0 to |events|
      invariant store.Valid()
      invariant World(Server(store.objects, store.head), now) ==
                After(store.env, store.requireUniqueUids, w, events[..i])
    {
      assert events[..i + 1][..i] == events[..i];
      now := Act(store, now, events[i]);
    }
    assert events[..|events|] == events;
  }

  /** One event. */
  method Act(store: GitStore, clients: seq<Client>, e: Event) returns (now: seq<Client>)
    requires store.Valid()
    modifies store
    ensures store.Valid()
    ensures World(Server(store.objects, store.head), now) ==
            Step(store.env, store.requireUniqueUids, World(Server(old(store.objects), old(store.head)), clients), e)
  {
    now := clients;
    match e {
      case Put(name, content, replaceEtag) =>
        var r := store.ImportOne(name, content, replaceEtag);
      case Remove(name, etag) =>
        var r := store.DeleteOne(name, etag);
      case BeginReport(c) =>
        if c < |now| {
          now := now[c := now[c].(reading := Some(store.GetCtag()))];
        }
      case FinishReport(c) =>
        if c < |now| && now[c].reading.Some? {
          var client := Report(store, now[c]);
          now := now[c := client];
        }
    }
  }

  /** The second half of one report. */
  method Report(store: GitStore, c: Client) returns (d: Client)
    requires store.Valid() && c.reading.Some?
    modifies store`objects
    ensures store.Valid()
    ensures store.objects == Reachable(store.env, Server(old(store.objects), store.head), c.token)
    ensures d == Finished(store.env, Server(old(store.objects), store.head), c)
  {
    var changes := store.IterChanges(c.token, c.reading.value);
    if changes.Err? { return c.(reading := None, failed := true); }
    var statuses := ReportStatuses(changes.value);
    return Client(ReplayAll(c.mirror, statuses), c.reading, None, c.failed);
  }
}
