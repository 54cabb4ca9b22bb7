/** Sorting by a total order, and the lexicographic orders that tuples and lists compare by. */
module Orders {
  import opened Seqs

  ghost predicate TotalOrder<T(!new)>(leq: (T, T) -> bool) {
    && (forall a, b :: leq(a, b) || leq(b, a))
    && (forall a, b :: leq(a, b) && leq(b, a) ==> a == b)
    && (forall a, b, c :: leq(a, b) && leq(b, c) ==> leq(a, c))
  }

  function Insert<T>(leq: (T, T) -> bool, x: T, s: seq<T>): seq<T> {
    if s == [] || leq(x, s[0]) then [x] + s else [s[0]] + Insert(leq, x, s[1..])
  }

  /** `list.sort()`. */
  function Sort<T>(leq: (T, T) -> bool, s: seq<T>): seq<T> {
    if s == [] then [] else Insert(leq, s[0], Sort(leq, s[1..]))
  }

  /** Sorted means that no element comes after one it is not below. */
  ghost predicate Sorted<T(!new)>(leq: (T, T) -> bool, s: seq<T>) {
    forall i, j :: 0 <= i < j < |s| ==> leq(s[i], s[j])
  }

  lemma {:induction false} InsertPermutes<T>(leq: (T, T) -> bool, x: T, s: seq<T>)
    ensures multiset(Insert(leq, x, s)) == multiset{x} + multiset(s)
  {
    if s == [] || leq(x, s[0]) {
    } else {
      InsertPermutes(leq, x, s[1..]);
      assert s == [s[0]] + s[1..];
    }
  }

  lemma {:induction false} SortPermutes<T>(leq: (T, T) -> bool, s: seq<T>)
    ensures multiset(Sort(leq, s)) == multiset(s)
  {
    if s == [] {
    } else {
      SortPermutes(leq, s[1..]);
      InsertPermutes(leq, s[0], Sort(leq, s[1..]));
      assert s == [s[0]] + s[1..];
    }
  }

  lemma SortMembers<T>(leq: (T, T) -> bool, s: seq<T>)
    ensures forall x :: x in Sort(leq, s) <==> x in s
  {
    SortPermutes(leq, s);
    assert forall x :: x in s <==> x in multiset(s);
    assert forall x :: x in Sort(leq, s) <==> x in multiset(Sort(leq, s));
  }

  lemma {:induction false} InsertSorts<T(!new)>(leq: (T, T) -> bool, x: T, s: seq<T>)
    requires TotalOrder(leq) && Sorted(leq, s)
    ensures Sorted(leq, Insert(leq, x, s))
  {
    if s == [] || leq(x, s[0]) {
      assert forall i :: 0 <= i < |s| ==> leq(s[0], s[i]);
    } else {
      InsertSorts(leq, x, s[1..]);
      InsertPermutes(leq, x, s[1..]);
      var r := Insert(leq, x, s[1..]);
      forall k | 0 <= k < |r| ensures leq(s[0], r[k]) {
        assert r[k] in multiset(r);
        assert r[k] == x || r[k] in s[1..];
      }
    }
  }

  lemma {:induction false} SortSorts<T(!new)>(leq: (T, T) -> bool, s: seq<T>)
    requires TotalOrder(leq)
    ensures Sorted(leq, Sort(leq, s))
  {
    if s == [] {
    } else {
      SortSorts(leq, s[1..]);
      InsertSorts(leq, s[0], Sort(leq, s[1..]));
    }
  }

  lemma FirstIsShared<T(!new)>(leq: (T, T) -> bool, a: seq<T>, b: seq<T>)
    requires TotalOrder(leq) && Sorted(leq, a) && Sorted(leq, b) && multiset(a) == multiset(b) && a != [] && b != []
    ensures a[0] == b[0]
  {
    assert a[0] in multiset(a) && b[0] in multiset(b);
    assert a[0] in b && b[0] in a;
    var i :| 0 <= i < |b| && b[i] == a[0];
    var j :| 0 <= j < |a| && a[j] == b[0];
    assert leq(a[0], b[0]) && leq(b[0], a[0]);
  }

  /** A sorted list is determined by its elements. */
  lemma {:induction false} SortedIsUnique<T(!new)>(leq: (T, T) -> bool, a: seq<T>, b: seq<T>)
    requires TotalOrder(leq) && Sorted(leq, a) && Sorted(leq, b) && multiset(a) == multiset(b)
    ensures a == b
  {
    if a == [] || b == [] {
      assert |multiset(a)| == |multiset(b)| == 0;
    } else {
      FirstIsShared(leq, a, b);
      TailMultiset(a);
      TailMultiset(b);
      SortedIsUnique(leq, a[1..], b[1..]);
      assert a == [a[0]] + a[1..] && b == [b[0]] + b[1..];
    }
  }

  lemma TailMultiset<T>(s: seq<T>)
    requires s != []
    ensures multiset(s[1..]) == multiset(s) - multiset{s[0]}
  {
    assert s == [s[0]] + s[1..];
  }

  /** Sorting forgets the order and nothing else. */
  lemma SortIsCanonical<T(!new)>(leq: (T, T) -> bool, a: seq<T>, b: seq<T>)
    requires TotalOrder(leq)
    ensures Sort(leq, a) == Sort(leq, b) <==> multiset(a) == multiset(b)
  {
    SortPermutes(leq, a);
    SortPermutes(leq, b);
    SortSorts(leq, a);
    SortSorts(leq, b);
    if multiset(a) == multiset(b) { SortedIsUnique(leq, Sort(leq, a), Sort(leq, b)); }
  }

  // ----- lexicographic orders

  function Lex<T(==)>(leq: (T, T) -> bool, a: seq<T>, b: seq<T>): bool {
    if a == [] then true
    else if b == [] then false
    else if a[0] == b[0] then Lex(leq, a[1..], b[1..])
    else leq(a[0], b[0])
  }

  function PairLex<A(==), B>(leqA: (A, A) -> bool, leqB: (B, B) -> bool, p: (A, B), q: (A, B)): bool {
    if p.0 == q.0 then leqB(p.1, q.1) else leqA(p.0, q.0)
  }

  lemma {:induction false} LexConnected<T(!new)>(leq: (T, T) -> bool, a: seq<T>, b: seq<T>)
    requires TotalOrder(leq)
    ensures Lex(leq, a, b) || Lex(leq, b, a)
    ensures Lex(leq, a, b) && Lex(leq, b, a) ==> a == b
  {
    if a == [] || b == [] {
    } else {
      LexConnected(leq, a[1..], b[1..]);
      assert a == [a[0]] + a[1..] && b == [b[0]] + b[1..];
    }
  }

  lemma {:induction false} LexTransitive<T(!new)>(leq: (T, T) -> bool, a: seq<T>, b: seq<T>, c: seq<T>)
    requires TotalOrder(leq) && Lex(leq, a, b) && Lex(leq, b, c)
    ensures Lex(leq, a, c)
  {
    if a == [] || a[0] != b[0] || b[0] != c[0] {
    } else {
      LexTransitive(leq, a[1..], b[1..], c[1..]);
    }
  }

  lemma LexIsTotal<T(!new)>(leq: (T, T) -> bool)
    requires TotalOrder(leq)
    ensures TotalOrder((a: seq<T>, b: seq<T>) => Lex(leq, a, b))
  {
    forall a: seq<T>, b: seq<T> { LexConnected(leq, a, b); }
    forall a: seq<T>, b: seq<T>, c: seq<T> | Lex(leq, a, b) && Lex(leq, b, c) { LexTransitive(leq, a, b, c); }
  }

  lemma PairIsTotal<A(!new), B(!new)>(leqA: (A, A) -> bool, leqB: (B, B) -> bool)
    requires TotalOrder(leqA) && TotalOrder(leqB)
    ensures TotalOrder((p: (A, B), q: (A, B)) => PairLex(leqA, leqB, p, q))
  {
  }

  // ----- multisets of images

  function Map<T, A>(f: T -> A, s: seq<T>): (r: seq<A>)
    ensures |r| == |s| && forall i :: 0 <= i < |s| ==> r[i] == f(s[i])
  {
    seq(|s|, i requires 0 <= i < |s| => f(s[i]))
  }

  function RemoveAt<T>(s: seq<T>, k: nat): (r: seq<T>)
    requires k < |s|
    ensures |r| == |s| - 1 && forall i :: 0 <= i < |r| ==> r[i] == s[if i < k then i else i + 1]
  {
    s[..k] + s[k + 1..]
  }

  lemma RemovedMultiset<T>(s: seq<T>, k: nat)
    requires k < |s|
    ensures multiset(RemoveAt(s, k)) == multiset(s) - multiset{s[k]} && s[k] in multiset(s)
  {
    assert s == s[..k] + [s[k]] + s[k + 1..];
  }

  lemma MapRemove<T, A>(f: T -> A, s: seq<T>, k: nat)
    requires k < |s|
    ensures multiset(Map(f, s)) == multiset(Map(f, RemoveAt(s, k))) + multiset{f(s[k])}
  {
    assert Map(f, RemoveAt(s, k)) == RemoveAt(Map(f, s), k);
    RemovedMultiset(Map(f, s), k);
  }

  /** Equal g-images come with equal h-images. */
  ghost predicate Respects<T, A, B>(g: T -> A, h: T -> B, s: seq<T>, t: seq<T>) {
    forall i, j :: 0 <= i < |s| && 0 <= j < |t| && g(s[i]) == g(t[j]) ==> h(s[i]) == h(t[j])
  }

  /** Where equal g-images have equal h-images, equal multisets of the one give equal
      multisets of the other. */
  lemma {:induction false} ImagesAgree<T, A, B>(g: T -> A, h: T -> B, s: seq<T>, t: seq<T>)
    requires Respects(g, h, s, t)
    requires multiset(Map(g, s)) == multiset(Map(g, t))
    ensures multiset(Map(h, s)) == multiset(Map(h, t))
  {
    assert |s| == |multiset(Map(g, s))| == |multiset(Map(g, t))| == |t|;
    if s != [] {
      var k := FindImage(g, s, t);
      assert Respects(g, h, RemoveAt(s, 0), RemoveAt(t, k));
      MapRemove(g, s, 0);
      MapRemove(g, t, k);
      Cancel(multiset(Map(g, RemoveAt(s, 0))), multiset(Map(g, RemoveAt(t, k))), g(s[0]));
      ImagesAgree(g, h, RemoveAt(s, 0), RemoveAt(t, k));
      MapRemove(h, s, 0);
      MapRemove(h, t, k);
    } else {
      assert t == [];
    }
  }

  lemma Cancel<A>(x: multiset<A>, y: multiset<A>, e: A)
    requires x + multiset{e} == y + multiset{e}
    ensures x == y
  {
    assert x == (x + multiset{e}) - multiset{e};
  }

  lemma FindImage<T, A>(g: T -> A, s: seq<T>, t: seq<T>) returns (k: nat)
    requires s != [] && multiset(Map(g, s)) == multiset(Map(g, t))
    ensures k < |t| && g(t[k]) == g(s[0])
  {
    assert Map(g, s)[0] in multiset(Map(g, s));
    assert g(s[0]) in Map(g, t);
    k :| 0 <= k < |t| && Map(g, t)[k] == g(s[0]);
  }
}
