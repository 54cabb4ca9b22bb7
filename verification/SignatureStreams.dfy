/**
 The byte stream that a scheduling signature hashes (the last loop of
 `extract_scheduling_signature` in xandikos/itip.py), and what can be read back from it.
 */
module SignatureStreams {
  import opened Octets
  import opened Seqs

  /** A property: its name and its serialised values. */
  type Prop = (Bytes, seq<Bytes>)

  /** A component: its key and its properties. */
  type Comp = (Bytes, seq<Prop>)

  /** What is hashed, piece by piece: a marker and a body, each ended by NUL. */
  datatype Token = Token(tag: Octet, body: Bytes)

  const COMP: Octet := 67  // "C"
  const PROP: Octet := 80  // "P"
  const VALUE: Octet := 86 // "V"

  function ValueTokens(items: seq<Bytes>): seq<Token> {
    if items == [] then [] else [Token(VALUE, items[0])] + ValueTokens(items[1..])
  }

  function PropTokens(p: Prop): seq<Token> { [Token(PROP, p.0)] + ValueTokens(p.1) }

  function PropsTokens(ps: seq<Prop>): seq<Token> {
    if ps == [] then [] else PropTokens(ps[0]) + PropsTokens(ps[1..])
  }

  function CompTokens(c: Comp): seq<Token> { [Token(COMP, c.0)] + PropsTokens(c.1) }

  function CompsTokens(cs: seq<Comp>): seq<Token> {
    if cs == [] then [] else CompTokens(cs[0]) + CompsTokens(cs[1..])
  }

  function TokenBytes(t: Token): Bytes { [t.tag, 0] + t.body + [0] }

  function Encode(ts: seq<Token>): Bytes {
    if ts == [] then [] else TokenBytes(ts[0]) + Encode(ts[1..])
  }

  ghost predicate NulFree(b: Bytes) { 0 !in b }

  ghost predicate NulFreeComps(cs: seq<Comp>) {
    forall c <- cs :: NulFree(c.0) && forall p <- c.1 :: NulFree(p.0) && forall v <- p.1 :: NulFree(v)
  }

  // ----- tokens from bytes

  /** A string ended by a separator that is not in it can be told from what follows it. */
  lemma EndIsFound(sep: Octet, a: Bytes, b: Bytes, r: Bytes, s: Bytes)
    requires sep !in a && sep !in b && a + [sep] + r == b + [sep] + s
    ensures a == b && r == s
  {
    var x, y := a + [sep] + r, b + [sep] + s;
    assert x[|a|] == sep && y[|b|] == sep;
    assert |a| == |b|;
    assert x[..|a|] == a && y[..|a|] == b;
    assert x[|a| + 1..] == r && y[|a| + 1..] == s;
  }

  lemma {:induction false} TokensAreFound(ts: seq<Token>, us: seq<Token>)
    requires (forall t <- ts :: NulFree(t.body)) && (forall u <- us :: NulFree(u.body))
    requires Encode(ts) == Encode(us)
    ensures ts == us
  {
    if ts == [] || us == [] {
    } else {
      var t, u := ts[0], us[0];
      SplitMembers(ts);
      SplitMembers(us);
      assert Encode(ts) == [t.tag, 0] + (t.body + [0] + Encode(ts[1..]));
      assert Encode(us) == [u.tag, 0] + (u.body + [0] + Encode(us[1..]));
      assert Encode(ts)[0] == t.tag && Encode(us)[0] == u.tag;
      assert Encode(ts)[2..] == t.body + [0] + Encode(ts[1..]);
      assert Encode(us)[2..] == u.body + [0] + Encode(us[1..]);
      EndIsFound(0, t.body, u.body, Encode(ts[1..]), Encode(us[1..]));
      TokensAreFound(ts[1..], us[1..]);
      assert ts == [t] + ts[1..] && us == [u] + us[1..];
    }
  }

  // ----- structure from tokens

  predicate NoTag(tag: Octet, ts: seq<Token>) { forall t <- ts :: t.tag != tag }

  /** Segments that begin with a marker and do not contain it again can be told apart. */
  lemma SegmentIsFound(tag: Octet, a: seq<Token>, b: seq<Token>, r: seq<Token>, s: seq<Token>)
    requires NoTag(tag, a) && NoTag(tag, b) && a + r == b + s
    requires (r != [] ==> r[0].tag == tag) && (s != [] ==> s[0].tag == tag)
    ensures a == b && r == s
  {
    var x, y := a + r, b + s;
    assert forall k :: 0 <= k < |a| ==> x[k] in a;
    assert forall k :: 0 <= k < |b| ==> y[k] in b;
    assert |x| > |a| ==> x[|a|].tag == tag;
    assert |y| > |b| ==> y[|b|].tag == tag;
    assert |a| == |b|;
    assert x[..|a|] == a && y[..|a|] == b && x[|a|..] == r && y[|a|..] == s;
  }

  lemma {:induction false} ValuesAreFound(a: seq<Bytes>, b: seq<Bytes>)
    requires ValueTokens(a) == ValueTokens(b)
    ensures a == b
  {
    if a == [] || b == [] {
    } else {
      assert ValueTokens(a)[1..] == ValueTokens(a[1..]) && ValueTokens(b)[1..] == ValueTokens(b[1..]);
      ValuesAreFound(a[1..], b[1..]);
      assert ValueTokens(a)[0] == ValueTokens(b)[0];
      assert a == [a[0]] + a[1..] && b == [b[0]] + b[1..];
    }
  }

  lemma {:induction false} ValueTags(items: seq<Bytes>)
    ensures forall t <- ValueTokens(items) :: t.tag == VALUE && t.body in items
  {
    if items == [] {
    } else {
      ValueTags(items[1..]);
    }
  }

  lemma {:induction false} PropTags(ps: seq<Prop>)
    ensures NoTag(COMP, PropsTokens(ps))
    ensures forall t <- PropsTokens(ps) :: exists p <- ps :: t.body == p.0 || t.body in p.1
  {
    if ps == [] {
    } else {
      ValueTags(ps[0].1);
      PropTags(ps[1..]);
      SplitMembers(ps);
    }
  }

  lemma {:induction false} PropsAreFound(a: seq<Prop>, b: seq<Prop>)
    requires PropsTokens(a) == PropsTokens(b)
    ensures a == b
  {
    if a == [] || b == [] {
    } else {
      var va, vb, ra, rb := ValueTokens(a[0].1), ValueTokens(b[0].1), PropsTokens(a[1..]), PropsTokens(b[1..]);
      assert PropsTokens(a) == [Token(PROP, a[0].0)] + (va + ra);
      assert PropsTokens(b) == [Token(PROP, b[0].0)] + (vb + rb);
      assert PropsTokens(a)[0].body == PropsTokens(b)[0].body;
      assert PropsTokens(a)[1..] == va + ra && PropsTokens(b)[1..] == vb + rb;
      ValueTags(a[0].1);
      ValueTags(b[0].1);
      SegmentIsFound(PROP, va, vb, ra, rb);
      ValuesAreFound(a[0].1, b[0].1);
      PropsAreFound(a[1..], b[1..]);
      assert a == [a[0]] + a[1..] && b == [b[0]] + b[1..];
    }
  }

  lemma FirstComp(cs: seq<Comp>)
    requires cs != []
    ensures var ts := CompsTokens(cs);
      ts != [] && ts[0] == Token(COMP, cs[0].0) && ts[1..] == PropsTokens(cs[0].1) + CompsTokens(cs[1..])
    ensures CompsTokens(cs[1..]) != [] ==> CompsTokens(cs[1..])[0].tag == COMP
  {
    assert CompsTokens(cs) == [Token(COMP, cs[0].0)] + (PropsTokens(cs[0].1) + CompsTokens(cs[1..]));
  }

  lemma {:induction false} CompsAreFound(a: seq<Comp>, b: seq<Comp>)
    requires CompsTokens(a) == CompsTokens(b)
    ensures a == b
  {
    if a == [] || b == [] {
    } else {
      var pa, pb, ra, rb := PropsTokens(a[0].1), PropsTokens(b[0].1), CompsTokens(a[1..]), CompsTokens(b[1..]);
      FirstComp(a);
      FirstComp(b);
      PropTags(a[0].1);
      PropTags(b[0].1);
      SegmentIsFound(COMP, pa, pb, ra, rb);
      PropsAreFound(a[0].1, b[0].1);
      CompsAreFound(a[1..], b[1..]);
      assert a == [a[0]] + a[1..] && b == [b[0]] + b[1..];
    }
  }

  lemma {:induction false} CompBodies(cs: seq<Comp>)
    requires NulFreeComps(cs)
    ensures forall t <- CompsTokens(cs) :: NulFree(t.body)
  {
    if cs == [] {
    } else {
      SplitMembers(cs);
      PropTags(cs[0].1);
      CompBodies(cs[1..]);
    }
  }

  /** The stream determines the components, in order, where nothing in them contains NUL. */
  lemma StreamIsInjective(a: seq<Comp>, b: seq<Comp>)
    requires NulFreeComps(a) && NulFreeComps(b)
    requires Encode(CompsTokens(a)) == Encode(CompsTokens(b))
    ensures a == b
  {
    CompBodies(a);
    CompBodies(b);
    TokensAreFound(CompsTokens(a), CompsTokens(b));
    CompsAreFound(a, b);
  }
}
