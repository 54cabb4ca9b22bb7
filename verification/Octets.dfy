/** Byte strings as the wire formats use them, and the lines they are cut into. */
module Octets {
  import opened Wrappers
  import opened Seqs

  type Octet = b: nat | b < 256

  type Bytes = seq<Octet>

  const CR: Octet := 13
  const LF: Octet := 10

  const CRLF: Bytes := [CR, LF]

  predicate BreakAt(s: Bytes, k: nat) { k + 2 <= |s| && s[k] == CR && s[k + 1] == LF }

  predicate NoBreakBefore(s: Bytes, n: nat) { forall k: nat | k < n :: !BreakAt(s, k) }

  predicate NoBreak(s: Bytes) { NoBreakBefore(s, |s|) }

  /** Where the first line ends. */
  function Eol(s: Bytes): (r: Option<nat>)
    ensures r.Some? ==> BreakAt(s, r.value) && NoBreakBefore(s, r.value)
    ensures r.None? ==> NoBreak(s)
  {
    if |s| < 2 then None
    else if BreakAt(s, 0) then Some(0)
    else
      var r := Eol(s[1..]);
      assert forall k: nat :: k > 0 && BreakAt(s, k) ==> BreakAt(s[1..], k - 1);
      if r.None? then None else Some(r.value + 1)
  }

  /** The first break is where nothing before it is one. */
  lemma EolIs(s: Bytes, k: nat)
    requires BreakAt(s, k) && NoBreakBefore(s, k)
    ensures Eol(s) == Some(k)
  {
    var r := Eol(s);
    assert r.Some? && !(r.value < k) && !(k < r.value);
  }

  /** A line without a break in it is read back. */
  lemma LineIsRead(line: Bytes, rest: Bytes)
    requires NoBreak(line)
    ensures Eol(line + CRLF + rest) == Some(|line|)
    ensures (line + CRLF + rest)[..|line|] == line && (line + CRLF + rest)[|line| + 2..] == rest
  {
    var s := line + CRLF + rest;
    forall k: nat | k < |line| ensures !BreakAt(s, k) {
      assert BreakAt(s, k) ==> BreakAt(line, k);
    }
    EolIs(s, |line|);
  }

  /** What stands before the first `b`. */
  function Before(s: Bytes, b: Octet): Bytes {
    if s == [] || s[0] == b then [] else [s[0]] + Before(s[1..], b)
  }

  lemma {:induction false} BeforeIs(s: Bytes, k: nat, b: Octet)
    requires k <= |s| && (k < |s| ==> s[k] == b) && forall j :: 0 <= j < k ==> s[j] != b
    ensures Before(s, b) == s[..k]
  {
    if k == 0 {
    } else {
      BeforeIs(s[1..], k - 1, b);
      assert [s[0]] + s[1..][..k - 1] == s[..k];
    }
  }

  function Concat(parts: seq<Bytes>): Bytes { if parts == [] then [] else parts[0] + Concat(parts[1..]) }

  lemma {:induction false} ConcatAppend(parts: seq<Bytes>, last: Bytes)
    ensures Concat(parts + [last]) == Concat(parts) + last
  {
    if parts == [] {
    } else {
      ConcatAppend(parts[1..], last);
      assert (parts + [last])[1..] == parts[1..] + [last];
      Associates(parts[0], Concat(parts[1..]), last);
    }
  }

  lemma Associates(a: Bytes, b: Bytes, c: Bytes)
    ensures a + (b + c) == (a + b) + c
  {
  }
}
