/** Facts about sequences that several modules need. */
module Seqs {
  lemma SplitMembers<T>(s: seq<T>)
    requires s != []
    ensures forall x :: x in s <==> x == s[0] || x in s[1..]
  {
    assert s == [s[0]] + s[1..];
  }

  lemma SplitLast<T>(s: seq<T>)
    requires s != []
    ensures s == s[..|s| - 1] + [s[|s| - 1]]
    ensures forall x :: x in s <==> x == s[|s| - 1] || x in s[..|s| - 1]
  {
  }
}
