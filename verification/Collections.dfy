/** Two facts about sequences and sets that several modules share. */
module Collections {
  function Splice(p: seq<bv8>, at: nat, bytes: seq<bv8>): (r: seq<bv8>)
    requires at + |bytes| <= |p|
    ensures |r| == |p| && forall i :: 0 <= i < |p| ==> r[i] == if at <= i < at + |bytes| then bytes[i - at] else p[i]
  {
    p[..at] + bytes + p[at + |bytes|..]
  }

  lemma SubsetSize<T>(a: set<T>, b: set<T>)
    requires a <= b
    ensures |a| <= |b|
  {
    assert b == a + (b - a);
  }
}
