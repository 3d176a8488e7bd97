/** Generic facts about sequences that the proofs use as rewriting steps. */
module Seqs {

  lemma AppendAssoc<T>(a: seq<T>, b: seq<T>, c: seq<T>)
    ensures (a + b) + c == a + (b + c)
  {
  }

  lemma AppendEmpty<T>(a: seq<T>)
    ensures a + [] == a && [] + a == a
  {
  }

  lemma UpdateTwice<T>(t: seq<T>, n: nat, a: T, b: T)
    requires n < |t|
    ensures t[n := a][n := b] == t[n := b]
  {
  }

  /** Two sequences with a first element are equal exactly when heads and tails are. */
  lemma ConsEqual<T>(a: T, x: seq<T>, b: T, y: seq<T>)
    ensures [a] + x == [b] + y <==> a == b && x == y
  {
    if [a] + x == [b] + y {
      assert a == ([a] + x)[0] && x == ([a] + x)[1..];
    }
  }
}
