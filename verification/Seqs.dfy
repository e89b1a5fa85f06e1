/** Equalities between sequences that the verifier only sees when they are named. */
module Seqs {
  lemma Assoc<T>(a: seq<T>, b: seq<T>, c: seq<T>)
    ensures a + b + c == a + (b + c)
  {
  }

  lemma Assoc4<T>(a: seq<T>, b: seq<T>, c: seq<T>, d: seq<T>)
    ensures a + b + c + d == a + (b + c + d) == a + (b + (c + d)) == a + b + (c + d) == a + (b + c) + d
  {
  }

  lemma Empty<T>(a: seq<T>)
    ensures [] + a == a && a + [] == a
  {
  }

  lemma Whole<T>(a: seq<T>)
    ensures a[0..] == a && a[|a|..] == []
  {
  }

  lemma HeadTail<T>(a: seq<T>)
    requires a != []
    ensures a == [a[0]] + a[1..] && (a[1..] == [] ==> a == [a[0]])
  {
  }

  lemma Rejoin<T>(a: seq<T>, k: nat)
    requires k <= |a|
    ensures a[..k] + a[k..] == a
  {
  }

  /** The two halves of a sum. */
  lemma Halves<T>(a: seq<T>, b: seq<T>)
    ensures (a + b)[..|a|] == a && (a + b)[|a|..] == b
    ensures a != [] ==> (a + b)[0] == a[0]
  {
  }

  lemma TailOfSum<T>(a: seq<T>, b: seq<T>)
    requires a != []
    ensures (a + b)[1..] == a[1..] + b
  {
  }

  lemma Tail<T>(a: seq<T>, j: nat)
    requires j < |a|
    ensures a[j..] != [] && a[j..][0] == a[j] && a[j..][1..] == a[j + 1..]
  {
  }

  lemma Part<T>(a: seq<T>, i: nat, j: nat)
    requires i <= j <= |a|
    ensures a[i..][..j - i] == a[i..j] && a[i..][j - i..] == a[j..]
  {
  }

  lemma Longer<T>(a: seq<T>, i: nat, j: nat)
    requires i <= j < |a|
    ensures a[i..j + 1] == a[i..j] + [a[j]]
  {
  }
}
