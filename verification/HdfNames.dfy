/** Dotted names: the loops of `_walk_hdf` and `_set_value` take a name apart with strchr,
    one component at a time. */
module HdfNames {
  import opened HdfTree

  /** The index of the first dot, or the length (strchr and strlen). */
  function Dot(n: string): (i: nat)
    ensures i <= |n|
    ensures i < |n| ==> n[i] == '.'
    ensures forall j :: 0 <= j < i ==> n[j] != '.'
  {
    if n == "" || n[0] == '.' then 0 else 1 + Dot(n[1..])
  }

  predicate HasDot(n: string)
  {
    Dot(n) < |n|
  }

  function Head(n: string): (c: string)
    ensures |c| <= |n| && '.' !in c
  {
    n[..Dot(n)]
  }

  function Rest(n: string): (r: string)
    requires HasDot(n)
    ensures |r| < |n|
    ensures n == Head(n) + "." + r
  {
    n[Dot(n) + 1..]
  }

  function Components(n: string): (r: Path)
    ensures r != []
    decreases |n|
  {
    if HasDot(n) then [Head(n)] + Components(Rest(n)) else [n]
  }

  predicate IsComponent(c: string)
  {
    c != "" && '.' !in c
  }

  lemma {:induction false} DotOfHead(c: string, r: string)
    requires '.' !in c
    ensures Dot(c) == |c| && !HasDot(c) && Head(c) == c
    ensures HasDot(c + "." + r) && Head(c + "." + r) == c && Rest(c + "." + r) == r
  {
    var n := c + "." + r;
    assert n[|c|] == '.';
    assert forall j :: 0 <= j < |c| ==> n[j] == c[j];
    assert c[..|c|] == c && n[..|c|] == c && n[|c| + 1..] == r;
  }
}
