/** Names spelled out from paths, and the ways through a tree on which no link stands. */
module HdfWays {
  import opened HdfTree
  import opened HdfNames
  import opened HdfSpec

  // ---- dotted names -----------------------------------------------------------------

  function Join(path: Path): string
    requires path != []
  {
    if |path| == 1 then path[0] else path[0] + "." + Join(path[1..])
  }

  lemma {:induction false} JoinSnoc(path: Path, c: string)
    requires path != []
    ensures Join(path + [c]) == Join(path) + "." + c
    decreases |path|
  {
    if |path| == 1 {
      assert (path + [c])[1..] == [c];
    } else {
      assert (path + [c])[1..] == path[1..] + [c];
      JoinSnoc(path[1..], c);
      Dots(path[0], Join(path[1..]), c);
    }
  }

  lemma Dots(a: string, b: string, c: string)
    ensures a + "." + (b + "." + c) == a + "." + b + "." + c
  {
  }

  lemma {:induction false} JoinSplit(a: Path, b: Path)
    requires a != [] && b != []
    ensures Join(a + b) == Join(a) + "." + Join(b)
    decreases |a|
  {
    assert (a + b)[0] == a[0] && (a + b)[1..] == a[1..] + b;
    if |a| > 1 {
      JoinSplit(a[1..], b);
      Dots(a[0], Join(a[1..]), Join(b));
    } else {
      assert a[1..] + b == b;
    }
  }

  ghost predicate AllComponents(path: Path)
  {
    forall i :: 0 <= i < |path| ==> IsComponent(path[i])
  }

  /** No link stands on the way from `p` along `path`. */
  ghost predicate ClearWay(t: Tree, p: Path, path: Path)
  {
    forall i :: 0 <= i <= |path| ==> Has(t, p + path[..i]) && (i > 0 ==> !Get(t, p + path[..i]).value.data.link)
  }

  lemma ClearEnds(t: Tree, p: Path, path: Path)
    requires ClearWay(t, p, path)
    ensures Has(t, p) && Has(t, p + path)
  {
    assert path[..0] == [] && path[..|path|] == path;
    assert p + path[..0] == p;
  }

  lemma ClearStep(t: Tree, p: Path, path: Path)
    requires ClearWay(t, p, path) && path != []
    ensures Has(t, p + [path[0]]) && !Get(t, p + [path[0]]).value.data.link
    ensures ClearWay(t, p + [path[0]], path[1..]) && p + [path[0]] + path[1..] == p + path
  {
    assert path[..1] == [path[0]];
    forall i | 0 <= i <= |path[1..]|
      ensures p + [path[0]] + path[1..][..i] == p + path[..i + 1]
    {
    }
  }

  /** An assignment along existing plain nodes simply descends. */
  lemma {:induction false} SetAlong(t: Tree, base: Path, p: Path, path: Path, n: string, d: Data, fuel: nat)
    requires ClearWay(t, p, path) && Has(t, base) && path != [] && AllComponents(path)
    ensures Has(t, p + path) && Has(t, p)
    ensures SetSteps(t, base, p, Join(path) + "." + n, d, fuel) == SetSteps(t, base, p + path, n, d, fuel)
    decreases |path|
  {
    ClearEnds(t, p, path);
    ClearStep(t, p, path);
    DotOfHead(path[0], n);
    if |path| == 1 {
      assert path[1..] == [] && p + path == p + [path[0]];
    } else {
      Dots(path[0], Join(path[1..]), n);
      DotOfHead(path[0], Join(path[1..]) + "." + n);
      SetAlong(t, base, p + [path[0]], path[1..], n, d, fuel);
    }
  }

  /** A lookup along existing plain nodes simply descends. */
  lemma {:induction false} StepsAlong(t: Tree, p: Path, path: Path, n: string, fuel: nat)
    requires ClearWay(t, p, path) && path != [] && AllComponents(path)
    ensures Has(t, p + path) && Has(t, p)
    ensures Steps(t, p, Join(path) + "." + n, fuel) == Steps(t, p + path, n, fuel)
    decreases |path|
  {
    ClearEnds(t, p, path);
    ClearStep(t, p, path);
    DotOfHead(path[0], n);
    if |path| == 1 {
      assert path[1..] == [] && p + path == p + [path[0]];
    } else {
      Dots(path[0], Join(path[1..]), n);
      DotOfHead(path[0], Join(path[1..]) + "." + n);
      StepsAlong(t, p + [path[0]], path[1..], n, fuel);
    }
  }
}
