/** The data set as linked nodes. `Valid` ties the nodes to the plain tree `T`; every
    operation keeps it and changes `T` as the specification of HdfSpec says. */
module HdfStore {
  import opened Options
  import opened HdfTree
  import opened HdfAttrs
  import opened HdfNames
  import opened HdfLevel
  import S = HdfSpec
  import R = HdfRemove

  /** A null link target reads as the empty name. */
  function LinkTarget(v: Option<string>): string
  {
    match v
    case Some(s) => s
    case None => ""
  }

  class HdfStore {
    const root: Hdf
    const forceHashAt: nat
    ghost var T: Tree
    ghost var nodes: set<Hdf>
    /** Nodes that have been unlinked; a search cache may still point at them. */
    ghost var dead: set<Hdf>

    /** The children of a node belong to the data set and have it as their parent. */
    ghost predicate ShapeOk()
      reads `nodes, nodes`kids
    {
      && root in nodes && root.path == []
      && (forall n, k :: n in nodes && k in n.kids ==>
            k in nodes && k.parent == n && k.path == n.path + [k.name] && IsComponent(k.name))
      && (forall a, b :: a in nodes && b in nodes && a != b ==> a.path != b.path)
    }

    ghost predicate LevelsOk()
      requires ShapeOk()
      reads `nodes, nodes`child, nodes`next, nodes`lastChild, nodes`kids, nodes`hash
    {
      forall n {:trigger n.LevelOk()} :: n in nodes ==> n.LevelOk()
    }

    ghost predicate CachesOk()
      reads `nodes, `dead, nodes`kids, nodes`lastHs
    {
      forall n {:trigger n.CacheOk(dead)} :: n in nodes ==> n.CacheOk(dead)
    }

    ghost predicate DeadOk()
      reads `nodes, `dead, dead`next
    {
      nodes !! dead && forall d :: d in dead ==> d.next == null
    }

    /** Every node shows what the tree has at its path. */
    ghost predicate TreeOk()
      reads `T, `nodes, nodes`value, nodes`link, nodes`attr, nodes`kids
    {
      forall n {:trigger n.Facts()} :: n in nodes ==> Shallow(T, n.path) == Some(n.Facts())
    }

    ghost predicate Valid()
      reads this, nodes, dead
    {
      ShapeOk() && LevelsOk() && CachesOk() && DeadOk() && TreeOk()
    }

    constructor (forceHashAt: nat)
      ensures Valid() && fresh(nodes) && fresh(this) && dead == {}
      ensures T == EmptyRoot && nodes == {root} && this.forceHashAt == forceHashAt
    {
      this.forceHashAt := forceHashAt;
      var r := new Hdf("", EmptyData, null, []);
      root := r;
      T, nodes, dead := EmptyRoot, {r}, {};
    }

    /** A child is missing from the list exactly when the tree has nothing at its path. */
    lemma KidPresence(hn: Hdf, c: string)
      requires Valid() && hn in nodes
      ensures Has(T, hn.path)
      ensures Has(T, hn.path + [c]) <==> exists k :: k in hn.kids && k.name == c
    {
      GetKid(T, hn.path, c);
      assert hn.Facts().names == Names(Get(T, hn.path).value.kids);
      if exists k :: k in hn.kids && k.name == c {
        var i :| 0 <= i < |hn.kids| && hn.kids[i].name == c;
        assert NamesOf(hn.kids)[i] == c;
      }
      if Has(T, hn.path + [c]) {
        var i :| 0 <= i < |NamesOf(hn.kids)| && NamesOf(hn.kids)[i] == c;
        assert hn.kids[i] in hn.kids;
      }
    }

    /** The cache of a level may change freely within its bounds. */
    method SearchAt(hn: Hdf, c: string) returns (hp: Hdf?, hs: Hdf?, count: nat)
      requires Valid() && hn in nodes
      modifies hn`lastHp, hn`lastHs
      ensures Valid()
      ensures hp == null ==> !Has(T, hn.path + [c])
      ensures hp == null ==> forall k :: k in hn.kids ==> k.name != c
      ensures hp == null && hn.kids != [] ==> hs == hn.kids[|hn.kids| - 1]
      ensures hp == null && hn.hash.None? ==> count == |hn.kids|
      ensures hp != null ==> hp in hn.kids && hp.name == c && Has(T, hn.path + [c])
      ensures hp != null ==> hp in nodes && hp.path == hn.path + [c]
    {
      KidPresence(hn, c);
      assert hn.LevelOk() && hn.CacheOk(dead);
      hp, hs, count := hn.Search(c, dead);
      assert CachesOk() by {
        forall n | n in nodes
          ensures n.CacheOk(dead)
        {
          assert old(n.CacheOk(dead));
        }
      }
    }

    twostate lemma KidsApart(hn: Hdf, new n: Hdf)
      requires old(ShapeOk()) && hn in old(nodes) && n in old(nodes) && n != hn
      requires n.kids == old(n.kids)
      requires forall m :: m in old(nodes) && m !in old(hn.kids) ==> m.next == old(m.next)
      ensures forall k :: k in n.kids ==> k.next == old(k.next)
    {
      forall k | k in n.kids
        ensures k.next == old(k.next)
      {
        assert k.parent == n && k in old(nodes);
      }
    }

    /** Only the list of `hn` has been edited, and only nodes of that list moved; so every
        other level is as it was. */
    twostate lemma LevelsKept(hn: Hdf)
      requires hn in old(nodes) && hn in nodes && hn.LevelOk()
      requires old(ShapeOk()) && old(LevelsOk()) && ShapeOk()
      requires forall n :: n in nodes && n !in old(nodes) ==> n.LevelOk()
      requires forall n :: n in nodes && n in old(nodes) && n != hn ==>
        n.child == old(n.child) && n.lastChild == old(n.lastChild) &&
        n.kids == old(n.kids) && n.hash == old(n.hash)
      requires forall n :: n in old(nodes) && n !in old(hn.kids) ==> n.next == old(n.next)
      ensures LevelsOk()
    {
      forall n | n in nodes
        ensures n.LevelOk()
      {
        if n != hn && n in old(nodes) {
          assert old(n.LevelOk());
          KidsApart(hn, n);
        }
      }
    }

    twostate lemma ShapeGrown(hn: Hdf, new hp: Hdf)
      requires old(ShapeOk()) && hn in old(nodes)
      requires nodes == old(nodes) + {hp} && hn != hp
      requires forall n :: n in old(nodes) ==> n.path != hp.path
      requires hn.kids == old(hn.kids) + [hp] && hp.kids == []
      requires hp.parent == hn && hp.path == hn.path + [hp.name] && IsComponent(hp.name)
      requires forall n :: n in old(nodes) && n != hn ==> n.kids == old(n.kids)
      ensures ShapeOk()
    {
    }

    lemma NamesGrown(kids: seq<Hdf>, hp: Hdf)
      ensures NamesOf(kids + [hp]) == NamesOf(kids) + [hp.name]
    {
    }

    /** No other node is where `hn` is, and none is where the new node is. */
    twostate lemma PathsApart(hn: Hdf, new hp: Hdf)
      requires old(ShapeOk()) && old(TreeOk()) && hn in old(nodes)
      requires hp.path == hn.path + [hp.name] && !Has(old(T), hp.path)
      ensures forall n :: n in old(nodes) && n != hn ==> n.path != hn.path
      ensures forall n :: n in old(nodes) ==> n.path != hp.path
      ensures Shallow(old(T), hn.path) == Some(old(hn.Facts()))
      ensures Has(old(T), hn.path) && Get(old(T), hn.path).value.data == old(hn.Facts()).data
    {
      forall n | n in old(nodes)
        ensures n.path != hp.path
      {
        assert Shallow(old(T), n.path) == Some(old(n.Facts()));
      }
    }

    twostate lemma TreeGrown(hn: Hdf, new hp: Hdf, new d: Data)
      requires old(ShapeOk()) && old(TreeOk()) && hn in old(nodes)
      requires nodes == old(nodes) + {hp} && hp !in old(nodes) && hp.path == hn.path + [hp.name]
      requires Has(old(T), hn.path)
      requires !Has(old(T), hp.path)
      requires hn.kids == old(hn.kids) + [hp] && hp.Facts() == Entry(d, [])
      requires forall n :: n in old(nodes) ==>
        n.value == old(n.value) && n.link == old(n.link) && n.attr == old(n.attr)
      requires forall n :: n in old(nodes) && n != hn ==> n.kids == old(n.kids)
      requires T == S.AddKid(old(T), hn.path, Tree(hp.name, d, []))
      ensures TreeOk()
    {
      hide S.AddKid, Shallow, HdfStore.ShapeOk;
      NamesGrown(old(hn.kids), hp);
      PathsApart(hn, hp);
      forall n | n in nodes
        ensures Shallow(T, n.path) == Some(n.Facts())
      {
        S.AddKidShallow(old(T), hn.path, Tree(hp.name, d, []), n.path);
        if n != hp {
          assert Shallow(old(T), n.path) == Some(old(n.Facts()));
        }
      }
    }

    /** A child leaves a list only by being retired, so no cache is left dangling. */
    twostate lemma CachesKept()
      requires old(CachesOk()) && old(dead) <= dead
      requires forall n :: n in nodes && n in old(nodes) ==> n.lastHs == old(n.lastHs)
      requires forall n :: n in nodes && n !in old(nodes) ==> n.lastHs == null
      requires forall n, k :: n in nodes && n in old(nodes) && k in old(n.kids) ==>
        k in n.kids || k in dead
      ensures CachesOk()
    {
      forall n | n in nodes
        ensures n.CacheOk(dead)
      {
        if n in old(nodes) {
          assert old(n.CacheOk(dead));
        }
      }
    }

    lemma Absent(hn: Hdf, c: string)
      requires Valid() && hn in nodes && !Has(T, hn.path + [c])
      ensures Has(T, hn.path)
      ensures forall k :: k in hn.kids ==> k.name != c
      ensures forall n :: n in nodes ==> n.path != hn.path + [c]
    {
      KidPresence(hn, c);
      forall n | n in nodes
        ensures n.path != hn.path + [c]
      {
        assert Shallow(T, n.path) == Some(n.Facts());
      }
    }

    /** What appending a child has done to the nodes, before the tree is adjusted. */
    twostate predicate Linked(new hn: Hdf, new hp: Hdf, was: set<Hdf>)
      reads was, hp
    {
      && hn in was && hn != hp && hp.parent == hn && hp.path == hn.path + [hp.name]
      && (forall k :: k in old(hn.kids) ==> k in was)
      && hn.kids == old(hn.kids) + [hp] && hp.kids == []
      && hn.LevelOk() && hp.LevelOk() && hp.lastHs == null
      && hn.lastHs == old(hn.lastHs)
      && (forall n :: n in was && n != hn ==>
            n.child == old(n.child) && n.lastChild == old(n.lastChild) && n.kids == old(n.kids) &&
            n.hash == old(n.hash) && n.lastHs == old(n.lastHs))
      && (forall n :: n in was ==>
            n.value == old(n.value) && n.link == old(n.link) && n.attr == old(n.attr))
      && (forall n :: n in was && n !in old(hn.kids) ==> n.next == old(n.next))
    }

    method Link(hn: Hdf, c: string, d: Data, hs: Hdf?, count: nat) returns (hp: Hdf)
      requires Valid() && hn in nodes && Has(T, hn.path)
      requires forall k :: k in hn.kids ==> k.name != c
      requires hn.kids != [] ==> hs == hn.kids[|hn.kids| - 1]
      modifies this`T, this`nodes, nodes
      ensures fresh(hp) && hp.name == c && hp.Facts() == Entry(d, [])
      ensures T == S.AddKid(old(T), hn.path, Tree(c, d, [])) && nodes == old(nodes) + {hp}
      ensures DeadOk()
      ensures Linked(hn, hp, old(nodes))
    {
      hide Hdf.ListOk, Hdf.NamesOk, Hdf.HashOk, S.AddKid;
      assert hn.LevelOk();
      hp := new Hdf(c, d, hn, hn.path + [c]);
      T, nodes := S.AddKid(T, hn.path, Tree(c, d, [])), nodes + {hp};
      hn.Append(hp, hs, count, forceHashAt);
    }

    twostate lemma ValidGrown(hn: Hdf, new hp: Hdf, new d: Data)
      requires old(Valid()) && hn in old(nodes) && dead == old(dead) && DeadOk()
      requires nodes == old(nodes) + {hp} && hp !in old(nodes)
      requires Linked(hn, hp, old(nodes)) && hp.Facts() == Entry(d, []) && IsComponent(hp.name)
      requires forall n :: n in old(nodes) ==> n.path != hp.path
      requires Has(old(T), hn.path)
      requires !Has(old(T), hp.path)
      requires T == S.AddKid(old(T), hn.path, Tree(hp.name, d, []))
      ensures Valid()
    {
      ShapeGrown(hn, hp);
      LevelsKept(hn);
      TreeGrown(hn, hp, d);
      CachesKept();
    }

    method Extend(hn: Hdf, c: string, d: Data, hs: Hdf?, count: nat) returns (hp: Hdf)
      requires Valid() && hn in nodes && !Has(T, hn.path + [c]) && IsComponent(c)
      requires hn.kids != [] ==> hs == hn.kids[|hn.kids| - 1]
      modifies this`T, this`nodes, nodes
      ensures Valid() && fresh(hp) && nodes == old(nodes) + {hp} && hp.path == hn.path + [c]
      ensures Has(old(T), hn.path) && T == S.AddKid(old(T), hn.path, Tree(c, d, []))
    {
      Absent(hn, c);
      hp := Link(hn, c, d, hs, count);
      ValidGrown(hn, hp, d);
    }

    twostate lemma TreeOverwritten(hp: Hdf, new d: Data)
      requires old(ShapeOk()) && old(TreeOk()) && hp in old(nodes) && nodes == old(nodes)
      requires forall n :: n in nodes ==> n.kids == old(n.kids)
      requires forall n :: n in nodes && n != hp ==>
        n.value == old(n.value) && n.link == old(n.link) && n.attr == old(n.attr)
      requires Data(hp.value, hp.link, hp.attr) == d
      requires Has(old(T), hp.path)
      requires T == S.SetData(old(T), hp.path, d)
      ensures TreeOk()
    {
      forall n | n in nodes
        ensures Shallow(T, n.path) == Some(n.Facts())
      {
        S.SetDataShallow(old(T), hp.path, d, n.path);
        assert Shallow(old(T), n.path) == Some(old(n.Facts()));
      }
    }

    /** The node's own entry in the tree. */
    lemma Shown(n: Hdf)
      requires Valid() && n in nodes
      ensures Has(T, n.path) && Get(T, n.path).value.data == Data(n.value, n.link, n.attr)
    {
      assert Shallow(T, n.path) == Some(n.Facts());
    }

    method Overwrite(hp: Hdf, d: Data)
      requires Valid() && hp in nodes
      modifies this`T, hp`value, hp`link, hp`attr
      ensures Valid() && Has(old(T), hp.path) && T == S.SetData(old(T), hp.path, d)
    {
      Shown(hp);
      T := S.SetData(T, hp.path, d);
      hp.Assign(d);
      TreeOverwritten(hp, d);
    }

    /** What one round of the loop of `_set_value` leaves behind when no link redirects it. */
    ghost function Entered(t: Tree, p: Path, c: string, d: Data, last: bool): Tree
      requires Has(t, p)
    {
      var q := p + [c];
      if !Has(t, q) then S.AddKid(t, p, Tree(c, if last then d else EmptyData, []))
      else if last then S.SetData(t, q, S.Assigned(Get(t, q).value.data, d))
      else t
    }

    lemma {:induction false} Round(t: Tree, base: Path, p: Path, n: string, d: Data, fuel: nat)
      requires Has(t, base) && Has(t, p) && Head(n) != ""
      ensures var t2, q := Entered(t, p, Head(n), d, !HasDot(n)), p + [Head(n)];
        Has(t2, base) && Has(t2, q) &&
        var goal, now := S.SetSteps(t, base, p, n, d, fuel), Get(t2, q).value.data;
        if !HasDot(n) then goal == S.Done(t2, q)
        else if !now.link then goal == S.SetSteps(t2, base, q, Rest(n), d, fuel)
        else if now.value.None? || fuel == 0 then goal.Aborted?
        else t2 == t && goal == S.SetValue(t, base, now.value.value + "." + Rest(n), d, fuel - 1)
    {
      var q := p + [Head(n)];
      if !Has(t, q) {
        var k := Tree(Head(n), if HasDot(n) then EmptyData else d, []);
        S.AddKidShallow(t, p, k, base);
        S.AddKidShallow(t, p, k, q);
      } else if !HasDot(n) {
        S.SetDataShallow(t, q, S.Assigned(Get(t, q).value.data, d), base);
        S.SetDataShallow(t, q, S.Assigned(Get(t, q).value.data, d), q);
      }
    }

    method Enter(hn: Hdf, c: string, d: Data, last: bool) returns (hp: Hdf)
      requires Valid() && hn in nodes && Has(T, hn.path) && IsComponent(c)
      modifies this`T, this`nodes, nodes
      ensures Valid() && old(nodes) <= nodes && fresh(nodes - old(nodes))
      ensures hp in nodes && hp.path == hn.path + [c] && Has(T, hp.path)
      ensures Get(T, hp.path).value.data == Data(hp.value, hp.link, hp.attr)
      ensures T == Entered(old(T), hn.path, c, d, last)
    {
      var found, hs, count := SearchAt(hn, c);
      if found == null {
        hp := Extend(hn, c, if last then d else EmptyData, hs, count);
      } else {
        hp := found;
        Shown(hp);
        if last {
          Overwrite(hp, S.Assigned(Data(hp.value, hp.link, hp.attr), d));
        }
      }
      Shown(hp);
    }

    /** One round of the loop, related to what remains to be done. */
    method AssignStep(hdf: Hdf, hn: Hdf, n: string, d: Data, ghost fuel: nat) returns (hp: Hdf)
      requires Valid() && hn in nodes && Has(T, hdf.path) && Has(T, hn.path) && Head(n) != ""
      requires !S.SetSteps(T, hdf.path, hn.path, n, d, fuel).Aborted?
      modifies this`T, this`nodes, nodes
      ensures Valid() && old(nodes) <= nodes && fresh(nodes - old(nodes)) && hp in nodes
      ensures Has(T, hdf.path) && Has(T, hp.path)
      ensures var goal := S.SetSteps(old(T), hdf.path, hn.path, n, d, fuel);
        if !HasDot(n) then goal == S.Done(T, hp.path)
        else if !hp.link then goal == S.SetSteps(T, hdf.path, hp.path, Rest(n), d, fuel)
        else
          hp.value.Some? && fuel > 0 &&
          goal == S.SetValue(T, hdf.path, hp.value.value + "." + Rest(n), d, fuel - 1)
    {
      Round(T, hdf.path, hn.path, n, d, fuel);
      hp := Enter(hn, Head(n), d, !HasDot(n));
    }

    lemma SetStops(t: Tree, base: Path, p: Path, n: string, d: Data, fuel: nat)
      requires Has(t, base) && Has(t, p) && Head(n) == ""
      ensures S.SetSteps(t, base, p, n, d, fuel) == S.EmptyComponent(t)
    {
    }

    /** `_set_value`: the loop over the components of the name. It may be called whenever
        the assignment comes to an end on the tree. */
    method SetValue(hdf: Hdf, name: string, d: Data, ghost fuel: nat)
      returns (ok: bool, node: Hdf?)
      requires Valid() && hdf in nodes && Has(T, hdf.path)
      requires !S.SetValue(T, hdf.path, name, d, fuel).Aborted?
      modifies this`T, this`nodes, nodes
      ensures Valid() && old(nodes) <= nodes && fresh(nodes - old(nodes))
      ensures var r := S.SetValue(old(T), hdf.path, name, d, fuel);
        T == r.tree && ok == r.Done? &&
        (ok ==> node != null && node in nodes && node.path == r.path)
      decreases fuel
    {
      hide HdfStore.Valid, S.SetValue, S.SetSteps;
      S.NameUnfolded(T, hdf.path, name, d, fuel);
      if name == "" {
        Shown(hdf);
        Overwrite(hdf, Data(d.value, hdf.link, Combine(hdf.attr, d.attrs)));
        return true, hdf;
      }
      ghost var goal := S.SetValue(T, hdf.path, name, d, fuel);
      var hn, n := hdf, name;
      while Head(n) != ""
        invariant Valid() && hn in nodes && Has(T, hdf.path) && Has(T, hn.path)
        invariant old(nodes) <= nodes && fresh(nodes - old(nodes))
        invariant S.SetSteps(T, hdf.path, hn.path, n, d, fuel) == goal
        decreases |n|
      {
        var hp := AssignStep(hdf, hn, n, d, fuel);
        if !HasDot(n) {
          return true, hp;
        }
        if hp.link {
          var newName := hp.value.value + "." + Rest(n);
          ok, node := SetValue(hdf, newName, d, fuel - 1);
          return;
        }
        n, hn := Rest(n), hp;
      }
      SetStops(T, hdf.path, hn.path, n, d, fuel);
      return false, null;
    }

    lemma WalkRound(t: Tree, p: Path, n: string, fuel: nat)
      requires Has(t, p) && !S.Steps(t, p, n, fuel).Stuck?
      ensures var goal, q := S.Steps(t, p, n, fuel), p + [Head(n)];
        if !Has(t, q) then goal.Missing?
        else
          var r := S.Resolve(t, q, fuel);
          !r.Stuck? && goal == if HasDot(n) && r.Found? then S.Steps(t, r.path, Rest(n), fuel) else r
    {
    }

    method Lookup(parent: Hdf, c: string) returns (node: Hdf?)
      requires Valid() && parent in nodes
      ensures node == null <==> !Has(T, parent.path + [c])
      ensures node != null ==> node in nodes && node.path == parent.path + [c]
      ensures node != null ==> Get(T, node.path).value.data == Data(node.value, node.link, node.attr)
    {
      KidPresence(parent, c);
      assert parent.LevelOk();
      node := parent.FindChild(c);
      if node != null {
        Shown(node);
      }
    }

    /** The node itself, or the node its link leads to. */
    method Follow(node: Hdf, ghost fuel: nat) returns (r: Hdf?)
      requires Valid() && node in nodes && Has(T, node.path)
      requires !S.Resolve(T, node.path, fuel).Stuck?
      ensures var goal := S.Resolve(T, node.path, fuel);
        if goal.Found? then r != null && r in nodes && r.path == goal.path else r == null
      decreases fuel, 0
    {
      Shown(node);
      r := node;
      if node.link {
        Shown(root);
        r := Walk(root, LinkTarget(node.value), fuel - 1);
      }
    }

    /** One component of a walk: the child of that name, or what it links to. */
    method Step(parent: Hdf, n: string, ghost fuel: nat) returns (node: Hdf?)
      requires Valid() && parent in nodes && Has(T, parent.path)
      requires !S.Steps(T, parent.path, n, fuel).Stuck?
      ensures var goal := S.Steps(T, parent.path, n, fuel);
        if node == null then goal.Missing?
        else
          node in nodes && Has(T, node.path) &&
          goal == if HasDot(n) then S.Steps(T, node.path, Rest(n), fuel) else S.Found(node.path)
      decreases fuel, 1
    {
      WalkRound(T, parent.path, n, fuel);
      node := Lookup(parent, Head(n));
      if node != null {
        node := Follow(node, fuel);
      }
    }

    /** `_walk_hdf`. It may be called whenever following the links comes to an end. */
    method Walk(hdf: Hdf, name: string, ghost fuel: nat) returns (node: Hdf?)
      requires Valid() && hdf in nodes && Has(T, hdf.path)
      requires !S.Walk(T, hdf.path, name, fuel).Stuck?
      ensures var r := S.Walk(T, hdf.path, name, fuel);
        if r.Found? then node != null && node in nodes && node.path == r.path else node == null
      decreases fuel, 2
    {
      if name == "" {
        return hdf;
      }
      var parent := Follow(hdf, fuel);
      if parent == null {
        return null;
      }
      ghost var goal := S.Walk(T, hdf.path, name, fuel);
      var n := name;
      while true
        invariant parent in nodes && Has(T, parent.path)
        invariant S.Steps(T, parent.path, n, fuel) == goal
        decreases |n|
      {
        node := Step(parent, n, fuel);
        if node == null || !HasDot(n) {
          return;
        }
        parent, n := node, Rest(n);
      }
    }

    // ---- removing a subtree -------------------------------------------------------------

    /** The nodes that are not at or below `p`. */
    ghost function Outside(ns: set<Hdf>, p: Path): set<Hdf>
    {
      set n | n in ns && !(p <= n.path)
    }

    twostate lemma ShapePruned(lp: Hdf, new hp: Hdf, new i: nat)
      requires old(ShapeOk()) && lp in old(nodes) && i < |old(lp.kids)| && hp == old(lp.kids)[i]
      requires old(lp.NamesOk())
      requires nodes == Outside(old(nodes), hp.path)
      requires lp.kids == R.Without(old(lp.kids), i)
      requires forall n :: n in old(nodes) && n != lp ==> n.kids == old(n.kids)
      ensures ShapeOk() && lp in nodes && hp !in nodes
    {
      LeavingList(old(lp.kids), i);
      assert |hp.path| > |lp.path| && hp.parent == lp;
      forall n, k | n in nodes && k in n.kids
        ensures k in nodes && k.parent == n && k.path == n.path + [k.name] && IsComponent(k.name)
      {
        assert k in old(n.kids);
      }
    }

    twostate lemma TreePruned(lp: Hdf, new hp: Hdf, new i: nat)
      requires old(ShapeOk()) && old(TreeOk()) && lp in old(nodes) && old(lp.NamesOk())
      requires i < |old(lp.kids)| && hp == old(lp.kids)[i]
      requires nodes == Outside(old(nodes), hp.path)
      requires lp.kids == R.Without(old(lp.kids), i)
      requires forall n :: n in old(nodes) ==>
        n.value == old(n.value) && n.link == old(n.link) && n.attr == old(n.attr)
      requires forall n :: n in old(nodes) && n != lp ==> n.kids == old(n.kids)
      requires Has(old(T), lp.path)
      requires T == R.RemoveAt(old(T), lp.path, hp.name)
      ensures TreeOk()
    {
      assert old(lp.Facts()).names == NamesOf(old(lp.kids));
      NamesWithout(old(lp.kids), i);
      var kids := Get(old(T), lp.path).value.kids;
      assert Names(kids)[i] == hp.name;
      IndexUnique(kids, i);
      forall n | n in nodes
        ensures Shallow(T, n.path) == Some(n.Facts())
      {
        assert Shallow(old(T), n.path) == Some(old(n.Facts()));
        assert hp.path == lp.path + [hp.name];
        R.RemoveShallow(old(T), lp.path, hp.name, n.path);
      }
    }

    lemma NamesWithout(kids: seq<Hdf>, i: nat)
      requires i < |kids|
      ensures NamesOf(R.Without(kids, i)) == R.Without(NamesOf(kids), i)
    {
      var a, b := NamesOf(R.Without(kids, i)), R.Without(NamesOf(kids), i);
      assert forall j :: 0 <= j < |a| ==> a[j] == b[j];
    }

    /** What taking a child out has done to the nodes of the data set. */
    twostate predicate CutOut(new lp: Hdf, new hp: Hdf, new i: nat, was: set<Hdf>)
      reads this, was
    {
      && was == old(nodes) && lp in was && i < |old(lp.kids)| && hp == old(lp.kids)[i]
      && nodes == Outside(was, hp.path) && dead == old(dead) + {hp}
      && lp.kids == R.Without(old(lp.kids), i) && lp.lastHs == old(lp.lastHs)
      && (forall n :: n in was && n != lp ==>
            n.child == old(n.child) && n.lastChild == old(n.lastChild) && n.kids == old(n.kids) &&
            n.hash == old(n.hash) && n.lastHs == old(n.lastHs))
      && (forall n :: n in was ==>
            n.value == old(n.value) && n.link == old(n.link) && n.attr == old(n.attr))
      && (forall n :: n in was && n !in old(lp.kids) ==> n.next == old(n.next))
    }

    method Cut(lp: Hdf, hp: Hdf, ln: Hdf?, ghost i: nat)
      requires lp in nodes && (forall k :: k in lp.kids ==> k in nodes) && lp.LevelOk()
      requires i < |lp.kids| && lp.kids[i] == hp && nodes !! dead
      requires ln == if i == 0 then null else lp.kids[i - 1]
      requires Has(T, lp.path)
      modifies this`T, this`nodes, this`dead, nodes
      ensures T == R.RemoveAt(old(T), lp.path, hp.name)
      ensures CutOut(lp, hp, i, old(nodes)) && lp.LevelOk() && hp.next == null
      ensures forall d :: d in old(dead) ==> d.next == old(d.next)
    {
      hide Hdf.ListOk, Hdf.NamesOk, Hdf.HashOk, R.RemoveAt;
      lp.Unlink(hp, ln, i);
      T, nodes, dead := R.RemoveAt(T, lp.path, hp.name), Outside(nodes, hp.path), dead + {hp};
    }

    twostate lemma ValidPruned(lp: Hdf, new hp: Hdf, new i: nat)
      requires old(Valid()) && CutOut(lp, hp, i, old(nodes)) && lp.LevelOk() && hp.next == null
      requires forall d :: d in old(dead) ==> d.next == old(d.next)
      requires Has(old(T), lp.path)
      requires T == R.RemoveAt(old(T), lp.path, hp.name)
      ensures Valid()
    {
      assert old(lp.LevelOk());
      ShapePruned(lp, hp, i);
      LevelsKept(lp);
      TreePruned(lp, hp, i);
      LeavingList(old(lp.kids), i);
      CachesKept();
    }

    method Prune(lp: Hdf, hp: Hdf, ln: Hdf?, ghost i: nat)
      requires Valid() && lp in nodes && i < |lp.kids| && lp.kids[i] == hp
      requires ln == if i == 0 then null else lp.kids[i - 1]
      modifies this`T, this`nodes, this`dead, nodes
      ensures Valid() && nodes == Outside(old(nodes), hp.path) && dead == old(dead) + {hp}
      ensures Has(old(T), lp.path) && T == R.RemoveAt(old(T), lp.path, hp.name)
    {
      Shown(lp);
      assert lp.LevelOk();
      Cut(lp, hp, ln, i);
      ValidPruned(lp, hp, i);
    }

    method ScanAt(lp: Hdf, c: string) returns (hp: Hdf?, ln: Hdf?, ghost i: nat)
      requires Valid() && lp in nodes
      ensures hp == null <==> !Has(T, lp.path + [c])
      ensures hp != null ==> hp in nodes && hp.path == lp.path + [c] && hp.name == c
      ensures hp != null ==> i < |lp.kids| && lp.kids[i] == hp && (ln == if i == 0 then null else lp.kids[i - 1])
    {
      KidPresence(lp, c);
      assert lp.LevelOk();
      hp, ln, i := lp.Scan(c);
    }

    /** The loop of `hdf_remove_tree`: the node to go, its parent and its predecessor. */
    method Locate(hdf: Hdf, name: string) returns (lp: Hdf, hp: Hdf?, ln: Hdf?, ghost i: nat)
      requires Valid() && hdf in nodes && Has(T, hdf.path)
      ensures lp in nodes && Has(T, lp.path)
      ensures hp == null ==> R.RemoveTree(T, hdf.path, name) == T
      ensures hp != null ==> i < |lp.kids| && lp.kids[i] == hp && (ln == if i == 0 then null else lp.kids[i - 1])
      ensures hp != null ==> R.RemoveTree(T, hdf.path, name) == R.RemoveAt(T, lp.path, hp.name)
    {
      hide HdfStore.Valid, R.RemoveTree, R.RemoveAt;
      ghost var goal := R.RemoveTree(T, hdf.path, name);
      lp := hdf;
      var n := name;
      while true
        invariant lp in nodes && Has(T, lp.path)
        invariant R.RemoveTree(T, lp.path, n) == goal
        decreases |n|
      {
        R.RemoveUnfolded(T, lp.path, n);
        hp, ln, i := ScanAt(lp, Head(n));
        if hp == null || !HasDot(n) {
          return;
        }
        lp, n := hp, Rest(n);
      }
    }

    /** `hdf_remove_tree`. */
    method RemoveTree(hdf: Hdf, name: string)
      requires Valid() && hdf in nodes && Has(T, hdf.path)
      modifies this`T, this`nodes, this`dead, nodes
      ensures Valid() && nodes <= old(nodes)
      ensures T == R.RemoveTree(old(T), hdf.path, name)
    {
      var lp, hp, ln, i := Locate(hdf, name);
      if hp != null {
        Prune(lp, hp, ln, i);
      }
    }
  }
}
