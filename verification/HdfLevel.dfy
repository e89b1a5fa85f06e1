/** One node of the linked structure and the sibling list below it: the list itself, the
    tail pointer, the hash index and the search cache. */
module HdfLevel {
  import opened Options
  import opened HdfTree
  import opened HdfRemove

  /** The names of a list of nodes; a name never changes. */
  ghost function NamesOf(kids: seq<Hdf>): (r: seq<string>)
    ensures |r| == |kids| && forall i :: 0 <= i < |kids| ==> r[i] == kids[i].name
  {
    seq(|kids|, i requires 0 <= i < |kids| => kids[i].name)
  }

  /** The node behind position `i` of a list. */
  ghost function After(kids: seq<Hdf>, i: nat): Hdf?
    requires i < |kids|
  {
    if i + 1 < |kids| then kids[i + 1] else null
  }

  /** No two of the nodes have the same name. */
  ghost predicate NamesDiffer(kids: seq<Hdf>)
  {
    forall i, j :: 0 <= i < j < |kids| ==> kids[i].name != kids[j].name
  }

  /** The index maps exactly the names of the nodes to them. */
  ghost predicate Maps(index: map<string, Hdf>, kids: seq<Hdf>)
  {
    && (forall k :: k in kids ==> k.name in index && index[k.name] == k)
    && (forall c :: c in index ==> index[c] in kids && index[c].name == c)
  }

  lemma MapsGrow(index: map<string, Hdf>, kids: seq<Hdf>, hp: Hdf)
    requires Maps(index, kids) && forall k :: k in kids ==> k.name != hp.name
    ensures Maps(index[hp.name := hp], kids + [hp])
  {
  }

  lemma MapsShrink(index: map<string, Hdf>, kids: seq<Hdf>, i: nat)
    requires Maps(index, kids) && NamesDiffer(kids) && i < |kids|
    ensures Maps(index - {kids[i].name}, Without(kids, i))
  {
    LeavingList(kids, i);
  }

  class Hdf {
    const name: string
    var value: Option<string>
    var link: bool
    var attr: seq<Attr>
    var child: Hdf?
    var next: Hdf?
    var lastChild: Hdf?
    var lastHp: Hdf?
    var lastHs: Hdf?
    var hash: Option<map<string, Hdf>>

    ghost const parent: Hdf?
    ghost const path: Path
    ghost var kids: seq<Hdf>

    constructor (name: string, d: Data, ghost parent: Hdf?, ghost path: Path)
      ensures this.name == name && Facts() == Entry(d, [])
      ensures this.parent == parent && this.path == path
      ensures next == null && kids == [] && LevelOk() && lastHs == null
    {
      this.name := name;
      value, link, attr := d.value, d.link, d.attrs;
      child, next, lastChild, lastHp, lastHs := null, null, null, null, null;
      hash := None;
      this.parent, this.path, kids := parent, path, [];
    }

    ghost function Facts(): Entry
      reads `value, `link, `attr, `kids
    {
      Entry(Data(value, link, attr), NamesOf(kids))
    }

    /** The list under this node is exactly `kids`, and the tail pointer is right unless the
        list is empty. */
    ghost predicate ListOk()
      reads `child, `lastChild, `kids, kids`next
    {
      && (if kids == [] then child == null else child == kids[0] && lastChild == kids[|kids| - 1])
      && (forall i {:trigger kids[i].next} :: 0 <= i < |kids| ==> kids[i].next == After(kids, i))
    }

    ghost predicate NamesOk()
      reads `kids
    {
      NamesDiffer(kids)
    }

    /** The hash, when there is one, maps exactly the names of the children to them. */
    ghost predicate HashOk()
      reads `kids, `hash
    {
      hash.Some? ==> Maps(hash.value, kids)
    }

    ghost predicate LevelOk()
      reads `child, `lastChild, `kids, `hash, kids`next
    {
      ListOk() && NamesOk() && HashOk()
    }

    /** The cached predecessor is a child, or one that has been taken out of the list. */
    ghost predicate CacheOk(dead: set<Hdf>)
      reads `kids, `lastHs
    {
      lastHs != null ==> lastHs in kids || lastHs in dead
    }

    method Assign(d: Data)
      modifies `value, `link, `attr
      ensures Data(value, link, attr) == d
    {
      value, link, attr := d.value, d.link, d.attrs;
    }

    /** The lookup of `_walk_hdf`: by hash when there is one, else along the list. */
    method FindChild(c: string) returns (hp: Hdf?)
      requires LevelOk()
      ensures hp == null ==> forall k :: k in kids ==> k.name != c
      ensures hp != null ==> hp in kids && hp.name == c
    {
      if hash.Some? {
        hp := if c in hash.value then hash.value[c] else null;
      } else {
        hp := child;
        ghost var i := 0;
        while hp != null
          invariant 0 <= i <= |kids| && hp == if i < |kids| then kids[i] else null
          invariant forall j :: 0 <= j < i ==> kids[j].name != c
          decreases |kids| - i
        {
          if hp.name == c {
            break;
          }
          hp, i := hp.next, i + 1;
        }
      }
    }

    /** The lookup of `_set_value`: the cache is believed when its two pointers are still
        neighbours and the name fits, and it is never wrong. A miss leaves in `hs` the node
        to append behind, and in `count` the length of an unhashed list. */
    method Search(c: string, ghost dead: set<Hdf>) returns (hp: Hdf?, hs: Hdf?, count: nat)
      requires LevelOk() && CacheOk(dead) && forall d :: d in dead ==> d.next == null
      modifies this`lastHp, this`lastHs
      ensures CacheOk(dead)
      ensures hp == null ==> forall k :: k in kids ==> k.name != c
      ensures hp == null && kids != [] ==> hs == kids[|kids| - 1]
      ensures hp == null && hash.None? ==> count == |kids|
      ensures hp != null ==> hp in kids && hp.name == c
    {
      count := 0;
      hp, hs := lastHp, lastHs;
      if (hs == null && hp == child) || (hs != null && hs.next == hp) {
        if hp != null && hp.name == c {
          if hs != null && hs in kids {
            ghost var i :| 0 <= i < |kids| && kids[i] == hs;
            assert kids[i].next == After(kids, i);
          }
          return;
        }
      }
      hp, hs := child, null;
      if hash.Some? {
        hp := if c in hash.value then hash.value[c] else null;
        hs := lastChild;
      } else {
        while hp != null
          invariant ListOk()
          invariant 0 <= count <= |kids| && hp == if count < |kids| then kids[count] else null
          invariant hs == if count > 0 then kids[count - 1] else null
          invariant forall j :: 0 <= j < count ==> kids[j].name != c
          decreases |kids| - count
        {
          if hp.name == c {
            break;
          }
          assert kids[count].next == After(kids, count);
          hs, hp, count := hp, hp.next, count + 1;
        }
      }
      if hp != null {
        lastHp, lastHs := hp, hs;
      }
    }

    /** `_hdf_hash_level`: the index over the list as it stands. */
    method HashLevel()
      requires ListOk() && NamesOk()
      modifies this`hash
      ensures hash.Some? && HashOk()
    {
      var h: map<string, Hdf> := map[];
      var c := child;
      ghost var i := 0;
      while c != null
        invariant 0 <= i <= |kids| && c == if i < |kids| then kids[i] else null
        invariant forall j :: 0 <= j < i ==> kids[j].name in h && h[kids[j].name] == kids[j]
        invariant forall x :: x in h ==> h[x] in kids && h[x].name == x
        decreases |kids| - i
      {
        h := h[c.name := c];
        c, i := c.next, i + 1;
      }
      hash := Some(h);
    }

    /** The pointer work of appending. */
    method LinkLast(hp: Hdf, hs: Hdf?)
      requires ListOk() && NamesOk()
      requires hp != this && hp !in kids && hp.next == null
      requires forall k :: k in kids ==> k.name != hp.name
      requires kids != [] ==> hs == kids[|kids| - 1]
      modifies this`child, this`lastChild, this`kids,
        (if kids == [] then {} else {kids[|kids| - 1]})`next
      ensures kids == old(kids) + [hp] && ListOk() && NamesOk()
    {
      ghost var was := kids;
      if child == null {
        child := hp;
      } else {
        hs.next := hp;
      }
      lastChild := hp;
      kids := kids + [hp];
      forall i {:trigger kids[i].next} | 0 <= i < |kids|
        ensures kids[i].next == After(kids, i)
      {
        if i < |was| {
          assert kids[i] == was[i] && (i + 1 < |was| ==> was[i] != was[|was| - 1]);
        }
      }
    }

    /** A new child goes to the tail; a level that has grown past the threshold gets its
        index, and an existing index is kept up. */
    method Append(hp: Hdf, hs: Hdf?, count: nat, forceHashAt: nat)
      requires LevelOk()
      requires hp != this && hp !in kids && hp.next == null
      requires forall k :: k in kids ==> k.name != hp.name
      requires kids != [] ==> hs == kids[|kids| - 1]
      modifies this`child, this`lastChild, this`hash, this`kids,
        (if kids == [] then {} else {kids[|kids| - 1]})`next
      ensures kids == old(kids) + [hp] && LevelOk()
      ensures hash.Some? <==> old(hash).Some? || count > forceHashAt
    {
      hide Hdf.ListOk, Maps, NamesDiffer;
      if hash.Some? {
        MapsGrow(hash.value, kids, hp);
      }
      LinkLast(hp, hs);
      if count > forceHashAt && hash.None? {
        HashLevel();
      } else if hash.Some? {
        hash := Some(hash.value[hp.name := hp]);
      }
    }

    /** The linear search of `hdf_remove_tree`, with the predecessor of what it finds. */
    method Scan(c: string) returns (hp: Hdf?, ln: Hdf?, ghost i: nat)
      requires LevelOk()
      ensures hp == null ==> forall k :: k in kids ==> k.name != c
      ensures hp != null ==> i < |kids| && kids[i] == hp && hp.name == c
      ensures hp != null ==> ln == if i == 0 then null else kids[i - 1]
    {
      hp, ln, i := child, null, 0;
      while hp != null
        invariant 0 <= i <= |kids| && hp == if i < |kids| then kids[i] else null
        invariant ln == if i == 0 then null else kids[i - 1]
        invariant forall j :: 0 <= j < i ==> kids[j].name != c
        decreases |kids| - i
      {
        if hp.name == c {
          break;
        }
        ln, hp, i := hp, hp.next, i + 1;
      }
    }

    /** The loop of `hdf_sort_obj` that loads a level into a list. */
    method ReadLevel() returns (level: seq<Hdf>)
      requires LevelOk()
      ensures level == kids
    {
      level := [];
      var p := child;
      while p != null
        invariant |level| <= |kids| && level == kids[..|level|]
        invariant p == if |level| < |kids| then kids[|level|] else null
        decreases |kids| - |level|
      {
        assert kids[|level|].next == After(kids, |level|);
        level, p := level + [p], p.next;
      }
    }

    /** The loop of `hdf_sort_obj` that dumps the list back: the pointers run along `level`
        and nowhere else. */
    method RelinkNodes(level: seq<Hdf>)
      requires ListOk() && level != [] && NoRepeats(level) && |level| == |kids|
      requires forall i :: 0 <= i < |level| ==> level[i] in kids
      modifies `child, `lastChild, kids`next
      ensures child == level[0] && lastChild == level[|level| - 1]
      ensures forall j {:trigger level[j].next} :: 0 <= j < |level| ==> level[j].next == After(level, j)
    {
      var c := level[0];
      child := c;
      var x := 1;
      if |level| == 1 {
        assert kids[0].next == After(kids, 0);
        assert c == kids[0];
      }
      while x < |level|
        invariant 1 <= x <= |level| && c == level[x - 1] && child == level[0]
        invariant |level| == 1 || x > 1 ==> c.next == null
        invariant forall j {:trigger level[j].next} :: 0 <= j < x - 1 ==> level[j].next == level[j + 1]
      {
        var p := level[x];
        c.next := p;
        p.next := null;
        c, x := p, x + 1;
      }
      lastChild := c;
    }

    method Relink(level: seq<Hdf>)
      requires LevelOk() && level != [] && multiset(level) == multiset(kids)
      modifies `child, `lastChild, `kids, kids`next
      ensures kids == level && LevelOk()
    {
      PermutedNames(kids, level);
      RelinkNodes(level);
      kids := level;
    }

    /** The list without its node at `i`, once only that node and its predecessor have been
        given a new successor. */
    twostate lemma ListUnlinked(i: nat)
      requires i < |old(kids)| && kids == Without(old(kids), i)
      requires old(ListOk()) && old(NamesOk())
      requires forall j {:trigger old(kids)[j]} :: 0 <= j < |old(kids)| && j != i ==>
        old(kids)[j].next == if j + 1 == i then After(old(kids), i) else old(kids[j].next)
      requires child == if i == 0 then After(old(kids), 0) else old(child)
      requires lastChild == if 0 < i == |old(kids)| - 1 then old(kids)[i - 1] else old(lastChild)
      ensures ListOk()
    {
      hide Without, NamesDiffer, After;
      LeavingEnds(old(kids), i);
      forall j {:trigger kids[j].next} | 0 <= j < |kids|
        ensures kids[j].next == After(kids, j)
      {
        NextUnlinked(i, j);
      }
    }

    twostate lemma NextUnlinked(i: nat, new j: nat)
      requires i < |old(kids)| && kids == Without(old(kids), i) && j < |kids|
      requires old(ListOk()) && old(NamesOk())
      requires forall j {:trigger old(kids)[j]} :: 0 <= j < |old(kids)| && j != i ==>
        old(kids)[j].next == if j + 1 == i then After(old(kids), i) else old(kids[j].next)
      ensures kids[j].next == After(kids, j)
    {
      LeavingList(old(kids), i);
      var k := if j < i then j else j + 1;
      assert old(kids[k].next) == After(old(kids), k);
      assert kids[j] == old(kids)[k];
    }

    /** The pointer work of `hdf_remove_tree`: `hp` leaves the list and `ln`, its predecessor,
        takes over as the tail when it has to. */
    method Unlink(hp: Hdf, ln: Hdf?, ghost i: nat)
      requires LevelOk() && i < |kids| && kids[i] == hp
      requires ln == if i == 0 then null else kids[i - 1]
      modifies `child, `lastChild, `hash, `kids, kids`next
      ensures kids == Without(old(kids), i) && LevelOk() && hp.next == null
      ensures hash.Some? <==> old(hash).Some?
    {
      hide Hdf.ListOk, Maps, NamesDiffer;
      LeavingApart(kids, i);
      UnlinkNode(hp, ln, i);
      if hash.Some? {
        MapsShrink(hash.value, kids, i);
        hash := Some(hash.value - {hp.name});
      }
      kids := Without(kids, i);
      ListUnlinked(i);
    }

    method UnlinkNode(hp: Hdf, ln: Hdf?, ghost i: nat)
      requires ListOk() && NamesOk() && i < |kids| && kids[i] == hp
      requires ln == if i == 0 then null else kids[i - 1]
      modifies `child, `lastChild, kids`next
      ensures hp.next == null
      ensures forall j {:trigger kids[j]} :: 0 <= j < |kids| && j != i ==>
        kids[j].next == if j + 1 == i then After(kids, i) else old(kids[j].next)
      ensures child == if i == 0 then After(kids, 0) else old(child)
      ensures lastChild == if 0 < i == |kids| - 1 then kids[i - 1] else old(lastChild)
    {
      assert hp.next == After(kids, i);
      assert forall j {:trigger kids[j]} :: 0 <= j < |kids| && j != i ==> kids[j] != hp;
      hide NamesDiffer;
      if ln != null {
        assert forall j :: 0 <= j < |kids| && j + 1 != i ==> kids[j] != ln;
        assert forall j :: 0 <= j < |kids| - 1 ==> kids[j] != lastChild;
        ln.next := hp.next;
        if hp == lastChild {
          lastChild := ln;
        }
        hp.next := null;
      } else {
        child := hp.next;
        hp.next := null;
      }
    }
  }

  ghost predicate NoRepeats(level: seq<Hdf>)
  {
    forall i, j :: 0 <= i < j < |level| ==> level[i] != level[j]
  }

  lemma CountOnce(level: seq<Hdf>, i: nat)
    requires NoRepeats(level) && i < |level|
    ensures multiset(level)[level[i]] == 1
  {
    var a, b := level[..i], level[i + 1..];
    assert level == a + [level[i]] + b;
    assert level[i] !in a && level[i] !in b;
  }

  lemma CountTwice(level: seq<Hdf>, i: nat, j: nat)
    requires i < j < |level| && level[i] == level[j]
    ensures multiset(level)[level[i]] >= 2
  {
    assert level == level[..i] + [level[i]] + level[i + 1..j] + [level[j]] + level[j + 1..];
  }

  /** A permutation of a list has the same members, and repeats none if the list does not. */
  lemma PermutedList(kids: seq<Hdf>, level: seq<Hdf>)
    requires NoRepeats(kids) && multiset(level) == multiset(kids)
    ensures |level| == |kids| && NoRepeats(level)
    ensures forall k :: k in level <==> k in kids
    ensures forall i :: 0 <= i < |level| ==> level[i] in kids
  {
    assert |multiset(level)| == |multiset(kids)|;
    forall k
      ensures k in level <==> k in kids
    {
      assert k in level <==> k in multiset(level);
      assert k in kids <==> k in multiset(kids);
    }
    forall i, j | 0 <= i < j < |level|
      ensures level[i] != level[j]
    {
      if level[i] == level[j] {
        CountTwice(level, i, j);
        assert level[i] in kids;
        var a :| 0 <= a < |kids| && kids[a] == level[i];
        CountOnce(kids, a);
        assert false;
      }
    }
  }

  lemma PermutedNames(kids: seq<Hdf>, level: seq<Hdf>)
    requires NamesDiffer(kids)
    requires multiset(level) == multiset(kids)
    ensures |level| == |kids| && NoRepeats(level)
    ensures forall k :: k in level <==> k in kids
    ensures forall i :: 0 <= i < |level| ==> level[i] in kids
    ensures NamesDiffer(level)
  {
    PermutedList(kids, level);
    assert forall a, b :: a in kids && b in kids && a != b ==> a.name != b.name;
    assert forall i, j :: 0 <= i < j < |level| ==> level[i] in kids && level[j] in kids && level[i] != level[j];
  }

  /** Taking one node out of a list without repeated names. */
  lemma LeavingList(kids: seq<Hdf>, i: nat)
    requires i < |kids| && NamesDiffer(kids)
    ensures var w := Without(kids, i);
      && |w| == |kids| - 1
      && NamesDiffer(w)
      && (forall k :: k in w ==> k in kids && k.name != kids[i].name)
      && (forall k :: k in kids && k != kids[i] ==> k in w)
      && (forall j :: 0 <= j < |w| ==> w[j] == kids[if j < i then j else j + 1])
      && (forall j :: 0 <= j < |w| ==>
            After(w, j) == if j + 1 == i then After(kids, i) else After(kids, if j < i then j else j + 1))
  {
    var w := Without(kids, i);
    assert forall j :: 0 <= j < |w| ==> w[j] == kids[if j < i then j else j + 1];
    forall k | k in kids && k != kids[i]
      ensures k in w
    {
      var a :| 0 <= a < |kids| && kids[a] == k;
      assert w[if a < i then a else a - 1] == k;
    }
  }

  lemma LeavingEnds(kids: seq<Hdf>, i: nat)
    requires i < |kids|
    ensures var w := Without(kids, i);
      |w| == |kids| - 1 && (w == [] ==> i == 0 && After(kids, 0) == null) &&
      (w != [] ==>
        w[0] == (if i == 0 then kids[1] else kids[0]) && (i == 0 ==> After(kids, 0) == kids[1]) &&
        w[|w| - 1] == if i == |w| then kids[|w| - 1] else kids[|w|])
  {
  }

  lemma LeavingApart(kids: seq<Hdf>, i: nat)
    requires i < |kids| && NamesDiffer(kids)
    ensures NamesDiffer(Without(kids, i))
  {
    LeavingList(kids, i);
  }
}
