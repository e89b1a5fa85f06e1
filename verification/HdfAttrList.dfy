/** `_merge_attr` on the linked attribute lists themselves. */
module HdfAttrList {
  import opened HdfTree
  import opened HdfAttrs

  class AttrNode {
    const key: string
    var value: string
    var next: AttrNode?

    constructor (key: string, value: string)
      ensures this.key == key && this.value == value && next == null
    {
      this.key, this.value, next := key, value, null;
    }
  }

  ghost predicate NoRepeats(ns: seq<AttrNode>)
  {
    forall i, j :: 0 <= i < j < |ns| ==> ns[i] != ns[j]
  }

  ghost function After(ns: seq<AttrNode>, i: nat): AttrNode?
    requires i < |ns|
  {
    if i + 1 < |ns| then ns[i + 1] else null
  }

  /** The nodes of `ns` are linked in that order and the last one ends the list. */
  ghost predicate Linked(ns: seq<AttrNode>)
    reads ns`next
  {
    NoRepeats(ns) && forall i {:trigger ns[i].next} :: 0 <= i < |ns| ==> ns[i].next == After(ns, i)
  }

  ghost function Attrs(ns: seq<AttrNode>): (r: seq<Attr>)
    reads ns
    ensures |r| == |ns| && forall i :: 0 <= i < |r| ==> r[i] == Attr(ns[i].key, ns[i].value)
  {
    seq(|ns|, i requires 0 <= i < |ns| reads ns => Attr(ns[i].key, ns[i].value))
  }

  /** The inner loop: the first node of that key, or the end of the list and its last node. */
  method FindKey(dest: AttrNode, key: string, ghost ns: seq<AttrNode>)
    returns (da: AttrNode?, ld: AttrNode, ghost k: nat)
    requires Linked(ns) && ns != [] && ns[0] == dest
    ensures da == null ==> ld == ns[|ns| - 1] && forall i :: 0 <= i < |ns| ==> ns[i].key != key
    ensures da != null ==> k < |ns| && ns[k] == da && da.key == key && forall i :: 0 <= i < k ==> ns[i].key != key
  {
    da, ld, k := dest, dest, 0;
    while da != null
      invariant 0 <= k <= |ns| && da == if k < |ns| then ns[k] else null
      invariant k > 0 ==> ld == ns[k - 1]
      invariant forall i :: 0 <= i < k ==> ns[i].key != key
      decreases |ns| - k
    {
      if da.key == key {
        return;
      }
      assert ns[k].next == After(ns, k);
      ld, da, k := da, da.next, k + 1;
    }
  }

  lemma UpdateBehind(attrs: seq<Attr>, a: Attr, k: nat)
    requires k < |attrs|
    ensures k > 0 ==> attrs[k := a] == [attrs[0]] + attrs[1..][k - 1 := a]
    ensures k == 0 ==> attrs[k := a] == [a] + attrs[1..]
  {
  }

  lemma AssignUnfolded(attrs: seq<Attr>, a: Attr)
    requires HasKey(attrs, a.key)
    ensures attrs[0].key == a.key ==> Assign(attrs, a) == [a] + attrs[1..]
    ensures attrs[0].key != a.key ==>
      HasKey(attrs[1..], a.key) && Assign(attrs, a) == [attrs[0]] + Assign(attrs[1..], a)
  {
  }

  lemma {:induction false} AssignAt(attrs: seq<Attr>, a: Attr, k: nat)
    requires k < |attrs| && attrs[k].key == a.key
    requires forall i :: 0 <= i < k ==> attrs[i].key != a.key
    ensures HasKey(attrs, a.key) && Assign(attrs, a) == attrs[k := a]
  {
    hide Assign;
    UpdateBehind(attrs, a, k);
    AssignUnfolded(attrs, a);
    if k > 0 {
      AssignAt(attrs[1..], a, k - 1);
    }
  }

  ghost predicate Disjoint(a: seq<AttrNode>, b: seq<AttrNode>)
  {
    forall i, j :: 0 <= i < |a| && 0 <= j < |b| ==> a[i] != b[j]
  }

  /** The value of `sa` goes over to the node of the same key. */
  method Replace(da: AttrNode, sa: AttrNode, ghost rs: seq<AttrNode>, ghost k: nat, ghost rest: seq<AttrNode>)
    requires NoRepeats(rs) && k < |rs| && rs[k] == da && Disjoint(rs, rest)
    requires da.key == sa.key && forall i :: 0 <= i < k ==> rs[i].key != sa.key
    modifies da`value
    ensures HasKey(old(Attrs(rs)), sa.key)
    ensures Attrs(rs) == MergeOne(old(Attrs(rs)), Attr(sa.key, old(sa.value)))
    ensures Attrs(rest) == old(Attrs(rest))
  {
    AssignAt(Attrs(rs), Attr(sa.key, sa.value), k);
    ghost var goal := Attrs(rs)[k := Attr(sa.key, sa.value)];
    da.value := sa.value;
    assert Attrs(rs) == goal;
  }

  /** The node `sa` moves to the end of the destination. What its old neighbour `ls` points to
      afterwards is the rest of the source, unless `ls` is `sa` itself: then nothing is. */
  method Move(ld: AttrNode, sa: AttrNode, ls: AttrNode, ghost rs: seq<AttrNode>, ghost rest: seq<AttrNode>)
    requires Linked(rs) && rs != [] && rs[|rs| - 1] == ld
    requires Linked(rest) && rest != [] && rest[0] == sa && Disjoint(rs, rest)
    requires ls !in rs && (ls == sa || (ls !in rest && ls.next == sa))
    modifies ld`next, sa`next, ls`next
    ensures Linked(rs + [sa]) && Attrs(rs + [sa]) == old(Attrs(rs)) + [Attr(sa.key, sa.value)]
    ensures if ls == sa then ls.next == null else ls.next == After(rest, 0)
    ensures ls != sa ==> Linked(rest[1..])
    ensures Attrs(rest[1..]) == old(Attrs(rest))[1..]
  {
    assert sa.next == After(rest, 0);
    ld.next := sa;
    ls.next := sa.next;
    ld.next.next := null;
    ghost var all := rs + [sa];
    forall i {:trigger all[i].next} | 0 <= i < |all|
      ensures all[i].next == After(all, i)
    {
      assert i < |rs| - 1 ==> rs[i].next == After(rs, i);
    }
    ghost var tail := rest[1..];
    forall i {:trigger tail[i].next} | 0 <= i < |tail| && ls != sa
      ensures tail[i].next == After(tail, i)
    {
      assert rest[i + 1].next == After(rest, i + 1);
    }
    assert Attrs(all) == Attrs(rs) + [Attr(sa.key, sa.value)];
    assert Attrs(tail) == Attrs(rest)[1..];
  }

  ghost function Members(ns: seq<AttrNode>): set<AttrNode>
  {
    set n | n in ns
  }

  /** The state between two rounds: `rest` are the source nodes from `sa` on, `first` says that
      none has been looked at yet, and `ls` is the node before `sa`, or `sa` itself at first. */
  ghost predicate Between(rs: seq<AttrNode>, rest: seq<AttrNode>, sa: AttrNode?, ls: AttrNode?, first: bool)
    reads rs, rest, ls
  {
    && Linked(rs) && rs != [] && Linked(rest) && Disjoint(rs, rest)
    && (sa == if rest == [] then null else rest[0])
    && (sa != null ==> ls != null && ls !in rs && (if first then ls == sa else ls !in rest && ls.next == sa))
  }

  /** What is still to come out of it. */
  ghost function Outcome(rs: seq<AttrNode>, rest: seq<AttrNode>, first: bool): seq<Attr>
    reads rs, rest
  {
    if first then Merge(Attrs(rs), Attrs(rest)) else MergeAll(Attrs(rs), Attrs(rest))
  }

  lemma RestOf(rest: seq<AttrNode>)
    requires Linked(rest) && rest != []
    ensures Linked(rest[1..]) && rest[0] !in rest[1..]
    ensures Attrs(rest)[1..] == Attrs(rest[1..]) && Attrs(rest)[0] == Attr(rest[0].key, rest[0].value)
    ensures rest[0].next == if rest[1..] == [] then null else rest[1..][0]
  {
    assert rest[0].next == After(rest, 0);
    var tail := rest[1..];
    forall i {:trigger tail[i].next} | 0 <= i < |tail|
      ensures tail[i].next == After(tail, i)
    {
      assert rest[i + 1].next == After(rest, i + 1);
    }
  }

  /** One round of the outer loop. */
  method MergeRound(dest: AttrNode, sa: AttrNode, ls: AttrNode, ghost rs: seq<AttrNode>, ghost rest: seq<AttrNode>,
                    ghost first: bool, ghost all: set<AttrNode>)
    returns (sa2: AttrNode?, ls2: AttrNode?, ghost rs2: seq<AttrNode>, ghost rest2: seq<AttrNode>)
    requires Between(rs, rest, sa, ls, first) && rs[0] == dest && rest != []
    requires Members(rs) <= all && Members(rest) <= all && ls in all
    modifies all
    ensures Between(rs2, rest2, sa2, ls2, false) && rs2[0] == dest && |rest2| < |rest|
    ensures Members(rs2) <= all && Members(rest2) <= all && (ls2 != null ==> ls2 in all)
    ensures Outcome(rs2, rest2, false) == old(Outcome(rs, rest, first))
  {
    ghost var was, come := Attrs(rs), Attrs(rest);
    RestOf(rest);
    var da, ld, k := FindKey(dest, sa.key, rs);
    if da != null {
      Replace(da, sa, rs, k, rest);
      ls2, sa2, rs2, rest2 := sa, sa.next, rs, rest[1..];
      RestOf(rest);
    } else {
      assert !HasKey(was, sa.key);
      Move(ld, sa, ls, rs, rest);
      ls2, sa2, rs2 := ls, ls.next, rs + [sa];
      rest2 := if first then [] else rest[1..];
      assert first ==> MergeAll(Attrs(rs2), []) == was + [come[0]];
    }
  }

  /** `_merge_attr`: for every two lists, linked as they come, the destination ends up with
      exactly what `Merge` says. */
  method MergeAttr(dest: AttrNode, src: AttrNode?, ghost ds: seq<AttrNode>, ghost ss: seq<AttrNode>)
    returns (ghost rs: seq<AttrNode>)
    requires Linked(ds) && ds != [] && ds[0] == dest
    requires Linked(ss) && Disjoint(ds, ss) && src == if ss == [] then null else ss[0]
    modifies ds, ss
    ensures Linked(rs) && rs != [] && rs[0] == dest
    ensures Attrs(rs) == Merge(old(Attrs(ds)), old(Attrs(ss)))
  {
    var sa, ls := src, src;
    rs := ds;
    ghost var rest, first, all := ss, true, Members(ds) + Members(ss);
    ghost var goal := Merge(Attrs(ds), Attrs(ss));
    while sa != null
      invariant Between(rs, rest, sa, ls, first) && rs[0] == dest
      invariant Members(rs) <= all && Members(rest) <= all && (ls != null ==> ls in all)
      invariant Outcome(rs, rest, first) == goal
      decreases |rest|
    {
      sa, ls, rs, rest := MergeRound(dest, sa, ls, rs, rest, first, all);
      first := false;
    }
  }
}
