/** Attribute lists of a node: what setting a node that already has attributes leaves
    behind. */
module HdfAttrs {
  import opened HdfTree
  import opened Options

  predicate HasKey(attrs: seq<Attr>, key: string)
  {
    exists i :: 0 <= i < |attrs| && attrs[i].key == key
  }

  /** The first attribute of that key takes the new value. */
  function Assign(attrs: seq<Attr>, a: Attr): (r: seq<Attr>)
    requires HasKey(attrs, a.key)
    ensures |r| == |attrs|
    ensures forall i :: 0 <= i < |r| ==> r[i].key == attrs[i].key
  {
    if attrs[0].key == a.key then [a] + attrs[1..] else [attrs[0]] + Assign(attrs[1..], a)
  }

  /** One attribute merged into a list: replaced in place or added at the end. */
  function MergeOne(dest: seq<Attr>, a: Attr): seq<Attr>
  {
    if HasKey(dest, a.key) then Assign(dest, a) else dest + [a]
  }

  /** What a reader expects of a merge: every attribute of `src`, one after the other. */
  function MergeAll(dest: seq<Attr>, src: seq<Attr>): seq<Attr>
    decreases |src|
  {
    if src == [] then dest else MergeAll(MergeOne(dest, src[0]), src[1..])
  }

  /** What `_merge_attr` does: when the first new attribute is not yet present, moving it
      over cuts off the rest of the list it came from. */
  function Merge(dest: seq<Attr>, src: seq<Attr>): seq<Attr>
  {
    if src == [] || HasKey(dest, src[0].key) then MergeAll(dest, src) else dest + [src[0]]
  }

  /** The attributes of a node after it has been set with `fresh`. */
  function Combine(old_: seq<Attr>, fresh_: seq<Attr>): seq<Attr>
  {
    if old_ == [] then fresh_ else Merge(old_, fresh_)
  }

  /** The value a lookup of that key finds: the first one. */
  function ValueOf(attrs: seq<Attr>, key: string): Option<string>
  {
    if attrs == [] then None
    else if attrs[0].key == key then Some(attrs[0].value)
    else ValueOf(attrs[1..], key)
  }

  predicate FirstOfKey(attrs: seq<Attr>, i: nat)
    requires i < |attrs|
  {
    forall j :: 0 <= j < i ==> attrs[j].key != attrs[i].key
  }

  /** Two lists that differ in no more than the value of the first attribute of some keys. */
  predicate SameShape(a: seq<Attr>, b: seq<Attr>)
  {
    |a| == |b| && forall i :: 0 <= i < |a| ==> a[i].key == b[i].key && (FirstOfKey(a, i) || a[i] == b[i])
  }

  lemma {:induction false} ValueOfFirst(attrs: seq<Attr>, i: nat)
    requires i < |attrs| && FirstOfKey(attrs, i)
    ensures ValueOf(attrs, attrs[i].key) == Some(attrs[i].value)
  {
    if i > 0 {
      assert attrs[0].key != attrs[i].key;
      ValueOfFirst(attrs[1..], i - 1);
    }
  }

  lemma {:induction false} ValueOfPresent(attrs: seq<Attr>, key: string)
    ensures HasKey(attrs, key) <==> ValueOf(attrs, key).Some?
  {
    if attrs != [] && attrs[0].key != key {
      ValueOfPresent(attrs[1..], key);
      if HasKey(attrs, key) {
        var i :| 0 <= i < |attrs| && attrs[i].key == key;
        assert attrs[1..][i - 1].key == key;
      }
      if HasKey(attrs[1..], key) {
        var i :| 0 <= i < |attrs| - 1 && attrs[1..][i].key == key;
        assert attrs[i + 1].key == key;
      }
    }
  }

  lemma SameValues(a: seq<Attr>, b: seq<Attr>)
    requires SameShape(a, b)
    requires forall key {:trigger ValueOf(a, key)} :: ValueOf(a, key) == ValueOf(b, key)
    ensures a == b
  {
    forall i | 0 <= i < |a|
      ensures a[i] == b[i]
    {
      if FirstOfKey(a, i) {
        assert FirstOfKey(b, i) by {
          assert forall j :: 0 <= j < i ==> a[j].key == b[j].key;
        }
        ValueOfFirst(a, i);
        ValueOfFirst(b, i);
      }
    }
  }

  lemma {:induction false} AssignShape(attrs: seq<Attr>, a: Attr, i: nat)
    requires HasKey(attrs, a.key) && i < |attrs|
    ensures Assign(attrs, a)[i] == attrs[i] || (attrs[i].key == a.key && FirstOfKey(attrs, i))
  {
    if attrs[0].key != a.key && i > 0 {
      AssignShape(attrs[1..], a, i - 1);
      assert Assign(attrs, a)[i] == Assign(attrs[1..], a)[i - 1];
    }
  }

  lemma {:induction false} AssignValue(attrs: seq<Attr>, a: Attr, key: string)
    requires HasKey(attrs, a.key)
    ensures ValueOf(Assign(attrs, a), key) == if key == a.key then Some(a.value) else ValueOf(attrs, key)
  {
    if attrs[0].key != a.key {
      AssignValue(attrs[1..], a, key);
      assert Assign(attrs, a)[1..] == Assign(attrs[1..], a);
    } else {
      assert Assign(attrs, a)[1..] == attrs[1..];
    }
  }

  lemma AppendValue(attrs: seq<Attr>, a: Attr, key: string)
    requires !HasKey(attrs, a.key)
    ensures ValueOf(attrs + [a], key) == if key == a.key then Some(a.value) else ValueOf(attrs, key)
  {
    if attrs == [] {
      assert [] + [a] == [a];
    } else {
      assert attrs[0].key != a.key;
      forall i | 0 <= i < |attrs| - 1
        ensures attrs[1..][i].key != a.key
      {
        assert attrs[i + 1].key != a.key;
      }
      AppendValue(attrs[1..], a, key);
      assert (attrs + [a])[1..] == attrs[1..] + [a];
    }
  }

  /** The value of the last attribute of that key. */
  function LastValueOf(attrs: seq<Attr>, key: string): Option<string>
  {
    if attrs == [] then None
    else
      var later := LastValueOf(attrs[1..], key);
      if later.None? && attrs[0].key == key then Some(attrs[0].value) else later
  }

  /** After a full merge every key has the last value `src` gave it, and the value it had
      before when `src` gave it none. */
  lemma {:induction false} MergeAllValue(dest: seq<Attr>, src: seq<Attr>, key: string)
    ensures ValueOf(MergeAll(dest, src), key) ==
      if LastValueOf(src, key).Some? then LastValueOf(src, key) else ValueOf(dest, key)
    decreases |src|
  {
    if src != [] {
      MergeAllValue(MergeOne(dest, src[0]), src[1..], key);
      if HasKey(dest, src[0].key) {
        AssignValue(dest, src[0], key);
      } else {
        AppendValue(dest, src[0], key);
      }
    }
  }

  lemma {:induction false} MergeAllLength(dest: seq<Attr>, src: seq<Attr>)
    ensures |MergeAll(dest, src)| >= |dest|
    ensures |MergeAll(dest, src)| == |dest| ==> SameShape(MergeAll(dest, src), dest)
    decreases |src|
  {
    if src != [] {
      var next := MergeOne(dest, src[0]);
      MergeAllLength(next, src[1..]);
      if HasKey(dest, src[0].key) && |MergeAll(dest, src)| == |dest| {
        ShapeStep(MergeAll(dest, src), dest, src[0]);
      }
    }
  }

  lemma FirstCarries(r: seq<Attr>, dest: seq<Attr>, i: nat)
    requires |r| == |dest| && i < |r| && FirstOfKey(dest, i)
    requires forall j :: 0 <= j < |r| ==> r[j].key == dest[j].key
    ensures FirstOfKey(r, i)
  {
  }

  lemma ShapeThrough(r: seq<Attr>, next: seq<Attr>, dest: seq<Attr>)
    requires SameShape(r, next) && |next| == |dest|
    requires forall i :: 0 <= i < |r| ==> next[i].key == dest[i].key
    requires forall i :: 0 <= i < |r| && next[i] != dest[i] ==> FirstOfKey(dest, i)
    ensures SameShape(r, dest)
  {
    forall i | 0 <= i < |r|
      ensures FirstOfKey(r, i) || r[i] == dest[i]
    {
      if next[i] != dest[i] {
        FirstCarries(r, dest, i);
      }
    }
  }

  lemma {:induction false} ShapeStep(r: seq<Attr>, dest: seq<Attr>, a: Attr)
    requires HasKey(dest, a.key) && SameShape(r, Assign(dest, a))
    ensures SameShape(r, dest)
  {
    var next := Assign(dest, a);
    forall i | 0 <= i < |r| && next[i] != dest[i]
      ensures FirstOfKey(dest, i)
    {
      AssignShape(dest, a, i);
    }
    ShapeThrough(r, next, dest);
  }

  lemma {:induction false} LastValuePresent(src: seq<Attr>, i: nat)
    requires i < |src|
    ensures LastValueOf(src, src[i].key).Some?
  {
    if i > 0 {
      LastValuePresent(src[1..], i - 1);
    }
  }

  lemma AssignKeepsKeys(dest: seq<Attr>, a: Attr, key: string)
    requires HasKey(dest, a.key) && HasKey(dest, key)
    ensures HasKey(Assign(dest, a), key)
  {
    var i :| 0 <= i < |dest| && dest[i].key == key;
    assert Assign(dest, a)[i].key == key;
  }

  lemma {:induction false} MergeAllPresent(dest: seq<Attr>, src: seq<Attr>)
    requires forall i :: 0 <= i < |src| ==> HasKey(dest, src[i].key)
    ensures |MergeAll(dest, src)| == |dest|
    decreases |src|
  {
    if src != [] {
      forall i | 0 <= i < |src| - 1
        ensures HasKey(Assign(dest, src[0]), src[1..][i].key)
      {
        AssignKeepsKeys(dest, src[0], src[i + 1].key);
      }
      MergeAllPresent(MergeOne(dest, src[0]), src[1..]);
    }
  }

  /** Every key that `src` gives a value has that value in `dest` already. */
  ghost predicate SaysNothingNew(dest: seq<Attr>, src: seq<Attr>)
  {
    forall key {:trigger LastValueOf(src, key)} ::
      LastValueOf(src, key).Some? ==> ValueOf(dest, key) == LastValueOf(src, key)
  }

  lemma NothingNewKeeps(dest: seq<Attr>, src: seq<Attr>)
    requires SaysNothingNew(dest, src)
    ensures MergeAll(dest, src) == dest
  {
    var r := MergeAll(dest, src);
    forall i | 0 <= i < |src|
      ensures HasKey(dest, src[i].key)
    {
      LastValuePresent(src, i);
      ValueOfPresent(dest, src[i].key);
    }
    MergeAllPresent(dest, src);
    MergeAllLength(dest, src);
    forall key {:trigger ValueOf(r, key)}
      ensures ValueOf(r, key) == ValueOf(dest, key)
    {
      MergeAllValue(dest, src, key);
    }
    SameValues(r, dest);
  }

  /** Exactly when `_merge_attr` keeps every attribute it is given: the list it merges is
      empty, or starts with a key that is already there, or says nothing new after its first
      attribute. */
  lemma MergeKeepsAll(dest: seq<Attr>, src: seq<Attr>)
    ensures Merge(dest, src) == MergeAll(dest, src) <==>
      src == [] || HasKey(dest, src[0].key) || SaysNothingNew(dest + [src[0]], src[1..])
  {
    if src != [] && !HasKey(dest, src[0].key) {
      var both, rest := dest + [src[0]], src[1..];
      if MergeAll(both, rest) == both {
        forall key {:trigger LastValueOf(rest, key)} | LastValueOf(rest, key).Some?
          ensures ValueOf(both, key) == LastValueOf(rest, key)
        {
          MergeAllValue(both, rest, key);
        }
      }
      if SaysNothingNew(both, rest) {
        NothingNewKeeps(both, rest);
      }
    }
  }

  /** What a node has once attributes have been given to it, in words: all of them if it had none; each
      key the last value given or else its old one, behind the old keys in their places, if the merge
      loses nothing; and otherwise only the first of those given, as a new one. */
  ghost predicate Taken(before: seq<Attr>, given: seq<Attr>, after: seq<Attr>)
  {
    if before == [] then after == given
    else if given == [] || HasKey(before, given[0].key) || SaysNothingNew(before + [given[0]], given[1..]) then
      && |before| <= |after| && (forall i :: 0 <= i < |before| ==> after[i].key == before[i].key)
      && forall key {:trigger ValueOf(after, key)} ::
           ValueOf(after, key) ==
           if LastValueOf(given, key).Some? then LastValueOf(given, key) else ValueOf(before, key)
    else after == before + [given[0]]
  }

  lemma {:induction false} MergeAllKeys(dest: seq<Attr>, src: seq<Attr>)
    ensures |dest| <= |MergeAll(dest, src)|
    ensures forall i :: 0 <= i < |dest| ==> MergeAll(dest, src)[i].key == dest[i].key
    decreases |src|
  {
    if src != [] {
      MergeAllKeys(MergeOne(dest, src[0]), src[1..]);
    }
  }

  lemma CombineTakes(before: seq<Attr>, given: seq<Attr>)
    ensures Taken(before, given, Combine(before, given))
  {
    if before != [] {
      MergeKeepsAll(before, given);
      MergeAllKeys(before, given);
      forall key {:trigger ValueOf(Combine(before, given), key)}
        ensures ValueOf(MergeAll(before, given), key) ==
          if LastValueOf(given, key).Some? then LastValueOf(given, key) else ValueOf(before, key)
      {
        MergeAllValue(before, given, key);
      }
    }
  }

  /** One attribute is never lost. */
  lemma OneTaken(before: seq<Attr>, a: Attr, after: seq<Attr>)
    requires Taken(before, [a], after)
    ensures ValueOf(after, a.key) == Some(a.value)
    ensures forall key :: key != a.key ==> ValueOf(after, key) == ValueOf(before, key)
  {
    assert [a][1..] == [];
    assert LastValueOf([a], a.key) == Some(a.value);
    forall key | key != a.key
      ensures LastValueOf([a], key) == None && ValueOf(after, key) == ValueOf(before, key)
    {
      assert LastValueOf([], key) == None;
      if before == [] {
        assert ValueOf([a][1..], key) == None;
      }
    }
  }

  /** Two new attributes at once: the second one is lost. */
  lemma SecondNewAttributeLost()
    ensures var one, two := Attr("k", "1"), Attr("l", "2");
      Merge([Attr("a", "0")], [one, two]) == [Attr("a", "0"), one] &&
      MergeAll([Attr("a", "0")], [one, two]) == [Attr("a", "0"), one, two]
  {
    var a, one, two := Attr("a", "0"), Attr("k", "1"), Attr("l", "2");
    assert [one, two][1..] == [two] && [two][1..] == [];
    assert !HasKey([a], "k") && [a] + [one] == [a, one];
    assert !HasKey([a, one], "l") && [a, one] + [two] == [a, one, two];
    assert MergeAll([a, one, two], []) == [a, one, two];
    assert MergeAll([a, one], [two]) == [a, one, two];
  }
}
