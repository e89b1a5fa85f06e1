/** The table of modelines: one row per resolution, one slot per frequency. */
module Modelines {
  import opened Options
  import opened Text

  /** What the member `isedid` of a slot can be: missing members read as null. */
  datatype Json = Null | Bool(value: bool)

  /** `operator!` of JsonCpp asks whether a value is null; it does not negate. */
  predicate Not(j: Json)
  {
    j.Null?
  }

  datatype Mode = Mode(
    id: string, isedid: Json, modeline: string, x: string, y: string, interlace: bool, doublescan: bool,
    clock: seq<string>, hz: int)

  datatype Row = Row(id: string, modes: map<string, Mode>)

  /** One modeline of the stream with the keys it is filed under. */
  datatype Entry = Entry(resolution: string, freq: string, mode: Mode)

  const AUTO := "nvidia-auto-select"

  predicate IsEdid(m: Mode)
  {
    m.isedid == Bool(true)
  }

  // ---- which modeline a slot holds, and which it was meant to hold --------------------------

  /** The enabled displays leave the automatic mode out of every slot. */
  predicate Counts(e: Entry, resolution: string, freq: string, skipAuto: bool)
  {
    e.resolution == resolution && e.freq == freq && !(skipAuto && e.mode.id == AUTO)
  }

  /** The first modeline of that key, or the first one from EDID. */
  function FirstOfKey(es: seq<Entry>, resolution: string, freq: string, skipAuto: bool, edidOnly: bool): Option<Mode>
  {
    if es == [] then None
    else if Counts(es[0], resolution, freq, skipAuto) && (edidOnly ==> IsEdid(es[0].mode)) then Some(es[0].mode)
    else FirstOfKey(es[1..], resolution, freq, skipAuto, edidOnly)
  }

  /** What a slot holds: the first modeline of its key. */
  function Holder(es: seq<Entry>, resolution: string, freq: string, skipAuto: bool): Option<Mode>
  {
    FirstOfKey(es, resolution, freq, skipAuto, false)
  }

  /** What the test on `isedid` was written for: the first EDID modeline of the key if there is one,
      else the first modeline. */
  function Intended(es: seq<Entry>, resolution: string, freq: string, skipAuto: bool): Option<Mode>
  {
    var edid := FirstOfKey(es, resolution, freq, skipAuto, true);
    if edid.Some? then edid else Holder(es, resolution, freq, skipAuto)
  }

  lemma {:induction false} FirstOfMore(es: seq<Entry>, e: Entry, resolution: string, freq: string,
                                       skipAuto: bool, edidOnly: bool)
    ensures FirstOfKey(es + [e], resolution, freq, skipAuto, edidOnly) ==
            var before := FirstOfKey(es, resolution, freq, skipAuto, edidOnly);
            if before.Some? then before
            else if Counts(e, resolution, freq, skipAuto) && (edidOnly ==> IsEdid(e.mode)) then Some(e.mode)
            else None
  {
    if es == [] {
      assert [] + [e] == [e] && [e][1..] == [];
    } else {
      assert (es + [e])[1..] == es[1..] + [e];
      FirstOfMore(es[1..], e, resolution, freq, skipAuto, edidOnly);
    }
  }

  /** The members of an entry are stored before anything reads them. */
  ghost predicate Stored(es: seq<Entry>)
  {
    forall i :: 0 <= i < |es| ==> es[i].mode.isedid.Bool?
  }

  lemma {:induction false} HolderStored(es: seq<Entry>, resolution: string, freq: string, skipAuto: bool)
    requires Stored(es)
    ensures var held := Holder(es, resolution, freq, skipAuto);
      held.Some? ==> !Not(held.value.isedid)
  {
    if es != [] {
      HolderStored(es[1..], resolution, freq, skipAuto);
    }
  }

  /** The first EDID modeline of a key is not before the first modeline of that key. */
  lemma {:induction false} EdidNotEarlier(es: seq<Entry>, resolution: string, freq: string, skipAuto: bool)
    ensures var edid := FirstOfKey(es, resolution, freq, skipAuto, true);
      var held := Holder(es, resolution, freq, skipAuto);
      && (edid.Some? ==> IsEdid(edid.value) && held.Some?)
      && (held.Some? && IsEdid(held.value) ==> edid == held)
  {
    if es != [] {
      EdidNotEarlier(es[1..], resolution, freq, skipAuto);
    }
  }

  /** A slot holds the modeline it was meant for exactly if its key has no EDID modeline, or the
      first modeline of the key is one. */
  lemma HeldAsIntended(es: seq<Entry>, resolution: string, freq: string, skipAuto: bool)
    ensures var edid := FirstOfKey(es, resolution, freq, skipAuto, true);
      var held := Holder(es, resolution, freq, skipAuto);
      held == Intended(es, resolution, freq, skipAuto) <==>
        edid.None? || (held.Some? && IsEdid(held.value))
  {
    EdidNotEarlier(es, resolution, freq, skipAuto);
  }

  predicate CountsAlike(es: seq<Entry>, i: nat, j: nat, skipAuto: bool)
    requires i < |es| && j < |es|
  {
    Counts(es[i], es[j].resolution, es[j].freq, skipAuto)
  }

  /** No EDID modeline follows another one of its key that is the first of that key and not EDID. */
  ghost predicate EdidLeads(es: seq<Entry>, skipAuto: bool)
  {
    forall i, j {:trigger CountsAlike(es, i, j, skipAuto)} :: 0 <= i < j < |es| ==>
      CountsAlike(es, i, j, skipAuto) && CountsAlike(es, j, j, skipAuto) && IsEdid(es[j].mode) &&
      (forall k :: 0 <= k < i ==> !CountsAlike(es, k, j, skipAuto)) ==>
        IsEdid(es[i].mode)
  }

  /** Where the first modeline of a key stands. */
  lemma {:induction false} FirstPlace(es: seq<Entry>, r: string, f: string, skipAuto: bool, edidOnly: bool)
    returns (i: nat)
    ensures i <= |es| && (i == |es| <==> FirstOfKey(es, r, f, skipAuto, edidOnly).None?)
    ensures forall k :: 0 <= k < i ==> !(Counts(es[k], r, f, skipAuto) && (edidOnly ==> IsEdid(es[k].mode)))
    ensures i < |es| ==>
      Counts(es[i], r, f, skipAuto) && (edidOnly ==> IsEdid(es[i].mode)) &&
      FirstOfKey(es, r, f, skipAuto, edidOnly) == Some(es[i].mode)
  {
    i := 0;
    if es != [] && !(Counts(es[0], r, f, skipAuto) && (edidOnly ==> IsEdid(es[0].mode))) {
      i := FirstPlace(es[1..], r, f, skipAuto, edidOnly);
      i := i + 1;
      assert forall k :: 0 < k < |es| ==> es[k] == es[1..][k - 1];
    }
  }

  /** Every slot of the table holds the modeline it was meant for exactly if the stream has the EDID
      modelines in front. */
  lemma AllHeldAsIntended(es: seq<Entry>, skipAuto: bool)
    ensures EdidLeads(es, skipAuto) <==>
      forall r, f :: Holder(es, r, f, skipAuto) == Intended(es, r, f, skipAuto)
  {
    if EdidLeads(es, skipAuto) {
      forall r, f
        ensures Holder(es, r, f, skipAuto) == Intended(es, r, f, skipAuto)
      {
        SlotAsIntended(es, r, f, skipAuto);
      }
    }
    if forall r, f :: Holder(es, r, f, skipAuto) == Intended(es, r, f, skipAuto) {
      forall i, j | 0 <= i < j < |es| && CountsAlike(es, i, j, skipAuto) && CountsAlike(es, j, j, skipAuto) &&
        IsEdid(es[j].mode) && forall k :: 0 <= k < i ==> !CountsAlike(es, k, j, skipAuto)
        ensures IsEdid(es[i].mode)
      {
        var r, f := es[j].resolution, es[j].freq;
        assert Holder(es, r, f, skipAuto) == Intended(es, r, f, skipAuto);
        LedAsIntended(es, i, j, skipAuto);
      }
    }
  }

  lemma SlotAsIntended(es: seq<Entry>, r: string, f: string, skipAuto: bool)
    requires EdidLeads(es, skipAuto)
    ensures Holder(es, r, f, skipAuto) == Intended(es, r, f, skipAuto)
  {
    var i := FirstPlace(es, r, f, skipAuto, false);
    var j := FirstPlace(es, r, f, skipAuto, true);
    HeldAsIntended(es, r, f, skipAuto);
    if i < j < |es| {
      assert CountsAlike(es, i, j, skipAuto);
    }
  }

  lemma LedAsIntended(es: seq<Entry>, i: nat, j: nat, skipAuto: bool)
    requires i < j < |es| && CountsAlike(es, i, j, skipAuto) && CountsAlike(es, j, j, skipAuto) && IsEdid(es[j].mode)
    requires forall k :: 0 <= k < i ==> !CountsAlike(es, k, j, skipAuto)
    requires var r, f := es[j].resolution, es[j].freq;
      Holder(es, r, f, skipAuto) == Intended(es, r, f, skipAuto)
    ensures IsEdid(es[i].mode)
  {
    var r, f := es[j].resolution, es[j].freq;
    var first := FirstPlace(es, r, f, skipAuto, false);
    var edid := FirstPlace(es, r, f, skipAuto, true);
    HeldAsIntended(es, r, f, skipAuto);
    assert CountsAlike(es, i, j, skipAuto) && Counts(es[i], r, f, skipAuto);
    assert first < |es| ==> CountsAlike(es, first, j, skipAuto);
    assert first == i;
  }

  /** What a slot holds, said of the stream alone: the first modeline of that resolution and frequency,
      where a display that is on passes over the automatic mode. */
  lemma HolderIs(es: seq<Entry>, r: string, f: string, skipAuto: bool, i: nat)
    requires i < |es| && es[i].resolution == r && es[i].freq == f
    requires skipAuto ==> es[i].mode.id != "nvidia-auto-select"
    requires forall k :: 0 <= k < i ==>
      es[k].resolution != r || es[k].freq != f || (skipAuto && es[k].mode.id == "nvidia-auto-select")
    ensures Holder(es, r, f, skipAuto) == Some(es[i].mode)
  {
    var first := FirstPlace(es, r, f, skipAuto, false);
    assert Counts(es[i], r, f, skipAuto);
    assert forall k :: 0 <= k < i ==> !Counts(es[k], r, f, skipAuto);
  }

  /** And nothing if there is none. */
  lemma HolderOf(es: seq<Entry>, r: string, f: string, skipAuto: bool) returns (i: nat)
    ensures i <= |es| && (i == |es| <==> Holder(es, r, f, skipAuto).None?)
    ensures i < |es| ==>
      && es[i].resolution == r && es[i].freq == f && (skipAuto ==> es[i].mode.id != "nvidia-auto-select")
      && Holder(es, r, f, skipAuto) == Some(es[i].mode)
  {
    i := FirstPlace(es, r, f, skipAuto, false);
  }

  // Two modelines of one key, the second one from EDID.
  const EARLY := Mode("1024x768", Bool(false), "65.0", "1024", "768", false, false, [], 60)
  const LATE := EARLY.(id := "1024x768_60", isedid := Bool(true))

  /** The second one was meant to have the slot, and the first one has it. */
  lemma EdidComesTooLate(skipAuto: bool)
    ensures var es := [Entry("1024x768", "60", EARLY), Entry("1024x768", "60", LATE)];
      && Stored(es) && !EdidLeads(es, skipAuto)
      && Holder(es, "1024x768", "60", skipAuto) == Some(EARLY)
      && Intended(es, "1024x768", "60", skipAuto) == Some(LATE)
  {
    var es := [Entry("1024x768", "60", EARLY), Entry("1024x768", "60", LATE)];
    assert "1024x768"[0] != AUTO[0] && "1024x768_60"[0] != AUTO[0];
    assert es[1..] == [es[1]];
    assert FirstOfKey([es[1]], "1024x768", "60", skipAuto, true) == Some(LATE);
    assert CountsAlike(es, 0, 1, skipAuto) && CountsAlike(es, 1, 1, skipAuto);
  }

  /** The resolutions in the order in which they turn up. */
  function Appearances(es: seq<Entry>): (ids: seq<string>)
    ensures forall i, j :: 0 <= i < j < |ids| ==> ids[i] != ids[j]
    ensures forall i :: 0 <= i < |es| ==> es[i].resolution in ids
  {
    if es == [] then []
    else
      var ids, r := Appearances(es[..|es| - 1]), es[|es| - 1].resolution;
      if r in ids then ids else ids + [r]
  }

  lemma AppearancesStep(es: seq<Entry>, e: Entry)
    ensures var ids := Appearances(es);
      Appearances(es + [e]) == if e.resolution in ids then ids else ids + [e.resolution]
  {
    assert (es + [e])[..|es|] == es;
  }

  // ---- the table ------------------------------------------------------------------------------

  /** The rows that the table starts with; none of their ids can be a resolution. */
  ghost predicate IsBase(base: seq<Row>)
  {
    && (forall i :: 0 <= i < |base| ==> Free(base[i].id, 'x'))
    && (forall i, j :: 0 <= i < j < |base| ==> base[i].id != base[j].id)
  }

  function Slot(row: Row, freq: string): Option<Mode>
  {
    if freq in row.modes then Some(row.modes[freq]) else None
  }

  /** Every resolution has one row, at the index that `known` gives, in the order of `ids` behind
      the initial rows. */
  ghost predicate Indexed(base: seq<Row>, rows: seq<Row>, known: map<string, nat>, ids: seq<string>)
  {
    && |rows| == |base| + |ids| && rows[..|base|] == base
    && (forall r :: r in known <==> r in ids)
    && (forall i :: 0 <= i < |ids| ==> known[ids[i]] == |base| + i && rows[|base| + i].id == ids[i])
  }

  /** Every slot of a resolution holds the first modeline of its key among `es`, and there are no other slots. */
  ghost predicate Slotted(n: nat, rows: seq<Row>, ids: seq<string>, es: seq<Entry>, skipAuto: bool)
    requires |rows| == n + |ids|
  {
    forall i, f {:trigger Slot(rows[n + i], f)} {:trigger Holder(es, ids[i], f, skipAuto)} ::
      0 <= i < |ids| ==> Slot(rows[n + i], f) == Holder(es, ids[i], f, skipAuto)
  }

  lemma {:induction false} UnseenHasNone(es: seq<Entry>, r: string, f: string, skipAuto: bool, edidOnly: bool)
    requires forall i :: 0 <= i < |es| ==> es[i].resolution != r
    ensures FirstOfKey(es, r, f, skipAuto, edidOnly) == None
  {
    if es != [] {
      UnseenHasNone(es[1..], r, f, skipAuto, edidOnly);
    }
  }

  lemma NewRowSlots(n: nat, rows: seq<Row>, r: string, es: seq<Entry>, skipAuto: bool)
    requires |rows| == n + |Appearances(es)| && r !in Appearances(es)
    requires Slotted(n, rows, Appearances(es), es, skipAuto)
    ensures Slotted(n, rows + [Row(r, map[])], Appearances(es) + [r], es, skipAuto)
  {
    var ids, rows2 := Appearances(es) + [r], rows + [Row(r, map[])];
    forall i, f | 0 <= i < |ids|
      ensures Slot(rows2[n + i], f) == Holder(es, ids[i], f, skipAuto)
    {
      if i == |ids| - 1 {
        UnseenHasNone(es, r, f, skipAuto, false);
      } else {
        assert rows2[n + i] == rows[n + i] && ids[i] == Appearances(es)[i];
      }
    }
  }

  lemma NewRowIndexed(base: seq<Row>, rows: seq<Row>, known: map<string, nat>, ids: seq<string>, r: string)
    requires Indexed(base, rows, known, ids) && r !in ids
    ensures Indexed(base, rows + [Row(r, map[])], known[r := |rows|], ids + [r])
  {
    var ids2, rows2 := ids + [r], rows + [Row(r, map[])];
    assert rows2[..|base|] == base;
    forall i | 0 <= i < |ids2|
      ensures known[r := |rows|][ids2[i]] == |base| + i && rows2[|base| + i].id == ids2[i]
    {
      if i < |ids| {
        assert ids2[i] == ids[i] && ids[i] in ids;
      }
    }
  }

  lemma KnownRow(base: seq<Row>, rows: seq<Row>, known: map<string, nat>, ids: seq<string>, r: string)
    requires Indexed(base, rows, known, ids)
    ensures r in known <==> r in ids
    ensures r in known ==> |base| <= known[r] < |rows| == |base| + |ids| && ids[known[r] - |base|] == r
  {
    if r in ids {
      var i :| 0 <= i < |ids| && ids[i] == r;
    }
  }

  /** The row of an entry after the entry has been filed. */
  function Filed(row: Row, e: Entry, skipAuto: bool): Row
  {
    if !(skipAuto && e.mode.id == AUTO) &&
       (e.freq !in row.modes || (IsEdid(e.mode) && Not(row.modes[e.freq].isedid)))
    then row.(modes := row.modes[e.freq := e.mode])
    else row
  }

  lemma FiledSlots(n: nat, rows: seq<Row>, ids: seq<string>, es: seq<Entry>, e: Entry, k: nat, skipAuto: bool)
    requires |rows| == n + |ids| && Slotted(n, rows, ids, es, skipAuto) && Stored(es)
    requires k < |ids| && ids[k] == e.resolution && forall i, j :: 0 <= i < j < |ids| ==> ids[i] != ids[j]
    ensures Slotted(n, rows[n + k := Filed(rows[n + k], e, skipAuto)], ids, es + [e], skipAuto)
  {
    var rows2 := rows[n + k := Filed(rows[n + k], e, skipAuto)];
    forall i, f | 0 <= i < |ids|
      ensures Slot(rows2[n + i], f) == Holder(es + [e], ids[i], f, skipAuto)
    {
      FirstOfMore(es, e, ids[i], f, skipAuto, false);
      HolderStored(es, ids[i], f, skipAuto);
      assert Slot(rows[n + i], f) == Holder(es, ids[i], f, skipAuto);
    }
  }

  lemma FiledKeepsId(row: Row, e: Entry, skipAuto: bool)
    ensures Filed(row, e, skipAuto).id == row.id
  {
  }

  lemma IndexedLength(base: seq<Row>, rows: seq<Row>, known: map<string, nat>, ids: seq<string>)
    requires Indexed(base, rows, known, ids)
    ensures |rows| == |base| + |ids|
  {
  }

  lemma FiledIndex(base: seq<Row>, rows: seq<Row>, known: map<string, nat>, ids: seq<string>, k: nat, row: Row)
    requires Indexed(base, rows, known, ids) && k < |ids| && row.id == rows[|base| + k].id
    ensures Indexed(base, rows[|base| + k := row], known, ids)
  {
    var rows2 := rows[|base| + k := row];
    assert rows2[..|base|] == rows[..|base|];
  }

  class Table {
    const base: seq<Row>
    const skipAuto: bool
    var known: map<string, nat>
    var modelines: seq<Row>
    var next: nat
    /** The modelines filed so far. */
    ghost var seen: seq<Entry>

    ghost predicate Valid()
      reads this
    {
      && IsBase(base) && next == |modelines|
      && Indexed(base, modelines, known, Appearances(seen))
      && Slotted(|base|, modelines, Appearances(seen), seen, skipAuto)
      && Stored(seen) && forall i :: 0 <= i < |seen| ==> 'x' in seen[i].resolution
    }

    /** The displays that are on start with an empty table, the others with a row each for being
        off and for the automatic mode. */
    constructor (base: seq<Row>, skipAuto: bool)
      requires IsBase(base)
      ensures Valid() && seen == [] && this.base == base && this.skipAuto == skipAuto
    {
      this.base, this.skipAuto := base, skipAuto;
      known, modelines, next, seen := map[], base, |base|, [];
    }

    /** The row of a resolution, made if there is none yet. */
    method RowFor(resolution: string) returns (pos: nat)
      requires next == |modelines| && Indexed(base, modelines, known, Appearances(seen))
      requires Slotted(|base|, modelines, Appearances(seen), seen, skipAuto)
      modifies `known, `modelines, `next
      ensures var ids := Appearances(seen);
        var more := if resolution in ids then ids else ids + [resolution];
        next == |modelines| && Indexed(base, modelines, known, more) &&
        Slotted(|base|, modelines, more, seen, skipAuto) &&
        |base| <= pos < |modelines| == |base| + |more| && more[pos - |base|] == resolution
    {
      hide Indexed, Slotted, Appearances;
      ghost var ids := Appearances(seen);
      KnownRow(base, modelines, known, ids, resolution);
      IndexedLength(base, modelines, known, ids);
      if resolution !in known {
        NewRowSlots(|base|, modelines, resolution, seen, skipAuto);
        NewRowIndexed(base, modelines, known, ids, resolution);
        known := known[resolution := next];
        modelines := modelines + [Row(resolution, map[])];
        pos := next;
        next := next + 1;
      } else {
        pos := known[resolution];
      }
    }

    /** The slot of an entry in the row found for it. */
    method Put(e: Entry, pos: nat, ghost ids: seq<string>)
      requires ids == Appearances(seen + [e]) && next == |modelines| && Stored(seen)
      requires Indexed(base, modelines, known, ids) && Slotted(|base|, modelines, ids, seen, skipAuto)
      requires |base| <= pos < |modelines| == |base| + |ids| && ids[pos - |base|] == e.resolution
      modifies `modelines, `seen
      ensures next == |modelines| && seen == old(seen) + [e]
      ensures Indexed(base, modelines, known, ids) && Slotted(|base|, modelines, ids, seen, skipAuto)
    {
      hide FirstOfKey, Holder, Appearances, Slotted, Indexed, Filed;
      IndexedLength(base, modelines, known, ids);
      FiledKeepsId(modelines[pos], e, skipAuto);
      FiledSlots(|base|, modelines, ids, seen, e, pos - |base|, skipAuto);
      FiledIndex(base, modelines, known, ids, pos - |base|, Filed(modelines[pos], e, skipAuto));
      modelines := modelines[pos := Filed(modelines[pos], e, skipAuto)];
      seen := seen + [e];
    }

    /** One modeline of the stream. */
    method Add(e: Entry)
      requires Valid() && 'x' in e.resolution && e.mode.isedid.Bool?
      modifies this
      ensures Valid() && seen == old(seen) + [e]
    {
      hide FirstOfKey, Holder, Appearances, Slotted, Indexed, IsBase;
      AppearancesStep(seen, e);
      var pos := RowFor(e.resolution);
      Put(e, pos, Appearances(seen + [e]));
    }

    /** No two rows have the same id. */
    lemma IdsDistinct(i: nat, j: nat)
      requires Valid() && i < j < |modelines|
      ensures modelines[i].id != modelines[j].id
    {
      var ids := Appearances(seen);
      if j >= |base| {
        assert modelines[|base| + (j - |base|)].id == ids[j - |base|];
        AppearanceHasX(seen, j - |base|);
        if i >= |base| {
          assert modelines[|base| + (i - |base|)].id == ids[i - |base|];
        } else {
          assert modelines[i] == base[i];
        }
      } else {
        assert modelines[i] == base[i] && modelines[j] == base[j];
      }
    }

    /** What a reader of the finished table finds. */
    lemma Lookups(r: string, f: string)
      requires Valid()
      ensures r in known <==> exists e :: e in seen && e.resolution == r
      ensures r in known ==>
        known[r] < |modelines| && modelines[known[r]].id == r &&
        Slot(modelines[known[r]], f) == Holder(seen, r, f, skipAuto)
    {
      AppearanceSeen(seen, r);
      var ids := Appearances(seen);
      if r in known {
        var i :| 0 <= i < |ids| && ids[i] == r;
        assert Slot(modelines[|base| + i], f) == Holder(seen, ids[i], f, skipAuto);
      }
    }
  }

  lemma {:induction false} AppearanceSeen(es: seq<Entry>, r: string)
    ensures r in Appearances(es) <==> exists e :: e in es && e.resolution == r
  {
    if es != [] {
      AppearanceSeen(es[..|es| - 1], r);
      assert es == es[..|es| - 1] + [es[|es| - 1]];
    }
  }

  lemma AppearanceHasX(es: seq<Entry>, i: nat)
    requires i < |Appearances(es)| && forall j :: 0 <= j < |es| ==> 'x' in es[j].resolution
    ensures 'x' in Appearances(es)[i]
  {
    AppearanceSeen(es, Appearances(es)[i]);
  }
}
