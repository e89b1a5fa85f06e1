/** Laws of channel numbering. */
module ChannelNumbers {
  import opened Options
  import opened Text
  import opened Channels

  // ---- the renumbering is the least admissible one ----------------------------------------

  /** `m[j]` numbers the channel in row `j`: positive, strictly rising from channel to channel,
      and never below the number of a group that comes before. */
  ghost predicate Admissible(rows: seq<Row>, m: seq<int>)
    requires |m| == |rows|
  {
    && (forall j :: 0 <= j < |rows| && rows[j].Channel? ==> m[j] >= 1)
    && (forall i, j :: 0 <= i < j < |rows| && rows[i].Channel? && rows[j].Channel? ==> m[i] < m[j])
    && (forall i, j :: 0 <= i < j < |rows| && IsNumberedAt(rows[i]) && rows[j].Channel? ==>
          m[j] >= rows[i].number.number.value)
  }

  /** A group line with a number that is a number. */
  predicate IsNumberedAt(row: Row)
  {
    row.Group? && row.number.Parsed? && row.number.number.Int?
  }

  function Renumbered(rows: seq<Row>): (m: seq<int>)
    ensures |m| == |rows| && forall j :: 0 <= j < |m| ==> m[j] == StoreCounter(rows[..j])
  {
    seq(|rows|, j requires 0 <= j < |rows| => StoreCounter(rows[..j]))
  }

  lemma {:induction false} CounterRises(rows: seq<Row>, i: nat, j: nat)
    requires i <= j <= |rows|
    ensures StoreCounter(rows[..i]) <= StoreCounter(rows[..j])
    ensures i < j && rows[i].Channel? ==> StoreCounter(rows[..i]) < StoreCounter(rows[..j])
    ensures i < j && IsNumberedAt(rows[i]) ==> rows[i].number.number.value <= StoreCounter(rows[..j])
    decreases j - i
  {
    if i < j {
      CounterStep(rows, i);
      CounterRises(rows, i + 1, j);
    }
  }

  lemma {:induction false} CounterIsNeeded(rows: seq<Row>, m: seq<int>, k: nat, j: nat)
    requires |m| == |rows| && Admissible(rows, m) && k <= j < |rows| && rows[j].Channel?
    ensures StoreCounter(rows[..k]) <= m[j]
  {
    if k > 0 {
      CounterStep(rows, k - 1);
      CounterIsNeeded(rows, m, k - 1, j);
      if rows[k - 1].Channel? {
        CounterIsNeeded(rows, m, k - 1, k - 1);
      }
    }
  }

  /** `_asyncResortChannelNo` gives the pointwise least admissible numbering. */
  lemma RenumberedIsLeast(rows: seq<Row>, m: seq<int>)
    requires |m| == |rows| && Admissible(rows, m)
    ensures Admissible(rows, Renumbered(rows))
    ensures forall j :: 0 <= j < |rows| && rows[j].Channel? ==> Renumbered(rows)[j] <= m[j]
  {
    RenumberedIsAdmissible(rows);
    forall j | 0 <= j < |rows| && rows[j].Channel?
      ensures Renumbered(rows)[j] <= m[j]
    {
      CounterIsNeeded(rows, m, j, j);
    }
  }

  lemma RenumberedIsAdmissible(rows: seq<Row>)
    ensures Admissible(rows, Renumbered(rows))
  {
    var m := Renumbered(rows);
    forall i, j | 0 <= i < j < |rows|
      ensures rows[i].Channel? ==> m[i] < m[j]
      ensures IsNumberedAt(rows[i]) ==> rows[i].number.number.value <= m[j]
    {
      CounterRises(rows, i, j);
    }
  }

  ghost predicate IsRenumbered(records: seq<Record>)
    reads records
  {
    forall j :: 0 <= j < |records| && records[j].row.Channel? ==>
      records[j].channel == Some(Int(Renumbered(RowsOf(records))[j]))
  }

  /** Renumbering changes nothing exactly when the records are numbered so already; afterwards
      they always are. */
  method ResortIsIdempotent(records: seq<Record>) returns (ghost same: bool)
    requires Distinct(records)
    modifies records
    ensures IsRenumbered(records)
    ensures same <==> forall j :: 0 <= j < |records| ==> records[j].channel == old(records[j].channel)
    ensures same <==> old(IsRenumbered(records))
  {
    same := IsRenumbered(records);
    Resort(records);
  }

  // ---- when the reader's numbers are the renumbering's --------------------------------------

  /** A group line whose number the reader takes over. */
  predicate SetsCounter(row: Row)
  {
    row.Group? && row.number.Parsed?
  }

  /** No group line between the two rows sets the counter. */
  ghost predicate Quiet(rows: seq<Row>, i: nat, j: nat)
    requires i <= j <= |rows|
  {
    forall k :: i <= k < j ==> !SetsCounter(rows[k])
  }

  /** Every group number that the next channels are counted from is a number that is not below
      the running one. */
  ghost predicate NeverBack(rows: seq<Row>)
  {
    forall i, j :: 0 <= i < j < |rows| && SetsCounter(rows[i]) && rows[j].Channel? && Quiet(rows, i + 1, j) ==>
      IsNumberedAt(rows[i]) && rows[i].number.number.value >= StoreCounter(rows[..i])
  }

  /** The number of channels among the rows. */
  function ChannelsIn(rows: seq<Row>): nat
  {
    if rows == [] then 0
    else ChannelsIn(rows[..|rows| - 1]) + if rows[|rows| - 1].Channel? then 1 else 0
  }

  /** The reader counts the channels on from the last group number, or from one, as long as that
      number is one. */
  lemma {:induction false} CountedOn(rows: seq<Row>, i: nat, more: seq<Row>)
    requires i == |rows| && Quiet(rows + more, i, |rows + more|)
    requires i > 0 ==> SetsCounter(rows[i - 1])
    ensures ReaderCounter(rows + more) ==
            if i == 0 then Int(1 + ChannelsIn(more))
            else if rows[i - 1].number.number.NaN? then NaN
            else Int(rows[i - 1].number.number.value + ChannelsIn(more))
  {
    if more == [] {
      assert rows + more == rows;
    } else {
      var most, last := more[..|more| - 1], more[|more| - 1];
      assert rows + more == rows + most + [last];
      assert forall k :: i <= k < |rows + most| ==> (rows + more)[k] == (rows + most)[k];
      CountedOn(rows, i, most);
      CounterGrows(rows + most, last);
      assert (rows + more)[|rows + most|] == last;
    }
  }

  /** The reader and the renumbering give row `j` the same number. */
  ghost predicate InStep(rows: seq<Row>, j: nat)
    requires j <= |rows|
  {
    ReaderCounter(rows[..j]) == Int(StoreCounter(rows[..j]))
  }

  lemma {:induction false} QuietKeepsStep(rows: seq<Row>, i: nat, j: nat)
    requires i <= j <= |rows| && Quiet(rows, i, j)
    ensures InStep(rows, i) <==> InStep(rows, j)
    decreases j - i
  {
    if i < j {
      CounterStep(rows, i);
      assert !SetsCounter(rows[i]);
      assert Quiet(rows, i + 1, j);
      QuietKeepsStep(rows, i + 1, j);
    }
  }

  lemma StepAfterNumber(rows: seq<Row>, i: nat)
    requires i < |rows| && SetsCounter(rows[i])
    ensures InStep(rows, i + 1) <==>
            IsNumberedAt(rows[i]) && rows[i].number.number.value >= StoreCounter(rows[..i])
  {
    CounterStep(rows, i);
  }

  lemma {:induction false} LastSetter(rows: seq<Row>, j: nat) returns (i: nat)
    requires j <= |rows|
    ensures i <= j && Quiet(rows, i, j) && (i > 0 ==> SetsCounter(rows[i - 1]))
  {
    i := j;
    if j > 0 && !SetsCounter(rows[j - 1]) {
      i := LastSetter(rows, j - 1);
    }
  }

  /** The numbers that the reader gives are those of the renumbering exactly when no group
      number that counts is below the running number or unreadable. */
  lemma SameNumbersIff(rows: seq<Row>)
    ensures (forall j :: 0 <= j < |rows| && rows[j].Channel? ==> InStep(rows, j)) <==> NeverBack(rows)
  {
    if forall j :: 0 <= j < |rows| && rows[j].Channel? ==> InStep(rows, j) {
      forall i, j | 0 <= i < j < |rows| && SetsCounter(rows[i]) && rows[j].Channel? && Quiet(rows, i + 1, j)
        ensures IsNumberedAt(rows[i]) && rows[i].number.number.value >= StoreCounter(rows[..i])
      {
        StepAfterNumber(rows, i);
        QuietKeepsStep(rows, i + 1, j);
      }
    }
    if NeverBack(rows) {
      forall j | 0 <= j < |rows| && rows[j].Channel?
        ensures InStep(rows, j)
      {
        var i := LastSetter(rows, j);
        QuietKeepsStep(rows, i, j);
        if i > 0 {
          StepAfterNumber(rows, i - 1);
        } else {
          assert rows[..0] == [];
        }
      }
    }
  }

  /** Loading a file and renumbering at once: no channel gets another number exactly when no
      group number goes back. */
  method LoadAndResort(doc: string) returns (records: seq<Record>)
    ensures fresh(records)
    ensures RowsOf(records) == ReadLines(Split(doc, '\n'))
    ensures NeverBack(RowsOf(records)) <==>
      forall j :: 0 <= j < |records| && records[j].row.Channel? ==> records[j].channel == records[j].channelOrig
  {
    records := ReadRecords(doc);
    Resort(records);
    SameNumbersIff(RowsOf(records));
  }
}
