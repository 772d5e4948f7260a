/** The ordered container the table handlers keep their rows in, and its file: the rows written in order. */
module TableContainer {
  import opened Options

  datatype Record<V> = Record(index: nat, row: V)

  ghost predicate Sorted<V>(rows: seq<Record<V>>)
  {
    forall i, j :: 0 <= i < j < |rows| ==> rows[i].index < rows[j].index
  }

  /** The first record with this index, as the search of a file finds it. */
  function Find<V>(rows: seq<Record<V>>, index: nat): Option<V>
  {
    if rows == [] then None
    else if rows[0].index == index then Some(rows[0].row)
    else Find(rows[1..], index)
  }

  /** How many leading records have a smaller index. */
  function Slot<V>(rows: seq<Record<V>>, index: nat): (p: nat)
    ensures p <= |rows|
    ensures forall i :: 0 <= i < p ==> rows[i].index < index
    ensures p < |rows| ==> rows[p].index >= index
  {
    if rows == [] || rows[0].index >= index then 0 else 1 + Slot(rows[1..], index)
  }

  predicate Holds<V>(rows: seq<Record<V>>, index: nat)
  {
    var p := Slot(rows, index);
    p < |rows| && rows[p].index == index
  }

  /** The row of an index that is there is changed in place; a new one goes to its slot. */
  function Put<V>(rows: seq<Record<V>>, index: nat, row: V): seq<Record<V>>
  {
    var p := Slot(rows, index);
    if Holds(rows, index) then rows[p := Record(index, row)] else rows[..p] + [Record(index, row)] + rows[p..]
  }

  function Drop<V>(rows: seq<Record<V>>, p: nat): (r: seq<Record<V>>)
    requires p < |rows|
    ensures |r| == |rows| - 1
    ensures forall i :: 0 <= i < |r| ==> r[i] == if i < p then rows[i] else rows[i + 1]
  {
    rows[..p] + rows[p + 1..]
  }

  function Remove<V>(rows: seq<Record<V>>, index: nat): seq<Record<V>>
  {
    var p := Slot(rows, index);
    if Holds(rows, index) then Drop(rows, p) else rows
  }

  /** An insertion fails when the index is taken. */
  function Insert<V>(rows: seq<Record<V>>, r: Record<V>): seq<Record<V>>
  {
    if Holds(rows, r.index) then rows else Put(rows, r.index, r.row)
  }

  /** Inserting the records of a file one by one into an empty container. */
  function Load<V>(records: seq<Record<V>>): seq<Record<V>>
  {
    if records == [] then [] else Insert(Load(records[..|records| - 1]), records[|records| - 1])
  }

  lemma {:induction false} FindAt<V>(rows: seq<Record<V>>, p: nat)
    requires p < |rows| && forall i :: 0 <= i < p ==> rows[i].index != rows[p].index
    ensures Find(rows, rows[p].index) == Some(rows[p].row)
  {
    if p > 0 {
      assert rows[1..][p - 1] == rows[p];
      FindAt(rows[1..], p - 1);
    }
  }

  lemma {:induction false} FindNowhere<V>(rows: seq<Record<V>>, index: nat)
    requires forall i :: 0 <= i < |rows| ==> rows[i].index != index
    ensures Find(rows, index) == None
  {
    if rows != [] {
      FindNowhere(rows[1..], index);
    }
  }

  /** On sorted rows the linear search and the slot agree. */
  lemma FindIsSlot<V>(rows: seq<Record<V>>, index: nat)
    requires Sorted(rows)
    ensures Find(rows, index) == if Holds(rows, index) then Some(rows[Slot(rows, index)].row) else None
  {
    var p := Slot(rows, index);
    if Holds(rows, index) {
      FindAt(rows, p);
    } else {
      FindNowhere(rows, index);
    }
  }

  lemma PutSorted<V>(rows: seq<Record<V>>, index: nat, row: V)
    requires Sorted(rows)
    ensures Sorted(Put(rows, index, row))
  {
  }

  lemma RemoveSorted<V>(rows: seq<Record<V>>, index: nat)
    requires Sorted(rows)
    ensures Sorted(Remove(rows, index))
  {
  }

  /** A change introduces no record but the new one. */
  lemma PutOrigin<V>(rows: seq<Record<V>>, index: nat, row: V, i: nat) returns (j: nat)
    requires i < |Put(rows, index, row)|
    ensures Put(rows, index, row)[i] == Record(index, row) || (j < |rows| && Put(rows, index, row)[i] == rows[j])
  {
    j := if i <= Slot(rows, index) || Holds(rows, index) then i else i - 1;
  }

  lemma RemoveOrigin<V>(rows: seq<Record<V>>, index: nat, i: nat) returns (j: nat)
    requires i < |Remove(rows, index)|
    ensures j < |rows| && Remove(rows, index)[i] == rows[j]
  {
    j := if i < Slot(rows, index) || !Holds(rows, index) then i else i + 1;
  }

  /** Where a search finds an index, given one place that has it. */
  lemma FindHere<V>(rows: seq<Record<V>>, p: nat)
    requires Sorted(rows) && p < |rows|
    ensures Find(rows, rows[p].index) == Some(rows[p].row)
  {
    FindAt(rows, p);
  }

  lemma FindInserted<V>(rows: seq<Record<V>>, p: nat, r: Record<V>, k: nat)
    requires Sorted(rows) && p <= |rows| && Sorted(rows[..p] + [r] + rows[p..])
    ensures Find(rows[..p] + [r] + rows[p..], k) == if k == r.index then Some(r.row) else Find(rows, k)
  {
    var after := rows[..p] + [r] + rows[p..];
    if k == r.index {
      FindHere(after, p);
    } else if q: nat :| q < |rows| && rows[q].index == k {
      FindHere(rows, q);
      FindHere(after, if q < p then q else q + 1);
    } else {
      FindNowhere(rows, k);
      FindNowhere(after, k);
    }
  }

  lemma FindUpdated<V>(rows: seq<Record<V>>, p: nat, row: V, k: nat)
    requires Sorted(rows) && p < |rows|
    ensures Find(rows[p := Record(rows[p].index, row)], k) == if k == rows[p].index then Some(row) else Find(rows, k)
  {
    var after := rows[p := Record(rows[p].index, row)];
    if k == rows[p].index {
      FindHere(after, p);
    } else if q: nat :| q < |rows| && rows[q].index == k {
      FindHere(rows, q);
      FindHere(after, q);
    } else {
      FindNowhere(rows, k);
      FindNowhere(after, k);
    }
  }

  /** A search after a change: the new row at its index, the old rows elsewhere. */
  lemma FindPut<V>(rows: seq<Record<V>>, index: nat, row: V, k: nat)
    requires Sorted(rows)
    ensures Find(Put(rows, index, row), k) == if k == index then Some(row) else Find(rows, k)
  {
    PutSorted(rows, index, row);
    if Holds(rows, index) {
      FindUpdated(rows, Slot(rows, index), row, k);
    } else {
      FindInserted(rows, Slot(rows, index), Record(index, row), k);
    }
  }

  lemma FindKept<V>(rows: seq<Record<V>>, p: nat, q: nat)
    requires Sorted(rows) && p < |rows| && q < |rows| && p != q
    ensures Find(Drop(rows, p), rows[q].index) == Some(rows[q].row)
  {
    FindAt(Drop(rows, p), if q < p then q else q - 1);
  }

  lemma FindGone<V>(rows: seq<Record<V>>, p: nat, k: nat)
    requires Sorted(rows) && p < |rows|
    requires forall i :: 0 <= i < |rows| && i != p ==> rows[i].index != k
    ensures Find(Drop(rows, p), k) == None
  {
    var after := Drop(rows, p);
    forall i | 0 <= i < |after|
      ensures after[i].index != k
    {
      assert after[i] == rows[if i < p then i else i + 1];
    }
    FindNowhere(after, k);
  }

  lemma FindDropped<V>(rows: seq<Record<V>>, p: nat, k: nat)
    requires Sorted(rows) && p < |rows|
    ensures Find(Drop(rows, p), k) == if k == rows[p].index then None else Find(rows, k)
  {
    if q: nat :| q < |rows| && q != p && rows[q].index == k {
      FindKept(rows, p, q);
      FindHere(rows, q);
    } else {
      FindGone(rows, p, k);
      if k != rows[p].index {
        FindNowhere(rows, k);
      }
    }
  }

  lemma FindRemove<V>(rows: seq<Record<V>>, index: nat, k: nat)
    requires Sorted(rows)
    ensures Find(Remove(rows, index), k) == if k == index then None else Find(rows, k)
  {
    if Holds(rows, index) {
      FindDropped(rows, Slot(rows, index), k);
    } else {
      FindIsSlot(rows, index);
    }
  }

  /** A row written and written back leaves the container as it was; a row written and removed is removed. */
  lemma PutBack<V>(rows: seq<Record<V>>, index: nat, row: V)
    requires Sorted(rows) && Holds(rows, index)
    ensures Find(rows, index).Some? && Put(Put(rows, index, row), index, Find(rows, index).value) == rows
    ensures Remove(Put(rows, index, row), index) == Remove(rows, index)
  {
    FindIsSlot(rows, index);
    SlotStays(rows, index, row);
    var p := Slot(rows, index);
    assert rows[p] == Record(index, Find(rows, index).value);
    assert Drop(rows[p := Record(index, row)], p) == Drop(rows, p);
  }

  lemma SlotStays<V>(rows: seq<Record<V>>, index: nat, row: V)
    requires Sorted(rows) && Holds(rows, index)
    ensures Slot(Put(rows, index, row), index) == Slot(rows, index)
  {
    SlotAt(Put(rows, index, row), index, Slot(rows, index));
  }

  lemma {:induction false} SlotAt<V>(rows: seq<Record<V>>, index: nat, p: nat)
    requires p < |rows| && rows[p].index == index && forall i :: 0 <= i < p ==> rows[i].index < index
    ensures Slot(rows, index) == p
  {
    if p > 0 {
      SlotAt(rows[1..], index, p - 1);
    }
  }

  /** Of two rows stored at one index the later stays. */
  lemma PutTwice<V>(rows: seq<Record<V>>, index: nat, first: V, second: V)
    requires Sorted(rows)
    ensures Put(Put(rows, index, first), index, second) == Put(rows, index, second)
  {
    var p, once := Slot(rows, index), Put(rows, index, first);
    SlotAt(once, index, p);
    if !Holds(rows, index) {
      assert once[..p] == rows[..p] && once[p + 1..] == rows[p..];
      assert once[p := Record(index, second)] == rows[..p] + [Record(index, second)] + rows[p..];
    }
  }

  lemma PutLast<V>(rows: seq<Record<V>>, r: Record<V>)
    requires forall i :: 0 <= i < |rows| ==> rows[i].index < r.index
    ensures Insert(rows, r) == rows + [r]
  {
    var p := Slot(rows, r.index);
    assert p == |rows| && rows[..p] == rows && rows[p..] == [];
  }

  /** A saved container loads as it was. */
  lemma {:induction false} LoadUndoesSave<V>(rows: seq<Record<V>>)
    requires Sorted(rows)
    ensures Load(rows) == rows
  {
    if rows != [] {
      var init, last := rows[..|rows| - 1], rows[|rows| - 1];
      LoadUndoesSave(init);
      PutLast(init, last);
      assert init + [last] == rows;
    }
  }

  /** Whatever a file holds, the container it loads into is sorted. */
  lemma {:induction false} LoadSorted<V>(records: seq<Record<V>>)
    ensures Sorted(Load(records))
  {
    if records != [] {
      var init, last := records[..|records| - 1], records[|records| - 1];
      LoadSorted(init);
      PutSorted(Load(init), last.index, last.row);
    }
  }

  lemma {:induction false} FindSnoc<V>(records: seq<Record<V>>, last: Record<V>, k: nat)
    ensures Find(records + [last], k) ==
            if Find(records, k).Some? then Find(records, k) else if last.index == k then Some(last.row) else None
  {
    if records != [] {
      assert (records + [last])[1..] == records[1..] + [last];
      if records[0].index != k {
        FindSnoc(records[1..], last, k);
      }
    }
  }

  /** Whatever the file, the container it loads to has the rows a search of the file finds: of two records with one
      index the first. */
  lemma {:induction false} LoadFinds<V>(records: seq<Record<V>>, k: nat)
    ensures Find(Load(records), k) == Find(records, k)
  {
    if records != [] {
      var init, last := records[..|records| - 1], records[|records| - 1];
      LoadFinds(init, k);
      LoadSorted(init);
      assert records == init + [last];
      FindSnoc(init, last, k);
      FindIsSlot(Load(init), last.index);
      FindPut(Load(init), last.index, last.row, k);
    }
  }
}
