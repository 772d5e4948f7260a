/** The data file of the file monitor: an array of fixed-size records, overwritten in place or
    extended by each commit, reloaded and compacted at start-up. A file that does not exist is an
    empty one: both are read, extended and loaded alike. */
module FileMonStore {
  import opened Octets
  import opened Options
  import opened RowStatus
  import opened FileMonRow

  predicate IsTombstone(r: Row) { r.status == DESTROY }

  /** The position of the first record with this index, or the end of the file. */
  function Position(f: seq<Row>, key: nat): (p: nat)
    ensures p <= |f|
    ensures forall i :: 0 <= i < p ==> f[i].idx != key
    ensures p < |f| ==> f[p].idx == key
  {
    if f == [] || f[0].idx == key then 0 else 1 + Position(f[1..], key)
  }

  /** Overwrite the first record with this index, else append. */
  function Upsert(f: seq<Row>, r: Row): (g: seq<Row>)
  {
    var p := Position(f, r.idx);
    if p < |f| then f[p := r] else f + [r]
  }

  ghost predicate Distinct(f: seq<Row>)
  {
    forall i, j :: 0 <= i < j < |f| ==> f[i].idx != f[j].idx
  }

  /** At most one record changes, the others keep their place, and indexes stay distinct. */
  lemma UpsertChangesOneRecord(f: seq<Row>, r: Row)
    requires Distinct(f)
    ensures var g := Upsert(f, r);
            && Distinct(g)
            && |f| <= |g| <= |f| + 1
            && (|g| == |f| <==> exists i :: 0 <= i < |f| && f[i].idx == r.idx)
            && (forall i :: 0 <= i < |f| ==> g[i] == if f[i].idx == r.idx then r else f[i])
            && (|f| < |g| ==> g[|f|] == r)
  {
    var p := Position(f, r.idx);
    assert p < |f| ==> f[p].idx == r.idx;
  }

  /** What the manager set and every commit writes: the columns that must survive a restart. */
  datatype Managed = Managed(
    index: int,
    name: seq<byte>,
    checkInterval: int,
    description: seq<byte>,
    reaction: int,
    reactionPath: seq<byte>,
    alertMessage: seq<byte>,
    status: int)

  function ManagedOf(r: Row): Managed
    requires ValidRow(r)
  {
    assert ValidText(TextOf(r, Name), 255) && ValidText(TextOf(r, Description), 255);
    assert ValidText(TextOf(r, ReactionPath), 255) && ValidText(TextOf(r, AlertMessage), 255);
    Managed(r.index, Shown(r.name), r.checkInterval, Shown(r.description), r.reaction, Shown(r.reactionPath),
            Shown(r.alertMessage), r.status)
  }

  ghost predicate ValidRecords(f: seq<Row>)
  {
    forall i :: 0 <= i < |f| ==> ValidRow(f[i])
  }

  ghost predicate ValidTable(t: map<nat, Row>)
  {
    forall k :: k in t ==> ValidRow(t[k])
  }

  /** The data file read as a map, tombstones left out. */
  ghost function View(f: seq<Row>): map<nat, Managed>
    requires ValidRecords(f)
  {
    if f == [] then map[] else
      var r := f[|f| - 1];
      var v := View(f[..|f| - 1]);
      if IsTombstone(r) then v else v[r.idx := ManagedOf(r)]
  }

  /** The live container read the same way. */
  ghost function TableView(t: map<nat, Row>): map<nat, Managed>
    requires ValidTable(t)
  {
    map k | k in t :: ManagedOf(t[k])
  }

  lemma {:induction false} ViewKeys(f: seq<Row>)
    requires ValidRecords(f)
    ensures forall k :: k in View(f) ==> exists i :: 0 <= i < |f| && f[i].idx == k && !IsTombstone(f[i])
  {
    if f != [] {
      var init := f[..|f| - 1];
      ViewKeys(init);
      forall k | k in View(f)
        ensures exists i :: 0 <= i < |f| && f[i].idx == k && !IsTombstone(f[i])
      {
        if k in View(init) {
          var i :| 0 <= i < |init| && init[i].idx == k && !IsTombstone(init[i]);
          assert f[i] == init[i];
        } else {
          assert f[|f| - 1].idx == k;
        }
      }
    }
  }

  lemma AbsentFromView(f: seq<Row>, key: nat)
    requires ValidRecords(f)
    requires forall i :: 0 <= i < |f| ==> f[i].idx != key
    ensures key !in View(f)
  {
    ViewKeys(f);
  }

  /** The map of a file that ends in this record. */
  ghost function Extended(v: map<nat, Managed>, r: Row): map<nat, Managed>
    requires ValidRow(r)
  {
    if IsTombstone(r) then v else v[r.idx := ManagedOf(r)]
  }

  lemma ViewSnoc(init: seq<Row>, r: Row)
    requires ValidRecords(init) && ValidRow(r)
    ensures ValidRecords(init + [r]) && View(init + [r]) == Extended(View(init), r)
  {
    assert (init + [r])[..|init|] == init;
  }

  /** What committing this record does to the map. */
  ghost function Effect(v: map<nat, Managed>, r: Row): map<nat, Managed>
    requires ValidRow(r)
  {
    if IsTombstone(r) then v - {r.idx} else v[r.idx := ManagedOf(r)]
  }

  lemma EffectOfNewRecord(v: map<nat, Managed>, r: Row)
    requires ValidRow(r) && r.idx !in v
    ensures Effect(v, r) == Extended(v, r)
  {
  }

  lemma EffectReplacesLast(v: map<nat, Managed>, last: Row, r: Row)
    requires ValidRow(r) && ValidRow(last) && r.idx == last.idx && r.idx !in v
    ensures Effect(Extended(v, last), r) == Extended(v, r)
  {
  }

  lemma EffectCommutes(v: map<nat, Managed>, last: Row, r: Row)
    requires ValidRow(r) && ValidRow(last) && r.idx != last.idx
    ensures Effect(Extended(v, last), r) == Extended(Effect(v, r), last)
  {
  }

  lemma UpsertAppends(f: seq<Row>, r: Row)
    requires ValidRecords(f) && ValidRow(r) && Position(f, r.idx) == |f|
    ensures ValidRecords(Upsert(f, r)) && View(Upsert(f, r)) == Effect(View(f), r)
  {
    AbsentFromView(f, r.idx);
    ViewSnoc(f, r);
    EffectOfNewRecord(View(f), r);
  }

  lemma UpsertReplacesLast(init: seq<Row>, last: Row, r: Row)
    requires ValidRecords(init) && ValidRow(last) && ValidRow(r) && Position(init + [last], r.idx) == |init|
    ensures ValidRecords(init + [last]) && Upsert(init + [last], r) == init + [r] && ValidRecords(init + [r])
    ensures View(Upsert(init + [last], r)) == Effect(View(init + [last]), r)
  {
    forall i | 0 <= i < |init|
      ensures init[i].idx != r.idx
    {
      assert (init + [last])[i] == init[i];
    }
    AbsentFromView(init, r.idx);
    ViewSnoc(init, last);
    ViewSnoc(init, r);
    EffectReplacesLast(View(init), last, r);
  }

  lemma UpsertBeforeLast(init: seq<Row>, last: Row, r: Row)
    requires ValidRecords(init) && ValidRow(last) && ValidRow(r) && last.idx != r.idx
    requires ValidRecords(Upsert(init, r)) && View(Upsert(init, r)) == Effect(View(init), r)
    ensures ValidRecords(Upsert(init, r) + [last]) && ValidRecords(init + [last])
    ensures View(Upsert(init, r) + [last]) == Effect(View(init + [last]), r)
  {
    ViewSnoc(init, last);
    ViewSnoc(Upsert(init, r), last);
    EffectCommutes(View(init), last, r);
  }

  lemma UpdateBeforeLast<T>(init: seq<T>, last: T, p: nat, r: T)
    requires p < |init|
    ensures (init + [last])[p := r] == init[p := r] + [last] && (init + [last])[p] == init[p]
  {
  }

  lemma PositionBeforeLast(init: seq<Row>, last: Row, key: nat)
    requires Position(init + [last], key) < |init|
    ensures Position(init, key) == Position(init + [last], key)
  {
    var p, q := Position(init + [last], key), Position(init, key);
    assert (init + [last])[p] == init[p];
    assert q < |init| ==> (init + [last])[q] == init[q];
  }

  /** An index found before the last record leaves that record alone. */
  lemma UpsertSplits(init: seq<Row>, last: Row, r: Row)
    requires Position(init + [last], r.idx) < |init|
    ensures Upsert(init + [last], r) == Upsert(init, r) + [last]
  {
    PositionBeforeLast(init, last, r.idx);
    UpdateBeforeLast(init, last, Position(init, r.idx), r);
  }

  lemma OtherIndexLast(init: seq<Row>, last: Row, key: nat)
    requires Distinct(init + [last]) && Position(init + [last], key) < |init|
    ensures last.idx != key
  {
    var f := init + [last];
    assert f[|init|] == last && f[Position(f, key)].idx == key;
  }

  lemma DistinctBefore(init: seq<Row>, last: Row)
    requires Distinct(init + [last])
    ensures Distinct(init)
  {
    var f := init + [last];
    assert forall i :: 0 <= i < |init| ==> f[i] == init[i];
  }

  lemma UpsertRefinesEarlier(init: seq<Row>, last: Row, r: Row)
    requires Distinct(init + [last]) && ValidRecords(init) && ValidRow(last) && ValidRow(r)
    requires Position(init + [last], r.idx) < |init|
    requires ValidRecords(Upsert(init, r)) && View(Upsert(init, r)) == Effect(View(init), r)
    ensures ValidRecords(init + [last]) && ValidRecords(Upsert(init + [last], r))
    ensures View(Upsert(init + [last], r)) == Effect(View(init + [last]), r)
  {
    UpsertSplits(init, last, r);
    OtherIndexLast(init, last, r.idx);
    UpsertBeforeLast(init, last, r);
  }

  lemma {:induction false} UpsertRefinesSnoc(init: seq<Row>, last: Row, r: Row)
    requires Distinct(init + [last]) && ValidRecords(init) && ValidRow(last) && ValidRow(r)
    ensures ValidRecords(init + [last]) && ValidRecords(Upsert(init + [last], r))
    ensures View(Upsert(init + [last], r)) == Effect(View(init + [last]), r)
    decreases |init| + 1, 0
  {
    var p := Position(init + [last], r.idx);
    if p == |init| + 1 {
      UpsertAppends(init + [last], r);
    } else if p == |init| {
      UpsertReplacesLast(init, last, r);
    } else {
      DistinctBefore(init, last);
      UpsertRefines(init, r);
      UpsertRefinesEarlier(init, last, r);
    }
  }

  /** The refinement step: an upsert of the file is an update, or a removal, of the map. */
  lemma {:induction false} UpsertRefines(f: seq<Row>, r: Row)
    requires Distinct(f) && ValidRecords(f) && ValidRow(r)
    ensures ValidRecords(Upsert(f, r))
    ensures View(Upsert(f, r)) == Effect(View(f), r)
    decreases |f|, 1
  {
    if f == [] {
      UpsertAppends(f, r);
    } else {
      var init, last := f[..|f| - 1], f[|f| - 1];
      assert f == init + [last];
      UpsertRefinesSnoc(init, last, r);
    }
  }

  /** A record as the container gets it back: the index octets are cloned from `idx`. */
  function Loaded(r: Row): (q: Row)
  {
    r.(oids := [r.idx])
  }

  /** CONTAINER_INSERT record by record; a key that is already there is refused. */
  function LoadTable(f: seq<Row>): map<nat, Row>
  {
    if f == [] then map[] else
      var r := f[|f| - 1];
      var t := LoadTable(f[..|f| - 1]);
      if IsTombstone(r) || r.idx in t then t else t[r.idx := Loaded(r)]
  }

  lemma {:induction false} LoadedRowsComeFromFile(f: seq<Row>)
    ensures forall k :: k in LoadTable(f) ==>
              exists i :: 0 <= i < |f| && !IsTombstone(f[i]) && f[i].idx == k && LoadTable(f)[k] == Loaded(f[i])
  {
    if f != [] {
      var init, t := f[..|f| - 1], LoadTable(f);
      LoadedRowsComeFromFile(init);
      forall k | k in t
        ensures exists i :: 0 <= i < |f| && !IsTombstone(f[i]) && f[i].idx == k && t[k] == Loaded(f[i])
      {
        if k in LoadTable(init) {
          var i :| 0 <= i < |init| && !IsTombstone(init[i]) && init[i].idx == k
              && LoadTable(init)[k] == Loaded(init[i]);
          assert f[i] == init[i];
        } else {
          assert t[k] == Loaded(f[|f| - 1]);
        }
      }
    }
  }

  /** A restart rebuilds exactly the map the file holds, each row filed under its own index. */
  lemma {:induction false} LoadRebuildsView(f: seq<Row>)
    requires Distinct(f) && ValidRecords(f)
    ensures ValidTable(LoadTable(f)) && TableView(LoadTable(f)) == View(f)
    ensures forall k :: k in LoadTable(f) ==> LoadTable(f)[k].oids == [k] && LoadTable(f)[k].idx == k
  {
    LoadedRowsComeFromFile(f);
    forall k | k in LoadTable(f)
      ensures ValidRow(LoadTable(f)[k])
    {
      var i :| 0 <= i < |f| && f[i].idx == k && LoadTable(f)[k] == Loaded(f[i]);
      LoadedKeeps(f[i]);
    }
    if f != [] {
      var init, r := f[..|f| - 1], f[|f| - 1];
      assert ValidRecords(init) && Distinct(init);
      LoadRebuildsView(init);
      LoadedRowsComeFromFile(init);
      assert r.idx !in LoadTable(init);
      LoadedKeeps(r);
    }
  }

  /** Each live record is loaded whole, under its own index. */
  lemma {:induction false} LoadsWholeRecord(f: seq<Row>, i: nat)
    requires Distinct(f) && i < |f| && f[i].status != 6
    ensures f[i].idx in LoadTable(f) && LoadTable(f)[f[i].idx] == f[i].(oids := [f[i].idx])
  {
    var n := |f| - 1;
    if i < n {
      LoadsWholeRecord(f[..n], i);
    } else {
      LoadedRowsComeFromFile(f[..n]);
    }
  }

  lemma LoadedKeeps(r: Row)
    requires ValidRow(r)
    ensures ValidRow(Loaded(r)) && ManagedOf(Loaded(r)) == ManagedOf(r)
  {
    assert forall c: TextColumn :: TextOf(Loaded(r), c) == TextOf(r, c);
  }

  /** The elements that are not dropped, in their order. */
  function Kept<T>(s: seq<T>, drop: T -> bool): (g: seq<T>)
    ensures |g| <= |s|
  {
    if s == [] then [] else
      Kept(s[..|s| - 1], drop) + (if drop(s[|s| - 1]) then [] else [s[|s| - 1]])
  }

  lemma {:induction false} KeptIsSubsequence<T>(s: seq<T>, drop: T -> bool) returns (at: seq<nat>)
    ensures |at| == |Kept(s, drop)|
    ensures forall i :: 0 <= i < |at| ==> at[i] < |s| && Kept(s, drop)[i] == s[at[i]] && !drop(s[at[i]])
    ensures forall i, j :: 0 <= i < j < |at| ==> at[i] < at[j]
  {
    if s == [] {
      at := [];
    } else {
      var n := |s| - 1;
      at := KeptIsSubsequence(s[..n], drop);
      if !drop(s[n]) {
        at := at + [n];
      }
    }
  }

  lemma {:induction false} KeptHolds<T>(s: seq<T>, drop: T -> bool, p: nat) returns (i: nat)
    requires p < |s| && !drop(s[p])
    ensures i < |Kept(s, drop)| && Kept(s, drop)[i] == s[p]
  {
    var n := |s| - 1;
    if p < n {
      i := KeptHolds(s[..n], drop, p);
    } else {
      i := |Kept(s[..n], drop)|;
    }
  }

  /** Compaction keeps the live records in their order. */
  function Live(f: seq<Row>): (g: seq<Row>)
    ensures |g| <= |f|
  {
    Kept(f, IsTombstone)
  }

  lemma LiveSnoc(init: seq<Row>, r: Row)
    ensures Live(init + [r]) == if IsTombstone(r) then Live(init) else Live(init) + [r]
  {
    assert (init + [r])[..|init|] == init;
  }

  lemma LoadSnoc(init: seq<Row>, r: Row)
    ensures LoadTable(init + [r]) ==
            if IsTombstone(r) || r.idx in LoadTable(init) then LoadTable(init) else LoadTable(init)[r.idx := Loaded(r)]
  {
    assert (init + [r])[..|init|] == init;
  }

  /** Live records come from the file, in the file's order, and are not tombstones. */
  lemma LiveIsSubsequence(f: seq<Row>) returns (at: seq<nat>)
    ensures |at| == |Live(f)|
    ensures forall i :: 0 <= i < |at| ==> at[i] < |f| && Live(f)[i] == f[at[i]] && !IsTombstone(f[at[i]])
    ensures forall i, j :: 0 <= i < j < |at| ==> at[i] < at[j]
  {
    at := KeptIsSubsequence(f, IsTombstone);
  }

  /** And every live record is kept. */
  lemma LiveHoldsAll(f: seq<Row>, p: nat) returns (i: nat)
    requires p < |f| && !IsTombstone(f[p])
    ensures i < |Live(f)| && Live(f)[i] == f[p]
  {
    i := KeptHolds(f, IsTombstone, p);
  }

  predicate Clean(f: seq<Row>)
  {
    forall i :: 0 <= i < |f| ==> !IsTombstone(f[i])
  }

  lemma CompactionKeepsDistinct(f: seq<Row>)
    requires Distinct(f)
    ensures Distinct(Live(f))
  {
    var at := LiveIsSubsequence(f);
  }

  lemma {:induction false} CompactionKeepsView(f: seq<Row>)
    requires ValidRecords(f)
    ensures ValidRecords(Live(f)) && View(Live(f)) == View(f)
  {
    if f != [] {
      var init, r := f[..|f| - 1], f[|f| - 1];
      assert f == init + [r];
      CompactionKeepsView(init);
      LiveSnoc(init, r);
      ViewSnoc(init, r);
      ViewSnoc(Live(init), r);
    }
  }

  /** The compacted file loads to the same container. */
  lemma {:induction false} CompactionKeepsLoad(f: seq<Row>)
    ensures LoadTable(Live(f)) == LoadTable(f)
  {
    if f != [] {
      var init, r := f[..|f| - 1], f[|f| - 1];
      assert f == init + [r];
      CompactionKeepsLoad(init);
      LiveSnoc(init, r);
      LoadSnoc(init, r);
      LoadSnoc(Live(init), r);
    }
  }

  /** A second compaction changes nothing. */
  lemma {:induction false} CompactionIsIdentityOnClean(f: seq<Row>)
    requires Clean(f)
    ensures Live(f) == f
  {
    if f != [] {
      var init := f[..|f| - 1];
      CompactionIsIdentityOnClean(init);
      LiveSnoc(init, f[|f| - 1]);
      assert f == init + [f[|f| - 1]];
    }
  }

  /** Writing g from the start of a file that already holds other records. */
  function WrittenOver<T>(stale: seq<T>, g: seq<T>): seq<T>
  {
    g + if |g| < |stale| then stale[|g|..] else []
  }

  /** The files after start-up, given both files before it. */
  function Compacted(data: seq<Row>, tmp: seq<Row>): seq<Row>
  {
    if Clean(data) then data else WrittenOver(tmp, Live(data))
  }

  /** The temporary file is opened without truncation, so compaction is exact when and only when a
      left-over temporary file is no longer than what is written over it. */
  lemma CompactionExactIff(data: seq<Row>, tmp: seq<Row>)
    requires !Clean(data)
    ensures Compacted(data, tmp) == Live(data) <==> |tmp| <= |Live(data)|
  {
    if |tmp| <= |Live(data)| {
      assert WrittenOver(tmp, Live(data)) == Live(data);
    } else {
      assert |WrittenOver(tmp, Live(data))| == |tmp|;
    }
  }

  /** A file of whole records with a position, as open, read, lseek and write see it. */
  class RecordFile {
    var records: seq<Row>
    var pos: nat

    constructor (contents: seq<Row>)
      ensures records == contents && pos == 0
    {
      records, pos := contents, 0;
    }

    method Read() returns (r: Option<Row>)
      modifies this`pos
      ensures old(pos) < |records| ==> r == Some(records[old(pos)]) && pos == old(pos) + 1
      ensures old(pos) >= |records| ==> r == None && pos == old(pos)
    {
      if pos < |records| {
        r := Some(records[pos]);
        pos := pos + 1;
      } else {
        r := None;
      }
    }

    method Seek(p: nat)
      modifies this`pos
      ensures pos == p
    {
      pos := p;
    }

    method Write(r: Row)
      requires pos <= |records|
      modifies this
      ensures records == if old(pos) < |old(records)| then old(records)[old(pos) := r] else old(records) + [r]
      ensures pos == old(pos) + 1
    {
      records := if pos < |records| then records[pos := r] else records + [r];
      pos := pos + 1;
    }
  }

  /** FileMon_UpdateDataFile: search, step back with the remembered position, write one record. */
  method UpdateDataFile(file: RecordFile, row: Row) returns (found: int, written: Row)
    requires |row.oids| == 1 && Distinct(file.records)
    modifies file
    ensures written == row.(idx := row.oids[0], threadActive := if IsTombstone(row) then 0 else row.threadActive)
    ensures file.records == Upsert(old(file.records), written)
    ensures found == if exists i :: 0 <= i < |old(file.records)| && old(file.records)[i].idx == row.oids[0] &&
                                    !IsTombstone(old(file.records)[i]) then 1 else 0
  {
    var key := row.oids[0];
    file.Seek(0);
    written := if IsTombstone(row) then row.(threadActive := 0) else row;
    found := 0;
    var ulPos := 0;
    var inFile := file.Read();
    ghost var before := file.records;
    while inFile.Some?
      invariant file.records == before
      invariant ulPos <= |before|
      invariant inFile.Some? ==> ulPos < |before| && inFile.value == before[ulPos] && file.pos == ulPos + 1
      invariant inFile.None? ==> ulPos == |before| == file.pos
      invariant forall i :: 0 <= i < ulPos ==> before[i].idx != key
      invariant found == 0
      decreases |before| - ulPos, inFile.Some?
    {
      if inFile.value.idx == key {
        found := if IsTombstone(inFile.value) then 0 else 1;
        file.Seek(ulPos);
        break;
      }
      ulPos := file.pos;
      inFile := file.Read();
    }
    assert ulPos == Position(before, key) == file.pos;
    written := written.(idx := key);
    file.Write(written);
  }

  /** The first loop of start-up: fill the container and notice tombstones. */
  method LoadRecords(data: RecordFile) returns (table: map<nat, Row>, rewrite: bool)
    modifies data
    ensures data.records == old(data.records)
    ensures table == LoadTable(data.records)
    ensures rewrite == !Clean(data.records)
  {
    ghost var f := data.records;
    table, rewrite := map[], false;
    data.Seek(0);
    var ctx := data.Read();
    ghost var n := 0;
    while ctx.Some?
      invariant data.records == f
      invariant n <= |f| && table == LoadTable(f[..n])
      invariant ctx.Some? ==> n < |f| && ctx.value == f[n] && data.pos == n + 1
      invariant ctx.None? ==> n == |f|
      invariant rewrite == !Clean(f[..n])
      decreases |f| - n
    {
      assert f[..n + 1] == f[..n] + [f[n]];
      LoadSnoc(f[..n], f[n]);
      if IsTombstone(ctx.value) {
        rewrite := true;
      } else if ctx.value.idx !in table {
        table := table[ctx.value.idx := Loaded(ctx.value)];
      }
      ctx := data.Read();
      n := n + 1;
    }
    assert f[..n] == f;
  }

  /** One more record behind those already written over a left-over file. */
  method WriteNext(tmp: RecordFile, ghost stale: seq<Row>, ghost written: seq<Row>, r: Row)
    requires tmp.records == WrittenOver(stale, written) && tmp.pos == |written|
    modifies tmp
    ensures tmp.records == WrittenOver(stale, written + [r]) && tmp.pos == |written| + 1
  {
    WriteExtends(stale, written, r);
    tmp.Write(r);
  }

  /** The second loop: copy every live record to the temporary file. */
  method RewriteLive(data: RecordFile, tmp: RecordFile)
    requires data != tmp
    modifies data, tmp
    ensures data.records == old(data.records)
    ensures tmp.records == WrittenOver(old(tmp.records), Live(data.records))
  {
    ghost var f, stale := data.records, tmp.records;
    data.Seek(0);
    tmp.Seek(0);
    var ctx := data.Read();
    ghost var n := 0;
    while ctx.Some?
      invariant data.records == f
      invariant n <= |f| && tmp.records == WrittenOver(stale, Live(f[..n])) && tmp.pos == |Live(f[..n])|
      invariant ctx.Some? ==> n < |f| && ctx.value == f[n] && data.pos == n + 1
      invariant ctx.None? ==> n == |f|
      decreases |f| - n
    {
      assert f[..n + 1] == f[..n] + [f[n]];
      LiveSnoc(f[..n], f[n]);
      if !IsTombstone(ctx.value) {
        WriteNext(tmp, stale, Live(f[..n]), ctx.value);
      }
      ctx := data.Read();
      n := n + 1;
    }
    assert f[..n] == f;
  }

  lemma WriteExtends(stale: seq<Row>, g: seq<Row>, r: Row)
    ensures var w := WrittenOver(stale, g);
            WrittenOver(stale, g + [r]) == if |g| < |w| then w[|g| := r] else w + [r]
  {
  }

  /** FileMon_LoadContainerFromFile: fill the container, then rewrite the file if it held a tombstone. */
  method LoadContainerFromFile(data: RecordFile, tmp: RecordFile) returns (table: map<nat, Row>)
    requires data != tmp
    modifies data, tmp
    ensures table == LoadTable(old(data.records))
    ensures data.records == Compacted(old(data.records), old(tmp.records))
    ensures tmp.records == if Clean(old(data.records)) then old(tmp.records) else []
  {
    var rewrite;
    table, rewrite := LoadRecords(data);
    if rewrite {
      RewriteLive(data, tmp);
      // unlink the data file and give its name to the temporary one
      data.records := tmp.records;
      tmp.records := [];
    }
  }
}
