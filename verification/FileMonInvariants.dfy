/** What every step of the file monitor keeps, and what follows for whole runs. */
module FileMonInvariants {
  import opened Octets
  import opened Options
  import opened RowStatus
  import opened FileMonRow
  import opened FileMonStore
  import opened FileMonDetector
  import opened FileMonMachine

  /** Rows are filed under their own index, and their bookkeeping is well formed. */
  ghost predicate Shape(s: State)
  {
    && ValidTable(s.table) && ValidRecords(s.data) && Distinct(s.data) && s.tmp == []
    && forall k :: k in s.table ==>
         && s.table[k].oids == [k] && s.table[k].idx == k
         && (s.table[k].threadActive == 0 || s.table[k].threadActive == 1)
         && s.table[k].status != DESTROY
  }

  /** The data file, tombstones aside, is the live container. */
  ghost predicate Stored(s: State)
    requires ValidTable(s.table) && ValidRecords(s.data)
  {
    View(s.data) == TableView(s.table)
  }

  /** The name as GET shows it is a non-empty string. */
  predicate NameShown(r: Row)
    requires r.name.len <= |r.name.bytes|
  {
    CString(Shown(r.name)) != []
  }

  predicate ShouldBeWatched(r: Row)
    requires r.name.len <= |r.name.bytes|
  {
    r.status == ACTIVE && NameShown(r) && r.checkInterval != 0
  }

  ghost predicate RowLively(r: Row, workers: nat)
    requires ValidRow(r)
  {
    Widths(r);
    && (r.threadActive == 1 ==> workers > 0)
    && (ShouldBeWatched(r) ==> r.threadActive == 1)
  }

  /** The flag is never up without a worker, and every row that should be watched has its flag up. */
  ghost predicate Lively(s: State)
    requires ValidTable(s.table)
  {
    forall k :: k in s.table ==> RowLively(s.table[k], s.workers[k])
  }

  function Flag(s: State, k: nat): int
  {
    if k in s.table then s.table[k].threadActive else 0
  }

  /** Workers of an index never outnumber its flag and the times its row was destroyed. */
  ghost predicate Bounded(s: State)
  {
    forall k: nat :: s.workers[k] <= Flag(s, k) + s.destroys[k]
  }

  ghost predicate Inv(s: State)
  {
    Shape(s) && Stored(s) && Lively(s) && Bounded(s)
  }

  lemma NameShownIsWatched(r: Row)
    requires ValidRow(r)
    ensures r.name.len <= |r.name.bytes|
    ensures NameShown(r) ==> CString(r.name.bytes) != []
  {
    Widths(r);
    if NameShown(r) {
      assert CString(Shown(r.name)) != [];
      assert Shown(r.name) != [] && Shown(r.name)[0] == r.name.bytes[0];
    }
  }

  lemma SameManagedColumns(a: Row, b: Row)
    requires ValidRow(a) && ValidRow(b)
    requires a.index == b.index && a.name == b.name && a.checkInterval == b.checkInterval
             && a.description == b.description
    requires a.reaction == b.reaction && a.reactionPath == b.reactionPath && a.alertMessage == b.alertMessage
             && a.status == b.status
    ensures ManagedOf(a) == ManagedOf(b)
  {
  }

  lemma TableViewUpdate(t: map<nat, Row>, k: nat, r: Row)
    requires ValidTable(t) && ValidRow(r)
    ensures ValidTable(t[k := r]) && TableView(t[k := r]) == TableView(t)[k := ManagedOf(r)]
  {
  }

  lemma TableViewRemove(t: map<nat, Row>, k: nat)
    requires ValidTable(t)
    ensures ValidTable(t - {k}) && TableView(t - {k}) == TableView(t) - {k}
  {
  }

  // ---------------------------------------------------------------- committed SET

  lemma RecordOf(s: State, key: nat, ws: seq<Write>) returns (record: Row)
    requires Shape(s) && AllFit(ws)
    ensures record == Record(Action(Target(s.table, key), ws), key)
    ensures ValidRow(record) && record.idx == key && record.oids == [key]
    ensures record.threadActive == if IsTombstone(record) then 0 else Flag(s, key)
    ensures record.status == ACTIVE || record.status == NOT_IN_SERVICE || record.status == DESTROY
  {
    var acted := Action(Target(s.table, key), ws);
    assert acted.status == NumberOf(acted, Status);
    RecordIsValid(acted, key);
    record := Record(acted, key);
  }

  lemma DestroyKeepsStore(s: State, record: Row)
    requires Shape(s) && Stored(s) && ValidRow(record) && IsTombstone(record)
    ensures var u := s.(table := s.table - {record.idx}, data := Upsert(s.data, record)); Shape(u) && Stored(u)
  {
    UpsertChangesOneRecord(s.data, record);
    UpsertRefines(s.data, record);
    TableViewRemove(s.table, record.idx);
  }

  lemma StoreKeepsStore(s: State, record: Row, row: Row)
    requires Shape(s) && Stored(s) && ValidRow(record) && !IsTombstone(record)
    requires ValidRow(row) && ManagedOf(row) == ManagedOf(record)
    requires row.oids == [record.idx] && row.idx == record.idx && (row.threadActive == 0 || row.threadActive == 1)
    ensures var u := s.(table := s.table[record.idx := row], data := Upsert(s.data, record)); Shape(u) && Stored(u)
  {
    UpsertChangesOneRecord(s.data, record);
    UpsertRefines(s.data, record);
    TableViewUpdate(s.table, record.idx, row);
    assert row.status == ManagedOf(row).status;
  }

  lemma SetKeepsStore(s: State, key: nat, ws: seq<Write>, env: Env)
    requires Shape(s) && Stored(s) && AllFit(ws) && ValidEnv(env)
    ensures Shape(SetStep(s, key, ws, env)) && Stored(SetStep(s, key, ws, env))
  {
    var record := RecordOf(s, key, ws);
    if IsTombstone(record) {
      DestroyKeepsStore(s, record);
    } else {
      StoreKeepsStore(s, record, CommitRow(record, env));
    }
  }

  lemma SetKeepsWorkers(s: State, key: nat, ws: seq<Write>, env: Env)
    requires Shape(s) && Lively(s) && Bounded(s) && AllFit(ws) && ValidEnv(env)
    requires Shape(SetStep(s, key, ws, env))
    ensures Lively(SetStep(s, key, ws, env)) && Bounded(SetStep(s, key, ws, env))
  {
    var record := RecordOf(s, key, ws);
    var u := SetStep(s, key, ws, env);
    forall k | k in u.table
      ensures RowLively(u.table[k], u.workers[k])
    {
      if k == key {
        CommittedRowLively(s, record, env);
      } else {
        assert RowLively(s.table[k], s.workers[k]);
      }
    }
  }

  lemma CommittedRowLively(s: State, record: Row, env: Env)
    requires Shape(s) && Lively(s) && ValidRow(record) && ValidEnv(env) && !IsTombstone(record)
    requires record.threadActive == Flag(s, record.idx)
    ensures RowLively(CommitRow(record, env),
                      s.workers[record.idx] + if Starts(record) && record.threadActive == 0 then 1 else 0)
  {
    var key := record.idx;
    NameShownIsWatched(CommitRow(record, env));
    if key in s.table {
      assert RowLively(s.table[key], s.workers[key]);
    }
  }

  // ---------------------------------------------------------------- refused SET

  lemma UndoneRow(r: Row, ws: seq<Write>)
    requires ValidRow(r) && AllFit(ws)
    ensures var u := Undone(r, ws);
            && ManagedOf(u) == ManagedOf(r)
            && u.oids == r.oids && u.idx == r.idx && u.threadActive == r.threadActive && u.status == r.status
            && u.checkInterval == r.checkInterval
            && u.name.len <= |u.name.bytes| && r.name.len <= |r.name.bytes| && Shown(u.name) == Shown(r.name)
  {
    var u := Undone(r, ws);
    UndoRestoresAnswers(r, ws);
    Widths(r);
    Widths(u);
    assert Shown(TextOf(u, Name)) == Shown(TextOf(r, Name))
        && Shown(TextOf(u, Description)) == Shown(TextOf(r, Description));
    assert Shown(TextOf(u, ReactionPath)) == Shown(TextOf(r, ReactionPath));
    assert Shown(TextOf(u, AlertMessage)) == Shown(TextOf(r, AlertMessage));
    assert NumberOf(u, Index) == NumberOf(r, Index) && NumberOf(u, CheckInterval) == NumberOf(r, CheckInterval);
    assert NumberOf(u, Reaction) == NumberOf(r, Reaction) && NumberOf(u, Status) == NumberOf(r, Status);
  }

  lemma RefusedSetKeeps(s: State, key: nat, ws: seq<Write>)
    requires Inv(s) && AllFit(ws)
    ensures Inv(RefusedSetStep(s, key, ws))
  {
    if key in s.table {
      UndoneRow(s.table[key], ws);
      TableViewUpdate(s.table, key, Undone(s.table[key], ws));
      assert RowLively(s.table[key], s.workers[key]);
      var u := RefusedSetStep(s, key, ws);
      assert TableView(u.table) == TableView(s.table);
      forall k | k in u.table
        ensures RowLively(u.table[k], u.workers[k])
      {
        assert RowLively(s.table[k], s.workers[k]);
      }
    }
  }

  // ---------------------------------------------------------------- wake-up

  /** A wake-up changes at most the flag, the size and the modification time of its row. */
  lemma WokenRow(s: State, key: nat, env: Env)
    requires Shape(s) && ValidEnv(env) && key in s.table
    ensures var u := WakeStep(s, key, env);
            && u.table.Keys == s.table.Keys
            && (forall k :: k in s.table && k != key ==> u.table[k] == s.table[k])
            && ValidRow(u.table[key]) && ManagedOf(u.table[key]) == ManagedOf(s.table[key])
            && u.table[key].oids == [key] && u.table[key].idx == key
            && u.table[key].name == s.table[key].name
            && u.table[key].threadActive == (if s.table[key].status != ACTIVE then 0 else s.table[key].threadActive)
            && u.data == s.data && u.tmp == s.tmp && u.destroys == s.destroys
            && u.workers == (if s.table[key].status != ACTIVE then s.workers - multiset{key} else s.workers)
  {
    var r, u := s.table[key], WakeStep(s, key, env);
    Widths(r);
    WidthsSuffice(u.table[key]);
    SameManagedColumns(u.table[key], r);
  }

  lemma RowKeepsStore(s: State, u: State, key: nat, row: Row)
    requires Shape(s) && Stored(s) && key in s.table && ValidRow(row) && ManagedOf(row) == ManagedOf(s.table[key])
    requires row.oids == [key] && row.idx == key && (row.threadActive == 0 || row.threadActive == 1)
    requires u.table == s.table[key := row] && u.data == s.data && u.tmp == s.tmp
    ensures Shape(u) && Stored(u)
  {
    TableViewUpdate(s.table, key, row);
    assert TableView(u.table) == TableView(s.table);
    assert row.status == ManagedOf(row).status;
  }

  lemma WakeKeepsStore(s: State, key: nat, env: Env)
    requires Shape(s) && Stored(s) && ValidEnv(env) && key in s.workers
    ensures Shape(WakeStep(s, key, env)) && Stored(WakeStep(s, key, env))
  {
    if key in s.table {
      WokenRow(s, key, env);
      var u := WakeStep(s, key, env);
      assert u.table == s.table[key := u.table[key]];
      RowKeepsStore(s, u, key, u.table[key]);
    }
  }

  lemma WakeKeepsWorkers(s: State, key: nat, env: Env)
    requires Shape(s) && Lively(s) && Bounded(s) && ValidEnv(env) && key in s.workers
    requires Shape(WakeStep(s, key, env))
    ensures Lively(WakeStep(s, key, env)) && Bounded(WakeStep(s, key, env))
  {
    var u := WakeStep(s, key, env);
    if key in s.table {
      WokenRow(s, key, env);
      var r := s.table[key];
      assert RowLively(r, s.workers[key]);
      assert u.table[key].status == r.status && u.table[key].checkInterval == r.checkInterval by {
        assert ManagedOf(u.table[key]) == ManagedOf(r);
      }
      assert RowLively(u.table[key], u.workers[key]);
    }
    forall k | k in u.table
      ensures RowLively(u.table[k], u.workers[k])
    {
      if k != key {
        assert RowLively(s.table[k], s.workers[k]);
      }
    }
    forall k: nat
      ensures u.workers[k] <= Flag(u, k) + u.destroys[k]
    {
      assert s.workers[k] <= Flag(s, k) + s.destroys[k];
    }
  }

  // ---------------------------------------------------------------- restart

  lemma MasteredRow(r: Row)
    requires ValidRow(r)
    ensures ValidRow(Mastered(r)) && ManagedOf(Mastered(r)) == ManagedOf(r)
  {
    Widths(r);
    WidthsSuffice(Mastered(r));
  }

  lemma MasterKeeps(t: map<nat, Row>)
    requires ValidTable(t)
    ensures ValidTable(MasterTable(t)) && TableView(MasterTable(t)) == TableView(t)
  {
    forall k | k in t
      ensures ValidRow(MasterTable(t)[k]) && ManagedOf(MasterTable(t)[k]) == ManagedOf(t[k])
    {
      MasteredRow(t[k]);
    }
  }

  lemma LoadedContainer(data: seq<Row>)
    requires ValidRecords(data) && Distinct(data)
    ensures var t := MasterTable(LoadTable(data));
            && ValidTable(t) && TableView(t) == View(data)
            && forall k :: k in t ==>
                 && t[k].oids == [k] && t[k].idx == k && (t[k].threadActive == 0 || t[k].threadActive == 1)
                 && t[k].status != DESTROY
  {
    LoadRebuildsView(data);
    LoadedRowsComeFromFile(data);
    MasterKeeps(LoadTable(data));
  }

  lemma CompactedFile(data: seq<Row>)
    requires ValidRecords(data) && Distinct(data)
    ensures var d := Compacted(data, []); ValidRecords(d) && Distinct(d) && View(d) == View(data)
  {
    CompactionKeepsView(data);
    CompactionKeepsDistinct(data);
    if !Clean(data) {
      CompactionExactIff(data, []);
    }
  }

  lemma MasteredRowLively(r: Row)
    requires ValidRow(r)
    ensures ValidRow(Mastered(r)) && RowLively(Mastered(r), if Watchable(r) then 1 else 0)
  {
    MasteredRow(r);
    NameShownIsWatched(Mastered(r));
  }

  lemma RestartLively(s: State)
    requires ValidTable(LoadTable(s.data)) && ValidTable(RestartStep(s).table)
    ensures Lively(RestartStep(s)) && Bounded(RestartStep(s))
  {
    var t, u := LoadTable(s.data), RestartStep(s);
    forall k | k in u.table
      ensures RowLively(u.table[k], u.workers[k])
    {
      MasteredRowLively(t[k]);
    }
  }

  /** Start-up over any file whose records are well formed and distinct. */
  lemma RestartEstablishes(s: State)
    requires ValidRecords(s.data) && Distinct(s.data) && s.tmp == []
    ensures Inv(RestartStep(s))
    ensures View(RestartStep(s).data) == View(s.data)
  {
    LoadRebuildsView(s.data);
    LoadedContainer(s.data);
    CompactedFile(s.data);
    RestartLively(s);
  }

  // ---------------------------------------------------------------- runs

  lemma NextKeeps(s: State, step: Step)
    requires Inv(s) && Enabled(s, step)
    ensures Inv(Next(s, step))
  {
    match step
    case Set(key, ws, env) =>
      SetKeepsStore(s, key, ws, env);
      SetKeepsWorkers(s, key, ws, env);
    case RefusedSet(key, ws) => RefusedSetKeeps(s, key, ws);
    case Wake(key, env) =>
      WakeKeepsStore(s, key, env);
      WakeKeepsWorkers(s, key, env);
    case Restart => RestartEstablishes(s);
  }
}
