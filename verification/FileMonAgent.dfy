/** The agent's handlers over live state: each one moves the state exactly as its step does. */
module FileMonAgent {
  import opened Octets
  import opened Options
  import opened RowStatus
  import opened FileMonRow
  import opened FileMonStore
  import opened FileMonDetector
  import opened FileMonMachine
  import opened FileMonInvariants

  class Agent {
    var table: map<nat, Row>
    const data: RecordFile
    const tmp: RecordFile
    var workers: multiset<nat>
    ghost var destroys: multiset<nat>
    var traps: seq<nat>

    ghost function Snapshot(): State
      reads this, data, tmp
    {
      State(table, data.records, tmp.records, workers, destroys, traps)
    }

    ghost predicate Valid()
      reads this, data, tmp
    {
      data != tmp && Inv(Snapshot())
    }

    /** init_fileMonitorTable over a data file left by earlier commits and no temporary file. */
    constructor (data: RecordFile, tmp: RecordFile)
      requires data != tmp && tmp.records == [] && ValidRecords(data.records) && Distinct(data.records)
      modifies data, tmp
      ensures Valid() && this.data == data && this.tmp == tmp
      ensures Snapshot() == Boot(old(data.records))
    {
      this.data, this.tmp := data, tmp;
      table, workers, destroys, traps := map[], multiset{}, multiset{}, [];
      new;
      RestartEstablishes(Snapshot());
      Restart();
    }

    /** A SET request for one row that passes every phase: set_action, the container update, set_commit. */
    method Set(key: nat, ws: seq<Write>, env: Env)
      requires Valid() && Accepted(table, key, ws) && ValidEnv(env)
      modifies this, data
      ensures Valid()
      ensures Snapshot() == Next(old(Snapshot()), Step.Set(key, ws, env))
    {
      ghost var before := Snapshot();
      NextKeeps(before, Step.Set(key, ws, env));
      ghost var record := RecordOf(before, key, ws);
      var row := SetAction(if key in table then table[key] else CreateRow(key), ws);
      SetCommit(key, row, env);
      assert Snapshot() == SetStep(before, key, ws, env);
    }

    /** set_action: the loop over the request, then the row-status check. */
    method SetAction(before: Row, ws: seq<Write>) returns (row: Row)
      requires ValidRow(before) && AllFit(ws)
      ensures row == Action(before, ws)
    {
      row := before;
      var i := 0;
      while i < |ws|
        invariant 0 <= i <= |ws| && ValidRow(row)
        invariant row == ApplyWrites(before, ws[..i])
      {
        assert ws[..i + 1][..i] == ws[..i];
        assert ws[i] in ws;
        row := ApplyWrite(row, ws[i]);
        i := i + 1;
      }
      assert ws[..i] == ws;
      row := WithNumber(row, Status, Settle(row.status));
    }

    /** The helper's container update, then set_commit. */
    method SetCommit(key: nat, acted: Row, env: Env)
      requires ValidRow(acted) && acted.oids == [key] && ValidRow(Record(acted, key)) && ValidEnv(env)
      requires data as object != tmp && Distinct(data.records)
      modifies this, data
      ensures tmp.records == old(tmp.records) && traps == old(traps)
      ensures data.records == Upsert(old(data.records), Record(acted, key))
      ensures IsTombstone(acted) ==>
                && table == old(table) - {key} && workers == old(workers)
                && destroys == if key in old(table) then old(destroys) + multiset{key} else old(destroys)
      ensures !IsTombstone(acted) ==>
                && table == old(table)[key := CommitRow(Record(acted, key), env)] && destroys == old(destroys)
                && workers == if Starts(Record(acted, key)) && acted.threadActive == 0
                              then old(workers) + multiset{key} else old(workers)
    {
      if IsTombstone(acted) {
        if key in table {
          destroys := destroys + multiset{key};
        }
        table := table - {key};
      }
      var found, row := UpdateDataFile(data, acted);
      if !IsTombstone(row) {
        row := FillIn(row, env);
        table := table[key := row];
      }
    }

    /** The part of set_commit after the data file: dates, size, owner and the thread of a watched row. */
    method FillIn(record: Row, env: Env) returns (row: Row)
      requires ValidRow(record) && ValidEnv(env) && |record.oids| == 1
      modifies this`workers
      ensures row == CommitRow(record, env)
      ensures workers == if Starts(record) && record.threadActive == 0
                         then old(workers) + multiset{record.idx} else old(workers)
    {
      row := record;
      if CString(row.name.bytes) != [] && row.checkInterval != 0 && row.status == ACTIVE {
        Widths(row);
        row := row.(created := Stamped(row.created, env.now, env.zone));
        match env.stat {
          case Missing =>
            row := row.(fileSize := 0, modified := Stamped(row.modified, env.now, env.zone),
                        owner := row.owner.(len := 0));
          case Found(size, mtime, owner) =>
            row := row.(fileSize := size, modified := Stamped(row.modified, mtime, env.zone));
            if owner.Some? {
              row := row.(owner := Text(StrNCpy(owner.value, 255), 255));
            } else {
              row := row.(owner := row.owner.(len := 0));
            }
        }
        if row.threadActive == 0 {
          workers := workers + multiset{row.idx};
          row := row.(threadActive := 1);
        }
      }
    }

    /** A SET request refused after set_action: the row is copied back from its duplicate. */
    method Refuse(key: nat, ws: seq<Write>)
      requires Valid() && Accepted(table, key, ws)
      modifies this`table
      ensures Valid()
      ensures Snapshot() == Next(old(Snapshot()), Step.RefusedSet(key, ws))
    {
      NextKeeps(Snapshot(), Step.RefusedSet(key, ws));
      if key in table {
        var undo := Duplicate(table[key]);
        var acted := SetAction(table[key], ws);
        table := table[key := RowCopy(acted, undo)];
      }
    }

    /** One turn of the loop of a worker that carries this index. */
    method WakeUp(key: nat, env: Env)
      requires Valid() && ValidEnv(env) && key in workers
      modifies this
      ensures Valid()
      ensures Snapshot() == Next(old(Snapshot()), Step.Wake(key, env))
    {
      NextKeeps(Snapshot(), Step.Wake(key, env));
      Turn(key, env);
    }

    method Turn(key: nat, env: Env)
      requires ValidTable(table) && ValidEnv(env)
      modifies this`table, this`workers, this`traps
      ensures Snapshot() == WakeStep(old(Snapshot()), key, env)
    {
      if key !in table {
        workers := workers - multiset{key};
        return;
      }
      var row := table[key];
      if row.status != ACTIVE {
        table := table[key := row.(threadActive := 0)];
        workers := workers - multiset{key};
        return;
      }
      if CString(row.name.bytes) == [] || row.checkInterval == 0 {
        return;
      }
      if (row.reaction == 2 || row.reaction == 3) && CString(row.reactionPath.bytes) == [] {
        return;
      }
      if env.stat.Missing? {
        return;
      }
      Widths(row);
      var (modified, fired) := Poll(row.modified, env.stat.mtime, env.zone);
      table := table[key := row.(fileSize := env.stat.size, modified := modified)];
      if fired {
        traps := traps + [key];
      }
    }

    /** The process starts again. */
    method Restart()
      requires data != tmp && tmp.records == [] && ValidRecords(data.records) && Distinct(data.records)
      modifies this, data, tmp
      ensures Valid()
      ensures Snapshot() == RestartStep(old(Snapshot()))
    {
      RestartEstablishes(Snapshot());
      Reload();
    }

    /** Load and compact the file, then the master thread. */
    method Reload()
      requires data != tmp && ValidRecords(data.records)
      modifies this, data, tmp
      ensures Snapshot() == RestartStep(old(Snapshot()))
    {
      workers := multiset{};
      table := LoadContainerFromFile(data, tmp);
      MasterThread();
    }

    /** FileMon_MasterThread: one pass over the container. */
    method MasterThread()
      requires workers == multiset{}
      modifies this`table, this`workers
      ensures table == MasterTable(old(table))
      ensures workers == MasterWorkers(old(table))
    {
      ghost var t := table;
      var todo := table.Keys;
      while todo != {}
        invariant todo <= t.Keys && table == MasteredOutside(t, todo)
        invariant workers == multiset(StartedOutside(t, todo))
        decreases todo
      {
        var k :| k in todo;
        var row := table[k];
        OneMoreMastered(t, todo, k);
        if CString(row.name.bytes) != [] && row.checkInterval != 0 {
          workers := workers + multiset{k};
          table := table[k := row.(threadActive := 1)];
        } else {
          table := table[k := row.(threadActive := 0)];
        }
        todo := todo - {k};
      }
      assert table == MasterTable(t);
      assert StartedOutside(t, {}) == (set k | k in t && Watchable(t[k]));
    }
  }

  /** The container after the pass has seen everything but `todo`, and the workers started so far. */
  ghost function MasteredOutside(t: map<nat, Row>, todo: set<nat>): map<nat, Row>
  {
    map k | k in t :: if k in todo then t[k] else Mastered(t[k])
  }

  ghost function StartedOutside(t: map<nat, Row>, todo: set<nat>): set<nat>
  {
    set k | k in t && k !in todo && Watchable(t[k])
  }

  lemma OneMoreMastered(t: map<nat, Row>, todo: set<nat>, k: nat)
    requires k in todo && todo <= t.Keys
    ensures MasteredOutside(t, todo - {k}) == MasteredOutside(t, todo)[k := Mastered(t[k])]
    ensures multiset(StartedOutside(t, todo - {k})) ==
            multiset(StartedOutside(t, todo)) + if Watchable(t[k]) then multiset{k} else multiset{}
  {
    var a, b := StartedOutside(t, todo), StartedOutside(t, todo - {k});
    assert b == if Watchable(t[k]) then a + {k} else a;
    assert k !in a;
  }
}
