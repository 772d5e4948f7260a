/** What a committed SET, a worker's turn and a start make of every single column, told field by field. */
module FileMonEffects {
  import opened Octets
  import opened Options
  import opened RowStatus
  import opened FileMonRow
  import opened FileMonStore
  import opened FileMonDetector
  import opened FileMonMachine
  import opened FileMonInvariants
  import opened FileMonRuns

  // ---------------------------------------------------------------- a request's last words

  /** The value of the last write to a text column, if there is one. */
  function LastText(ws: seq<Write>, c: TextColumn): Option<seq<byte>>
  {
    if ws == [] then None
    else if ws[|ws| - 1].WriteText? && ws[|ws| - 1].text == c then Some(ws[|ws| - 1].octets)
    else LastText(ws[..|ws| - 1], c)
  }

  function LastNumber(ws: seq<Write>, n: NumberColumn): Option<int>
  {
    if ws == [] then None
    else if ws[|ws| - 1].WriteNumber? && ws[|ws| - 1].number == n then Some(ws[|ws| - 1].value)
    else LastNumber(ws[..|ws| - 1], n)
  }

  function Or(v: Option<int>, was: int): int
  {
    if v.Some? then v.value else was
  }

  /** A text written last with v, shown whole and followed by a NUL; or else the old one, to the last octet. */
  predicate TextIs(t: Text, v: Option<seq<byte>>, was: Text)
  {
    match v
    case Some(octets) =>
      && t.len == |octets| < |t.bytes| == |was.bytes|
      && t.bytes[..|octets|] == octets && t.bytes[|octets|] == 0
    case None => t == was
  }

  /** The columns a commit leaves alone. */
  ghost predicate ManagerColumns(q: Row, ws: seq<Write>, was: Row)
  {
    && q.index == Or(LastNumber(ws, Index), was.index)
    && q.checkInterval == Or(LastNumber(ws, CheckInterval), was.checkInterval)
    && q.reaction == Or(LastNumber(ws, Reaction), was.reaction)
    && TextIs(q.name, LastText(ws, Name), was.name)
    && TextIs(q.description, LastText(ws, Description), was.description)
    && TextIs(q.reactionPath, LastText(ws, ReactionPath), was.reactionPath)
    && TextIs(q.alertMessage, LastText(ws, AlertMessage), was.alertMessage)
  }

  /** The columns a commit may fill in. */
  ghost predicate WatchColumns(q: Row, ws: seq<Write>, was: Row)
  {
    && q.fileSize == Or(LastNumber(ws, FileSize), was.fileSize)
    && TextIs(q.created, LastText(ws, CreatedDateTime), was.created)
    && TextIs(q.modified, LastText(ws, ModifiedDateTime), was.modified)
    && TextIs(q.owner, LastText(ws, Owner), was.owner)
  }

  function BlankText(capacity: nat): Text
  {
    Text(seq(capacity, _ => 0), 0)
  }

  /** The row of an index, or what stands for it when there is none: its index, interval 30, and zeros. */
  function Before(t: map<nat, Row>, key: nat): Row
  {
    if key in t then t[key] else
      Row([key], key, BlankText(255), 30, BlankText(255), BlankText(20), BlankText(20), 0, BlankText(255), 0,
          BlankText(255), BlankText(255), 0, 0, 0)
  }

  lemma BeforeIsTarget(t: map<nat, Row>, key: nat)
    requires ValidTable(t)
    ensures Before(t, key) == Target(t, key)
  {
    assert BlankText(255) == Text(Zeros(255), 0) && BlankText(20) == Text(Zeros(20), 0);
  }

  /** One write changes one column. */
  lemma WriteColumns(r: Row, w: Write)
    requires ValidRow(r) && Fits(w)
    ensures var q := ApplyWrite(r, w);
            && (w.WriteNumber? ==>
                  q == match w.number
                       case Index => r.(index := w.value)
                       case CheckInterval => r.(checkInterval := w.value)
                       case FileSize => r.(fileSize := w.value)
                       case Reaction => r.(reaction := w.value)
                       case Status => r.(status := w.value))
            && (w.WriteText? ==> exists t: Text :: TextWritten(r, q, w, t))
  {
    if w.WriteText? {
      Widths(r);
      assert TextWritten(r, ApplyWrite(r, w), w, StoreText(TextOf(r, w.text), w.octets));
    }
  }

  ghost predicate TextWritten(r: Row, q: Row, w: Write, t: Text)
    requires w.WriteText?
  {
    match w.text
    case Name => q == r.(name := t) && TextIs(t, Some(w.octets), r.name)
    case Description => q == r.(description := t) && TextIs(t, Some(w.octets), r.description)
    case CreatedDateTime => q == r.(created := t) && TextIs(t, Some(w.octets), r.created)
    case ModifiedDateTime => q == r.(modified := t) && TextIs(t, Some(w.octets), r.modified)
    case Owner => q == r.(owner := t) && TextIs(t, Some(w.octets), r.owner)
    case ReactionPath => q == r.(reactionPath := t) && TextIs(t, Some(w.octets), r.reactionPath)
    case AlertMessage => q == r.(alertMessage := t) && TextIs(t, Some(w.octets), r.alertMessage)
  }

  lemma LastOf(ws: seq<Write>)
    requires ws != []
    ensures var init, w := ws[..|ws| - 1], ws[|ws| - 1];
            && (forall c: TextColumn :: LastText(ws, c) ==
                  if w.WriteText? && w.text == c then Some(w.octets) else LastText(init, c))
            && (forall n: NumberColumn :: LastNumber(ws, n) ==
                  if w.WriteNumber? && w.number == n then Some(w.value) else LastNumber(init, n))
  {
  }

  /** Every column holds the last value written to it, or else what it held. */
  ghost predicate Columns(q: Row, ws: seq<Write>, was: Row)
  {
    ManagerColumns(q, ws, was) && WatchColumns(q, ws, was) && q.status == Or(LastNumber(ws, Status), was.status)
  }

  lemma OneMoreNumber(was: Row, ws: seq<Write>, p: Row, q: Row)
    requires ws != [] && Columns(p, ws[..|ws| - 1], was) && ws[|ws| - 1].WriteNumber?
    requires var w := ws[|ws| - 1];
             q == match w.number
                  case Index => p.(index := w.value)
                  case CheckInterval => p.(checkInterval := w.value)
                  case FileSize => p.(fileSize := w.value)
                  case Reaction => p.(reaction := w.value)
                  case Status => p.(status := w.value)
    ensures Columns(q, ws, was)
  {
    LastOf(ws);
  }

  lemma OneMoreText(was: Row, ws: seq<Write>, p: Row, q: Row, t: Text)
    requires ws != [] && Columns(p, ws[..|ws| - 1], was) && ws[|ws| - 1].WriteText?
    requires TextWritten(p, q, ws[|ws| - 1], t)
    ensures Columns(q, ws, was)
  {
    LastOf(ws);
  }

  /** The writes of a request, one after the other. */
  lemma {:induction false} WritesColumns(r: Row, ws: seq<Write>)
    requires ValidRow(r) && AllFit(ws)
    ensures Columns(ApplyWrites(r, ws), ws, r)
  {
    if ws != [] {
      var init, w := ws[..|ws| - 1], ws[|ws| - 1];
      assert w in ws && forall v :: v in init ==> v in ws;
      WritesColumns(r, init);
      var p, q := ApplyWrites(r, init), ApplyWrites(r, ws);
      WriteColumns(p, w);
      if w.WriteNumber? {
        OneMoreNumber(r, ws, p, q);
      } else {
        var t :| TextWritten(p, q, w, t);
        OneMoreText(r, ws, p, q, t);
      }
    }
  }

  // ---------------------------------------------------------------- a committed SET

  predicate Watched(r: Row)
  {
    CString(r.name.bytes) != [] && r.checkInterval != 0 && r.status == 1
  }

  /** A column that holds a date the way the worker and GET see it. */
  predicate Dated(t: Text, when: Option<DateTime>)
    requires ValidTime(when)
  {
    CString(t.bytes) == Key(when) && t.len == if when.Some? then 11 else 8
  }

  /** What a commit puts into the columns of a row that is to be watched. */
  ghost predicate FilledIn(q: Row, env: Env)
    requires ValidEnv(env)
  {
    && Dated(q.created, env.now) && q.threadActive == 1
    && match env.stat
       case Missing => q.fileSize == 0 && Dated(q.modified, env.now) && q.owner.len == 0
       case Found(size, mtime, owner) =>
         && q.fileSize == size && Dated(q.modified, mtime)
         && (owner.None? ==> q.owner.len == 0)
         && (owner.Some? ==>
               && q.owner.len == |q.owner.bytes| == 255
               && forall i :: 0 <= i < 255 ==>
                    q.owner.bytes[i] == if i < |CString(owner.value)| then owner.value[i] else 0)
  }

  lemma CommitColumns(r: Row, env: Env)
    requires ValidRow(r) && ValidEnv(env) && (r.threadActive == 0 || r.threadActive == 1)
    ensures var q := CommitRow(r, env);
            && q == r.(created := q.created, modified := q.modified, owner := q.owner, fileSize := q.fileSize,
                       threadActive := q.threadActive)
            && (Watched(r) ==> FilledIn(q, env))
            && (!Watched(r) ==> q == r)
  {
    if Watched(r) {
      CommitFillsIn(r, env);
    }
  }

  /** The columns of a row a commit is done with: those of the manager as written last, the others as written last or,
      where the row is to be watched, from the clock and the file. */
  ghost predicate Committed(q: Row, key: nat, ws: seq<Write>, was: Row, env: Env)
    requires ValidEnv(env)
  {
    && q.oids == [key] && q.idx == key && ManagerColumns(q, ws, was)
    && q.status == SettledTo(ws, was)
    && if Watched(q) then FilledIn(q, env) else WatchColumns(q, ws, was) && q.threadActive == was.threadActive
  }

  /** The status a request leaves: active when it asks for that or for creation, gone when it asks for that, and out
      of service otherwise. */
  function SettledTo(ws: seq<Write>, was: Row): int
  {
    var asked := Or(LastNumber(ws, Status), was.status);
    if asked == 1 || asked == 4 then 1 else if asked == 6 then 6 else 2
  }

  lemma CommittedColumns(record: Row, key: nat, ws: seq<Write>, was: Row, env: Env)
    requires ValidRow(record) && ValidEnv(env) && (was.threadActive == 0 || was.threadActive == 1)
    requires record.oids == [key] && record.idx == key && record.threadActive == was.threadActive
    requires ManagerColumns(record, ws, was) && WatchColumns(record, ws, was) && record.status == SettledTo(ws, was)
    ensures Committed(CommitRow(record, env), key, ws, was, env)
  {
    CommitColumns(record, env);
  }

  lemma ActedColumns(s: State, key: nat, ws: seq<Write>) returns (record: Row)
    requires Shape(s) && AllFit(ws)
    ensures record == Record(Action(Target(s.table, key), ws), key) && ValidRow(record)
    ensures var was := Before(s.table, key);
            && record.oids == [key] && record.idx == key
            && ManagerColumns(record, ws, was) && WatchColumns(record, ws, was)
            && record.status == SettledTo(ws, was)
            && record.threadActive == if record.status == 6 then 0 else was.threadActive
  {
    var target := Target(s.table, key);
    BeforeIsTarget(s.table, key);
    WritesColumns(target, ws);
    var q := ApplyWrites(target, ws);
    record := RecordOf(s, key, ws);
    assert record == q.(status := Settle(q.status), idx := key, threadActive := record.threadActive);
  }

  /** After a committed SET every column of the row is accounted for, the row is gone exactly when that was asked for,
      and no other row changes. */
  lemma SetStoresColumns(s: State, key: nat, ws: seq<Write>, env: Env)
    requires Inv(s) && Enabled(s, Set(key, ws, env))
    ensures var u, was := SetStep(s, key, ws, env), Before(s.table, key);
            && (forall k :: k != key ==>
                              (k in u.table <==> k in s.table) && (k in s.table ==> u.table[k] == s.table[k]))
            && (key in u.table <==> SettledTo(ws, was) != 6)
            && (key in u.table ==> Committed(u.table[key], key, ws, was, env))
            && u.traps == s.traps && u.tmp == s.tmp
  {
    var record := ActedColumns(s, key, ws);
    if record.status != 6 {
      CommittedColumns(record, key, ws, Before(s.table, key), env);
    }
  }

  /** A SET starts a worker exactly when the row is then to be watched and its flag was down. It stops none: a destroy leaves
      the sleeping workers of the row to find out by themselves. */
  lemma SetStartsWorker(s: State, key: nat, ws: seq<Write>, env: Env)
    requires Inv(s) && Enabled(s, Set(key, ws, env))
    ensures var u, was := SetStep(s, key, ws, env), Before(s.table, key);
            && u.workers == (if key in u.table && Watched(u.table[key]) && was.threadActive == 0
                             then s.workers + multiset{key} else s.workers)
            && u.destroys == if key in s.table && key !in u.table then s.destroys + multiset{key} else s.destroys
  {
    var record := ActedColumns(s, key, ws);
    if record.status != 6 {
      CommitColumns(record, env);
    }
  }

  /** The record of the row as the data file then holds it: every column as written last. A tombstone keeps them too.
      */
  lemma SetStoresRecord(s: State, key: nat, ws: seq<Write>, env: Env) returns (i: nat)
    requires Inv(s) && Enabled(s, Set(key, ws, env))
    ensures var f, was := SetStep(s, key, ws, env).data, Before(s.table, key);
            && i < |f| && f[i].oids == [key] && f[i].idx == key && f[i].status == SettledTo(ws, was)
            && ManagerColumns(f[i], ws, was) && WatchColumns(f[i], ws, was)
            && f[i].threadActive == if f[i].status == 6 then 0 else was.threadActive
    ensures var f, g := s.data, SetStep(s, key, ws, env).data;
            forall j :: 0 <= j < |f| && f[j].idx != key ==> j < |g| && g[j] == f[j]
  {
    var record := ActedColumns(s, key, ws);
    UpsertChangesOneRecord(s.data, record);
    i := Position(s.data, key);
  }

  /** Which requests pass the RESERVE phases: their values fit, and each status they write is a legal one for the row.
      */
  lemma AcceptedIff(t: map<nat, Row>, key: nat, ws: seq<Write>)
    ensures Accepted(t, key, ws) <==>
            && AllFit(ws)
            && forall w :: w in ws && w.WriteNumber? && w.number == Status ==>
                 if key in t && (t[key].status == 1 || t[key].status == 2)
                 then w.value == 1 || w.value == 2 || w.value == 6
                 else w.value == 6 || ((key !in t || t[key].status == 0) && (w.value == 4 || w.value == 5))
  {
  }

  // ---------------------------------------------------------------- a worker's turn

  /** A turn touches no row but its own, and of that one nothing but flag, size and modification time. It clears the
      flag and ends the worker exactly when the row is there and not active; it ends the worker when the row is gone.
      */
  lemma WakeTouchesOnly(s: State, key: nat, env: Env)
    requires Inv(s) && Enabled(s, Wake(key, env))
    ensures var u := WakeStep(s, key, env);
            && u.data == s.data && u.tmp == s.tmp && u.destroys == s.destroys
            && (key !in s.table ==> u == s.(workers := s.workers - multiset{key}))
            && (key in s.table ==>
                  var r := s.table[key];
                  && key in u.table
                  && u.table == s.table[key := r.(threadActive := u.table[key].threadActive,
                                                  fileSize := u.table[key].fileSize,
                                                  modified := u.table[key].modified)]
                  && u.table[key].threadActive == (if r.status == 1 then r.threadActive else 0)
                  && u.workers == (if r.status == 1 then s.workers else s.workers - multiset{key})
                  && (if Polled(s, key, env)
                      then && u.table[key].fileSize == env.stat.size && Dated(u.table[key].modified, env.stat.mtime)
                           && (StoredKey(s, key) == Key(env.stat.mtime) ==>
                                 u.table[key].modified.bytes == r.modified.bytes)
                      else u.table[key].fileSize == r.fileSize && u.table[key].modified == r.modified))
  {
    if key in s.table {
      Widths(s.table[key]);
      WakeSendsTrapIff(s, key, env);
    }
  }

  // ---------------------------------------------------------------- a start

  /** A start gives back each live record whole, under its index, and starts a worker for it exactly when it has a
      name and an interval. */
  lemma RestartLoadsRecords(s: State, i: nat)
    requires Distinct(s.data) && i < |s.data| && s.data[i].status != 6
    ensures var r, u := s.data[i], RestartStep(s);
            var workers := if CString(r.name.bytes) != [] && r.checkInterval != 0 then 1 else 0;
            && r.idx in u.table && u.table[r.idx] == r.(oids := [r.idx], threadActive := workers)
            && u.workers[r.idx] == workers
  {
    LoadsWholeRecord(s.data, i);
  }

  /** So does the first start, over a file left by an earlier life. */
  lemma BootLoadsRecords(data: seq<Row>, i: nat)
    requires Distinct(data) && i < |data| && data[i].status != 6
    ensures var r, u := data[i], Boot(data);
            var workers := if CString(r.name.bytes) != [] && r.checkInterval != 0 then 1 else 0;
            && r.idx in u.table && u.table[r.idx] == r.(oids := [r.idx], threadActive := workers)
            && u.workers[r.idx] == workers && u.traps == []
  {
    RestartLoadsRecords(State(map[], data, [], multiset{}, multiset{}, []), i);
  }

  /** And nothing else: every row of a start stands in the file. */
  lemma RestartedRowsAreRecords(s: State, k: nat) returns (i: nat)
    requires Reachable(s) && k in RestartStep(s).table
    ensures i < |s.data| && s.data[i].idx == k && s.data[i].status != 6
  {
    ReachableInv(s);
    LoadedRowsComeFromFile(s.data);
    i :| 0 <= i < |s.data| && !IsTombstone(s.data[i]) && s.data[i].idx == k;
  }

  /** The first turn after a start sends a trap only for a date other than the one in the data file. */
  lemma FirstTurnAfterRestart(s: State, i: nat, env: Env)
    requires Reachable(s) && i < |s.data| && s.data[i].status != 6 && ValidEnv(env)
    ensures Inv(RestartStep(s))
    ensures var k, u := s.data[i].idx, RestartStep(s);
            k in u.workers ==>
              WakeStep(u, k, env).traps ==
              if Polled(u, k, env) && CString(s.data[i].modified.bytes) != Key(env.stat.mtime)
              then s.traps + [k] else s.traps
  {
    ReachableInv(s);
    RestartEstablishes(s);
    RestartLoadsRecords(s, i);
    var k, u := s.data[i].idx, RestartStep(s);
    if k in u.workers {
      WakeSendsTrapIff(u, k, env);
    }
  }

  // ---------------------------------------------------------------- whole runs

  /** No committed SET of this row. */
  predicate NeverSet(steps: seq<Step>, k: nat)
  {
    steps != [] ==> (steps[0].Set? ==> steps[0].key != k) && NeverSet(steps[1..], k)
  }

  /** Two rows that a manager cannot tell apart by the columns it sets. */
  predicate SameToManager(a: Row, b: Row)
    requires ValidRow(a) && ValidRow(b)
  {
    Widths(a);
    Widths(b);
    && a.index == b.index && a.checkInterval == b.checkInterval && a.reaction == b.reaction && a.status == b.status
    && Shown(a.name) == Shown(b.name) && Shown(a.description) == Shown(b.description)
    && Shown(a.reactionPath) == Shown(b.reactionPath) && Shown(a.alertMessage) == Shown(b.alertMessage)
  }

  ghost predicate RowKept(s: State, u: State, k: nat)
    requires ValidTable(s.table) && ValidTable(u.table)
  {
    (k in u.table <==> k in s.table) && (k in s.table ==> SameToManager(u.table[k], s.table[k]))
  }

  lemma SameViewKeepsRow(s: State, u: State, k: nat)
    requires ValidTable(s.table) && ValidTable(u.table) && TableView(u.table) == TableView(s.table)
    ensures RowKept(s, u, k)
  {
    assert k in s.table <==> k in TableView(s.table);
    assert k in u.table <==> k in TableView(u.table);
    if k in s.table {
      assert TableView(s.table)[k] == ManagedOf(s.table[k]) && TableView(u.table)[k] == ManagedOf(u.table[k]);
      Widths(s.table[k]);
      Widths(u.table[k]);
    }
  }

  lemma RefusedKeepsView(s: State, key: nat, ws: seq<Write>)
    requires Inv(s) && AllFit(ws)
    ensures Inv(RefusedSetStep(s, key, ws)) && TableView(RefusedSetStep(s, key, ws).table) == TableView(s.table)
  {
    RefusedSetKeeps(s, key, ws);
  }

  lemma WakeKeepsView(s: State, key: nat, env: Env)
    requires Inv(s) && ValidEnv(env) && key in s.workers
    ensures Shape(WakeStep(s, key, env)) && TableView(WakeStep(s, key, env).table) == TableView(s.table)
  {
    WakeKeepsStore(s, key, env);
    if key in s.table {
      WokenRow(s, key, env);
    }
  }

  lemma StepKeepsRow(s: State, step: Step, k: nat)
    requires Inv(s) && Enabled(s, step) && (step.Set? ==> step.key != k)
    ensures Inv(Next(s, step)) && RowKept(s, Next(s, step), k)
  {
    NextKeeps(s, step);
    match step
    case Set(key, ws, env) => SetStoresColumns(s, key, ws, env);
    case RefusedSet(key, ws) =>
      RefusedKeepsView(s, key, ws);
      SameViewKeepsRow(s, RefusedSetStep(s, key, ws), k);
    case Wake(key, env) =>
      WakeKeepsView(s, key, env);
      SameViewKeepsRow(s, WakeStep(s, key, env), k);
    case Restart =>
      RestartEstablishes(s);
      SameViewKeepsRow(s, RestartStep(s), k);
  }

  /** Refused SETs, workers' turns, restarts and SETs of other rows, in any number and order, leave every column that
      a manager sets as GET answers it. So a value a committed SET stored stays until the next committed SET of the
      row. */
  lemma {:induction false} OnlySetsChangeRow(s: State, steps: seq<Step>, k: nat)
    requires Inv(s) && IsRun(s, steps) && NeverSet(steps, k)
    ensures RowKept(s, After(s, steps), k)
    decreases |steps|
  {
    if steps != [] {
      StepKeepsRow(s, steps[0], k);
      OnlySetsChangeRow(Next(s, steps[0]), steps[1..], k);
    }
  }
}
