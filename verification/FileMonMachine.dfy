/** The file monitor as a state machine: the container, the two files and the polling workers, moved by
    committed and refused SET requests, worker wake-ups and restarts. A worker carries its index by value;
    steps interleave between SET transactions; thread creation and file operations succeed. */
module FileMonMachine {
  import opened Octets
  import opened Options
  import opened RowStatus
  import opened FileMonRow
  import opened FileMonStore
  import opened FileMonDetector

  /** What stat and getpwuid report about the monitored file. */
  datatype Stat = Missing | Found(size: int, mtime: Option<DateTime>, owner: Option<seq<byte>>)

  datatype Env = Env(now: Option<DateTime>, zone: (byte, byte, byte), stat: Stat)

  datatype Step =
    | Set(key: nat, ws: seq<Write>, env: Env)
    | RefusedSet(key: nat, ws: seq<Write>)
    | Wake(key: nat, env: Env)
    | Restart

  datatype State = State(
    table: map<nat, Row>,
    data: seq<Row>,
    tmp: seq<Row>,
    workers: multiset<nat>,
    destroys: multiset<nat>,
    traps: seq<nat>)

  ghost predicate ValidEnv(env: Env)
  {
    ValidTime(env.now) && (env.stat.Found? ==> ValidTime(env.stat.mtime))
  }

  /** The value check of every thread start: strlen(name) != 0 and a non-zero interval. */
  predicate Watchable(r: Row)
  {
    CString(r.name.bytes) != [] && r.checkInterval != 0
  }

  predicate Starts(r: Row)
  {
    Watchable(r) && r.status == ACTIVE
  }

  /** A date column stamped by strcpy of a DateAndTime. */
  function Stamped(t: Text, when: Option<DateTime>, zone: (byte, byte, byte)): (u: Text)
    requires |t.bytes| == 20 && ValidTime(when)
    ensures ValidText(u, 20) && CString(u.bytes) == Key(when)
  {
    KeyIsCString(when, zone);
    Text(StrCpy(t.bytes, DateOctets(when, zone)), |DateOctets(when, zone)|)
  }

  function WithFileStatus(r: Row, env: Env): Row
    requires |r.modified.bytes| == 20 && ValidEnv(env)
  {
    match env.stat
    case Missing =>
      r.(fileSize := 0, modified := Stamped(r.modified, env.now, env.zone), owner := r.owner.(len := 0))
    case Found(size, mtime, owner) =>
      r.(fileSize := size, modified := Stamped(r.modified, mtime, env.zone),
         owner := if owner.Some? then Text(StrNCpy(owner.value, 255), 255) else r.owner.(len := 0))
  }

  /** The columns set_commit fills in when the row is watched, and the flag of the thread it starts. */
  function CommitRow(r: Row, env: Env): (q: Row)
    requires ValidRow(r) && ValidEnv(env)
    ensures ValidRow(q) && ManagedOf(q) == ManagedOf(r)
    ensures q.oids == r.oids && q.idx == r.idx && q.status == r.status && q.name == r.name
            && q.checkInterval == r.checkInterval
    ensures q.threadActive == if Starts(r) && r.threadActive == 0 then 1 else r.threadActive
  {
    if !Starts(r) then r else
      Widths(r);
      var stamped := r.(created := Stamped(r.created, env.now, env.zone));
      var q := WithFileStatus(stamped, env).(threadActive := if r.threadActive == 0 then 1 else r.threadActive);
      WidthsSuffice(q);
      q
  }

  lemma Widths(r: Row)
    requires ValidRow(r)
    ensures ValidText(r.name, 255) && ValidText(r.description, 255) && ValidText(r.owner, 255)
    ensures ValidText(r.reactionPath, 255) && ValidText(r.alertMessage, 255)
    ensures ValidText(r.created, 20) && ValidText(r.modified, 20)
  {
    assert TextOf(r, Name) == r.name && TextOf(r, Description) == r.description && TextOf(r, Owner) == r.owner;
    assert TextOf(r, ReactionPath) == r.reactionPath && TextOf(r, AlertMessage) == r.alertMessage;
    assert TextOf(r, CreatedDateTime) == r.created && TextOf(r, ModifiedDateTime) == r.modified;
  }

  lemma WidthsSuffice(r: Row)
    requires |r.oids| == 1
    requires ValidText(r.name, 255) && ValidText(r.description, 255) && ValidText(r.owner, 255)
    requires ValidText(r.reactionPath, 255) && ValidText(r.alertMessage, 255)
    requires ValidText(r.created, 20) && ValidText(r.modified, 20)
    ensures ValidRow(r)
  {
  }

  /** The row a request works on: the existing one, or a new one for an index without a row. */
  function Target(t: map<nat, Row>, key: nat): (r: Row)
    requires ValidTable(t)
    ensures ValidRow(r)
  {
    if key in t then t[key] else CreateRow(key)
  }

  /** RESERVE passed: values fit and every status value is a legal transition. */
  ghost predicate Accepted(t: map<nat, Row>, key: nat, ws: seq<Write>)
  {
    && AllFit(ws)
    && forall w :: w in ws && w.WriteNumber? && w.number == Status ==>
         CheckTransition(if key in t then t[key].status else NONEXISTENT, w.value) == NoError
  }

  ghost predicate Enabled(s: State, step: Step)
  {
    match step
    case Set(key, ws, env) => Accepted(s.table, key, ws) && ValidEnv(env)
    case RefusedSet(key, ws) => Accepted(s.table, key, ws)
    case Wake(key, env) => key in s.workers && ValidEnv(env)
    case Restart => true
  }

  /** The record the commit of this row writes. */
  function Record(r: Row, key: nat): Row
  {
    r.(idx := key, threadActive := if IsTombstone(r) then 0 else r.threadActive)
  }

  function SetStep(s: State, key: nat, ws: seq<Write>, env: Env): State
    requires ValidTable(s.table) && AllFit(ws) && ValidEnv(env)
  {
    var record := Record(Action(Target(s.table, key), ws), key);
    RecordIsValid(Action(Target(s.table, key), ws), key);
    if IsTombstone(record) then
      s.(table := s.table - {key},
         data := Upsert(s.data, record),
         destroys := if key in s.table then s.destroys + multiset{key} else s.destroys)
    else
      s.(table := s.table[key := CommitRow(record, env)],
         data := Upsert(s.data, record),
         workers := if Starts(record) && record.threadActive == 0 then s.workers + multiset{key} else s.workers)
  }

  lemma RecordIsValid(r: Row, key: nat)
    requires ValidRow(r)
    ensures ValidRow(Record(r, key)) && ManagedOf(Record(r, key)) == ManagedOf(r)
  {
    Widths(r);
    WidthsSuffice(Record(r, key));
  }

  function RefusedSetStep(s: State, key: nat, ws: seq<Write>): State
    requires ValidTable(s.table) && AllFit(ws)
  {
    if key in s.table then s.(table := s.table[key := Undone(s.table[key], ws)]) else s
  }

  /** A worker's turn of the polling loop, from its look-up to its next sleep or its exit. */
  function WakeStep(s: State, key: nat, env: Env): State
    requires ValidTable(s.table) && ValidEnv(env)
  {
    if key !in s.table then s.(workers := s.workers - multiset{key})
    else
      var r := s.table[key];
      if r.status != ACTIVE then
        s.(table := s.table[key := r.(threadActive := 0)], workers := s.workers - multiset{key})
      else if !Watchable(r) then s
      else if (r.reaction == 2 || r.reaction == 3) && CString(r.reactionPath.bytes) == [] then s
      else match env.stat
        case Missing => s
        case Found(size, mtime, _) =>
          Widths(r);
          var (modified, fired) := Poll(r.modified, mtime, env.zone);
          s.(table := s.table[key := r.(fileSize := size, modified := modified)],
             traps := if fired then s.traps + [key] else s.traps)
  }

  /** FileMon_MasterThread starts a worker for every watchable row, whatever its status. */
  function Mastered(r: Row): Row
  {
    r.(threadActive := if Watchable(r) then 1 else 0)
  }

  function MasterTable(t: map<nat, Row>): map<nat, Row>
  {
    map k | k in t :: Mastered(t[k])
  }

  function MasterWorkers(t: map<nat, Row>): multiset<nat>
  {
    multiset(set k | k in t && Watchable(t[k]))
  }

  /** The process ends with all its threads and starts again from the data file. */
  function RestartStep(s: State): State
  {
    var t := LoadTable(s.data);
    s.(table := MasterTable(t), workers := MasterWorkers(t),
       data := Compacted(s.data, s.tmp), tmp := if Clean(s.data) then s.tmp else [])
  }

  function Next(s: State, step: Step): State
    requires ValidTable(s.table) && Enabled(s, step)
  {
    match step
    case Set(key, ws, env) => SetStep(s, key, ws, env)
    case RefusedSet(key, ws) => RefusedSetStep(s, key, ws)
    case Wake(key, env) => WakeStep(s, key, env)
    case Restart => RestartStep(s)
  }

  /** First start-up over a data file left by an earlier life of the agent. */
  function Boot(data: seq<Row>): State
  {
    RestartStep(State(map[], data, [], multiset{}, multiset{}, []))
  }
}
