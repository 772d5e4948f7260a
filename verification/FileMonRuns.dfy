/** The file monitor over whole runs: storage, liveness and number of workers, draining of workers, and
    where the string functions of the workers part from what GET shows. */
module FileMonRuns {
  import opened Octets
  import opened Options
  import opened RowStatus
  import opened FileMonRow
  import opened FileMonStore
  import opened FileMonDetector
  import opened FileMonMachine
  import opened FileMonInvariants

  /** Every step is possible where it is taken. */
  ghost predicate IsRun(s: State, steps: seq<Step>)
    requires Inv(s)
    decreases |steps|
  {
    steps != [] ==>
      && Enabled(s, steps[0])
      && (NextKeeps(s, steps[0]); IsRun(Next(s, steps[0]), steps[1..]))
  }

  ghost function After(s: State, steps: seq<Step>): (u: State)
    requires Inv(s) && IsRun(s, steps)
    ensures Inv(u)
    decreases |steps|
  {
    if steps == [] then s else
      NextKeeps(s, steps[0]);
      After(Next(s, steps[0]), steps[1..])
  }

  /** A data file as earlier commits leave it. */
  ghost predicate GoodFile(data: seq<Row>)
  {
    ValidRecords(data) && Distinct(data)
  }

  ghost predicate Reachable(s: State)
  {
    exists data: seq<Row>, steps: seq<Step> :: LeadsTo(data, steps, s)
  }

  ghost predicate LeadsTo(data: seq<Row>, steps: seq<Step>, s: State)
  {
    && GoodFile(data)
    && (RestartEstablishes(State(map[], data, [], multiset{}, multiset{}, []));
        IsRun(Boot(data), steps) && s == After(Boot(data), steps))
  }

  /** Every start over such a file is reachable. */
  lemma StartIsReachable(data: seq<Row>)
    requires GoodFile(data)
    ensures Reachable(Boot(data))
  {
    RestartEstablishes(State(map[], data, [], multiset{}, multiset{}, []));
    assert LeadsTo(data, [], Boot(data));
  }

  lemma ReachableInv(s: State)
    requires Reachable(s)
    ensures Inv(s)
  {
    var data, steps :| LeadsTo(data, steps, s);
  }

  /** In every reachable state the data file is the container, and a restart rebuilds exactly that container,
      every row filed under its own index, from a file that compaction left equivalent. */
  lemma RestartIsTransparent(s: State)
    requires Reachable(s)
    ensures Inv(s) && Inv(RestartStep(s))
    ensures View(s.data) == TableView(s.table)
    ensures TableView(RestartStep(s).table) == TableView(s.table)
    ensures forall k :: k in s.table ==> k in RestartStep(s).table && RestartStep(s).table[k].oids == [k]
    ensures RestartStep(s).data == Live(s.data) && RestartStep(s).tmp == []
    ensures RestartStep(RestartStep(s)).data == RestartStep(s).data
  {
    ReachableInv(s);
    RestartEstablishes(s);
    var u := RestartStep(s);
    assert forall k :: k in s.table ==> k in TableView(s.table);
    if Clean(s.data) {
      CompactionIsIdentityOnClean(s.data);
    } else {
      CompactionExactIff(s.data, s.tmp);
      var at := LiveIsSubsequence(s.data);
      assert Clean(u.data);
    }
  }

  /** Workers never go missing, in every reachable state. */
  lemma WorkersAreLively(s: State, k: nat)
    requires Reachable(s) && k in s.table
    ensures s.table[k].threadActive == 1 ==> k in s.workers
    ensures s.table[k].name.len <= |s.table[k].name.bytes|
    ensures s.table[k].status == ACTIVE && NameShown(s.table[k]) && s.table[k].checkInterval != 0 ==> k in s.workers
  {
    ReachableInv(s);
    Widths(s.table[k]);
    assert RowLively(s.table[k], s.workers[k]);
  }

  /** Never more workers than the flag plus the destroys; never two for an index never destroyed. */
  lemma WorkersAreBounded(s: State, k: nat)
    requires Reachable(s)
    ensures s.workers[k] <= Flag(s, k) + s.destroys[k]
    ensures s.destroys[k] == 0 ==> s.workers[k] <= 1
  {
    ReachableInv(s);
  }

  // ---------------------------------------------------------------- what one step does

  predicate SetByManager(c: TextColumn)
  {
    c == Name || c == Description || c == ReactionPath || c == AlertMessage
  }

  /** The commit of a row leaves the texts a manager sets. */
  lemma CommitKeepsText(r: Row, env: Env, c: TextColumn)
    requires ValidRow(r) && ValidEnv(env) && SetByManager(c)
    ensures ValidRow(CommitRow(r, env)) && TextOf(CommitRow(r, env), c) == TextOf(r, c)
  {
  }

  /** After a committed SET that deletes nothing, GET answers a text that was written once with the value written, and
      every other row is as it was. */
  lemma SetTakesEffect(s: State, key: nat, ws: seq<Write>, env: Env, c: TextColumn, i: nat)
    requires Inv(s) && Enabled(s, Set(key, ws, env)) && SetByManager(c)
    requires i < |ws| && Touches(ws[i], c) && forall j :: 0 <= j < |ws| && j != i ==> !Touches(ws[j], c)
    ensures var u := SetStep(s, key, ws, env);
            && (forall k :: k != key ==>
                              (k in u.table <==> k in s.table) && (k in s.table ==> u.table[k] == s.table[k]))
            && (key in u.table ==>
                  && TextOf(u.table[key], c).len <= |TextOf(u.table[key], c).bytes|
                  && Shown(TextOf(u.table[key], c)) == ws[i].octets)
  {
    var target := Target(s.table, key);
    var record := RecordOf(s, key, ws);
    TouchedOnce(target, ws, c, i);
    assert TextOf(record, c) == TextOf(ApplyWrites(target, ws), c);
    CommitKeepsText(record, env, c);
  }

  /** A commit that starts a row being watched stamps its dates and takes size and owner from the file. */
  lemma CommitFillsIn(r: Row, env: Env)
    requires ValidRow(r) && ValidEnv(env) && Starts(r)
    ensures var q := CommitRow(r, env);
            && CString(q.created.bytes) == Key(env.now)
            && match env.stat
               case Missing => q.fileSize == 0 && CString(q.modified.bytes) == Key(env.now) && q.owner.len == 0
               case Found(size, mtime, owner) =>
                 && q.fileSize == size && CString(q.modified.bytes) == Key(mtime)
                 && (owner.None? ==> q.owner.len == 0)
                 && (owner.Some? ==> q.owner == Text(StrNCpy(owner.value, 255), 255))
  {
    Widths(r);
  }

  /** A worker's turn that reaches the file. */
  predicate Polled(s: State, key: nat, env: Env)
  {
    && key in s.table && s.table[key].status == ACTIVE && Watchable(s.table[key]) && env.stat.Found?
    && (s.table[key].reaction == 2 || s.table[key].reaction == 3 ==> CString(s.table[key].reactionPath.bytes) != [])
  }

  /** A turn sends its one trap exactly when it reaches the file and finds another date than the row holds; it then
      holds that date and size. */
  lemma WakeSendsTrapIff(s: State, key: nat, env: Env)
    requires Inv(s) && Enabled(s, Wake(key, env))
    ensures var u := WakeStep(s, key, env);
            && u.traps == (if Polled(s, key, env) && CString(s.table[key].modified.bytes) != Key(env.stat.mtime)
                           then s.traps + [key] else s.traps)
            && (Polled(s, key, env) ==>
                  && key in u.table && u.table[key].fileSize == env.stat.size
                  && CString(u.table[key].modified.bytes) == Key(env.stat.mtime))
  {
    if key in s.table {
      Widths(s.table[key]);
    }
  }

  /** The date a commit has stamped ends inside its length, so a later refused SET of that column always leaves what
      the worker compares. */
  lemma UndoKeepsStampedDate(r: Row, env: Env, ws: seq<Write>, c: TextColumn, i: nat)
    requires ValidRow(r) && ValidEnv(env) && Starts(r) && (c == CreatedDateTime || c == ModifiedDateTime)
    requires AllFit(ws) && i < |ws| && Touches(ws[i], c)
    requires forall j :: 0 <= j < |ws| && j != i ==> !Touches(ws[j], c)
    ensures var q := CommitRow(r, env);
            ValidRow(q) && CString(TextOf(Undone(q, ws), c).bytes) == CString(TextOf(q, c).bytes)
  {
    var q := CommitRow(r, env);
    CommitFillsIn(r, env);
    Widths(r);
    UndoRestoresStringIff(q, ws, c, i);
  }

  // ---------------------------------------------------------------- traps of a run

  /** The indexes a step sends a trap for: the worker that reaches the file and finds another date than the row
      holds. */
  function FiresOf(s: State, step: Step): seq<nat>
    requires Inv(s) && Enabled(s, step)
  {
    if step.Wake? && Polled(s, step.key, step.env)
       && CString(s.table[step.key].modified.bytes) != Key(step.env.stat.mtime) then [step.key] else []
  }

  ghost function FiredBy(s: State, steps: seq<Step>): seq<nat>
    requires Inv(s) && IsRun(s, steps)
    decreases |steps|
  {
    if steps == [] then [] else
      NextKeeps(s, steps[0]);
      FiresOf(s, steps[0]) + FiredBy(Next(s, steps[0]), steps[1..])
  }

  lemma StepSendsTraps(s: State, step: Step)
    requires Inv(s) && Enabled(s, step)
    ensures Next(s, step).traps == s.traps + FiresOf(s, step)
  {
    if step.Wake? {
      WakeSendsTrapIff(s, step.key, step.env);
    }
  }

  /** Along any run the traps sent are, in order, those of the wake-ups that reach the file and find a change. */
  lemma {:induction false} RunSendsTraps(s: State, steps: seq<Step>)
    requires Inv(s) && IsRun(s, steps)
    ensures After(s, steps).traps == s.traps + FiredBy(s, steps)
    decreases |steps|
  {
    if steps != [] {
      NextKeeps(s, steps[0]);
      var u := Next(s, steps[0]);
      StepSendsTraps(s, steps[0]);
      RunSendsTraps(u, steps[1..]);
      Regroup(s.traps, FiresOf(s, steps[0]), FiredBy(u, steps[1..]));
    }
  }

  lemma Regroup(a: seq<nat>, b: seq<nat>, c: seq<nat>)
    ensures (a + b) + c == a + (b + c)
  {
  }

  /** No restart, and no SET of this row. */
  predicate LeavesRow(steps: seq<Step>, k: nat)
  {
    steps != [] ==>
      && !steps[0].Restart? && (steps[0].Wake? || steps[0].key != k)
      && LeavesRow(steps[1..], k)
  }

  /** The modification times the workers of an index find along a run. */
  ghost function PollsOf(s: State, steps: seq<Step>, k: nat): (polls: seq<Option<DateTime>>)
    requires Inv(s) && IsRun(s, steps)
    ensures ValidTimes(polls)
    decreases |steps|
  {
    if steps == [] then [] else
      NextKeeps(s, steps[0]);
      PolledBy(s, steps[0], k) + PollsOf(Next(s, steps[0]), steps[1..], k)
  }

  function PolledBy(s: State, step: Step, k: nat): (polls: seq<Option<DateTime>>)
    requires Inv(s) && Enabled(s, step)
    ensures ValidTimes(polls) && |polls| <= 1
  {
    if step.Wake? && step.key == k && Polled(s, k, step.env) then [step.env.stat.mtime] else []
  }

  /** The key a row holds; empty for an absent one. */
  function StoredKey(s: State, k: nat): seq<byte>
  {
    if k in s.table then CString(s.table[k].modified.bytes) else []
  }

  lemma OtherStepPolls(s: State, step: Step, k: nat)
    requires Inv(s) && Enabled(s, step) && LeavesRow([step], k) && !step.Wake?
    ensures StoredKey(Next(s, step), k) == StoredKey(s, k)
  {
  }

  lemma WakePolls(s: State, key: nat, env: Env, k: nat)
    requires Inv(s) && Enabled(s, Wake(key, env))
    ensures StoredKey(WakeStep(s, key, env), k) ==
            if key == k && Polled(s, k, env) then Key(env.stat.mtime) else StoredKey(s, k)
  {
    WakeSendsTrapIff(s, key, env);
  }

  lemma StepPolls(s: State, step: Step, k: nat)
    requires Inv(s) && Enabled(s, step) && LeavesRow([step], k)
    ensures var polls := PolledBy(s, step, k);
            && StoredKey(Next(s, step), k) == (if polls == [] then StoredKey(s, k) else Key(polls[0]))
            && multiset(FiresOf(s, step))[k] == if polls != [] && StoredKey(s, k) != Key(polls[0]) then 1 else 0
  {
    if step.Wake? {
      WakePolls(s, step.key, step.env, k);
      assert Next(s, step) == WakeStep(s, step.key, step.env);
    } else {
      OtherStepPolls(s, step, k);
    }
  }

  /** Along any run without a restart or a SET of the row, whatever its workers and the other rows do, the traps for
      an index are as many as the changes among the modification times its workers find. */
  lemma {:induction false} RunTrapsAreChanges(s: State, steps: seq<Step>, k: nat)
    requires Inv(s) && IsRun(s, steps) && LeavesRow(steps, k)
    ensures multiset(After(s, steps).traps)[k] ==
            multiset(s.traps)[k] + |Changes(StoredKey(s, k), PollsOf(s, steps, k))|
    decreases |steps|
  {
    if steps != [] {
      var step, rest := steps[0], steps[1..];
      NextKeeps(s, step);
      StepSendsTraps(s, step);
      StepPolls(s, step, k);
      RunTrapsAreChanges(Next(s, step), rest, k);
      ChangesAfter(StoredKey(s, k), PolledBy(s, step, k), PollsOf(Next(s, step), rest, k));
    } else {
      assert Changes(StoredKey(s, k), []) == {};
    }
  }

  lemma ChangesAfter(stored: seq<byte>, first: seq<Option<DateTime>>, polls: seq<Option<DateTime>>)
    requires ValidTimes(first) && ValidTimes(polls) && |first| <= 1
    ensures ValidTimes(first + polls)
    ensures |Changes(stored, first + polls)| ==
            if first == [] then |Changes(stored, polls)|
            else (if stored != Key(first[0]) then 1 else 0) + |Changes(Key(first[0]), polls)|
  {
    if first == [] {
      assert first + polls == polls;
    } else {
      ChangesCons(stored, first + polls);
      assert (first + polls)[1..] == polls;
    }
  }

  // ---------------------------------------------------------------- draining

  predicate Dormant(s: State, k: nat)
  {
    k !in s.table || s.table[k].status != ACTIVE
  }

  ghost predicate StaysDormant(s: State, steps: seq<Step>, k: nat)
    requires Inv(s) && IsRun(s, steps)
    decreases |steps|
  {
    && Dormant(s, k)
    && (steps != [] ==>
          && steps[0] != Restart
          && (NextKeeps(s, steps[0]); StaysDormant(Next(s, steps[0]), steps[1..], k)))
  }

  function WakesOf(steps: seq<Step>, k: nat): nat
  {
    if steps == [] then 0 else (if steps[0].Wake? && steps[0].key == k then 1 else 0) + WakesOf(steps[1..], k)
  }

  lemma DormantSet(s: State, key: nat, ws: seq<Write>, env: Env, k: nat)
    requires Shape(s) && AllFit(ws) && ValidEnv(env)
    requires Dormant(SetStep(s, key, ws, env), k)
    ensures SetStep(s, key, ws, env).workers[k] == s.workers[k]
  {
    var record := RecordOf(s, key, ws);
    if key == k && !IsTombstone(record) {
      assert SetStep(s, key, ws, env).table[k] == CommitRow(record, env);
    }
  }

  lemma DormantStep(s: State, step: Step, k: nat)
    requires Inv(s) && Enabled(s, step) && step != Restart && Dormant(s, k)
    requires Inv(Next(s, step)) && Dormant(Next(s, step), k)
    ensures Next(s, step).workers[k] + (if step.Wake? && step.key == k then 1 else 0) == s.workers[k]
  {
    match step
    case Set(key, ws, env) => DormantSet(s, key, ws, env, k);
    case RefusedSet(key, ws) =>
    case Wake(key, env) =>
      if key in s.table {
        WokenRow(s, key, env);
      }
    case Restart =>
  }

  /** While an index stays inactive or absent, every wake-up of its workers ends one and nothing starts one:
      the workers left and the wake-ups taken always add up to the workers there were. */
  lemma {:induction false} DormantWorkersDrain(s: State, steps: seq<Step>, k: nat)
    requires Inv(s) && IsRun(s, steps) && StaysDormant(s, steps, k)
    ensures After(s, steps).workers[k] + WakesOf(steps, k) == s.workers[k]
    decreases |steps|
  {
    if steps != [] {
      NextKeeps(s, steps[0]);
      DormantStep(s, steps[0], k);
      DormantWorkersDrain(Next(s, steps[0]), steps[1..], k);
    }
  }

  /** Only a restart gives a dormant row a worker: exactly when its stored name and interval are set. */
  lemma RestartWorkers(s: State, k: nat)
    requires Reachable(s)
    ensures RestartStep(s).workers[k] ==
            if k in RestartStep(s).table && Watchable(RestartStep(s).table[k]) then 1 else 0
  {
    ReachableInv(s);
    var t := LoadTable(s.data);
    assert k in t ==> (Watchable(Mastered(t[k])) <==> Watchable(t[k]));
  }

  // ---------------------------------------------------------------- the name as the worker reads it

  /** Liveness by the test of the code itself, strlen on the whole buffer. */
  ghost predicate LivelyByStrlen(s: State)
  {
    forall k :: k in s.table && s.table[k].status == ACTIVE && Watchable(s.table[k]) ==> s.table[k].threadActive == 1
  }

  /** The refused SET leaves a name behind a stored length of zero on an active row nobody watches. */
  predicate LeavesName(s: State, key: nat, name: seq<byte>)
  {
    && key in s.table && s.table[key].status == ACTIVE && s.table[key].checkInterval != 0
    && s.table[key].threadActive == 0 && s.table[key].name.len == 0
    && name != [] && name[0] != 0
  }

  lemma NameAfterUndo(r: Row, ws: seq<Write>, i: nat)
    requires ValidRow(r) && AllFit(ws)
    requires i < |ws| && Touches(ws[i], Name)
    requires forall j :: 0 <= j < |ws| && j != i ==> !Touches(ws[j], Name)
    ensures ValidText(r.name, 255) && ValidText(Undone(r, ws).name, 255)
    ensures Undone(r, ws).name.bytes[0] ==
            if r.name.len == 0 && ws[i].octets != [] then ws[i].octets[0]
            else if r.name.len == 0 then 0 else r.name.bytes[0]
  {
    Widths(r);
    Widths(Undone(r, ws));
    TouchedOnce(r, ws, Name, i);
    assert TextOf(Undone(r, ws), Name) == CopyText(TextOf(Action(r, ws), Name), TextOf(Duplicate(r), Name));
    assert TextOf(Duplicate(r), Name) == CopyText(TextOf(ZeroRow(), Name), TextOf(r, Name));
    assert TextOf(Undone(r, ws), Name) == Undone(r, ws).name && TextOf(r, Name) == r.name;
  }

  lemma FirstOctetDecides(b: seq<byte>)
    requires b != []
    ensures CString(b) != [] <==> b[0] != 0
  {
  }

  /** Liveness by strlen survives a refused SET of the name exactly when it is not such a one. */
  lemma RefusedSetKeepsStrlenLivenessIff(s: State, key: nat, ws: seq<Write>, i: nat)
    requires Inv(s) && LivelyByStrlen(s) && AllFit(ws)
    requires i < |ws| && Touches(ws[i], Name)
    requires forall j :: 0 <= j < |ws| && j != i ==> !Touches(ws[j], Name)
    ensures LivelyByStrlen(RefusedSetStep(s, key, ws)) <==> !LeavesName(s, key, ws[i].octets)
  {
    if key in s.table {
      var r := s.table[key];
      var u := RefusedSetStep(s, key, ws);
      NameAfterUndo(r, ws, i);
      UndoneRow(r, ws);
      FirstOctetDecides(r.name.bytes);
      FirstOctetDecides(Undone(r, ws).name.bytes);
      assert u.table[key] == Undone(r, ws);
      assert forall k :: k in s.table && k != key ==> u.table[k] == s.table[k];
    }
  }

  /** Every other step keeps it. */
  lemma OtherStepsKeepStrlenLiveness(s: State, step: Step)
    requires Inv(s) && Enabled(s, step) && LivelyByStrlen(s)
    requires step.RefusedSet? ==> forall w :: w in step.ws ==> !Touches(w, Name)
    ensures LivelyByStrlen(Next(s, step))
  {
    match step
    case Set(key, ws, env) =>
      var record := RecordOf(s, key, ws);
      assert key in s.table ==> Shape(s) && (s.table[key].threadActive == 0 || s.table[key].threadActive == 1);
    case RefusedSet(key, ws) =>
      if key in s.table {
        var r := s.table[key];
        UndoneRow(r, ws);
        UntouchedText(r, ws, Name);
        Widths(r);
        Widths(Undone(r, ws));
        assert TextOf(Undone(r, ws), Name) == CopyText(TextOf(Action(r, ws), Name), TextOf(Duplicate(r), Name));
        assert TextOf(Duplicate(r), Name) == CopyText(TextOf(ZeroRow(), Name), TextOf(r, Name));
        assert TextOf(Undone(r, ws), Name) == Undone(r, ws).name && TextOf(r, Name) == r.name;
        assert Undone(r, ws).name.bytes == r.name.bytes;
      }
    case Wake(key, env) =>
      if key in s.table {
        WokenRow(s, key, env);
        assert ManagedOf(Next(s, step).table[key]).status == s.table[key].status;
      }
    case Restart =>
  }

  const QUIET := Env(None, (0, 0, 0), Missing)
  const CREATE_UNNAMED := Set(7, [WriteNumber(Status, CREATE_AND_GO)], QUIET)
  const REFUSED_RENAME := RefusedSet(7, [WriteText(Name, [102])])

  lemma CreateUnnamed(s: State)
    requires Inv(s) && s.table == map[]
    ensures Enabled(s, CREATE_UNNAMED)
    ensures Next(s, CREATE_UNNAMED).table == map[7 := CreateRow(7).(status := ACTIVE, idx := 7)]
  {
    var ws := CREATE_UNNAMED.ws;
    assert ws[..|ws| - 1] == [];
    assert ApplyWrites(CreateRow(7), []) == CreateRow(7);
    assert ApplyWrites(CreateRow(7), ws) == CreateRow(7).(status := CREATE_AND_GO);
    assert Action(CreateRow(7), ws) == CreateRow(7).(status := ACTIVE);
    FirstOctetDecides(CreateRow(7).name.bytes);
  }

  lemma RenameRefused(s: State)
    requires Inv(s) && s.table == map[7 := CreateRow(7).(status := ACTIVE, idx := 7)]
    ensures Enabled(s, REFUSED_RENAME) && !LivelyByStrlen(Next(s, REFUSED_RENAME))
  {
    FirstOctetDecides(CreateRow(7).name.bytes);
    var r := s.table[7];
    assert r.name == CreateRow(7).name && r.name.len == 0 && r.threadActive == 0 && r.checkInterval == 30;
    assert !Watchable(r);
    RefusedSetKeepsStrlenLivenessIff(s, 7, REFUSED_RENAME.ws, 0);
  }

  lemma FirstBoot()
    ensures Inv(Boot([])) && Boot([]).table == map[]
  {
    RestartEstablishes(State(map[], [], [], multiset{}, multiset{}, []));
  }

  lemma ReachableInTwo(a: Step, b: Step)
    requires Inv(Boot([])) && Enabled(Boot([]), a) && Inv(Next(Boot([]), a)) && Enabled(Next(Boot([]), a), b)
    ensures Reachable(Next(Next(Boot([]), a), b))
  {
    RestartEstablishes(State(map[], [], [], multiset{}, multiset{}, []));
    RunOfTwo(Boot([]), a, b);
    assert LeadsTo([], [a, b], Next(Next(Boot([]), a), b));
  }

  /** A run that ends with an active, watchable row and no worker: create without a name, then a refused rename. */
  lemma StrlenLivenessFails()
    ensures exists s: State :: Reachable(s) && !LivelyByStrlen(s)
  {
    FirstBoot();
    var s0 := Boot([]);
    CreateUnnamed(s0);
    NextKeeps(s0, CREATE_UNNAMED);
    RenameRefused(Next(s0, CREATE_UNNAMED));
    ReachableInTwo(CREATE_UNNAMED, REFUSED_RENAME);
  }

  lemma RunOfTwo(s: State, a: Step, b: Step)
    requires Inv(s) && Enabled(s, a) && Inv(Next(s, a)) && Enabled(Next(s, a), b)
    ensures IsRun(s, [a, b]) && After(s, [a, b]) == Next(Next(s, a), b)
  {
    var u := Next(s, a);
    NextKeeps(u, b);
    assert [a, b][1..] == [b] && [b][1..] == [];
    assert IsRun(Next(u, b), []);
    assert IsRun(u, [b]) && After(u, [b]) == Next(u, b);
  }
}
