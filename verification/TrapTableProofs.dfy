/** What holds of every table that follows the common pattern: the guard over all runs, when a SET sends a trap, and
    what the trap carries. */
module TrapTableProofs {
  import opened Options
  import opened Octets
  import opened Decimal
  import opened RowStatus
  import opened VarBinds
  import opened TableContainer
  import opened TrapTable
  import OidText

  /** Every row settled and every active row complete; the file, once written, is the container. */
  ghost predicate Inv(schema: Schema, s: State)
  {
    && Shape(schema, s)
    && s.rows == (if s.file.Some? then s.file.value else [])
    && forall i :: 0 <= i < |s.rows| ==> Settled(schema, s.rows[i].row)
  }

  ghost predicate Settled(schema: Schema, row: Row)
  {
    && (StatusOf(schema, row) == ACTIVE || StatusOf(schema, row) == NOT_IN_SERVICE)
    && (StatusOf(schema, row) == ACTIVE ==> Complete(schema, row))
  }

  lemma {:induction false} FoundSettled(schema: Schema, rows: Table, index: nat)
    requires forall i :: 0 <= i < |rows| ==> Settled(schema, rows[i].row)
    ensures Find(rows, index).Some? ==> Settled(schema, Find(rows, index).value)
  {
    if rows != [] && rows[0].index != index {
      FoundSettled(schema, rows[1..], index);
    }
  }

  /** What an accepted SET leaves in the container keeps the guard. */
  lemma AppliedSettled(schema: Schema, s: State, index: nat, cells: seq<Cell>, clock: Clock)
    requires Inv(schema, s) && Accepts(schema, s, index, cells, clock)
    ensures var rows := Applied(schema, s, index, cells, clock);
            forall i :: 0 <= i < |rows| ==> Settled(schema, rows[i].row)
  {
    var row := After(schema, Existing(schema, s, index), cells, clock);
    var rows := Applied(schema, s, index, cells, clock);
    ActionedIsOf(schema, s, index, cells, clock);
    forall i | 0 <= i < |rows|
      ensures Settled(schema, rows[i].row)
    {
      if StatusOf(schema, row) == DESTROY {
        var j := RemoveOrigin(s.rows, index, i);
      } else {
        var j := PutOrigin(s.rows, index, row, i);
      }
    }
  }

  /** Every step keeps the invariant, refused or not. */
  lemma SetKeepsInv(schema: Schema, s: State, index: nat, cells: seq<Cell>, clock: Clock)
    requires Inv(schema, s)
    ensures Inv(schema, Set(schema, s, index, cells, clock).next)
  {
    if Accepts(schema, s, index, cells, clock) {
      AppliedIsOf(schema, s, index, cells, clock);
      AppliedSettled(schema, s, index, cells, clock);
    }
  }

  /** A restart changes nothing. */
  lemma RestartIsInvisible(schema: Schema, s: State)
    requires Inv(schema, s)
    ensures Restarted(s) == s
  {
    if s.file.Some? {
      LoadUndoesSave(s.file.value);
    }
  }

  datatype Step = SetRow(index: nat, cells: seq<Cell>, clock: Clock) | Restart

  ghost function Next(schema: Schema, s: State, step: Step): (r: State)
    requires Inv(schema, s)
    ensures Inv(schema, r)
  {
    match step
    case SetRow(index, cells, clock) =>
      SetKeepsInv(schema, s, index, cells, clock);
      Set(schema, s, index, cells, clock).next
    case Restart =>
      RestartIsInvisible(schema, s);
      Restarted(s)
  }

  ghost function Run(schema: Schema, steps: seq<Step>): (r: State)
    requires Coherent(schema)
    ensures Inv(schema, r)
  {
    if steps == [] then State([], None) else Next(schema, Run(schema, steps[..|steps| - 1]), steps[|steps| - 1])
  }

  lemma OneStep(schema: Schema, index: nat, cells: seq<Cell>, clock: Clock)
    requires Coherent(schema)
    ensures Run(schema, []) == State([], None)
    ensures Run(schema, [SetRow(index, cells, clock)]) == Set(schema, Run(schema, []), index, cells, clock).next
  {
    assert [SetRow(index, cells, clock)][..0] == [];
  }

  /** In every reachable state an active row has all its required columns, in the container and in the file. */
  lemma ActiveRowsAreComplete(schema: Schema, steps: seq<Step>, index: nat)
    requires Coherent(schema)
    ensures var s := Run(schema, steps);
            && (var r := Find(s.rows, index);
                r.Some? && StatusOf(schema, r.value) == ACTIVE ==> Complete(schema, r.value))
            && (s.file.Some? ==> Find(s.file.value, index) == Find(s.rows, index))
            && Restarted(s) == s
  {
    FoundSettled(schema, Run(schema, steps).rows, index);
    RestartIsInvisible(schema, Run(schema, steps));
  }

  /** The status a request asks for is the one it writes. */
  lemma {:induction false} AskedIsWritten(schema: Schema, row: Row, cells: seq<Cell>)
    requires Coherent(schema) && RowOf(schema, row) && forall i :: 0 <= i < |cells| ==> Typed(schema, cells[i])
    ensures RowOf(schema, Written(row, cells))
    ensures Has(cells, schema.status) ==> StatusOf(schema, Written(row, cells)) == Asked(schema, cells)
    ensures !Has(cells, schema.status) ==>
              StatusOf(schema, Written(row, cells)) == StatusOf(schema, row) && Asked(schema, cells) == 0
  {
    if cells != [] {
      var init, last := cells[..|cells| - 1], cells[|cells| - 1];
      AskedIsWritten(schema, row, init);
      HasBefore(cells, schema.status);
    }
  }

  lemma HasBefore(cells: seq<Cell>, column: nat)
    requires cells != []
    ensures Has(cells, column) <==> Has(cells[..|cells| - 1], column) || cells[|cells| - 1].column == column
  {
    var init := cells[..|cells| - 1];
    assert forall i :: 0 <= i < |init| ==> cells[i] == init[i];
  }

  lemma {:induction false} AskedSomewhere(schema: Schema, cells: seq<Cell>) returns (i: nat)
    requires Asked(schema, cells) != 0
    ensures i < |cells| && cells[i].column == schema.status && cells[i].value == Number(Asked(schema, cells))
  {
    var last := cells[|cells| - 1];
    if last.column == schema.status && last.value.Number? {
      i := |cells| - 1;
    } else {
      i := AskedSomewhere(schema, cells[..|cells| - 1]);
    }
  }

  lemma StampedKeeps(schema: Schema, row: Row, clock: Clock)
    requires Coherent(schema) && RowOf(schema, row)
    ensures RowOf(schema, Stamped(schema, row, clock))
    ensures StatusOf(schema, Stamped(schema, row, clock)) == StatusOf(schema, row)
  {
  }

  /** A row's status at the end of a SET: what the request asks for, or else the old one, settled. */
  lemma StatusAfter(schema: Schema, row: Row, cells: seq<Cell>, clock: Clock)
    requires Coherent(schema) && RowOf(schema, row) && forall i :: 0 <= i < |cells| ==> Typed(schema, cells[i])
    ensures StatusOf(schema, After(schema, row, cells, clock)) ==
            Settle(if Has(cells, schema.status) then Asked(schema, cells) else StatusOf(schema, row))
    ensures !Has(cells, schema.status) ==> Asked(schema, cells) == 0
  {
    StampedKeeps(schema, row, clock);
    AskedIsWritten(schema, Stamped(schema, row, clock), cells);
    FilledKeeps(schema, Actioned(schema, row, cells, clock), clock);
  }

  /** A status asked for passed the RESERVE phases. */
  lemma AskedIsAllowed(schema: Schema, existing: Option<Row>, cells: seq<Cell>)
    requires Reserved(schema, existing, cells) && Asked(schema, cells) != 0
    ensures Has(cells, schema.status)
    ensures CheckTransition(if existing.Some? then StatusOf(schema, existing.value) else NONEXISTENT,
                            Asked(schema, cells)).NoError?
  {
    var i := AskedSomewhere(schema, cells);
  }

  /** createAndGo is accepted only for a row that does not exist, and leaves it active and complete. */
  lemma CreationIsComplete(schema: Schema, s: State, index: nat, cells: seq<Cell>, clock: Clock)
    requires Inv(schema, s) && Accepts(schema, s, index, cells, clock) && Asked(schema, cells) == CREATE_AND_GO
    ensures Find(s.rows, index).None?
    ensures var row := After(schema, schema.blank, cells, clock);
            StatusOf(schema, row) == ACTIVE && Complete(schema, row)
  {
    FoundSettled(schema, s.rows, index);
    AskedIsAllowed(schema, Find(s.rows, index), cells);
    StatusAfter(schema, schema.blank, cells, clock);
    FilledKeeps(schema, Actioned(schema, schema.blank, cells, clock), clock);
  }

  /** A row is deleted exactly when that is asked for. */
  lemma DestroyedIffAsked(schema: Schema, s: State, index: nat, cells: seq<Cell>, clock: Clock)
    requires Inv(schema, s) && Reserved(schema, Find(s.rows, index), cells)
    ensures StatusOf(schema, After(schema, Existing(schema, s, index), cells, clock)) == DESTROY <==>
            Asked(schema, cells) == DESTROY
  {
    FoundIsOf(schema, s.rows, index);
    FoundSettled(schema, s.rows, index);
    StatusAfter(schema, Existing(schema, s, index), cells, clock);
    if Asked(schema, cells) != 0 {
      AskedIsAllowed(schema, Find(s.rows, index), cells);
    }
  }

  /** After a SET that deletes nothing, the file holds the row as ACTION and COMMIT left it. */
  lemma SavedIsRow(schema: Schema, s: State, index: nat, cells: seq<Cell>, clock: Clock)
    requires Inv(schema, s) && Accepts(schema, s, index, cells, clock)
    ensures Find(Applied(schema, s, index, cells, clock), index) ==
            if Asked(schema, cells) == DESTROY then None
            else Some(After(schema, Existing(schema, s, index), cells, clock))
  {
    DestroyedIffAsked(schema, s, index, cells, clock);
    FindPut(s.rows, index, After(schema, Existing(schema, s, index), cells, clock), index);
    FindRemove(s.rows, index, index);
  }

  /** What a SET puts into a column: the value it writes, or else the date of the ACTION phase if the column is
      stamped, or else what the row held. */
  ghost function Given(schema: Schema, before: Row, cells: seq<Cell>, clock: Clock, column: nat): Value
    requires column in before
  {
    if Has(cells, column) then
      var i :| 0 <= i < |cells| && cells[i].column == column;
      cells[i].value
    else if schema.stamped == Some(column) then DateOver([], clock.action)
    else before[column]
  }

  lemma GivenIs(schema: Schema, before: Row, cells: seq<Cell>, clock: Clock, i: nat)
    requires DistinctColumns(cells) && i < |cells| && cells[i].column in before
    ensures Given(schema, before, cells, clock, cells[i].column) == cells[i].value
  {
    assert Has(cells, cells[i].column);
  }

  lemma ActionedColumn(schema: Schema, before: Row, cells: seq<Cell>, clock: Clock, column: nat)
    requires DistinctColumns(cells) && column in before && column != schema.status
    ensures column in Actioned(schema, before, cells, clock)
    ensures Actioned(schema, before, cells, clock)[column] == Given(schema, before, cells, clock, column)
  {
    if Has(cells, column) {
      var i :| 0 <= i < |cells| && cells[i].column == column &&
               Given(schema, before, cells, clock, column) == cells[i].value;
      WrittenHere(Stamped(schema, before, clock), cells, i);
    } else {
      WrittenElsewhere(Stamped(schema, before, clock), cells, column);
    }
  }

  /** The request gives a column a value that is not blank. */
  predicate Writes(cells: seq<Cell>, column: nat)
  {
    exists i :: 0 <= i < |cells| && cells[i].column == column && !Blank(cells[i].value)
  }

  lemma WrittenIffNotBlank(schema: Schema, cells: seq<Cell>, clock: Clock, i: nat)
    requires Coherent(schema) && DistinctColumns(cells) && i < |schema.required|
    ensures var row := After(schema, schema.blank, cells, clock);
            schema.required[i] in row && (!Blank(row[schema.required[i]]) <==> Writes(cells, schema.required[i]))
  {
    var column := schema.required[i];
    ActionedColumn(schema, schema.blank, cells, clock, column);
    FilledKeeps(schema, Actioned(schema, schema.blank, cells, clock), clock);
    assert Given(schema, schema.blank, cells, clock, column) == After(schema, schema.blank, cells, clock)[column];
    if Writes(cells, column) {
      var j :| 0 <= j < |cells| && cells[j].column == column && !Blank(cells[j].value);
      assert Has(cells, column);
    }
  }

  lemma {:induction false} AskedByOne(schema: Schema, cells: seq<Cell>, i: nat)
    requires DistinctColumns(cells) && i < |cells| && cells[i].column == schema.status && cells[i].value.Number?
    ensures Asked(schema, cells) == cells[i].value.n
  {
    if i < |cells| - 1 {
      AskedByOne(schema, cells[..|cells| - 1], i);
    }
  }

  /** A request of columns of the right types that asks for a status passes the RESERVE phases exactly when the
      transition is allowed. */
  lemma ReservedIff(schema: Schema, existing: Option<Row>, cells: seq<Cell>)
    requires DistinctColumns(cells) && forall i :: 0 <= i < |cells| ==> Typed(schema, cells[i])
    requires Asked(schema, cells) != 0
    ensures Reserved(schema, existing, cells) <==>
            CheckTransition(if existing.Some? then StatusOf(schema, existing.value) else NONEXISTENT,
                            Asked(schema, cells)).NoError?
  {
    var k := AskedSomewhere(schema, cells);
    forall i | 0 <= i < |cells| && cells[i].column == schema.status && cells[i].value.Number?
      ensures cells[i].value.n == Asked(schema, cells)
    {
      AskedByOne(schema, cells, i);
    }
  }

  /** A creation is accepted exactly when the row does not exist and the request gives every required column a value
      that is not blank. */
  lemma CreationAcceptedIff(schema: Schema, s: State, index: nat, cells: seq<Cell>, clock: Clock)
    requires Inv(schema, s) && DistinctColumns(cells) && forall i :: 0 <= i < |cells| ==> Typed(schema, cells[i])
    requires Asked(schema, cells) == CREATE_AND_GO
    ensures Accepts(schema, s, index, cells, clock) <==>
            && Find(s.rows, index).None?
            && forall i :: 0 <= i < |schema.required| ==> Writes(cells, schema.required[i])
  {
    FoundSettled(schema, s.rows, index);
    ReservedIff(schema, Find(s.rows, index), cells);
    if Find(s.rows, index).None? {
      AskedIsAllowed(schema, None, cells);
      StatusAfter(schema, schema.blank, cells, clock);
      FilledKeeps(schema, Actioned(schema, schema.blank, cells, clock), clock);
      forall i | 0 <= i < |schema.required|
        ensures var row := After(schema, schema.blank, cells, clock);
                schema.required[i] in row && (!Blank(row[schema.required[i]]) <==> Writes(cells, schema.required[i]))
      {
        WrittenIffNotBlank(schema, cells, clock, i);
      }
    }
  }

  /** A deletion is always accepted. */
  lemma DeletionIsAccepted(schema: Schema, s: State, index: nat, cells: seq<Cell>, clock: Clock)
    requires Inv(schema, s) && DistinctColumns(cells) && forall i :: 0 <= i < |cells| ==> Typed(schema, cells[i])
    requires Asked(schema, cells) == DESTROY
    ensures Accepts(schema, s, index, cells, clock)
  {
    ReservedIff(schema, Find(s.rows, index), cells);
    DestroyedIffAsked(schema, s, index, cells, clock);
    FilledKeeps(schema, Actioned(schema, Existing(schema, s, index), cells, clock), clock);
  }

  /** After an accepted SET that deletes nothing every column holds what the SET puts into it, except that the filled
      column gets the date of the COMMIT phase when that is no string; all other rows are as they were. */
  lemma SetTakesEffect(schema: Schema, s: State, index: nat, cells: seq<Cell>, clock: Clock, column: nat, k: nat)
    requires Inv(schema, s) && Accepts(schema, s, index, cells, clock) && DistinctColumns(cells)
    requires column in schema.blank && column != schema.status && k != index
    ensures column in Existing(schema, s, index)
    ensures var rows := Set(schema, s, index, cells, clock).next.rows;
            var v := Given(schema, Existing(schema, s, index), cells, clock, column);
            && Find(rows, k) == Find(s.rows, k)
            && (Asked(schema, cells) != DESTROY ==>
                  && Find(rows, index).Some? && column in Find(rows, index).value
                  && Find(rows, index).value[column] ==
                     if schema.filled == Some(column) && v.Text? && CString(v.octets + clock.behind) == []
                     then DateOver(v.octets + clock.behind, clock.commit) else v)
  {
    var before := Existing(schema, s, index);
    FoundIsOf(schema, s.rows, index);
    SavedIsRow(schema, s, index, cells, clock);
    OtherRowsStay(schema, s, index, cells, clock, k);
    ActionedColumn(schema, before, cells, clock, column);
    FilledKeeps(schema, Actioned(schema, before, cells, clock), clock);
  }

  /** The status an accepted SET leaves: active when it asks for that or for creation, the row gone when it asks for
      that, and otherwise out of service; or, when it asks for none, as it was, a new row being out of service. */
  lemma StatusIsSet(schema: Schema, s: State, index: nat, cells: seq<Cell>, clock: Clock)
    requires Inv(schema, s) && Accepts(schema, s, index, cells, clock)
    ensures var row, was := Find(Set(schema, s, index, cells, clock).next.rows, index), Find(s.rows, index);
            && (row.None? <==> Asked(schema, cells) == 6)
            && (row.Some? ==> StatusOf(schema, row.value) ==
                              if Has(cells, schema.status)
                              then (if Asked(schema, cells) == 1 || Asked(schema, cells) == 4 then 1 else 2)
                              else if was.Some? then StatusOf(schema, was.value) else 2)
  {
    FoundIsOf(schema, s.rows, index);
    FoundSettled(schema, s.rows, index);
    SavedIsRow(schema, s, index, cells, clock);
    StatusAfter(schema, Existing(schema, s, index), cells, clock);
  }

  lemma OtherRowsStay(schema: Schema, s: State, index: nat, cells: seq<Cell>, clock: Clock, k: nat)
    requires Shape(schema, s) && k != index
    ensures Find(Applied(schema, s, index, cells, clock), k) == Find(s.rows, k)
  {
    FindPut(s.rows, index, After(schema, Existing(schema, s, index), cells, clock), k);
    FindRemove(s.rows, index, k);
  }

  /** Exactly when a committed SET sends a trap. */
  lemma TrapSentIff(schema: Schema, s: State, index: nat, cells: seq<Cell>, clock: Clock)
    requires Inv(schema, s) && Accepts(schema, s, index, cells, clock)
    ensures var row := After(schema, Existing(schema, s, index), cells, clock);
            Set(schema, s, index, cells, clock).trap.Some? <==>
            !Silent(schema, cells) &&
            (if Asked(schema, cells) == CREATE_AND_GO then Count(cells, schema.mandatory) == |schema.mandatory|
             else Asked(schema, cells) == DESTROY || Complete(schema, row))
  {
    SavedIsRow(schema, s, index, cells, clock);
  }

  lemma {:induction false} CountIff(cells: seq<Cell>, columns: set<nat>)
    requires DistinctColumns(cells)
    ensures Count(cells, columns) <= |columns|
    ensures Count(cells, columns) == |columns| <==> forall c :: c in columns ==> Has(cells, c)
  {
    if cells != [] {
      var init, last := cells[..|cells| - 1], cells[|cells| - 1].column;
      forall c
        ensures Has(cells, c) <==> Has(init, c) || last == c
      {
        HasBefore(cells, c);
      }
      CountIff(init, columns - {last});
      CountIgnores(init, columns, last);
      if last in columns {
        assert columns == (columns - {last}) + {last};
      } else {
        assert columns == columns - {last};
      }
      assert !Has(init, last);
    } else if columns != {} {
      var c :| c in columns;
      assert !Has(cells, c);
    }
  }

  lemma {:induction false} CountIgnores(cells: seq<Cell>, columns: set<nat>, column: nat)
    requires !Has(cells, column)
    ensures Count(cells, columns - {column}) == Count(cells, columns)
  {
    if cells != [] {
      HasBefore(cells, column);
      CountIgnores(cells[..|cells| - 1], columns, column);
    }
  }

  /** A column the request does not write keeps its value. */
  lemma {:induction false} WrittenElsewhere(row: Row, cells: seq<Cell>, column: nat)
    requires !Has(cells, column)
    ensures column in Written(row, cells) <==> column in row
    ensures column in row ==> Written(row, cells)[column] == row[column]
  {
    if cells != [] {
      HasBefore(cells, column);
      WrittenElsewhere(row, cells[..|cells| - 1], column);
    }
  }

  lemma {:induction false} WrittenHere(row: Row, cells: seq<Cell>, i: nat)
    requires DistinctColumns(cells) && i < |cells|
    ensures cells[i].column in Written(row, cells) && Written(row, cells)[cells[i].column] == cells[i].value
  {
    var n := |cells| - 1;
    if i < n {
      WrittenHere(row, cells[..n], i);
    }
  }

  /** A required column of a new row that is not blank was written by the request. */
  lemma CreationWritesRequired(schema: Schema, s: State, index: nat, cells: seq<Cell>, clock: Clock, i: nat)
    requires Inv(schema, s) && Accepts(schema, s, index, cells, clock) && Asked(schema, cells) == CREATE_AND_GO
    requires i < |schema.required|
    ensures Has(cells, schema.required[i])
  {
    CreationIsComplete(schema, s, index, cells, clock);
    FilledKeeps(schema, Actioned(schema, schema.blank, cells, clock), clock);
    if !Has(cells, schema.required[i]) {
      WrittenElsewhere(Stamped(schema, schema.blank, clock), cells, schema.required[i]);
    }
  }

  lemma ColumnOidInjective(schema: Schema, c: nat, d: nat, index: nat)
    ensures ColumnOid(schema, c, index) == ColumnOid(schema, d, index) <==> c == d
  {
    var a, b := schema.entry + [c, index], schema.entry + [d, index];
    OidText.TextInjective(a, b);
    assert a[|schema.entry|] == c && b[|schema.entry|] == d;
  }

  /** A prefix the search of the file starts from, with the index behind it, is the text of a column's OID. */
  lemma StoredOid(schema: Schema, column: nat, index: nat)
    ensures OidText.Text(schema.entry) + "." + NatText(column) + "." + IntText(index) ==
            ColumnOid(schema, column, index)
  {
    OidText.TextBefore(schema.entry, column);
    OidText.TextBefore(schema.entry + [column], index);
    assert schema.entry + [column] + [index] == schema.entry + [column, index];
  }

  /** `strcmp` on the texts finds a column exactly when the list has it. */
  lemma ArgumentNames(schema: Schema, index: nat, cells: seq<Cell>, column: nat)
    ensures Names(Arguments(schema, index, cells), ColumnOid(schema, column, index)) <==> Has(cells, column)
  {
    var list, oid := Arguments(schema, index, cells), ColumnOid(schema, column, index);
    forall i | 0 <= i < |cells|
      ensures list[i].oid == oid <==> cells[i].column == column
    {
      ColumnOidInjective(schema, cells[i].column, column, index);
    }
  }

  lemma ArgumentsDistinct(schema: Schema, index: nat, cells: seq<Cell>)
    requires DistinctColumns(cells)
    ensures Distinct(Arguments(schema, index, cells))
  {
    forall i, j | 0 <= i < j < |cells|
      ensures Arguments(schema, index, cells)[i].oid != Arguments(schema, index, cells)[j].oid
    {
      ColumnOidInjective(schema, cells[i].column, cells[j].column, index);
    }
  }

  lemma {:induction false} NotBlankComesFrom(row: Row, columns: seq<nat>, k: nat) returns (i: nat)
    requires k < |NotBlank(row, columns)|
    ensures i < |columns| && NotBlank(row, columns)[k] == columns[i]
  {
    var n := |columns| - 1;
    if k < |NotBlank(row, columns[..n])| {
      i := NotBlankComesFrom(row, columns[..n], k);
    } else {
      i := n;
    }
  }

  lemma {:induction false} NotBlankNoRepeats(row: Row, columns: seq<nat>)
    requires NoRepeats(columns)
    ensures NoRepeats(NotBlank(row, columns))
  {
    if columns != [] {
      var n := |columns| - 1;
      var before := NotBlank(row, columns[..n]);
      NotBlankNoRepeats(row, columns[..n]);
      forall k | 0 <= k < |before|
        ensures before[k] != columns[n]
      {
        var i := NotBlankComesFrom(row, columns[..n], k);
      }
    }
  }

  lemma PartsHaveNoRepeats(a: seq<nat>, b: seq<nat>, c: nat)
    requires NoRepeats(a + b + [c])
    ensures NoRepeats(a) && NoRepeats(b) && c !in a && c !in b
    ensures forall i, j :: 0 <= i < |a| && 0 <= j < |b| ==> a[i] != b[j]
  {
    var all := a + b + [c];
    assert forall i :: 0 <= i < |a| ==> all[i] == a[i];
    assert forall i :: 0 <= i < |b| ==> all[|a| + i] == b[i];
    assert all[|a| + |b|] == c;
  }

  lemma PartsMakeNoRepeats(a: seq<nat>, b: seq<nat>, c: seq<nat>)
    requires NoRepeats(a) && NoRepeats(b) && |c| <= 1
    requires forall i, j :: 0 <= i < |a| && 0 <= j < |b| ==> a[i] != b[j]
    requires |c| == 1 ==> c[0] !in a && c[0] !in b
    ensures NoRepeats(a + b + c)
  {
  }

  lemma StoredNoRepeats(schema: Schema, row: Row)
    requires Coherent(schema)
    ensures NoRepeats(StoredColumns(schema, row))
  {
    var some := NotBlank(row, schema.optional);
    PartsHaveNoRepeats(schema.always, schema.optional, schema.status);
    NotBlankNoRepeats(row, schema.optional);
    forall k | 0 <= k < |some|
      ensures some[k] in schema.optional
    {
      var i := NotBlankComesFrom(row, schema.optional, k);
    }
    PartsMakeNoRepeats(schema.always, some, if StatusOf(schema, row) == NOT_IN_SERVICE then [schema.status] else []);
  }

  ghost predicate NamesOneOf(schema: Schema, index: nat, v: VarBind, columns: set<nat>)
  {
    exists c :: c in columns && v.oid == ColumnOid(schema, c, index)
  }

  /** A list without repeats whose OIDs are those of some columns is no longer than their number. */
  lemma {:induction false} ListFits(schema: Schema, index: nat, list: seq<VarBind>, columns: set<nat>)
    requires Distinct(list)
    requires forall i :: 0 <= i < |list| ==> NamesOneOf(schema, index, list[i], columns)
    ensures |list| <= |columns|
  {
    if list != [] {
      var n := |list| - 1;
      assert NamesOneOf(schema, index, list[n], columns);
      var c :| c in columns && list[n].oid == ColumnOid(schema, c, index);
      forall i | 0 <= i < n
        ensures NamesOneOf(schema, index, list[..n][i], columns - {c})
      {
        assert NamesOneOf(schema, index, list[i], columns);
        var d :| d in columns && list[i].oid == ColumnOid(schema, d, index);
        assert d in columns - {c};
      }
      ListFits(schema, index, list[..n], columns - {c});
    }
  }

  lemma ArgumentsName(schema: Schema, index: nat, cells: seq<Cell>)
    requires forall i :: 0 <= i < |cells| ==> cells[i].column in schema.blank
    ensures var list := Arguments(schema, index, cells);
            forall i :: 0 <= i < |list| ==> NamesOneOf(schema, index, list[i], schema.blank.Keys)
  {
    var list := Arguments(schema, index, cells);
    forall i | 0 <= i < |list|
      ensures NamesOneOf(schema, index, list[i], schema.blank.Keys)
    {
      assert list[i].oid == ColumnOid(schema, cells[i].column, index);
    }
  }

  lemma MergedName(schema: Schema, index: nat, request: seq<VarBind>, stored: seq<VarBind>, columns: set<nat>)
    requires forall i :: 0 <= i < |request| ==> NamesOneOf(schema, index, request[i], columns)
    requires forall i :: 0 <= i < |stored| ==> NamesOneOf(schema, index, stored[i], columns)
    ensures var list := Merged(request, stored);
            forall i :: 0 <= i < |list| ==> NamesOneOf(schema, index, list[i], columns)
  {
    var list := Merged(request, stored);
    forall i | 0 <= i < |list|
      ensures NamesOneOf(schema, index, list[i], columns)
    {
      if i >= |request| {
        var j := MissingComesFrom(request, stored, i - |request|);
        assert NamesOneOf(schema, index, stored[j], columns);
        var c :| c in columns && stored[j].oid == ColumnOid(schema, c, index);
        assert list[i].oid == ColumnOid(schema, c, index);
      }
    }
  }

  /** A request of distinct columns is no longer than the number of columns. */
  lemma RequestFits(schema: Schema, index: nat, cells: seq<Cell>)
    requires DistinctColumns(cells) && forall i :: 0 <= i < |cells| ==> Typed(schema, cells[i])
    ensures |cells| <= |schema.blank|
  {
    ArgumentsName(schema, index, cells);
    ArgumentsDistinct(schema, index, cells);
    ListFits(schema, index, Arguments(schema, index, cells), schema.blank.Keys);
  }

  lemma StoredDistinct(schema: Schema, row: Row)
    requires Coherent(schema) && RowOf(schema, row)
    ensures Stored(schema, row).Some? ==> DistinctColumns(Stored(schema, row).value)
    ensures Stored(schema, row).Some? ==>
              forall i :: 0 <= i < |Stored(schema, row).value| ==> Stored(schema, row).value[i].column in schema.blank
  {
    StoredNoRepeats(schema, row);
    StoredColumnsInRow(schema, row);
  }

  /** The merge neither repeats an OID nor outgrows the number of columns. */
  lemma MergeFits(schema: Schema, index: nat, cells: seq<Cell>, stored: seq<Cell>)
    requires DistinctColumns(cells) && forall i :: 0 <= i < |cells| ==> Typed(schema, cells[i])
    requires DistinctColumns(stored) && forall i :: 0 <= i < |stored| ==> stored[i].column in schema.blank
    ensures var list := Merged(Arguments(schema, index, cells), Arguments(schema, index, stored));
            Distinct(list) && |list| <= |schema.blank|
  {
    var request, others := Arguments(schema, index, cells), Arguments(schema, index, stored);
    ArgumentsDistinct(schema, index, cells);
    ArgumentsDistinct(schema, index, stored);
    ArgumentsName(schema, index, cells);
    ArgumentsName(schema, index, stored);
    MergedDistinct(request, others);
    MergedName(schema, index, request, others, schema.blank.Keys);
    ListFits(schema, index, Merged(request, others), schema.blank.Keys);
  }

  /** A trap fits the argument array; unless a row was deleted it names no OID twice. */
  lemma TrapFits(schema: Schema, s: State, index: nat, cells: seq<Cell>, clock: Clock)
    requires Inv(schema, s) && Accepts(schema, s, index, cells, clock) && DistinctColumns(cells)
    ensures var trap := Set(schema, s, index, cells, clock).trap;
            trap.Some? ==>
              && |trap.value| <= schema.fields
              && (Asked(schema, cells) != DESTROY ==> Distinct(trap.value) && |trap.value| <= |schema.blank|)
  {
    var row := After(schema, Existing(schema, s, index), cells, clock);
    SavedIsRow(schema, s, index, cells, clock);
    ActionedIsOf(schema, s, index, cells, clock);
    TrapListFits(schema, index, cells, row, Find(Applied(schema, s, index, cells, clock), index));
  }

  lemma TrapListFits(schema: Schema, index: nat, cells: seq<Cell>, row: Row, saved: Option<Row>)
    requires Coherent(schema) && (saved.Some? ==> RowOf(schema, saved.value))
    requires DistinctColumns(cells) && forall i :: 0 <= i < |cells| ==> Typed(schema, cells[i])
    ensures var trap := Trap(schema, index, cells, row, saved);
            trap.Some? ==>
              && |trap.value| <= schema.fields
              && (Asked(schema, cells) != DESTROY ==> Distinct(trap.value) && |trap.value| <= |schema.blank|)
  {
    RequestFits(schema, index, cells);
    ArgumentsDistinct(schema, index, cells);
    if saved.Some? && Complete(schema, saved.value) {
      StoredDistinct(schema, saved.value);
      MergeFits(schema, index, cells, Stored(schema, saved.value).value);
    }
  }

  /** The characters of a value buffer. */
  function Chars(octets: seq<byte>): (s: string)
    ensures |s| == |octets| && forall i :: 0 <= i < |s| ==> s[i] as int == octets[i]
  {
    seq(|octets|, i requires 0 <= i < |octets| => octets[i] as char)
  }

  /** What a variable says of a column: a number as its decimal text under the letter i; anything else as its octets
      under the letter s, all of them or those before the first NUL. */
  ghost predicate Shows(v: VarBind, value: Value, whole: bool)
  {
    match value
    case Number(n) => v.kind == 'i' && IsNumber(Chars(v.value)) && IntOf(Chars(v.value)) == n
    case Text(octets) => v.kind == 's' && v.value == if whole then octets else CString(octets)
    case Address(octets) => v.kind == 's' && v.value == if whole then octets else CString(octets)
  }

  /** The list has one variable of this OID, and it says this of its column. */
  ghost predicate Carries(list: seq<VarBind>, oid: string, value: Value, whole: bool)
  {
    Distinct(list) && exists k :: 0 <= k < |list| && list[k].oid == oid && Shows(list[k], value, whole)
  }

  lemma CarriesOneValue(list: seq<VarBind>, oid: string, v: seq<byte>, all: bool, most: bool)
    requires Carries(list, oid, Address(v), all) && Carries(list, oid, Address(v), most)
    ensures (if all then v else CString(v)) == if most then v else CString(v)
  {
    var i :| 0 <= i < |list| && list[i].oid == oid && Shows(list[i], Address(v), all);
    var j :| 0 <= j < |list| && list[j].oid == oid && Shows(list[j], Address(v), most);
    assert i == j;
  }

  lemma AsciiReads(s: string)
    requires forall i :: 0 <= i < |s| ==> s[i] == '-' || IsDigit(s[i])
    ensures Chars(Ascii(s)) == s && CString(Ascii(s)) == Ascii(s)
  {
    var o := Ascii(s);
    assert forall i :: 0 <= i < |o| ==> o[i] != 0;
    assert o[..|o|] == o;
    CStringUnique(o, |o|);
  }

  /** The text of a number denotes it and is never cut. */
  lemma NumberShows(n: int)
    ensures var o := ValueOctets(Number(n));
            CString(o) == o && IsNumber(Chars(o)) && IntOf(Chars(o)) == n
  {
    IntTextDenotes(n);
    var t, d := IntText(n), NatText(if n < 0 then -n else n);
    assert forall i :: 0 <= i < |d| ==> IsDigit(d[i]);
    assert t == if n < 0 then "-" + d else d;
    AsciiReads(t);
  }

  lemma ArgumentShows(schema: Schema, index: nat, cell: Cell)
    ensures Shows(Argument(schema, index, cell), cell.value, true)
    ensures Shows(Cut(Argument(schema, index, cell)), cell.value, false)
  {
    if cell.value.Number? {
      NumberShows(cell.value.n);
    }
  }

  /** A column the request writes is carried with the value the row then holds. */
  lemma RequestCarries(schema: Schema, index: nat, row: Row, cells: seq<Cell>, clock: Clock, column: nat)
    requires Coherent(schema) && DistinctColumns(cells) && Has(cells, column)
    requires column != schema.status && schema.filled != Some(column)
    ensures column in After(schema, row, cells, clock)
    ensures Carries(Arguments(schema, index, cells), ColumnOid(schema, column, index),
                    After(schema, row, cells, clock)[column], true)
  {
    var i :| 0 <= i < |cells| && cells[i].column == column;
    WrittenHere(Stamped(schema, row, clock), cells, i);
    FilledKeeps(schema, Actioned(schema, row, cells, clock), clock);
    ArgumentsDistinct(schema, index, cells);
    ArgumentShows(schema, index, cells[i]);
    assert Arguments(schema, index, cells)[i].oid == ColumnOid(schema, column, index);
  }

  /** The merge keeps what the request carries. */
  lemma MergeKeeps(request: seq<VarBind>, stored: seq<VarBind>, oid: string, value: Value, whole: bool)
    requires Carries(request, oid, value, whole) && Distinct(stored)
    ensures Carries(Merged(request, stored), oid, value, whole)
  {
    MergedDistinct(request, stored);
    var k :| 0 <= k < |request| && request[k].oid == oid && Shows(request[k], value, whole);
    assert Merged(request, stored)[k] == request[k];
  }

  /** The merge adds what the request lacks, cut at its first NUL. */
  lemma MergeAdds(request: seq<VarBind>, stored: seq<VarBind>, i: nat, value: Value)
    requires Distinct(request) && Distinct(stored) && i < |stored| && !Names(request, stored[i].oid)
    requires Shows(Cut(stored[i]), value, false)
    ensures Carries(Merged(request, stored), stored[i].oid, value, false)
  {
    MergedDistinct(request, stored);
    var k := MissingHolds(request, stored, i);
    assert Merged(request, stored)[|request| + k] == Cut(stored[i]);
  }

  lemma RequiredIsStored(schema: Schema, row: Row, i: nat) returns (k: nat)
    requires Coherent(schema) && i < |schema.required|
    ensures k < |StoredColumns(schema, row)| && StoredColumns(schema, row)[k] == schema.required[i]
  {
    assert schema.required[i] in schema.always;
    k :| 0 <= k < |schema.always| && schema.always[k] == schema.required[i];
  }

  /** The default branch: a column of the stored list is carried once, as the row holds it. */
  lemma MergedCarriesStored(schema: Schema, index: nat, row: Row, cells: seq<Cell>, clock: Clock, k: nat)
    requires Coherent(schema) && DistinctColumns(cells)
    requires var after := After(schema, row, cells, clock); RowOf(schema, after) && Complete(schema, after)
    requires k < |StoredColumns(schema, After(schema, row, cells, clock))|
    requires var column := StoredColumns(schema, After(schema, row, cells, clock))[k];
             schema.filled != Some(column) && (column == schema.status ==> !Has(cells, column))
    ensures var after := After(schema, row, cells, clock);
            var column := StoredColumns(schema, after)[k];
            && column in after
            && Carries(Merged(Arguments(schema, index, cells), Arguments(schema, index, Stored(schema, after).value)),
                       ColumnOid(schema, column, index), after[column], Has(cells, column))
  {
    var after := After(schema, row, cells, clock);
    var column := StoredColumns(schema, after)[k];
    var stored := Stored(schema, after).value;
    var request, others := Arguments(schema, index, cells), Arguments(schema, index, stored);
    StoredColumnsInRow(schema, after);
    StoredDistinct(schema, after);
    ArgumentsDistinct(schema, index, cells);
    ArgumentsDistinct(schema, index, stored);
    if Has(cells, column) {
      RequestCarries(schema, index, row, cells, clock, column);
      MergeKeeps(request, others, ColumnOid(schema, column, index), after[column], true);
    } else {
      ArgumentNames(schema, index, cells, column);
      ArgumentShows(schema, index, stored[k]);
      MergeAdds(request, others, k, after[column]);
    }
  }

  /** A trap of the default branch carries each column of the stored list exactly once, with the value the row now
      holds: whole when the request wrote it, up to its first NUL otherwise. */
  lemma TrapCarriesStored(schema: Schema, s: State, index: nat, cells: seq<Cell>, clock: Clock, k: nat)
    requires Inv(schema, s) && Accepts(schema, s, index, cells, clock) && DistinctColumns(cells)
    requires Asked(schema, cells) != DESTROY && Asked(schema, cells) != CREATE_AND_GO
    requires Set(schema, s, index, cells, clock).trap.Some?
    requires var row := After(schema, Existing(schema, s, index), cells, clock);
             && k < |StoredColumns(schema, row)| && schema.filled != Some(StoredColumns(schema, row)[k])
             && (StoredColumns(schema, row)[k] == schema.status ==> !Has(cells, schema.status))
    ensures var r := Set(schema, s, index, cells, clock);
            var row, column := After(schema, Existing(schema, s, index), cells, clock),
                               StoredColumns(schema, After(schema, Existing(schema, s, index), cells, clock))[k];
            && Find(r.next.rows, index) == Some(row) && column in row
            && Carries(r.trap.value, ColumnOid(schema, column, index), row[column], Has(cells, column))
  {
    SavedIsRow(schema, s, index, cells, clock);
    ActionedIsOf(schema, s, index, cells, clock);
    TrapSentIff(schema, s, index, cells, clock);
    MergedCarriesStored(schema, index, Existing(schema, s, index), cells, clock, k);
  }

  /** Every trap of a SET that deletes nothing so carries each required column. */
  lemma TrapCarriesRequired(schema: Schema, s: State, index: nat, cells: seq<Cell>, clock: Clock, i: nat)
    requires Inv(schema, s) && Accepts(schema, s, index, cells, clock) && DistinctColumns(cells)
    requires i < |schema.required|
    requires Asked(schema, cells) != DESTROY && Set(schema, s, index, cells, clock).trap.Some?
    ensures var r := Set(schema, s, index, cells, clock);
            var row, column := Find(r.next.rows, index), schema.required[i];
            && row.Some? && RowOf(schema, row.value)
            && Carries(r.trap.value, ColumnOid(schema, column, index), row.value[column], Has(cells, column))
  {
    SavedIsRow(schema, s, index, cells, clock);
    ActionedIsOf(schema, s, index, cells, clock);
    if Asked(schema, cells) == CREATE_AND_GO {
      CreationIsComplete(schema, s, index, cells, clock);
      CreationWritesRequired(schema, s, index, cells, clock, i);
      RequestCarries(schema, index, schema.blank, cells, clock, schema.required[i]);
    } else {
      var k := RequiredIsStored(schema, After(schema, Existing(schema, s, index), cells, clock), i);
      TrapCarriesStored(schema, s, index, cells, clock, k);
    }
  }

  lemma TrapBegins(schema: Schema, index: nat, cells: seq<Cell>, row: Row, saved: Option<Row>)
    requires Coherent(schema) && (saved.Some? ==> RowOf(schema, saved.value))
    ensures var trap := Trap(schema, index, cells, row, saved);
            trap.Some? ==> Arguments(schema, index, cells) <= trap.value
  {
  }

  /** Every trap begins with the request: a variable for each column it writes, with the value written. */
  lemma TrapShowsRequest(schema: Schema, s: State, index: nat, cells: seq<Cell>, clock: Clock, i: nat)
    requires Inv(schema, s) && Accepts(schema, s, index, cells, clock) && i < |cells|
    requires Set(schema, s, index, cells, clock).trap.Some?
    ensures var trap := Set(schema, s, index, cells, clock).trap.value;
            && i < |trap| && trap[i].oid == ColumnOid(schema, cells[i].column, index)
            && Shows(trap[i], cells[i].value, true)
  {
    var rows := Applied(schema, s, index, cells, clock);
    AppliedIsOf(schema, s, index, cells, clock);
    FoundIsOf(schema, rows, index);
    TrapBegins(schema, index, cells, After(schema, Existing(schema, s, index), cells, clock), Find(rows, index));
    ArgumentShows(schema, index, cells[i]);
  }

  /** A row whose creation is the first SET holds in each required column what the request gave it. */
  lemma CreatedFirst(schema: Schema, index: nat, cells: seq<Cell>, clock: Clock, i: nat)
    requires Coherent(schema) && DistinctColumns(cells) && forall k :: 0 <= k < |cells| ==> Typed(schema, cells[k])
    requires Asked(schema, cells) == CREATE_AND_GO && i < |schema.required|
    requires forall k :: 0 <= k < |schema.required| ==> Writes(cells, schema.required[k])
    ensures var row := Find(Run(schema, [SetRow(index, cells, clock)]).rows, index);
            && row.Some? && StatusOf(schema, row.value) == ACTIVE
            && schema.required[i] in row.value
            && row.value[schema.required[i]] == Given(schema, schema.blank, cells, clock, schema.required[i])
  {
    var s := Run(schema, []);
    OneStep(schema, index, cells, clock);
    CreationAcceptedIff(schema, s, index, cells, clock);
    CreationIsComplete(schema, s, index, cells, clock);
    SavedIsRow(schema, s, index, cells, clock);
    ActionedColumn(schema, schema.blank, cells, clock, schema.required[i]);
    FilledKeeps(schema, Actioned(schema, schema.blank, cells, clock), clock);
  }

  /** A SET of an active row that writes neither the status nor a blank value is accepted and leaves the row active.
      */
  lemma ChangeIsAccepted(schema: Schema, s: State, index: nat, cells: seq<Cell>, clock: Clock)
    requires Inv(schema, s) && Find(s.rows, index).Some? && StatusOf(schema, Find(s.rows, index).value) == ACTIVE
    requires DistinctColumns(cells) && !Has(cells, schema.status)
    requires forall k :: 0 <= k < |cells| ==> Typed(schema, cells[k]) && !Blank(cells[k].value)
    ensures Accepts(schema, s, index, cells, clock) && Asked(schema, cells) == 0
    ensures StatusOf(schema, After(schema, Existing(schema, s, index), cells, clock)) == ACTIVE
    ensures Complete(schema, After(schema, Existing(schema, s, index), cells, clock))
  {
    var row := Find(s.rows, index).value;
    FoundIsOf(schema, s.rows, index);
    FoundSettled(schema, s.rows, index);
    StatusAfter(schema, row, cells, clock);
    forall k | 0 <= k < |schema.required|
      ensures var actioned := Actioned(schema, row, cells, clock);
              schema.required[k] in actioned && !Blank(actioned[schema.required[k]])
    {
      ActionedColumn(schema, row, cells, clock, schema.required[k]);
    }
    FilledKeeps(schema, Actioned(schema, row, cells, clock), clock);
  }

  /** A column holds something after the SET: what the request writes, or else what the row held, is not blank. */
  predicate Keeps(row: Row, cells: seq<Cell>, column: nat)
  {
    Writes(cells, column) || (!Has(cells, column) && column in row && !Blank(row[column]))
  }

  lemma RequiredKept(schema: Schema, row: Row, cells: seq<Cell>, clock: Clock, i: nat)
    requires Coherent(schema) && RowOf(schema, row) && DistinctColumns(cells) && i < |schema.required|
    ensures var actioned, column := Actioned(schema, row, cells, clock), schema.required[i];
            column in actioned && (!Blank(actioned[column]) <==> Keeps(row, cells, column))
  {
    var column := schema.required[i];
    ActionedColumn(schema, row, cells, clock, column);
    if Writes(cells, column) {
      var j :| 0 <= j < |cells| && cells[j].column == column && !Blank(cells[j].value);
      GivenIs(schema, row, cells, clock, j);
    } else if Has(cells, column) {
      var j :| 0 <= j < |cells| && cells[j].column == column;
      GivenIs(schema, row, cells, clock, j);
    }
  }

  /** Which status a request for an existing row may ask for. */
  lemma ExistingReservedIff(schema: Schema, row: Row, cells: seq<Cell>)
    requires Coherent(schema) && Settled(schema, row)
    requires DistinctColumns(cells) && forall k :: 0 <= k < |cells| ==> Typed(schema, cells[k])
    ensures Reserved(schema, Some(row), cells) <==>
            !Has(cells, schema.status)
            || Asked(schema, cells) == 1 || Asked(schema, cells) == 2 || Asked(schema, cells) == 6
  {
    if Has(cells, schema.status) {
      var i :| 0 <= i < |cells| && cells[i].column == schema.status;
      assert Typed(schema, cells[i]);
      AskedByOne(schema, cells, i);
      forall j | 0 <= j < |cells| && cells[j].column == schema.status
        ensures j == i
      {
      }
    }
  }

  lemma NewReservedIff(schema: Schema, cells: seq<Cell>)
    requires Coherent(schema) && DistinctColumns(cells) && forall k :: 0 <= k < |cells| ==> Typed(schema, cells[k])
    ensures Reserved(schema, None, cells) <==>
            !Has(cells, schema.status)
            || Asked(schema, cells) == 4 || Asked(schema, cells) == 5 || Asked(schema, cells) == 6
  {
    if Has(cells, schema.status) {
      var i :| 0 <= i < |cells| && cells[i].column == schema.status;
      assert Typed(schema, cells[i]);
      AskedByOne(schema, cells, i);
      forall j | 0 <= j < |cells| && cells[j].column == schema.status
        ensures j == i
      {
      }
    }
  }

  /** A SET for an index without a row is accepted exactly when it asks for no status, for one of the two creations or
      for a deletion, and, if the new row is to go active at once, gives every required column a value that is not
      blank. */
  lemma NewRowAcceptedIff(schema: Schema, s: State, index: nat, cells: seq<Cell>, clock: Clock)
    requires Inv(schema, s) && Find(s.rows, index).None?
    requires DistinctColumns(cells) && forall k :: 0 <= k < |cells| ==> Typed(schema, cells[k])
    ensures var asked := Asked(schema, cells);
            Accepts(schema, s, index, cells, clock) <==>
            && (!Has(cells, schema.status) || asked == 4 || asked == 5 || asked == 6)
            && (asked == 4 ==> forall i :: 0 <= i < |schema.required| ==> Writes(cells, schema.required[i]))
  {
    NewReservedIff(schema, cells);
    StatusAfter(schema, schema.blank, cells, clock);
    if Asked(schema, cells) == 4 {
      CreationAcceptedIff(schema, s, index, cells, clock);
    } else {
      FilledKeeps(schema, Actioned(schema, schema.blank, cells, clock), clock);
    }
  }

  /** A SET of an existing row is accepted exactly when it asks for no status or for a legal one, and either leaves
      the row out of service, or deletes it, or leaves no required column blank. */
  lemma ChangeAcceptedIff(schema: Schema, s: State, index: nat, cells: seq<Cell>, clock: Clock)
    requires Inv(schema, s) && Find(s.rows, index).Some?
    requires DistinctColumns(cells) && forall k :: 0 <= k < |cells| ==> Typed(schema, cells[k])
    ensures var row, asked := Find(s.rows, index).value, Asked(schema, cells);
            Accepts(schema, s, index, cells, clock) <==>
            && (!Has(cells, schema.status) || asked == 1 || asked == 2 || asked == 6)
            && (asked == 1 || (!Has(cells, schema.status) && StatusOf(schema, row) == 1) ==>
                  forall i :: 0 <= i < |schema.required| ==> Keeps(row, cells, schema.required[i]))
  {
    var row := Find(s.rows, index).value;
    FoundIsOf(schema, s.rows, index);
    FoundSettled(schema, s.rows, index);
    ExistingReservedIff(schema, row, cells);
    StatusAfter(schema, row, cells, clock);
    FilledKeeps(schema, Actioned(schema, row, cells, clock), clock);
    forall i | 0 <= i < |schema.required|
      ensures var actioned, column := Actioned(schema, row, cells, clock), schema.required[i];
              column in actioned && (!Blank(actioned[column]) <==> Keeps(row, cells, column))
    {
      RequiredKept(schema, row, cells, clock, i);
    }
  }

  /** A required column that a SET does not write stays. */
  lemma RequiredStays(schema: Schema, row: Row, cells: seq<Cell>, clock: Clock, i: nat)
    requires Coherent(schema) && RowOf(schema, row) && DistinctColumns(cells)
    requires i < |schema.required| && !Has(cells, schema.required[i])
    ensures var after := After(schema, row, cells, clock);
            && schema.required[i] in row && schema.required[i] in after
            && after[schema.required[i]] == row[schema.required[i]]
  {
    ActionedColumn(schema, row, cells, clock, schema.required[i]);
    FilledKeeps(schema, Actioned(schema, row, cells, clock), clock);
  }

  /** Unless it is a silent one, it sends a trap, in which a required column it does not write is cut at the first
      NUL. */
  lemma ChangeKeepsRequired(schema: Schema, s: State, index: nat, cells: seq<Cell>, clock: Clock, i: nat)
    requires Inv(schema, s) && Find(s.rows, index).Some? && StatusOf(schema, Find(s.rows, index).value) == ACTIVE
    requires DistinctColumns(cells) && !Has(cells, schema.status) && !Silent(schema, cells)
    requires forall k :: 0 <= k < |cells| ==> Typed(schema, cells[k]) && !Blank(cells[k].value)
    requires i < |schema.required| && !Has(cells, schema.required[i])
    ensures var r := Set(schema, s, index, cells, clock);
            var row, column := Find(r.next.rows, index), schema.required[i];
            && r.committed && r.trap.Some? && row.Some?
            && column in Find(s.rows, index).value && column in row.value
            && row.value[column] == Find(s.rows, index).value[column]
            && Carries(r.trap.value, ColumnOid(schema, column, index), row.value[column], false)
  {
    FoundIsOf(schema, s.rows, index);
    ChangeIsAccepted(schema, s, index, cells, clock);
    TrapSentIff(schema, s, index, cells, clock);
    SavedIsRow(schema, s, index, cells, clock);
    TrapCarriesRequired(schema, s, index, cells, clock, i);
    RequiredStays(schema, Find(s.rows, index).value, cells, clock, i);
  }

  /** The columns a trap of the default branch names: those of the request and those of the stored list. */
  lemma TrapNames(schema: Schema, s: State, index: nat, cells: seq<Cell>, clock: Clock, column: nat)
    requires Inv(schema, s) && Accepts(schema, s, index, cells, clock)
    requires Asked(schema, cells) != DESTROY && Asked(schema, cells) != CREATE_AND_GO
    requires Set(schema, s, index, cells, clock).trap.Some?
    ensures var r := Set(schema, s, index, cells, clock);
            var row := Find(r.next.rows, index);
            && row.Some?
            && (Names(r.trap.value, ColumnOid(schema, column, index)) <==>
                Has(cells, column) || column in StoredColumns(schema, row.value))
  {
    SavedIsRow(schema, s, index, cells, clock);
    ActionedIsOf(schema, s, index, cells, clock);
    var row := After(schema, Existing(schema, s, index), cells, clock);
    StoredColumnsInRow(schema, row);
    var stored := Stored(schema, row).value;
    MergedNames(Arguments(schema, index, cells), Arguments(schema, index, stored), ColumnOid(schema, column, index));
    ArgumentNames(schema, index, cells, column);
    ArgumentNames(schema, index, stored, column);
    HasCellsOf(row, StoredColumns(schema, row), column);
  }

  lemma HasCellsOf(row: Row, columns: seq<nat>, column: nat)
    requires forall i :: 0 <= i < |columns| ==> columns[i] in row
    ensures Has(CellsOf(row, columns), column) <==> column in columns
  {
    if column in columns {
      var i :| 0 <= i < |columns| && columns[i] == column;
      assert CellsOf(row, columns)[i].column == column;
    }
  }

  /** One more variable repeats an OID exactly when the list names it. */
  lemma DistinctWithIff(list: seq<VarBind>, v: VarBind)
    requires Distinct(list)
    ensures !Distinct(list + [v]) <==> Names(list, v.oid)
  {
    var all := list + [v];
    assert forall i :: 0 <= i < |list| ==> all[i] == list[i];
    if Names(list, v.oid) {
      var i :| 0 <= i < |list| && list[i].oid == v.oid;
      assert all[i].oid == all[|list|].oid;
    }
  }

  /** A deletion's trap is the request and, behind it, the named column as the SET left it, cut at its first NUL. */
  lemma DeletionNames(schema: Schema, s: State, index: nat, cells: seq<Cell>, clock: Clock)
    requires Inv(schema, s) && Accepts(schema, s, index, cells, clock) && DistinctColumns(cells) && schema.named.Some?
    requires Asked(schema, cells) == DESTROY && Set(schema, s, index, cells, clock).trap.Some?
    ensures schema.named.value in Existing(schema, s, index)
    ensures var trap, column := Set(schema, s, index, cells, clock).trap.value, schema.named.value;
            && |trap| == |cells| + 1 && trap[|cells|].oid == ColumnOid(schema, column, index)
            && Shows(trap[|cells|], Given(schema, Existing(schema, s, index), cells, clock, column), false)
  {
    var before, column := Existing(schema, s, index), schema.named.value;
    FoundIsOf(schema, s.rows, index);
    ActionedIsOf(schema, s, index, cells, clock);
    ActionedColumn(schema, before, cells, clock, column);
    NamedIsNotStatus(schema);
    FilledKeeps(schema, Actioned(schema, before, cells, clock), clock);
    var row := After(schema, before, cells, clock);
    assert RowOf(schema, row) && row[column].Text?;
    assert Set(schema, s, index, cells, clock).trap ==
           Some(Arguments(schema, index, cells) + Named(schema, index, row));
  }

  lemma NamedIsNotStatus(schema: Schema)
    requires Coherent(schema) && schema.named.Some?
    ensures schema.named.value != schema.status && schema.filled != schema.named
  {
  }

  /** A deletion's trap repeats an OID exactly when the request also wrote the named column. */
  lemma DeletionRepeatsIff(schema: Schema, s: State, index: nat, cells: seq<Cell>, clock: Clock)
    requires Inv(schema, s) && Accepts(schema, s, index, cells, clock) && DistinctColumns(cells) && schema.named.Some?
    requires Asked(schema, cells) == DESTROY && Set(schema, s, index, cells, clock).trap.Some?
    ensures !Distinct(Set(schema, s, index, cells, clock).trap.value) <==> Has(cells, schema.named.value)
  {
    var row := After(schema, Existing(schema, s, index), cells, clock);
    var request := Arguments(schema, index, cells);
    ActionedIsOf(schema, s, index, cells, clock);
    ArgumentsDistinct(schema, index, cells);
    ArgumentNames(schema, index, cells, schema.named.value);
    DistinctWithIff(request, Named(schema, index, row)[0]);
    assert Set(schema, s, index, cells, clock).trap == Some(request + Named(schema, index, row));
  }
}
