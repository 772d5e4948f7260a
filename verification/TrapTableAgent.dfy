/** The handlers of an access-control table, as they run: loops over a request's columns, over the container and over
    the file, and a trap assembled in place. */
module TrapTableAgent {
  import opened Options
  import opened Octets
  import opened Decimal
  import opened RowStatus
  import opened VarBinds
  import opened TableContainer
  import opened TrapTable
  import opened TrapTableProofs
  import OidText
  import Scanf

  lemma ArgumentsBefore(schema: Schema, index: nat, cells: seq<Cell>, cell: Cell)
    ensures Arguments(schema, index, cells + [cell]) ==
            Arguments(schema, index, cells) + [Argument(schema, index, cell)]
  {
  }

  lemma CellsBefore(row: Row, columns: seq<nat>, column: nat)
    requires column in row && forall i :: 0 <= i < |columns| ==> columns[i] in row
    ensures CellsOf(row, columns + [column]) == CellsOf(row, columns) + [Cell(column, row[column])]
  {
  }

  lemma StoredFits(schema: Schema, index: nat, row: Row)
    requires Coherent(schema) && RowOf(schema, row)
    ensures |StoredColumns(schema, row)| <= schema.fields
    ensures forall i :: 0 <= i < |StoredColumns(schema, row)| ==> StoredColumns(schema, row)[i] in row
  {
    var columns := StoredColumns(schema, row);
    StoredColumnsInRow(schema, row);
    StoredNoRepeats(schema, row);
    var cells := CellsOf(row, columns);
    RequestFits(schema, index, cells);
  }

  lemma {:induction false} NotBlankGrows(row: Row, columns: seq<nat>, n: nat)
    requires n < |columns|
    ensures NotBlank(row, columns[..n + 1]) ==
            NotBlank(row, columns[..n]) + (if columns[n] in row && !Blank(row[columns[n]]) then [columns[n]] else [])
    ensures |NotBlank(row, columns[..n + 1])| <= |NotBlank(row, columns)|
    decreases |columns| - n
  {
    assert columns[..n + 1][..n] == columns[..n];
    if n + 1 < |columns| {
      NotBlankGrows(row, columns, n + 1);
    } else {
      assert columns[..n + 1] == columns;
    }
  }

  class Handlers {
    const schema: Schema
    /** The stored list, a global of the module. */
    const stored: array<VarBind>
    /** What the ACTION phase of a deletion keeps for its COMMIT. */
    var named: seq<VarBind>
    var rows: Table
    var file: Option<Table>
    /** The traps sent so far. */
    var sent: seq<seq<VarBind>>

    ghost predicate Ready()
      reads this
    {
      Coherent(schema) && stored.Length == schema.fields
    }

    ghost function Snapshot(): State
      reads this
    {
      State(rows, file)
    }

    /** A start of the agent. */
    constructor (schema: Schema, file: Option<Table>)
      requires Coherent(schema)
      ensures Ready() && fresh(stored) && this.schema == schema
      ensures Snapshot() == Restarted(State([], file)) && sent == []
    {
      this.schema := schema;
      this.file := file;
      stored := new VarBind[schema.fields](_ => VarBind("", 'i', []));
      named, rows, sent := [], [], [];
      new;
      LoadContainerFromFile();
    }

    method LoadContainerFromFile()
      modifies this`rows
      ensures Snapshot() == Restarted(old(Snapshot()))
    {
      rows := [];
      if file.Some? {
        var k := 0;
        while k < |file.value|
          invariant 0 <= k <= |file.value| && rows == Load(file.value[..k])
        {
          assert file.value[..k + 1][..k] == file.value[..k];
          rows := Insert(rows, file.value[k]);
          k := k + 1;
        }
        assert file.value[..k] == file.value;
      }
    }

    /** The first loop of a COMMIT: the container's rows in order. */
    method SaveContainer()
      modifies this`file
      ensures file == Some(rows)
    {
      var written: Table := [];
      var k := 0;
      while k < |rows|
        invariant 0 <= k <= |rows| && written == rows[..k]
      {
        written := written + [rows[k]];
        k := k + 1;
      }
      assert rows[..k] == rows;
      file := Some(written);
    }

    /** The RESERVE phases. */
    method Reserve(existing: Option<Row>, cells: seq<Cell>) returns (ok: bool)
      ensures ok == Reserved(schema, existing, cells)
    {
      ok := true;
      var i := 0;
      while i < |cells|
        invariant 0 <= i <= |cells| && ok == Reserved(schema, existing, cells[..i])
      {
        var cell := cells[i];
        assert cells[..i + 1] == cells[..i] + [cell];
        if !Typed(schema, cell) {
          ok := false;
        } else if cell.column == schema.status && cell.value.Number? {
          var now := if existing.Some? then StatusOf(schema, existing.value) else NONEXISTENT;
          if !CheckTransition(now, cell.value.n).NoError? {
            ok := false;
          }
        }
        assert cells[..i + 1][i] == cell;
        assert forall j :: 0 <= j < i ==> cells[..i + 1][j] == cells[..i][j];
        i := i + 1;
      }
      assert cells[..i] == cells;
    }

    /** The ACTION phase: the date of the SET, the column writes, and the status they settle to. */
    method Act(before: Row, cells: seq<Cell>, clock: Clock) returns (row: Row)
      ensures row == Actioned(schema, before, cells, clock)
    {
      row := before;
      if schema.stamped.Some? {
        row := row[schema.stamped.value := DateOver([], clock.action)];
      }
      ghost var start := row;
      var i := 0;
      while i < |cells|
        invariant 0 <= i <= |cells| && row == Written(start, cells[..i])
      {
        assert cells[..i + 1][..i] == cells[..i];
        row := row[cells[i].column := cells[i].value];
        i := i + 1;
      }
      assert cells[..i] == cells;
      row := row[schema.status := Number(Settle(StatusOf(schema, row)))];
    }

    /** The start of a COMMIT: the date of creation, in the row and so in the container that holds it. */
    method FillIn(index: nat, row: Row, clock: Clock) returns (filled: Row)
      modifies this`rows
      ensures filled == Filled(schema, row, clock)
      ensures rows == if Find(old(rows), index).Some? then Put(old(rows), index, filled) else old(rows)
    {
      filled := row;
      if schema.filled.Some? {
        var c := schema.filled.value;
        if c in row && row[c].Text? && CString(row[c].octets + clock.behind) == [] {
          filled := row[c := DateOver(row[c].octets + clock.behind, clock.commit)];
        }
      }
      if Find(rows, index).Some? {
        rows := Put(rows, index, filled);
      }
    }

    /** The loop over a request's columns in a COMMIT: arguments, count of mandatory columns, status, silence. */
    method BuildArguments(index: nat, cells: seq<Cell>, stargs: array<VarBind>)
      returns (sSet: nat, sRowStatus: int, silent: bool)
      requires |cells| <= stargs.Length
      modifies stargs
      ensures stargs[..|cells|] == Arguments(schema, index, cells)
      ensures sSet == Count(cells, schema.mandatory) && sRowStatus == Asked(schema, cells)
              && silent == Silent(schema, cells)
    {
      sSet, sRowStatus, silent := 0, 0, false;
      var i := 0;
      while i < |cells|
        invariant 0 <= i <= |cells|
        invariant stargs[..i] == Arguments(schema, index, cells[..i])
        invariant sSet == Count(cells[..i], schema.mandatory) && sRowStatus == Asked(schema, cells[..i])
        invariant silent == Silent(schema, cells[..i])
      {
        var cell := cells[i];
        assert cells[..i + 1] == cells[..i] + [cell];
        ArgumentsBefore(schema, index, cells[..i], cell);
        var oid := OidText.Spell(schema.entry + [cell.column, index]);
        stargs[i] := VarBind(oid, if cell.value.Number? then 'i' else 's', ValueOctets(cell.value));
        SilentBefore(cells[..i], cell);
        CountBefore(cells[..i], cell);
        if cell.column in schema.mandatory {
          sSet := sSet + 1;
        }
        if cell.column == schema.status && cell.value.Number? {
          sRowStatus := cell.value.n;
        }
        if cell.column in schema.silent {
          silent := true;
        }
        i := i + 1;
      }
      assert cells[..i] == cells;
    }

    lemma SilentBefore(init: seq<Cell>, last: Cell)
      ensures Silent(schema, init + [last]) <==> Silent(schema, init) || last.column in schema.silent
    {
      var cells := init + [last];
      assert cells[|init|] == last;
      assert forall i :: 0 <= i < |init| ==> cells[i] == init[i];
    }

    lemma CountBefore(init: seq<Cell>, last: Cell)
      ensures Count(init + [last], schema.mandatory) ==
              Count(init, schema.mandatory) + (if last.column in schema.mandatory then 1 else 0)
      ensures Asked(schema, init + [last]) ==
              if last.column == schema.status && last.value.Number? then last.value.n else Asked(schema, init)
    {
      assert (init + [last])[..|init|] == init;
    }

    /** One more entry of the stored list. */
    method Store(row: Row, index: nat, ghost columns: seq<nat>, strapCount: nat, column: nat)
      requires Ready() && strapCount == |columns| < stored.Length && column in row
      requires forall i :: 0 <= i < |columns| ==> columns[i] in row
      requires stored[..|columns|] == Arguments(schema, index, CellsOf(row, columns))
      modifies stored
      ensures forall i :: 0 <= i < |columns| + 1 ==> (columns + [column])[i] in row
      ensures stored[..|columns| + 1] == Arguments(schema, index, CellsOf(row, columns + [column]))
    {
      CellsBefore(row, columns, column);
      ArgumentsBefore(schema, index, CellsOf(row, columns), Cell(column, row[column]));
      stored[strapCount] := Argument(schema, index, Cell(column, row[column]));
    }

    /** A row found in the file: its stored list, or a failure at the first required column that is blank. */
    method FillStored(row: Row, index: nat) returns (found: bool, strapCount: nat)
      requires Ready() && RowOf(schema, row)
      modifies stored
      ensures found == Complete(schema, row) && strapCount <= stored.Length
      ensures found ==> stored[..strapCount] == Arguments(schema, index, Stored(schema, row).value)
    {
      StoredFits(schema, index, row);
      ghost var columns: seq<nat> := [];
      found, strapCount := true, 0;
      while strapCount < |schema.always|
        invariant 0 <= strapCount <= |schema.always| && columns == schema.always[..strapCount]
        invariant strapCount <= stored.Length && forall k :: 0 <= k < |columns| ==> columns[k] in row
        invariant stored[..strapCount] == Arguments(schema, index, CellsOf(row, columns))
        invariant NoneBlank(row, columns)
      {
        var c := schema.always[strapCount];
        if c in schema.required && Blank(row[c]) {
          RequiredBlank(row, c);
          found := false;
          return;
        }
        Store(row, index, columns, strapCount, c);
        columns := columns + [c];
        strapCount := strapCount + 1;
      }
      AllRequired(row);
      strapCount := FillOptional(row, index);
      columns := schema.always + NotBlank(row, schema.optional);
      if StatusOf(schema, row) == NOT_IN_SERVICE {
        assert StoredColumns(schema, row) == columns + [schema.status];
        Store(row, index, columns, strapCount, schema.status);
        strapCount := strapCount + 1;
      } else {
        assert StoredColumns(schema, row) == columns;
      }
    }

    /** No required column among these is blank. */
    ghost predicate NoneBlank(row: Row, columns: seq<nat>)
    {
      forall k :: 0 <= k < |columns| && columns[k] in schema.required ==> columns[k] in row && !Blank(row[columns[k]])
    }

    lemma RequiredBlank(row: Row, c: nat)
      requires c in schema.required && c in row && Blank(row[c])
      ensures !Complete(schema, row)
    {
      var i :| 0 <= i < |schema.required| && schema.required[i] == c;
    }

    lemma AllRequired(row: Row)
      requires Coherent(schema) && NoneBlank(row, schema.always)
      ensures Complete(schema, row)
    {
      forall i | 0 <= i < |schema.required|
        ensures schema.required[i] in row && !Blank(row[schema.required[i]])
      {
        var k :| 0 <= k < |schema.always| && schema.always[k] == schema.required[i];
      }
    }

    /** The optional columns that are not blank, behind the others. */
    method FillOptional(row: Row, index: nat) returns (strapCount: nat)
      requires Ready() && RowOf(schema, row)
      requires |schema.always| + |NotBlank(row, schema.optional)| <= stored.Length
      requires stored[..|schema.always|] == Arguments(schema, index, CellsOf(row, schema.always))
      modifies stored
      ensures var columns := schema.always + NotBlank(row, schema.optional);
              && strapCount == |columns|
              && (forall k :: 0 <= k < |columns| ==> columns[k] in row)
              && stored[..strapCount] == Arguments(schema, index, CellsOf(row, columns))
    {
      ghost var columns := schema.always;
      strapCount := |schema.always|;
      var j := 0;
      assert columns == schema.always + NotBlank(row, schema.optional[..0]);
      while j < |schema.optional|
        invariant 0 <= j <= |schema.optional| && columns == schema.always + NotBlank(row, schema.optional[..j])
        invariant strapCount == |columns| <= stored.Length && forall k :: 0 <= k < |columns| ==> columns[k] in row
        invariant stored[..strapCount] == Arguments(schema, index, CellsOf(row, columns))
      {
        NotBlankGrows(row, schema.optional, j);
        var c := schema.optional[j];
        if !Blank(row[c]) {
          Store(row, index, columns, strapCount, c);
          columns, strapCount := columns + [c], strapCount + 1;
        }
        j := j + 1;
      }
      assert schema.optional[..j] == schema.optional;
    }

    /** The search of the saved file for an index. */
    method SearchIndexFromFile(index: nat) returns (found: bool, strapCount: nat)
      requires Ready() && file.Some? && TableOf(schema, file.value)
      modifies stored
      ensures strapCount <= stored.Length
      ensures var saved := Find(file.value, index);
              && (saved.Some? ==> RowOf(schema, saved.value))
              && (found <==> saved.Some? && Complete(schema, saved.value))
              && (found ==> stored[..strapCount] == Arguments(schema, index, Stored(schema, saved.value).value))
    {
      FoundIsOf(schema, file.value, index);
      found, strapCount := false, 0;
      var k := 0;
      while k < |file.value|
        invariant 0 <= k <= |file.value|
        invariant Find(file.value, index) == Find(file.value[k..], index)
      {
        if file.value[k].index == index {
          found, strapCount := FillStored(file.value[k].row, index);
          return;
        }
        assert file.value[k..][1..] == file.value[k + 1..];
        k := k + 1;
      }
    }

    /** The branch of a deletion. */
    method AppendNamed(stargs: array<VarBind>, count: nat) returns (srecCount: nat)
      requires count + |named| <= stargs.Length && |named| <= 1
      modifies stargs
      ensures srecCount <= stargs.Length && stargs[..srecCount] == old(stargs[..count]) + named
    {
      srecCount := count;
      if named != [] {
        stargs[srecCount] := named[0];
        srecCount := srecCount + 1;
      }
    }

    /** The branch of every other SET. */
    method AppendStored(index: nat, stargs: array<VarBind>, count: nat) returns (found: bool, srecCount: nat)
      requires Ready() && index <= MAX_INDEX && file.Some? && TableOf(schema, file.value)
      requires stored != stargs && count <= stargs.Length
      requires var saved := Find(file.value, index);
               saved.Some? && RowOf(schema, saved.value) && Complete(schema, saved.value) ==>
                 |Merged(stargs[..count], Arguments(schema, index, Stored(schema, saved.value).value))| <= stargs.Length
      modifies stored, stargs
      ensures srecCount <= stargs.Length
      ensures var saved := Find(file.value, index);
              && (saved.Some? ==> RowOf(schema, saved.value))
              && (found <==> saved.Some? && Complete(schema, saved.value))
              && (found ==> stargs[..srecCount] ==
                            Merged(old(stargs[..count]), Arguments(schema, index, Stored(schema, saved.value).value)))
    {
      ghost var request := stargs[..count];
      var iIndex := Scanf.Atoi(NatText(index));
      Scanf.AtoiReads(index);
      assert IntText(index) == NatText(index) && iIndex == index;
      var strapCount;
      found, strapCount := SearchIndexFromFile(iIndex);
      srecCount := count;
      if found {
        assert stargs[..count] == request;
        srecCount := Merge(stored, strapCount, stargs, srecCount);
      }
    }

    /** The three ways a trap's list is completed, and whether it is sent. */
    method Decide(index: nat, cells: seq<Cell>, ghost row: Row, stargs: array<VarBind>, sSet: nat, sRowStatus: int)
      returns (send: bool, srecCount: nat)
      requires Ready() && index <= MAX_INDEX && file.Some? && TableOf(schema, file.value) && DistinctColumns(cells)
      requires forall i :: 0 <= i < |cells| ==> Typed(schema, cells[i])
      requires stored != stargs && stargs.Length == schema.fields && |cells| <= stargs.Length
      requires stargs[..|cells|] == Arguments(schema, index, cells)
      requires sSet == Count(cells, schema.mandatory) && sRowStatus == Asked(schema, cells) && !Silent(schema, cells)
      requires Asked(schema, cells) == DESTROY ==> named == Named(schema, index, row)
      modifies stored, stargs
      ensures Find(file.value, index).Some? ==> RowOf(schema, Find(file.value, index).value)
      ensures srecCount <= stargs.Length
      ensures Trap(schema, index, cells, row, Find(file.value, index)) ==
              if send then Some(stargs[..srecCount]) else None
    {
      FoundIsOf(schema, file.value, index);
      TrapListFits(schema, index, cells, row, Find(file.value, index));
      send, srecCount := true, |cells|;
      if sRowStatus == CREATE_AND_GO {
        send := sSet == |schema.mandatory|;
      } else if sRowStatus == DESTROY {
        srecCount := AppendNamed(stargs, srecCount);
      } else {
        send, srecCount := AppendStored(index, stargs, srecCount);
      }
    }

    /** The trap of a COMMIT, over the saved file: the loop over the request, then the decision. */
    method Notify(index: nat, cells: seq<Cell>, ghost row: Row)
      requires Ready() && DistinctColumns(cells) && index <= MAX_INDEX && file.Some? && TableOf(schema, file.value)
      requires forall i :: 0 <= i < |cells| ==> Typed(schema, cells[i])
      requires Asked(schema, cells) == DESTROY ==> named == Named(schema, index, row)
      modifies this`sent, stored
      ensures Find(file.value, index).Some? ==> RowOf(schema, Find(file.value, index).value)
      ensures var trap := Trap(schema, index, cells, row, Find(file.value, index));
              sent == old(sent) + (if trap.Some? then [trap.value] else [])
    {
      FoundIsOf(schema, file.value, index);
      RequestFits(schema, index, cells);
      var stargs := new VarBind[schema.fields](_ => VarBind("", 'i', []));
      var sSet, sRowStatus, silent := BuildArguments(index, cells, stargs);
      if !silent {
        var send, srecCount := Decide(index, cells, row, stargs, sSet, sRowStatus);
        if send {
          sent := sent + [stargs[..srecCount]];
        }
      }
    }

    /** The COMMIT phase: date of creation, save, trap. */
    method Commit(index: nat, cells: seq<Cell>, acted: Row, clock: Clock)
      requires Ready() && DistinctColumns(cells) && index <= MAX_INDEX
      requires forall i :: 0 <= i < |cells| ==> Typed(schema, cells[i])
      requires Asked(schema, cells) == DESTROY ==> named == Named(schema, index, Filled(schema, acted, clock))
      requires TableOf(schema, Dated(rows, index, Filled(schema, acted, clock)))
      modifies this`rows, this`file, this`sent, stored
      ensures rows == Dated(old(rows), index, Filled(schema, acted, clock)) && file == Some(rows)
      ensures Find(rows, index).Some? ==> RowOf(schema, Find(rows, index).value)
      ensures var trap := Trap(schema, index, cells, Filled(schema, acted, clock), Find(rows, index));
              sent == old(sent) + (if trap.Some? then [trap.value] else [])
    {
      var row := FillIn(index, acted, clock);
      SaveContainer();
      Notify(index, cells, row);
    }

    /** The container update between ACTION and COMMIT. An existing row is already in place. */
    method Update(index: nat, row: Row, existed: bool)
      modifies this`named, this`rows
      ensures StatusOf(schema, row) == DESTROY ==> named == Named(schema, index, row)
      ensures rows == if StatusOf(schema, row) == DESTROY then (if existed then Remove(old(rows), index) else old(rows))
                      else if existed then old(rows) else Put(old(rows), index, row)
    {
      if StatusOf(schema, row) == DESTROY {
        named := Named(schema, index, row);
        if existed {
          rows := Remove(rows, index);
        }
      } else if !existed {
        rows := Put(rows, index, row);
      }
    }

    /** The phases before COMMIT. An existing row is changed in place, and a refusal copies the duplicate back. */
    method Prepare(index: nat, cells: seq<Cell>, clock: Clock) returns (accepted: bool, row: Row)
      requires Shape(schema, Snapshot())
      modifies this`named, this`rows
      ensures accepted == Accepts(schema, old(Snapshot()), index, cells, clock)
      ensures !accepted ==> rows == old(rows)
      ensures accepted ==>
                && row == Actioned(schema, Existing(schema, old(Snapshot()), index), cells, clock)
                && rows == Updated(old(rows), index, row, StatusOf(schema, row) == DESTROY)
                && (StatusOf(schema, row) == DESTROY ==> named == Named(schema, index, row))
    {
      row := schema.blank;
      var undo := Find(rows, index);
      FindIsSlot(rows, index);
      accepted := Reserve(undo, cells);
      if accepted {
        row := Act(if undo.Some? then undo.value else schema.blank, cells, clock);
        if undo.Some? {
          PutBack(rows, index, row);
          rows := Put(rows, index, row);
        }
        if Refuses(schema, row) {
          if undo.Some? {
            rows := Put(rows, index, undo.value);
          }
          accepted := false;
        } else {
          Update(index, row, undo.Some?);
        }
      }
    }

    /** A SET of one row through all its phases. */
    method SetRow(index: nat, cells: seq<Cell>, clock: Clock) returns (committed: bool)
      requires Ready() && Inv(schema, Snapshot()) && DistinctColumns(cells) && index <= MAX_INDEX
      modifies this`named, this`rows, this`file, this`sent, stored
      ensures Inv(schema, Snapshot())
      ensures var r := Set(schema, old(Snapshot()), index, cells, clock);
              && committed == r.committed && Snapshot() == r.next
              && sent == old(sent) + (if r.trap.Some? then [r.trap.value] else [])
    {
      ghost var s := Snapshot();
      SetKeepsInv(schema, s, index, cells, clock);
      var row;
      committed, row := Prepare(index, cells, clock);
      if committed {
        UpdatedIsApplied(schema, s, index, cells, clock);
        AppliedIsOf(schema, s, index, cells, clock);
        AskedIsDeleted(schema, s, index, cells, clock);
        Commit(index, cells, row, clock);
      }
    }
  }

  /** The container after the ACTION phase and the update: the row gone, or in its place. */
  function Updated(rows: Table, index: nat, row: Row, deleted: bool): Table
  {
    if !deleted then Put(rows, index, row)
    else if Find(rows, index).Some? then Remove(Put(rows, index, row), index)
    else rows
  }

  /** The container once the row, if it is still there, has its date of creation. */
  function Dated(rows: Table, index: nat, row: Row): Table
  {
    if Find(rows, index).Some? then Put(rows, index, row) else rows
  }

  /** A request that deletes leaves a row to be deleted, and the date of its creation is not the name to be sent. */
  lemma AskedIsDeleted(schema: Schema, s: State, index: nat, cells: seq<Cell>, clock: Clock)
    requires Inv(schema, s) && Reserved(schema, Find(s.rows, index), cells)
    ensures var acted := Actioned(schema, Existing(schema, s, index), cells, clock);
            && (Asked(schema, cells) == DESTROY ==> StatusOf(schema, acted) == DESTROY)
            && Named(schema, index, Filled(schema, acted, clock)) == Named(schema, index, acted)
  {
    DestroyedIffAsked(schema, s, index, cells, clock);
    NamedStays(schema, index, Actioned(schema, Existing(schema, s, index), cells, clock), clock);
  }

  lemma NamedStays(schema: Schema, index: nat, row: Row, clock: Clock)
    requires Coherent(schema)
    ensures Named(schema, index, Filled(schema, row, clock)) == Named(schema, index, row)
    ensures StatusOf(schema, Filled(schema, row, clock)) == StatusOf(schema, row)
  {
    FilledKeeps(schema, row, clock);
    if schema.named.Some? {
      NamedIsNotStatus(schema);
    }
  }

  /** The row put in place, the container updated and the date filled in make up the container of the step. */
  lemma UpdatedIsApplied(schema: Schema, s: State, index: nat, cells: seq<Cell>, clock: Clock)
    requires Shape(schema, s)
    ensures var acted := Actioned(schema, Existing(schema, s, index), cells, clock);
            Dated(Updated(s.rows, index, acted, StatusOf(schema, acted) == DESTROY),
                  index, Filled(schema, acted, clock)) ==
            Applied(schema, s, index, cells, clock)
  {
    var acted := Actioned(schema, Existing(schema, s, index), cells, clock);
    FilledKeeps(schema, acted, clock);
    FindIsSlot(s.rows, index);
    FindPut(s.rows, index, acted, index);
    FindRemove(s.rows, index, index);
    PutTwice(s.rows, index, acted, Filled(schema, acted, clock));
    if Find(s.rows, index).Some? {
      PutBack(s.rows, index, acted);
    }
  }
}
