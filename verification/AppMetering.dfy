/** The table of metered applications. */
module AppMetering {
  import opened Options
  import opened Octets
  import opened Decimal
  import opened RowStatus
  import opened VarBinds
  import opened TableContainer
  import opened TrapTable
  import opened TrapTableProofs
  import OidText

  const CREATED := 5
  const START_TIME := 8
  const END_TIME := 9
  const REACTION := 10
  const STATUS := 11
  const LAST_UPDATED := 12
  const USER_NAME := 14
  const BINARY_NAME := 15
  const ALERT_MESSAGE := 16

  /** `APP_NO_OF_FIELDS` */
  const FIELDS := 16

  function Blanks(): Row
  {
    map c: nat | c in Columns() :: if c == REACTION || c == STATUS then Number(0) else Text([])
  }

  function Columns(): set<nat>
  {
    {2, 3, 4, CREATED, 6, 7, START_TIME, END_TIME, REACTION, STATUS, LAST_UPDATED, 13, USER_NAME, BINARY_NAME,
     ALERT_MESSAGE}
  }

  function Metering(): Schema
  {
    Schema([1, 3, 6, 1, 4, 1, 3204, 1, 3, 34, 3, 1], Blanks(), STATUS,
           [BINARY_NAME, START_TIME, END_TIME], [BINARY_NAME, START_TIME, END_TIME, REACTION], [ALERT_MESSAGE],
           {START_TIME, END_TIME, REACTION, BINARY_NAME}, {USER_NAME}, Some(BINARY_NAME), Some(LAST_UPDATED),
           Some(CREATED), FIELDS)
  }

  lemma ListsHaveNoRepeats()
    ensures NoRepeats(Metering().always + Metering().optional + [STATUS])
  {
    assert Metering().always + Metering().optional + [STATUS] == [15, 8, 9, 10, 16, 11];
  }

  lemma ColumnCount()
    ensures |Columns()| == 15
  {
  }

  lemma MeteringIsCoherent()
    ensures Coherent(Metering()) && |Metering().blank| == 15
  {
    assert Blanks().Keys == Columns();
    ColumnCount();
    ListsHaveNoRepeats();
  }

  lemma EntryText()
    ensures OidText.Text(Metering().entry) == ".1.3.6.1.4.1.3204.1.3.34.3.1"
  {
    OidText.GroupText();
    OidText.Prepend(1, [], [1]);
    OidText.Prepend(3, [1], [3, 1]);
    OidText.TextConcat([1, 3, 6, 1, 4, 1, 3204, 1, 3, 34], [3, 1]);
    assert [1, 3, 6, 1, 4, 1, 3204, 1, 3, 34] + [3, 1] == Metering().entry;
  }

  /** The prefixes of the stored list, with the index behind them, are the texts of the columns' OIDs. */
  lemma StoredOids(index: nat)
    ensures ".1.3.6.1.4.1.3204.1.3.34.3.1.15." + IntText(index) == ColumnOid(Metering(), BINARY_NAME, index)
    ensures ".1.3.6.1.4.1.3204.1.3.34.3.1.8." + IntText(index) == ColumnOid(Metering(), START_TIME, index)
    ensures ".1.3.6.1.4.1.3204.1.3.34.3.1.9." + IntText(index) == ColumnOid(Metering(), END_TIME, index)
  {
    EntryText();
    assert NatText(15) == "15";
    StoredOid(Metering(), BINARY_NAME, index);
    StoredOid(Metering(), START_TIME, index);
    StoredOid(Metering(), END_TIME, index);
  }

  lemma OtherStoredOids(index: nat)
    ensures ".1.3.6.1.4.1.3204.1.3.34.3.1.10." + IntText(index) == ColumnOid(Metering(), REACTION, index)
    ensures ".1.3.6.1.4.1.3204.1.3.34.3.1.16." + IntText(index) == ColumnOid(Metering(), ALERT_MESSAGE, index)
    ensures ".1.3.6.1.4.1.3204.1.3.34.3.1.11." + IntText(index) == ColumnOid(Metering(), STATUS, index)
  {
    EntryText();
    assert NatText(10) == "10" && NatText(11) == "11" && NatText(16) == "16";
    StoredOid(Metering(), REACTION, index);
    StoredOid(Metering(), ALERT_MESSAGE, index);
    StoredOid(Metering(), STATUS, index);
  }

  predicate HasTimesAndBinary(row: Row)
  {
    && START_TIME in row && row[START_TIME] != Text([])
    && END_TIME in row && row[END_TIME] != Text([])
    && BINARY_NAME in row && row[BINARY_NAME] != Text([])
  }

  lemma CompleteMeans(row: Row)
    requires RowOf(Metering(), row)
    ensures Complete(Metering(), row) <==> HasTimesAndBinary(row)
  {
    assert Blanks().Keys == Columns();
    var r := Metering().required;
    assert r[0] == BINARY_NAME && r[1] == START_TIME && r[2] == END_TIME;
  }

  /** In every reachable state an active row has both times and a binary name, and a restart keeps every row. */
  lemma ActiveRowsHaveTimesAndBinary(steps: seq<Step>, index: nat)
    ensures Coherent(Metering())
    ensures var s := Run(Metering(), steps);
            && Restarted(s) == s
            && (var r := Find(s.rows, index);
                r.Some? && StatusOf(Metering(), r.value) == ACTIVE ==> HasTimesAndBinary(r.value))
  {
    MeteringIsCoherent();
    var s := Run(Metering(), steps);
    ActiveRowsAreComplete(Metering(), steps, index);
    FoundIsOf(Metering(), s.rows, index);
    if Find(s.rows, index).Some? {
      CompleteMeans(Find(s.rows, index).value);
    }
  }

  /** The guard lets a row be created without a reaction; the count then falls short. */
  lemma CreationCountsAllIff(s: State, index: nat, cells: seq<Cell>, clock: Clock)
    requires Inv(Metering(), s) && Accepts(Metering(), s, index, cells, clock) && DistinctColumns(cells)
    requires Asked(Metering(), cells) == CREATE_AND_GO
    ensures Count(cells, Metering().mandatory) == |Metering().mandatory| <==> Has(cells, REACTION)
  {
    var r := Metering().required;
    assert r[0] == BINARY_NAME && r[1] == START_TIME && r[2] == END_TIME;
    CreationWritesRequired(Metering(), s, index, cells, clock, 0);
    CreationWritesRequired(Metering(), s, index, cells, clock, 1);
    CreationWritesRequired(Metering(), s, index, cells, clock, 2);
    CountIff(cells, Metering().mandatory);
  }

  /** In every reachable state, exactly when a committed SET sends a trap. Two kinds of SET leave an active row
      without one: those that write the user name, and creations that do not write the reaction. */
  lemma TrapSentExactlyWhen(steps: seq<Step>, index: nat, cells: seq<Cell>, clock: Clock)
    requires index <= MAX_INDEX && DistinctColumns(cells)
    ensures Coherent(Metering())
    ensures var s := Run(Metering(), steps);
            var r := Set(Metering(), s, index, cells, clock);
            var row := Find(r.next.rows, index);
            r.committed ==>
              && (row.None? <==> Asked(Metering(), cells) == DESTROY)
              && (r.trap.Some? <==>
                  && !Has(cells, USER_NAME)
                  && (Asked(Metering(), cells) == CREATE_AND_GO ==> Has(cells, REACTION))
                  && (row.None? || HasTimesAndBinary(row.value)))
  {
    MeteringIsCoherent();
    var s := Run(Metering(), steps);
    if Accepts(Metering(), s, index, cells, clock) {
      SavedIsRow(Metering(), s, index, cells, clock);
      ActionedIsOf(Metering(), s, index, cells, clock);
      TrapSentIff(Metering(), s, index, cells, clock);
      CompleteMeans(After(Metering(), Existing(Metering(), s, index), cells, clock));
      if Asked(Metering(), cells) == CREATE_AND_GO {
        CreationIsComplete(Metering(), s, index, cells, clock);
        CreationCountsAllIff(s, index, cells, clock);
      }
    }
  }

  /** A trap for a row that stays carries the binary name and both times exactly once each, and at most fifteen
      variables. */
  lemma TrapCarriesTimesAndBinary(steps: seq<Step>, index: nat, cells: seq<Cell>, clock: Clock, column: nat)
    requires index <= MAX_INDEX && DistinctColumns(cells)
    requires column == BINARY_NAME || column == START_TIME || column == END_TIME
    ensures Coherent(Metering())
    ensures var s := Run(Metering(), steps);
            var r := Set(Metering(), s, index, cells, clock);
            var row := Find(r.next.rows, index);
            r.committed && row.Some? && r.trap.Some? ==>
              && |r.trap.value| <= 15 && RowOf(Metering(), row.value)
              && row.value[column].Text?
              && Carries(r.trap.value, ColumnOid(Metering(), column, index), row.value[column], Has(cells, column))
  {
    MeteringIsCoherent();
    var s := Run(Metering(), steps);
    var r := Metering().required;
    assert r[0] == BINARY_NAME && r[1] == START_TIME && r[2] == END_TIME;
    if Accepts(Metering(), s, index, cells, clock) {
      SavedIsRow(Metering(), s, index, cells, clock);
      if Asked(Metering(), cells) != DESTROY && Set(Metering(), s, index, cells, clock).trap.Some? {
        TrapFits(Metering(), s, index, cells, clock);
        TrapCarriesRequired(Metering(), s, index, cells, clock, 0);
        TrapCarriesRequired(Metering(), s, index, cells, clock, 1);
        TrapCarriesRequired(Metering(), s, index, cells, clock, 2);
      }
    }
  }

  /** What the columns of a request must be, for it to get past the RESERVE phases. */
  lemma TypedIff(cell: Cell)
    ensures Typed(Metering(), cell) <==>
            && 2 <= cell.column <= 16
            && if cell.column == 10 || cell.column == 11 then cell.value.Number? else cell.value.Text?
  {
    assert Blanks().Keys == Columns();
  }

  /** After an accepted SET that deletes nothing, a column holds what was written, or else what it held; but for the
      date of the last change, which is the time of the SET, and the date of creation, which is the time of the commit
      when there is none. No other row changes. */
  lemma SetStores(steps: seq<Step>, index: nat, cells: seq<Cell>, clock: Clock, i: nat, column: nat, k: nat)
    requires DistinctColumns(cells) && i < |cells| && 2 <= column <= 16 && column != 11 && k != index
    ensures Coherent(Metering())
    ensures var s := Run(Metering(), steps);
            var r := Set(Metering(), s, index, cells, clock);
            var row := Find(r.next.rows, index);
            r.committed && Asked(Metering(), cells) != 6 ==>
              && row.Some? && column in row.value && column in Existing(Metering(), s, index)
              && Find(r.next.rows, k) == Find(s.rows, k)
              && (cells[i].column == column != 5 ==> row.value[column] == cells[i].value)
              && (!Has(cells, column) && column != 5 && column != 12 ==>
                    row.value[column] == Existing(Metering(), s, index)[column])
              && (column == 12 && !Has(cells, 12) ==> Reads(row.value[12], clock.action))
              && (column == 5 && !Has(cells, 5) ==>
                    var was := Existing(Metering(), s, index)[5];
                    && was.Text?
                    && if CString(was.octets + clock.behind) == [] then Reads(row.value[5], clock.commit)
                       else row.value[5] == was)
  {
    MeteringIsCoherent();
    var s := Run(Metering(), steps);
    if Accepts(Metering(), s, index, cells, clock) {
      InBlank(column);
      FoundIsOf(Metering(), s.rows, index);
      SetTakesEffect(Metering(), s, index, cells, clock, column, k);
      if cells[i].column == column {
        GivenIs(Metering(), Existing(Metering(), s, index), cells, clock, i);
      }
      if column == 12 {
        DateReads([], clock.action);
      } else if column == 5 {
        DateReads(Existing(Metering(), s, index)[5].octets + clock.behind, clock.commit);
      }
    }
  }

  /** A column that shows as many octets as the date has and reads as the date does. */
  predicate Reads(v: Value, date: seq<byte>)
  {
    v.Text? && |v.octets| == |date| && CString(v.octets) == CString(date)
  }

  lemma DateReads(buffer: seq<byte>, date: seq<byte>)
    ensures Reads(DateOver(buffer, date), date)
  {
    DateOverReads(buffer, date);
  }

  lemma InBlank(column: nat)
    requires 2 <= column <= 16
    ensures column in Metering().blank
    ensures column != 10 && column != 11 ==> Metering().blank[column].Text?
  {
    assert Blanks().Keys == Columns();
  }

  lemma StoredIs(row: Row)
    ensures StoredColumns(Metering(), row) ==
            [15, 8, 9, 10] + (if 16 in row && !Blank(row[16]) then [16] else [])
              + (if StatusOf(Metering(), row) == 2 then [11] else [])
  {
    assert [16][..0] == [] && NotBlank(row, []) == [];
    assert NotBlank(row, [16]) == if 16 in row && !Blank(row[16]) then [16] else [];
  }

  lemma StoredNames(row: Row, column: nat)
    ensures column in StoredColumns(Metering(), row) <==>
            || column == 8 || column == 9 || column == 10 || column == 15
            || (column == 16 && 16 in row && !Blank(row[16]))
            || (column == 11 && StatusOf(Metering(), row) == 2)
  {
    StoredIs(row);
  }

  /** A trap that tells of a change names the columns written, both times, the reaction and the binary name, the alert
      message when there is one, and the status when the row is out of service; and of the unwritten ones it tells
      what the row holds. */
  lemma TrapNamesExactly(steps: seq<Step>, index: nat, cells: seq<Cell>, clock: Clock, column: nat)
    requires index <= MAX_INDEX && DistinctColumns(cells)
    ensures Coherent(Metering())
    ensures var r := Set(Metering(), Run(Metering(), steps), index, cells, clock);
            var row := Find(r.next.rows, index);
            r.committed && r.trap.Some? && Asked(Metering(), cells) != 6 && Asked(Metering(), cells) != 4 ==>
              && row.Some? && RowOf(Metering(), row.value)
              && (Names(r.trap.value, ColumnOid(Metering(), column, index)) <==>
                  || Has(cells, column) || column == 8 || column == 9 || column == 10 || column == 15
                  || (column == 16 && row.value[16] != Text([]))
                  || (column == 11 && StatusOf(Metering(), row.value) == 2))
              && (Names(r.trap.value, ColumnOid(Metering(), column, index)) && !Has(cells, column) ==>
                    && column in row.value
                    && Carries(r.trap.value, ColumnOid(Metering(), column, index), row.value[column], false))
  {
    MeteringIsCoherent();
    var s := Run(Metering(), steps);
    var r := Set(Metering(), s, index, cells, clock);
    if r.committed && r.trap.Some? && Asked(Metering(), cells) != DESTROY && Asked(Metering(), cells) != CREATE_AND_GO {
      TrapNames(Metering(), s, index, cells, clock, column);
      SavedIsRow(Metering(), s, index, cells, clock);
      ActionedIsOf(Metering(), s, index, cells, clock);
      var row := Find(r.next.rows, index).value;
      InBlank(16);
      StoredNames(row, column);
      if column in StoredColumns(Metering(), row) && !Has(cells, column) {
        var k :| 0 <= k < |StoredColumns(Metering(), row)| && StoredColumns(Metering(), row)[k] == column;
        TrapCarriesStored(Metering(), s, index, cells, clock, k);
      }
    }
  }

  /** A deletion's trap is the request and the binary name the row had, never exceeds the sixteen arguments, and names
      an OID twice exactly when the request that deletes also writes the binary name. */
  lemma DeletionTrap(steps: seq<Step>, index: nat, cells: seq<Cell>, clock: Clock)
    requires index <= MAX_INDEX && DistinctColumns(cells)
    ensures Coherent(Metering())
    ensures var r := Set(Metering(), Run(Metering(), steps), index, cells, clock);
            var before := Existing(Metering(), Run(Metering(), steps), index);
            r.committed && Asked(Metering(), cells) == DESTROY && r.trap.Some? ==>
              && 0 < |r.trap.value| <= FIELDS && BINARY_NAME in before
              && |r.trap.value| == |cells| + 1
              && r.trap.value[|cells|].oid == ColumnOid(Metering(), BINARY_NAME, index)
              && Shows(r.trap.value[|cells|], Given(Metering(), before, cells, clock, BINARY_NAME), false)
              && (!Distinct(r.trap.value) <==> Has(cells, BINARY_NAME))
  {
    MeteringIsCoherent();
    var s := Run(Metering(), steps);
    var r := Set(Metering(), s, index, cells, clock);
    if r.committed && Asked(Metering(), cells) == DESTROY && r.trap.Some? {
      TrapFits(Metering(), s, index, cells, clock);
      DeletionNames(Metering(), s, index, cells, clock);
      DeletionRepeatsIff(Metering(), s, index, cells, clock);
    }
  }

  /** What a creation may write besides the columns the guard asks for. */
  function CreationCells(more: seq<Cell>): seq<Cell>
  {
    [Cell(BINARY_NAME, Text([97])), Cell(START_TIME, Text([98])), Cell(END_TIME, Text([99])),
     Cell(STATUS, Number(CREATE_AND_GO))] + more
  }

  lemma CreationCellsAreGood(more: seq<Cell>)
    requires more == [] || more == [Cell(REACTION, Number(1)), Cell(USER_NAME, Text([100]))]
    ensures var cells := CreationCells(more);
            && DistinctColumns(cells) && (forall i :: 0 <= i < |cells| ==> Typed(Metering(), cells[i]))
            && Asked(Metering(), cells) == CREATE_AND_GO
            && forall i :: 0 <= i < |Metering().required| ==> Writes(cells, Metering().required[i])
  {
    var cells := CreationCells(more);
    assert Blanks().Keys == Columns();
    AskedByOne(Metering(), cells, 3);
    assert cells[0].column == BINARY_NAME && cells[1].column == START_TIME && cells[2].column == END_TIME;
    assert Writes(cells, BINARY_NAME) && Writes(cells, START_TIME) && Writes(cells, END_TIME);
  }

  /** A first SET that creates a row is accepted and leaves the row active. */
  lemma CreationIsAccepted(more: seq<Cell>, clock: Clock)
    requires more == [] || more == [Cell(REACTION, Number(1)), Cell(USER_NAME, Text([100]))]
    ensures Coherent(Metering())
    ensures var s := Run(Metering(), []);
            var r := Set(Metering(), s, 1, CreationCells(more), clock);
            var row := Find(r.next.rows, 1);
            && r.committed && row.Some? && StatusOf(Metering(), row.value) == ACTIVE
  {
    MeteringIsCoherent();
    CreationCellsAreGood(more);
    var s := Run(Metering(), []);
    CreationAcceptedIff(Metering(), s, 1, CreationCells(more), clock);
    CreationIsComplete(Metering(), s, 1, CreationCells(more), clock);
    SavedIsRow(Metering(), s, 1, CreationCells(more), clock);
  }

  /** An active row nobody is told of: its creation does not write the reaction. */
  lemma CreationWithoutReactionIsSilent(clock: Clock)
    ensures Coherent(Metering())
    ensures var r := Set(Metering(), Run(Metering(), []), 1, CreationCells([]), clock);
            var row := Find(r.next.rows, 1);
            r.committed && row.Some? && StatusOf(Metering(), row.value) == ACTIVE && r.trap.None?
  {
    CreationIsAccepted([], clock);
    CreationCellsAreGood([]);
    TrapSentExactlyWhen([], 1, CreationCells([]), clock);
  }

  /** Another one: its creation writes all four counted columns, and the user name. */
  lemma CreationWithUserNameIsSilent(clock: Clock)
    ensures Coherent(Metering())
    ensures var more := [Cell(REACTION, Number(1)), Cell(USER_NAME, Text([100]))];
            var r := Set(Metering(), Run(Metering(), []), 1, CreationCells(more), clock);
            var row := Find(r.next.rows, 1);
            r.committed && row.Some? && StatusOf(Metering(), row.value) == ACTIVE && r.trap.None?
  {
    var more := [Cell(REACTION, Number(1)), Cell(USER_NAME, Text([100]))];
    CreationIsAccepted(more, clock);
    CreationCellsAreGood(more);
    assert CreationCells(more)[5].column == USER_NAME;
    TrapSentExactlyWhen([], 1, CreationCells(more), clock);
  }

  function DeletionCells(): seq<Cell>
  {
    [Cell(BINARY_NAME, Text([101])), Cell(STATUS, Number(DESTROY))]
  }

  lemma DeletionCellsAreGood()
    ensures var cells := DeletionCells();
            && DistinctColumns(cells) && (forall i :: 0 <= i < |cells| ==> Typed(Metering(), cells[i]))
            && Asked(Metering(), cells) == DESTROY && Has(cells, BINARY_NAME) && !Has(cells, USER_NAME)
  {
    var cells := DeletionCells();
    assert Blanks().Keys == Columns();
    AskedByOne(Metering(), cells, 1);
    assert cells[0].column == BINARY_NAME;
  }

  /** In every reachable state, a deletion that also writes the binary name is accepted, and its trap names that
      column twice. */
  lemma DeletionNamesTwice(steps: seq<Step>, clock: Clock)
    ensures Coherent(Metering())
    ensures var r := Set(Metering(), Run(Metering(), steps), 1, DeletionCells(), clock);
            r.committed && Find(r.next.rows, 1).None? && r.trap.Some? && !Distinct(r.trap.value)
  {
    MeteringIsCoherent();
    DeletionCellsAreGood();
    DeletionIsAccepted(Metering(), Run(Metering(), steps), 1, DeletionCells(), clock);
    TrapSentExactlyWhen(steps, 1, DeletionCells(), clock);
    DeletionTrap(steps, 1, DeletionCells(), clock);
  }

  /** So it is for the row of the first of these runs. */
  lemma CreatedRowIsNamedTwice(clock: Clock)
    ensures Coherent(Metering())
    ensures var s := Run(Metering(), [SetRow(1, CreationCells([]), clock)]);
            var r := Set(Metering(), s, 1, DeletionCells(), clock);
            && Find(s.rows, 1).Some? && r.committed && Find(r.next.rows, 1).None?
            && r.trap.Some? && !Distinct(r.trap.value)
  {
    var steps := [SetRow(1, CreationCells([]), clock)];
    CreationIsAccepted([], clock);
    OneStep(Metering(), 1, CreationCells([]), clock);
    DeletionNamesTwice(steps, clock);
  }
}
