/** What the access-control tables have in common: a SET of one row with an activation guard, the save of the
    container, and the choice and assembly of the trap. A schema holds what differs from table to table. */
module TrapTable {
  import opened Options
  import opened Octets
  import opened Decimal
  import opened RowStatus
  import opened VarBinds
  import opened TableContainer
  import OidText

  datatype Value = Number(n: int) | Text(octets: seq<byte>) | Address(octets: seq<byte>)

  /** Zero, no octets, or an address of zeros. */
  predicate Blank(v: Value)
  {
    match v
    case Number(n) => n == 0
    case Text(octets) => octets == []
    case Address(octets) => octets == [0, 0, 0, 0]
  }

  predicate SameKind(a: Value, b: Value)
  {
    match a
    case Number(_) => b.Number?
    case Text(_) => b.Text?
    case Address(_) => b.Address? && |b.octets| == 4
  }

  /** A row's columns. */
  type Row = map<nat, Value>

  datatype Cell = Cell(column: nat, value: Value)

  datatype Schema = Schema(
    entry: seq<nat>,       // OID of the table's entry
    blank: Row,            // the settable columns, as a created row holds them
    status: nat,           // the row status column
    required: seq<nat>,    // columns an active row must have, and a stored row to send a trap
    always: seq<nat>,      // columns of the stored list
    optional: seq<nat>,    // columns of the stored list when they are not blank
    mandatory: set<nat>,   // columns counted before a creation is sent
    silent: set<nat>,      // columns whose SET sends nothing
    named: Option<nat>,    // the column a deletion also sends
    stamped: Option<nat>,  // the column every ACTION phase sets to the time
    filled: Option<nat>,   // the column a COMMIT phase sets to the time when it holds no string
    fields: nat)           // length of the argument array

  /** A column that neither the guard nor a trap looks at. */
  ghost predicate Apart(schema: Schema, column: nat)
  {
    && column in schema.blank && schema.blank[column].Text? && column != schema.status && schema.named != Some(column)
    && forall i :: 0 <= i < |schema.required| ==> schema.required[i] != column
  }

  ghost predicate Coherent(schema: Schema)
  {
    && schema.status in schema.blank && schema.blank[schema.status].Number?
    && (forall i :: 0 <= i < |schema.required| ==>
          schema.required[i] in schema.blank && schema.required[i] != schema.status)
    && (forall i :: 0 <= i < |schema.always| ==> schema.always[i] in schema.blank)
    && (forall i :: 0 <= i < |schema.optional| ==> schema.optional[i] in schema.blank)
    && (forall i :: 0 <= i < |schema.required| ==> schema.required[i] in schema.always)
    && (forall c :: c in schema.blank ==> Blank(schema.blank[c]) && SameKind(schema.blank[c], schema.blank[c]))
    && (schema.named.Some? ==> schema.named.value in schema.blank && schema.blank[schema.named.value].Text?)
    && |schema.blank| + (if schema.named.Some? then 1 else 0) <= schema.fields
    && NoRepeats(schema.always + schema.optional + [schema.status])
    && (schema.stamped.Some? ==> Apart(schema, schema.stamped.value))
    && (schema.filled.Some? ==> Apart(schema, schema.filled.value) && schema.filled != schema.stamped)
  }

  ghost predicate NoRepeats(s: seq<nat>)
  {
    forall i, j :: 0 <= i < j < |s| ==> s[i] != s[j]
  }

  ghost predicate RowOf(schema: Schema, row: Row)
  {
    row.Keys == schema.blank.Keys && forall c :: c in row ==> SameKind(schema.blank[c], row[c])
  }

  /** The RESERVE1 check of a column's type and size. */
  predicate Typed(schema: Schema, cell: Cell)
  {
    cell.column in schema.blank && SameKind(schema.blank[cell.column], cell.value)
  }

  ghost predicate DistinctColumns(cells: seq<Cell>)
  {
    forall i, j :: 0 <= i < j < |cells| ==> cells[i].column != cells[j].column
  }

  predicate Has(cells: seq<Cell>, column: nat)
  {
    exists i :: 0 <= i < |cells| && cells[i].column == column
  }

  function StatusOf(schema: Schema, row: Row): int
  {
    if schema.status in row && row[schema.status].Number? then row[schema.status].n else NONEXISTENT
  }

  /** Both RESERVE phases: types, and the transition of every status written. */
  predicate Reserved(schema: Schema, existing: Option<Row>, cells: seq<Cell>)
  {
    forall i :: 0 <= i < |cells| ==>
      && Typed(schema, cells[i])
      && (cells[i].column == schema.status && cells[i].value.Number? ==>
            CheckTransition(if existing.Some? then StatusOf(schema, existing.value) else NONEXISTENT,
                            cells[i].value.n).NoError?)
  }

  /** The column writes of the ACTION phase. */
  function Written(row: Row, cells: seq<Cell>): Row
  {
    if cells == [] then row else
      var last := cells[|cells| - 1];
      Written(row, cells[..|cells| - 1])[last.column := last.value]
  }

  /** What a step takes from outside: the date of its ACTION and of its COMMIT phase, and the octets that lie behind
      the stored length of the column to be filled. */
  datatype Clock = Clock(action: seq<byte>, commit: seq<byte>, behind: seq<byte>)

  /** The first n octets of a buffer that goes on with NULs. */
  function Front(s: seq<byte>, n: nat): (r: seq<byte>)
    ensures |r| == n
  {
    if n <= |s| then s[..n] else s + Zeros(n - |s|)
  }

  /** `strcpy` of a date to the front of a buffer, of which the date's length is then shown. */
  function DateOver(buffer: seq<byte>, date: seq<byte>): (v: Value)
    ensures v.Text? && |v.octets| == |date|
  {
    var c := CString(date) + [0];
    Text(Front(c + (if |c| <= |buffer| then buffer[|c|..] else []), |date|))
  }

  /** Whatever the buffer held, the column then shows as many octets as the date has, and reads as the date does. */
  lemma DateOverReads(buffer: seq<byte>, date: seq<byte>)
    ensures CString(DateOver(buffer, date).octets) == CString(date)
  {
    var c, v := CString(date), DateOver(buffer, date).octets;
    assert v[..|c|] == c;
    CStringUnique(v, |c|);
  }

  /** The time set at the start of the ACTION phase, over a cleared buffer. */
  function Stamped(schema: Schema, row: Row, clock: Clock): Row
  {
    if schema.stamped.Some? then row[schema.stamped.value := DateOver([], clock.action)] else row
  }

  /** The row at the end of the ACTION phase, its status settled. */
  function Actioned(schema: Schema, row: Row, cells: seq<Cell>, clock: Clock): Row
  {
    var w := Written(Stamped(schema, row, clock), cells);
    w[schema.status := Number(Settle(StatusOf(schema, w)))]
  }

  /** The time set at the start of the COMMIT phase, when the column holds no string. */
  function Filled(schema: Schema, row: Row, clock: Clock): Row
  {
    if schema.filled.None? then row else
      var c := schema.filled.value;
      if c in row && row[c].Text? && CString(row[c].octets + clock.behind) == []
      then row[c := DateOver(row[c].octets + clock.behind, clock.commit)]
      else row
  }

  /** The row a COMMIT phase leaves. */
  function After(schema: Schema, row: Row, cells: seq<Cell>, clock: Clock): Row
  {
    Filled(schema, Actioned(schema, row, cells, clock), clock)
  }

  /** No required column is blank. */
  predicate Complete(schema: Schema, row: Row)
  {
    forall i :: 0 <= i < |schema.required| ==> schema.required[i] in row && !Blank(row[schema.required[i]])
  }

  /** The guard at the end of the ACTION phase. */
  predicate Refuses(schema: Schema, row: Row)
  {
    !Complete(schema, row) && (StatusOf(schema, row) == CREATE_AND_GO || StatusOf(schema, row) == ACTIVE)
  }

  /** The text of a number, or the octets themselves. */
  function ValueOctets(v: Value): seq<byte>
  {
    match v
    case Number(n) => Ascii(IntText(n))
    case Text(octets) => octets
    case Address(octets) => octets
  }

  function Ascii(s: string): seq<byte>
  {
    seq(|s|, i requires 0 <= i < |s| => if s[i] < '\U{100}' then s[i] as int else 0)
  }

  function ColumnOid(schema: Schema, column: nat, index: nat): string
  {
    OidText.Text(schema.entry + [column, index])
  }

  function Argument(schema: Schema, index: nat, cell: Cell): VarBind
  {
    VarBind(ColumnOid(schema, cell.column, index), if cell.value.Number? then 'i' else 's', ValueOctets(cell.value))
  }

  function Arguments(schema: Schema, index: nat, cells: seq<Cell>): (r: seq<VarBind>)
    ensures |r| == |cells| && forall i :: 0 <= i < |cells| ==> r[i] == Argument(schema, index, cells[i])
  {
    seq(|cells|, i requires 0 <= i < |cells| => Argument(schema, index, cells[i]))
  }

  /** The columns among these that are not blank. */
  function NotBlank(row: Row, columns: seq<nat>): seq<nat>
  {
    if columns == [] then [] else
      var c := columns[|columns| - 1];
      NotBlank(row, columns[..|columns| - 1]) + (if c in row && !Blank(row[c]) then [c] else [])
  }

  function StoredColumns(schema: Schema, row: Row): seq<nat>
  {
    schema.always + NotBlank(row, schema.optional)
      + (if StatusOf(schema, row) == NOT_IN_SERVICE then [schema.status] else [])
  }

  function CellsOf(row: Row, columns: seq<nat>): (r: seq<Cell>)
    requires forall i :: 0 <= i < |columns| ==> columns[i] in row
    ensures |r| == |columns| && forall i :: 0 <= i < |r| ==> r[i] == Cell(columns[i], row[columns[i]])
  {
    seq(|columns|, i requires 0 <= i < |columns| => Cell(columns[i], row[columns[i]]))
  }

  /** The status asked for; zero when the request has no status column. */
  function Asked(schema: Schema, cells: seq<Cell>): int
  {
    if cells == [] then 0 else
      var last := cells[|cells| - 1];
      if last.column == schema.status && last.value.Number? then last.value.n else Asked(schema, cells[..|cells| - 1])
  }

  /** `sSet` */
  function Count(cells: seq<Cell>, columns: set<nat>): nat
  {
    if cells == [] then 0 else
      Count(cells[..|cells| - 1], columns) + (if cells[|cells| - 1].column in columns then 1 else 0)
  }

  predicate Silent(schema: Schema, cells: seq<Cell>)
  {
    exists i :: 0 <= i < |cells| && cells[i].column in schema.silent
  }

  /** The largest index whose text fits the five characters it is spelled into. */
  const MAX_INDEX := 9999

  type Table = seq<Record<Row>>

  ghost predicate TableOf(schema: Schema, rows: Table)
  {
    forall i :: 0 <= i < |rows| ==> RowOf(schema, rows[i].row)
  }

  lemma {:induction false} NotBlankInRow(row: Row, columns: seq<nat>)
    ensures forall i :: 0 <= i < |NotBlank(row, columns)| ==> NotBlank(row, columns)[i] in row
  {
    if columns != [] {
      NotBlankInRow(row, columns[..|columns| - 1]);
    }
  }

  lemma StoredColumnsInRow(schema: Schema, row: Row)
    requires Coherent(schema) && RowOf(schema, row)
    ensures forall i :: 0 <= i < |StoredColumns(schema, row)| ==> StoredColumns(schema, row)[i] in row
  {
    NotBlankInRow(row, schema.optional);
  }

  /** The search of the saved file: the stored list of a complete row. */
  ghost function Stored(schema: Schema, row: Row): Option<seq<Cell>>
    requires Coherent(schema) && RowOf(schema, row)
  {
    StoredColumnsInRow(schema, row);
    if Complete(schema, row) then Some(CellsOf(row, StoredColumns(schema, row))) else None
  }

  /** What a deletion appends: the named column as the row held it at the end of the ACTION phase. */
  function Named(schema: Schema, index: nat, row: Row): seq<VarBind>
  {
    if schema.named.Some? && schema.named.value in row
    then [VarBind(ColumnOid(schema, schema.named.value, index), 's', CString(ValueOctets(row[schema.named.value])))]
    else []
  }

  /** The trap of a committed SET, from the row as the SET left it and as the file holds it. */
  ghost function Trap(schema: Schema, index: nat, cells: seq<Cell>, row: Row, saved: Option<Row>): Option<seq<VarBind>>
    requires Coherent(schema) && (saved.Some? ==> RowOf(schema, saved.value))
  {
    var request := Arguments(schema, index, cells);
    if Silent(schema, cells) then None
    else if Asked(schema, cells) == CREATE_AND_GO then
      if Count(cells, schema.mandatory) == |schema.mandatory| then Some(request) else None
    else if Asked(schema, cells) == DESTROY then Some(request + Named(schema, index, row))
    else if saved.None? then None
    else
      var stored := Stored(schema, saved.value);
      if stored.Some? then Some(Merged(request, Arguments(schema, index, stored.value))) else None
  }

  datatype State = State(rows: Table, file: Option<Table>)

  datatype Outcome = Outcome(next: State, committed: bool, trap: Option<seq<VarBind>>)

  ghost predicate Shape(schema: Schema, s: State)
  {
    Coherent(schema) && Sorted(s.rows) && TableOf(schema, s.rows)
  }

  function Existing(schema: Schema, s: State, index: nat): Row
  {
    var e := Find(s.rows, index);
    if e.Some? then e.value else schema.blank
  }

  /** Whether the phases before COMMIT all pass. */
  predicate Accepts(schema: Schema, s: State, index: nat, cells: seq<Cell>, clock: Clock)
  {
    && Reserved(schema, Find(s.rows, index), cells)
    && !Refuses(schema, Actioned(schema, Existing(schema, s, index), cells, clock))
  }

  /** The container when COMMIT is called. */
  function Applied(schema: Schema, s: State, index: nat, cells: seq<Cell>, clock: Clock): Table
  {
    var row := After(schema, Existing(schema, s, index), cells, clock);
    if StatusOf(schema, row) == DESTROY then Remove(s.rows, index) else Put(s.rows, index, row)
  }

  lemma {:induction false} FoundIsOf(schema: Schema, rows: Table, index: nat)
    requires TableOf(schema, rows)
    ensures Find(rows, index).Some? ==> RowOf(schema, Find(rows, index).value)
  {
    if rows != [] && rows[0].index != index {
      FoundIsOf(schema, rows[1..], index);
    }
  }

  lemma {:induction false} WrittenIsOf(schema: Schema, row: Row, cells: seq<Cell>)
    requires RowOf(schema, row) && forall i :: 0 <= i < |cells| ==> Typed(schema, cells[i])
    ensures RowOf(schema, Written(row, cells))
  {
    if cells != [] {
      WrittenIsOf(schema, row, cells[..|cells| - 1]);
    }
  }

  /** The commit's date changes nothing the guard or a trap looks at. */
  lemma FilledKeeps(schema: Schema, row: Row, clock: Clock)
    requires Coherent(schema)
    ensures var r := Filled(schema, row, clock);
            && r.Keys == row.Keys && (RowOf(schema, row) ==> RowOf(schema, r))
            && (forall c :: c in row && Some(c) != schema.filled ==> r[c] == row[c])
            && StatusOf(schema, r) == StatusOf(schema, row)
            && (Complete(schema, r) <==> Complete(schema, row))
  {
    var r := Filled(schema, row, clock);
    forall i | 0 <= i < |schema.required|
      ensures schema.required[i] in row <==> schema.required[i] in r
      ensures schema.required[i] in row ==> r[schema.required[i]] == row[schema.required[i]]
    {
    }
  }

  lemma ActionedIsOf(schema: Schema, s: State, index: nat, cells: seq<Cell>, clock: Clock)
    requires Shape(schema, s) && Reserved(schema, Find(s.rows, index), cells)
    ensures var row := After(schema, Existing(schema, s, index), cells, clock);
            && RowOf(schema, row)
            && (StatusOf(schema, row) == ACTIVE || StatusOf(schema, row) == NOT_IN_SERVICE
                || StatusOf(schema, row) == DESTROY)
  {
    FoundIsOf(schema, s.rows, index);
    WrittenIsOf(schema, Stamped(schema, Existing(schema, s, index), clock), cells);
    FilledKeeps(schema, Actioned(schema, Existing(schema, s, index), cells, clock), clock);
  }

  lemma AppliedIsOf(schema: Schema, s: State, index: nat, cells: seq<Cell>, clock: Clock)
    requires Shape(schema, s) && Reserved(schema, Find(s.rows, index), cells)
    ensures Sorted(Applied(schema, s, index, cells, clock)) && TableOf(schema, Applied(schema, s, index, cells, clock))
  {
    var row := After(schema, Existing(schema, s, index), cells, clock);
    ActionedIsOf(schema, s, index, cells, clock);
    PutSorted(s.rows, index, row);
    RemoveSorted(s.rows, index);
  }

  /** One SET of one row, all its phases. A refused one leaves the rows as they were. */
  ghost function Set(schema: Schema, s: State, index: nat, cells: seq<Cell>, clock: Clock): Outcome
    requires Shape(schema, s)
  {
    if !Accepts(schema, s, index, cells, clock) then Outcome(s, false, None) else
      var row := After(schema, Existing(schema, s, index), cells, clock);
      var rows := Applied(schema, s, index, cells, clock);
      AppliedIsOf(schema, s, index, cells, clock);
      FoundIsOf(schema, rows, index);
      Outcome(State(rows, Some(rows)), true, Trap(schema, index, cells, row, Find(rows, index)))
  }

  /** A restart empties the container and inserts the records of the file, if there is one. */
  function Restarted(s: State): State
  {
    State(if s.file.Some? then Load(s.file.value) else [], s.file)
  }
}
