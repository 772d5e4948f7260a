/** The table of hosts allowed to use FTP. */
module AllowFtp {
  import opened Options
  import opened Octets
  import opened Decimal
  import opened RowStatus
  import opened VarBinds
  import opened TableContainer
  import opened TrapTable
  import opened TrapTableProofs
  import OidText

  const IP_ADDRESS := 3
  const PORT_NO := 4
  const STATUS := 5

  /** `NO_OF_FIELDS` */
  const FIELDS := 5

  function Ftp(): Schema
  {
    Schema([1, 3, 6, 1, 4, 1, 3204, 1, 3, 34, 4, 4, 1],
           map[2 := Text([]), IP_ADDRESS := Address([0, 0, 0, 0]), PORT_NO := Number(0), STATUS := Number(0)],
           STATUS, [PORT_NO, IP_ADDRESS], [PORT_NO, IP_ADDRESS], [], {IP_ADDRESS, PORT_NO}, {}, None, None, None,
           FIELDS)
  }

  lemma FtpIsCoherent()
    ensures Coherent(Ftp()) && |Ftp().blank| == 4
  {
    assert Ftp().blank.Keys == {2, 3, 4, 5};
    assert Ftp().always + Ftp().optional + [Ftp().status] == [4, 3, 5];
  }

  lemma EntryText()
    ensures OidText.Text(Ftp().entry) == ".1.3.6.1.4.1.3204.1.3.34.4.4.1"
  {
    OidText.GroupText();
    OidText.Prepend(1, [], [1]);
    OidText.Prepend(4, [1], [4, 1]);
    OidText.Prepend(4, [4, 1], [4, 4, 1]);
    OidText.TextConcat([1, 3, 6, 1, 4, 1, 3204, 1, 3, 34], [4, 4, 1]);
    assert [1, 3, 6, 1, 4, 1, 3204, 1, 3, 34] + [4, 4, 1] == Ftp().entry;
  }

  /** The prefixes of the stored list, with the index behind them, are the texts of the columns' OIDs. */
  lemma StoredOids(index: nat)
    ensures ".1.3.6.1.4.1.3204.1.3.34.4.4.1.4." + IntText(index) == ColumnOid(Ftp(), PORT_NO, index)
    ensures ".1.3.6.1.4.1.3204.1.3.34.4.4.1.3." + IntText(index) == ColumnOid(Ftp(), IP_ADDRESS, index)
    ensures ".1.3.6.1.4.1.3204.1.3.34.4.4.1.5." + IntText(index) == ColumnOid(Ftp(), STATUS, index)
  {
    EntryText();
    StoredOid(Ftp(), PORT_NO, index);
    StoredOid(Ftp(), IP_ADDRESS, index);
    StoredOid(Ftp(), STATUS, index);
  }

  lemma CreationCountsBoth(s: State, index: nat, cells: seq<Cell>, clock: Clock)
    requires Inv(Ftp(), s) && Accepts(Ftp(), s, index, cells, clock) && DistinctColumns(cells)
    requires Asked(Ftp(), cells) == CREATE_AND_GO
    ensures Count(cells, Ftp().mandatory) == |Ftp().mandatory|
  {
    CreationWritesRequired(Ftp(), s, index, cells, clock, 0);
    CreationWritesRequired(Ftp(), s, index, cells, clock, 1);
    CountIff(cells, Ftp().mandatory);
  }

  predicate HasPortAndAddress(row: Row)
  {
    && PORT_NO in row && row[PORT_NO] != Number(0)
    && IP_ADDRESS in row && row[IP_ADDRESS] != Address([0, 0, 0, 0])
  }

  lemma CompleteMeans(row: Row)
    requires RowOf(Ftp(), row)
    ensures Complete(Ftp(), row) <==> HasPortAndAddress(row)
  {
    assert Ftp().blank.Keys == {2, 3, 4, 5};
    assert Ftp().required[0] == PORT_NO && Ftp().required[1] == IP_ADDRESS;
  }

  /** In every reachable state an active row has a port and an address, and a restart keeps every row. */
  lemma ActiveRowsHavePortAndAddress(steps: seq<Step>, index: nat)
    ensures Coherent(Ftp())
    ensures var s := Run(Ftp(), steps);
            && Restarted(s) == s
            && (var r := Find(s.rows, index);
                r.Some? && StatusOf(Ftp(), r.value) == ACTIVE ==> HasPortAndAddress(r.value))
  {
    FtpIsCoherent();
    var s := Run(Ftp(), steps);
    ActiveRowsAreComplete(Ftp(), steps, index);
    FoundIsOf(Ftp(), s.rows, index);
    if Find(s.rows, index).Some? {
      CompleteMeans(Find(s.rows, index).value);
    }
  }

  /** In every reachable state, a committed SET sends a trap exactly when it deletes the row or leaves it with a port
      and an address; so every SET that leaves a row active sends one. */
  lemma TrapSentExactlyWhen(steps: seq<Step>, index: nat, cells: seq<Cell>, clock: Clock)
    requires index <= MAX_INDEX && DistinctColumns(cells)
    ensures Coherent(Ftp())
    ensures var s := Run(Ftp(), steps);
            var r := Set(Ftp(), s, index, cells, clock);
            var row := Find(r.next.rows, index);
            r.committed ==>
              && (row.None? <==> Asked(Ftp(), cells) == DESTROY)
              && (r.trap.Some? <==> row.None? || HasPortAndAddress(row.value))
              && (row.Some? && StatusOf(Ftp(), row.value) == ACTIVE ==> r.trap.Some?)
  {
    FtpIsCoherent();
    var s := Run(Ftp(), steps);
    if Accepts(Ftp(), s, index, cells, clock) {
      SavedIsRow(Ftp(), s, index, cells, clock);
      ActionedIsOf(Ftp(), s, index, cells, clock);
      TrapSentIff(Ftp(), s, index, cells, clock);
      var row := After(Ftp(), Existing(Ftp(), s, index), cells, clock);
      CompleteMeans(row);
      if Asked(Ftp(), cells) == CREATE_AND_GO {
        CreationIsComplete(Ftp(), s, index, cells, clock);
        CreationCountsBoth(s, index, cells, clock);
      }
    }
  }

  /** Such a trap carries the port's OID and the address's OID exactly once each, with the values the row now holds,
      and never more than four variables. The port is whole; the address is cut at its first zero octet unless the
      request writes it. */
  lemma TrapCarriesPortAndAddress(steps: seq<Step>, index: nat, cells: seq<Cell>, clock: Clock)
    requires index <= MAX_INDEX && DistinctColumns(cells)
    ensures Coherent(Ftp())
    ensures var r := Set(Ftp(), Run(Ftp(), steps), index, cells, clock);
            var row := Find(r.next.rows, index);
            r.committed && row.Some? && r.trap.Some? ==>
              && RowOf(Ftp(), row.value) && |r.trap.value| <= 4
              && row.value[4].Number? && row.value[3].Address?
              && Carries(r.trap.value, ColumnOid(Ftp(), 4, index), row.value[4], true)
              && Carries(r.trap.value, ColumnOid(Ftp(), 3, index), row.value[3], Has(cells, 3))
  {
    FtpIsCoherent();
    var s := Run(Ftp(), steps);
    var r := Set(Ftp(), s, index, cells, clock);
    if r.committed {
      SavedIsRow(Ftp(), s, index, cells, clock);
      if Asked(Ftp(), cells) != DESTROY && r.trap.Some? {
        TrapFits(Ftp(), s, index, cells, clock);
        TrapCarriesRequired(Ftp(), s, index, cells, clock, 0);
        TrapCarriesRequired(Ftp(), s, index, cells, clock, 1);
        NumberIsWhole(r.trap.value, ColumnOid(Ftp(), PORT_NO, index), Find(r.next.rows, index).value[PORT_NO].n,
                      Has(cells, PORT_NO));
      }
    }
  }

  lemma WholeIff(octets: seq<byte>)
    ensures CString(octets) == octets <==> 0 !in octets
  {
    if 0 !in octets {
      assert octets[..|octets|] == octets;
      CStringUnique(octets, |octets|);
    }
  }

  /** A number is never cut. */
  lemma NumberIsWhole(list: seq<VarBind>, oid: string, n: int, whole: bool)
    requires Carries(list, oid, Number(n), whole)
    ensures Carries(list, oid, Number(n), true)
  {
    var k :| 0 <= k < |list| && list[k].oid == oid && Shows(list[k], Number(n), whole);
    assert Shows(list[k], Number(n), true);
  }

  /** What the columns of a request must be, for it to get past the RESERVE phases. */
  lemma TypedIff(cell: Cell)
    ensures Typed(Ftp(), cell) <==>
            match cell.column
            case 2 => cell.value.Text?
            case 3 => cell.value.Address? && |cell.value.octets| == 4
            case 4 => cell.value.Number?
            case 5 => cell.value.Number?
            case _ => false
  {
    assert Ftp().blank.Keys == {2, 3, 4, 5};
  }

  /** After an accepted SET that deletes nothing, identifier, address and port hold what was written, or else what they
      held, and no other row changes. */
  lemma SetStores(steps: seq<Step>, index: nat, cells: seq<Cell>, clock: Clock, i: nat, column: nat, k: nat)
    requires DistinctColumns(cells) && i < |cells| && (column == 2 || column == 3 || column == 4) && k != index
    ensures Coherent(Ftp())
    ensures var s := Run(Ftp(), steps);
            var r := Set(Ftp(), s, index, cells, clock);
            var row := Find(r.next.rows, index);
            r.committed && Asked(Ftp(), cells) != 6 ==>
              && row.Some? && column in row.value && column in Existing(Ftp(), s, index)
              && Find(r.next.rows, k) == Find(s.rows, k)
              && (cells[i].column == column ==> row.value[column] == cells[i].value)
              && (!Has(cells, column) ==> row.value[column] == Existing(Ftp(), s, index)[column])
  {
    FtpIsCoherent();
    var s := Run(Ftp(), steps);
    if Accepts(Ftp(), s, index, cells, clock) {
      SetTakesEffect(Ftp(), s, index, cells, clock, column, k);
      if cells[i].column == column {
        GivenIs(Ftp(), Existing(Ftp(), s, index), cells, clock, i);
      }
    }
  }

  lemma StoredIs(row: Row)
    ensures StoredColumns(Ftp(), row) == if StatusOf(Ftp(), row) == 2 then [4, 3, 5] else [4, 3]
  {
    assert NotBlank(row, []) == [];
  }

  lemma StoredNames(row: Row, column: nat)
    ensures column in StoredColumns(Ftp(), row) <==>
            column == 3 || column == 4 || (column == 5 && StatusOf(Ftp(), row) == 2)
  {
    StoredIs(row);
  }

  /** A trap that tells of a change names the columns written, the port and the address, and the status exactly when
      it was written or the row is out of service. */
  lemma TrapNamesExactly(steps: seq<Step>, index: nat, cells: seq<Cell>, clock: Clock, column: nat)
    requires index <= MAX_INDEX && DistinctColumns(cells)
    ensures Coherent(Ftp())
    ensures var r := Set(Ftp(), Run(Ftp(), steps), index, cells, clock);
            var row := Find(r.next.rows, index);
            r.committed && r.trap.Some? && Asked(Ftp(), cells) != 6 && Asked(Ftp(), cells) != 4 ==>
              && row.Some?
              && (Names(r.trap.value, ColumnOid(Ftp(), column, index)) <==>
                  || Has(cells, column) || column == 3 || column == 4
                  || (column == 5 && StatusOf(Ftp(), row.value) == 2))
  {
    FtpIsCoherent();
    var s := Run(Ftp(), steps);
    var r := Set(Ftp(), s, index, cells, clock);
    if r.committed && r.trap.Some? && Asked(Ftp(), cells) != DESTROY && Asked(Ftp(), cells) != CREATE_AND_GO {
      TrapNames(Ftp(), s, index, cells, clock, column);
      StoredNames(Find(r.next.rows, index).value, column);
    }
  }

  /** In every reachable state, the address variable of a trap is the whole address of the row exactly when the
      request writes the address or it holds no zero octet. */
  lemma AddressIsWholeIff(steps: seq<Step>, index: nat, cells: seq<Cell>, clock: Clock)
    requires index <= MAX_INDEX && DistinctColumns(cells)
    ensures Coherent(Ftp())
    ensures var r := Set(Ftp(), Run(Ftp(), steps), index, cells, clock);
            var row := Find(r.next.rows, index);
            r.committed && row.Some? && r.trap.Some? ==>
              && RowOf(Ftp(), row.value)
              && row.value[3].Address?
              && (Carries(r.trap.value, ColumnOid(Ftp(), 3, index), row.value[3], true) <==>
                  Has(cells, 3) || 0 !in row.value[3].octets)
  {
    TrapCarriesPortAndAddress(steps, index, cells, clock);
    var r := Set(Ftp(), Run(Ftp(), steps), index, cells, clock);
    var row := Find(r.next.rows, index);
    if r.committed && row.Some? && r.trap.Some? {
      CutIffZero(r.trap.value, ColumnOid(Ftp(), IP_ADDRESS, index), row.value[IP_ADDRESS].octets,
                 Has(cells, IP_ADDRESS));
    }
  }

  lemma CutIffZero(list: seq<VarBind>, oid: string, octets: seq<byte>, written: bool)
    requires Carries(list, oid, Address(octets), written)
    ensures Carries(list, oid, Address(octets), true) <==> written || 0 !in octets
  {
    WholeIff(octets);
    if Carries(list, oid, Address(octets), true) {
      CarriesOneValue(list, oid, octets, written, true);
    }
  }

  const NO_TIME := Clock([], [], [])

  /** A host at 10.0.0.1, port 21. */
  function HostCells(): seq<Cell>
  {
    [Cell(IP_ADDRESS, Address([10, 0, 0, 1])), Cell(PORT_NO, Number(21)), Cell(STATUS, Number(CREATE_AND_GO))]
  }

  function PortCells(): seq<Cell>
  {
    [Cell(PORT_NO, Number(2121))]
  }

  lemma FirstOctet()
    ensures CString([10, 0, 0, 1]) == [10]
  {
    CStringUnique([10, 0, 0, 1], 1);
    assert [10, 0, 0, 1][..1] == [10];
  }

  lemma PortText()
    ensures ValueOctets(Number(2121)) == [50, 49, 50, 49]
  {
    assert NatText(2) == "2" && NatText(21) == "21" && NatText(212) == "212" && NatText(2121) == "2121";
    assert Ascii("2121") == [50, 49, 50, 49];
  }

  lemma HostCellsAreGood()
    ensures var cells := HostCells();
            && DistinctColumns(cells) && (forall i :: 0 <= i < |cells| ==> Typed(Ftp(), cells[i]))
            && Asked(Ftp(), cells) == CREATE_AND_GO
            && forall i :: 0 <= i < |Ftp().required| ==> Writes(cells, Ftp().required[i])
  {
    var cells := HostCells();
    AskedByOne(Ftp(), cells, 2);
    assert cells[1].column == PORT_NO && cells[0].column == IP_ADDRESS;
    assert Writes(cells, PORT_NO) && Writes(cells, IP_ADDRESS);
  }

  lemma PortCellsAreGood()
    ensures var cells := PortCells();
            && DistinctColumns(cells) && (forall i :: 0 <= i < |cells| ==> Typed(Ftp(), cells[i]))
            && (forall i :: 0 <= i < |cells| ==> !Blank(cells[i].value))
            && !Has(cells, STATUS) && !Has(cells, IP_ADDRESS) && !Silent(Ftp(), cells)
  {
  }

  /** The first variable of a trap that tells of that change. */
  lemma PortIsSent(s: State)
    requires Inv(Ftp(), s) && Accepts(Ftp(), s, 1, PortCells(), NO_TIME)
    requires Set(Ftp(), s, 1, PortCells(), NO_TIME).trap.Some?
    ensures var trap := Set(Ftp(), s, 1, PortCells(), NO_TIME).trap.value;
            trap != [] && trap[0] == VarBind(ColumnOid(Ftp(), 4, 1), 'i', [50, 49, 50, 49])
  {
    var rows := Applied(Ftp(), s, 1, PortCells(), NO_TIME);
    AppliedIsOf(Ftp(), s, 1, PortCells(), NO_TIME);
    FoundIsOf(Ftp(), rows, 1);
    TrapBegins(Ftp(), 1, PortCells(), After(Ftp(), Existing(Ftp(), s, 1), PortCells(), NO_TIME), Find(rows, 1));
    PortText();
    assert Arguments(Ftp(), 1, PortCells())[0] == Argument(Ftp(), 1, PortCells()[0]);
  }

  /** The port of that host is then set: the trap carries it as the text 2121, and the address 10.0.0.1 as the single
      octet 10. */
  lemma AddressIsCut()
    ensures Coherent(Ftp())
    ensures var s := Run(Ftp(), [SetRow(1, HostCells(), NO_TIME)]);
            var r := Set(Ftp(), s, 1, PortCells(), NO_TIME);
            var row := Find(r.next.rows, 1);
            && r.committed && r.trap.Some? && row.Some?
            && 3 in row.value && row.value[3] == Address([10, 0, 0, 1])
            && r.trap.value != [] && r.trap.value[0] == VarBind(ColumnOid(Ftp(), 4, 1), 'i', [50, 49, 50, 49])
            && exists k :: 0 <= k < |r.trap.value| && r.trap.value[k] == VarBind(ColumnOid(Ftp(), 3, 1), 's', [10])
  {
    FtpIsCoherent();
    HostCellsAreGood();
    PortCellsAreGood();
    GivenIs(Ftp(), Ftp().blank, HostCells(), NO_TIME, 0);
    CreatedFirst(Ftp(), 1, HostCells(), NO_TIME, 1);
    var s := Run(Ftp(), [SetRow(1, HostCells(), NO_TIME)]);
    ChangeKeepsRequired(Ftp(), s, 1, PortCells(), NO_TIME, 1);
    PortIsSent(s);
    FirstOctet();
    AddressShown(Set(Ftp(), s, 1, PortCells(), NO_TIME).trap.value, ColumnOid(Ftp(), 3, 1), [10, 0, 0, 1]);
  }

  lemma AddressShown(list: seq<VarBind>, oid: string, octets: seq<byte>)
    requires Carries(list, oid, Address(octets), false)
    ensures exists k :: 0 <= k < |list| && list[k] == VarBind(oid, 's', CString(octets))
  {
    var k :| 0 <= k < |list| && list[k].oid == oid && Shows(list[k], Address(octets), false);
    assert list[k] == VarBind(oid, 's', CString(octets));
  }
}
