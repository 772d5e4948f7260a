# Verified models of the NAS sub-agent

The sub-agent answers SNMP requests for a set of management tables, keeps their rows in files, and watches files and
processors. This project models its stateful parts in Dafny and proves what they keep over whole runs. `dafny verify
dfyconfig.toml` checks everything.

## What is modelled

- **File monitor** (`FileMonRow`, `FileMonRowContext`, `FileMonStore`, `FileMonDetector`, `FileMonMachine`,
  `FileMonInvariants`, `FileMonRuns`, `FileMonEffects`, `FileMonAgent`). Rows with their C buffers, SET with undo, the
  data file with its upsert, tombstones, reload and compaction, the polling workers, and the modification detector.
  `FileMonMachine` is the transition system; `FileMonRuns` and `FileMonEffects` say what its runs keep and what its
  steps make of every column; `FileMonAgent` and the classes below it are the handlers in place, each proved to move
  the state as its step does.
- **Persisted configuration** (`Scanf`, `ConfigFields`, `ConfigFormats`, `SubAgentConfig`, `AgentInfo`, `ScanWords`,
  `AgentInfoRestart`). A printer and a parser with the token rules of `fscanf`, written through at every commit, and
  what the parser makes of a file with arbitrary strings in it, told from their words.
- **Access-control tables** (`OidText`, `VarBinds`, `TableContainer`, `TrapTable`, `TrapTableProofs`, `AllowFtp`,
  `AppMetering`, `TrapTableAgent`). The two tables share one structure, so it is written once over a schema that holds
  what differs: columns, guard, counted columns, stored list, silent columns, the deletion's extra variable, and the two
  dates the metering table sets by itself.
- **Record migration** (`StructLayout`, `FormatDetection`, `ConvLog`, `ConvPs`). C structure layout for 4- and 8-octet
  words, block copy and fix-ups on octets, and the guess of a file's format from its size. The lemmas hold for any two
  layouts that share their front fields and have the tails of these tables; `TableLayouts` says the tables are such.
- **Processor shares** (`CpuShares`).

`Octets`, `Decimal`, `Options` and `RowStatus` are what they share.

## Assumptions

- Worker turns of the file monitor come between SET transactions, not inside them; a worker carries its index by value.
- Thread creation and file operations succeed, reads and writes move whole records, and nothing crashes during a
  compaction.
- Values fit their buffers; a table index spelled for a trap has at most four digits; a request writes a column once.
- Integers of the configuration files are 32 bits wide, as `SIZEOF_LONG` in
  Group1/net-snmp-5.8/include/net-snmp/net-snmp-config.h says; processor counters do not overflow.
- A row is filed under one sub-identifier, its index. One request sets columns of one row.
- A field of a configuration file that the source names one by one is an array element here, read and printed by a loop
  in the file's order. The undo copy of a row is a value, since nothing writes it while it exists.
- The dates an access-control SET stamps are inputs of the step, as are the octets behind the column its COMMIT fills,
  which decide with the visible ones whether that column holds a string.
- An address is its four octets, and the table code's test for zero is a test of all four.
- Row status follows the bundled net-snmp 5.8: createAndGo is refused for an existing row, and the three activation
  callbacks of every table answer yes.

## Where the code departs from what it seems to promise

- Undo restores what GET answers but not the NUL behind a text (`FileMonRow.UndoRestoresStringIff`); a date stamped by a
  commit is safe from this (`FileMonRuns.UndoKeepsStampedDate`). A refused rename can leave an active row that passes
  the worker's own test and has no worker (`FileMonRuns.StrlenLivenessFails`); by the name GET shows, liveness always
  holds.
- A restart starts workers for inactive rows too (`FileMonRuns.RestartWorkers`); they end at their first turn.
- The date comparison stops at the first zero field, so modifications within the hour after midnight or within the first
  minute of an hour can be missed (`FileMonDetector.KeysEqualIff`).
- The temporary file of a compaction is not truncated (`FileMonStore.CompactionExactIff`).
- The agent's own parameters survive a restart only when every string is a word (`AgentInfo.RestartIsInvisibleIff`);
  otherwise the transfer interval can fall below its minimum (`AgentInfo.IntervalCanFall`), and
  `AgentInfoRestart.IntervalSurvivesIff` says exactly when it does not.
- A trap carries an address it takes from the file only up to its first zero octet (`AllowFtp.AddressIsWholeIff`):
  10.0.0.1 is sent as 10 (`AllowFtp.AddressIsCut`).
- A metering row created without a reaction, or together with a user name, is active and nothing is sent
  (`AppMetering.TrapSentExactlyWhen`, `AppMetering.CreationWithoutReactionIsSilent`,
  `AppMetering.CreationWithUserNameIsSilent`); a deletion that also writes the binary name sends it twice
  (`AppMetering.DeletionTrap`, `AppMetering.CreatedRowIsNamedTwice`).
- The check in both tables that an active row must not be modified has no effect: its result is overwritten by the next
  statement.
- `conv_ps.c` overwrites two new settings on a 64-bit machine (`ConvPs.ExactIff`), and a second run of either converter
  damages tables of certain sizes (`FormatDetection.SecondRunIsNoOpIff`).

## Model

| member | source | states |
|---|---|---|
| FileMonRow.StoreText | Group1/FileMon/src/fileMonitorTable.c:803-808 | a text column write: GET shows the value and a NUL ends it |
| FileMonRow.CopyText | Group1/FileMon/src/fileMonitorTable.c:156-224 | the row copy of a text column shows the source's octets, but brings no NUL with them |
| FileMonRow.UndoRestoresAnswers | Group1/FileMon/src/fileMonitorTable.c:156-224 | after any group of column writes, undo gives every column of GET its old answer and leaves thread flag, idx and index alone |
| FileMonRow.UndoRestoresStringIff | Group1/FileMon/src/fileMonitorTable.c:156-224 | for every stored text: the NUL-terminated string the worker reads is restored if and only if it ended before the stored length, or the refused value is shorter than that length, or what the value holds from there on reads like what stood there |
| FileMonRow.UndoRestoresTerminatedIff | Group1/FileMon/src/fileMonitorTable.c:156-224 | for a column that ends with its stored length: if and only if the refused value does not reach past that length, or has a NUL just there |
| FileMonRow.UndoLeavesResidue | Group1/FileMon/src/fileMonitorTable.c:156-224 | a refused SET after which GET answers an empty name while the worker reads one letter |
| FileMonRowContext.RowContext.constructor | Group1/FileMon/src/fileMonitorTable.c:368-390 | a created row: zeroed buffers, its index, interval 30 |
| FileMonRowContext.RowContext.Duplicated | Group1/FileMon/src/fileMonitorTable.c:400-418 | the undo copy taken from the live buffers |
| FileMonRowContext.RowContext.StoreColumn | Group1/FileMon/src/fileMonitorTable.c:802-870 | each text branch of the column switch changes its own buffer and length only |
| FileMonRowContext.RowContext.SetAction | Group1/FileMon/src/fileMonitorTable.c:792-900 | the loop over a request in place equals the fold of its writes with the settled status |
| FileMonRowContext.RowContext.CopyFrom | Group1/FileMon/src/fileMonitorTable.c:156-224 | the row copy in place, buffer by buffer, keeping thread flag and idx |
| FileMonRowContext.RefusedSet | Group1/FileMon/src/fileMonitorTable.c:156-224 | duplicate, ACTION and copy back on the real buffers leave every GET answer as it was |
| FileMonStore.UpsertChangesOneRecord | Group1/FileMon/src/fileMonitorTable.c:1941-1973 | the upsert keeps indexes distinct, changes at most the record with the index, keeps the others in place, and grows only when the index is absent |
| FileMonStore.UpsertRefines | Group1/FileMon/src/fileMonitorTable.c:1923-2002 | read as a map without tombstones, the upsert is an update, or for a tombstone a removal, of one key |
| FileMonStore.UpdateDataFile | Group1/FileMon/src/fileMonitorTable.c:1923-2002 | the read, seek and write loop performs the upsert at the remembered position, clears the thread flag of a tombstone, and answers 1 exactly when a live record had the index |
| FileMonStore.LoadRebuildsView | Group1/FileMon/src/fileMonitorTable.c:1641-1712 | loading a file gives exactly the map of its live records, each filed under its own index |
| FileMonStore.LoadsWholeRecord | Group1/FileMon/src/fileMonitorTable.c:1670-1705 | every live record of a file is loaded whole, all columns and the thread flag, under its own index |
| FileMonStore.LoadRecords | Group1/FileMon/src/fileMonitorTable.c:1670-1712 | the loading loop fills the container and notices exactly whether there is a tombstone |
| FileMonStore.LiveIsSubsequence | Group1/FileMon/src/fileMonitorTable.c:1715-1745 | compaction keeps only live records, in file order |
| FileMonStore.LiveHoldsAll | Group1/FileMon/src/fileMonitorTable.c:1715-1745 | compaction keeps every live record |
| FileMonStore.CompactionKeepsView | Group1/FileMon/src/fileMonitorTable.c:1715-1755 | compaction does not change the map |
| FileMonStore.CompactionKeepsLoad | Group1/FileMon/src/fileMonitorTable.c:1715-1755 | the compacted file loads to the same container |
| FileMonStore.CompactionIsIdentityOnClean | Group1/FileMon/src/fileMonitorTable.c:1710-1713 | a file without tombstones is left as it is, so a second compaction changes nothing |
| FileMonStore.CompactionExactIff | Group1/FileMon/src/fileMonitorTable.c:1662-1667 | the temporary file is not truncated when opened: compaction is exact if and only if a left-over one is no longer than the live records |
| FileMonStore.RewriteLive | Group1/FileMon/src/fileMonitorTable.c:1715-1745 | the second loop writes the live records over the temporary file |
| FileMonStore.LoadContainerFromFile | Group1/FileMon/src/fileMonitorTable.c:1641-1763 | start-up returns the loaded container, leaves the compacted data file and consumes the temporary one |
| FileMonDetector.KeyIsCString | Group1/FileMon/src/fileMonitorTable.c:2149-2181 | strcpy of a date keeps its octets up to the first zero field |
| FileMonDetector.DateOctetsDenote | Group1/FileMon/src/fileMonitorTable.c:2149-2181 | the octets written for a time, read as the DateAndTime of RFC 2579, denote that time, or the first of January of the year 0 for no time |
| FileMonDetector.KeysEqualIff | Group1/FileMon/src/fileMonitorTable.c:1587-1592 | two times compare equal if and only if they agree in every field up to the first zero one |
| FileMonDetector.KeysSeparateTimes | Group1/FileMon/src/fileMonitorTable.c:1587-1592 | for a year not divisible by 256 and a non-zero hour and minute, only the same second compares equal |
| FileMonDetector.MidnightHidesModification | Group1/FileMon/src/fileMonitorTable.c:1587-1592 | two times in the hour after midnight that the comparison takes for one |
| FileMonDetector.Poll | Group1/FileMon/src/fileMonitorTable.c:1579-1607 | one poll sends a trap exactly when the stored key differs, and stores the new key |
| FileMonDetector.TrapsAreChanges | Group1/FileMon/src/fileMonitorTable.c:1517-1607 | over any sequence of polls the traps sent are exactly the changes of key |
| FileMonDetector.UnchangedFiresAtMostOnce | Group1/FileMon/src/fileMonitorTable.c:1517-1607 | an unchanged modification time sends at most one trap |
| FileMonMachine.CommitRow | Group1/FileMon/src/fileMonitorTable.c:951-1029 | the commit fills dates, size and owner, keeps every manager-set column, and raises the flag of a watchable active row |
| FileMonInvariants.SetKeepsStore | Group1/FileMon/src/fileMonitorTable.c:925-1032 | a committed SET keeps the data file equal to the container |
| FileMonInvariants.SetKeepsWorkers | Group1/FileMon/src/fileMonitorTable.c:951-1029 | a committed SET keeps worker liveness and the worker bound |
| FileMonInvariants.RefusedSetKeeps | Group1/FileMon/src/fileMonitorTable.c:156-224 | an undone SET keeps all invariants |
| FileMonInvariants.WakeKeepsStore | Group1/FileMon/src/fileMonitorTable.c:1523-1607 | a worker's turn keeps the data file equal to the container |
| FileMonInvariants.WakeKeepsWorkers | Group1/FileMon/src/fileMonitorTable.c:1523-1542 | a worker's turn or exit keeps liveness and the bound, also when its index was destroyed and created again while it slept |
| FileMonInvariants.RestartEstablishes | Group1/FileMon/src/fileMonitorTable.c:1446-1490 | a start over any well-formed data file establishes all invariants |
| FileMonInvariants.NextKeeps | Group1/FileMon/src/fileMonitorTable.c:925-1032 | every step keeps storage, liveness and the bound |
| FileMonRuns.RestartIsTransparent | Group1/FileMon/src/fileMonitorTable.c:1641-1763 | in every reachable state a restart rebuilds exactly the live container and compacts once and for all |
| FileMonRuns.WorkersAreLively | Group1/FileMon/src/fileMonitorTable.c:1013-1029 | in every reachable state a raised flag has a worker, and every active row with a shown name and an interval has one |
| FileMonRuns.WorkersAreBounded | Group1/FileMon/src/fileMonitorTable.c:1014-1021 | never more workers of an index than its flag plus its destroys; never two for an index never destroyed |
| FileMonRuns.StartIsReachable | Group1/FileMon/src/fileMonitorTable.c:1641-1763 | a start over any well-formed data file is a reachable state |
| FileMonRuns.SetTakesEffect | Group1/FileMon/src/fileMonitorTable.c:792-875 | after a committed SET, GET answers each text the manager wrote with the value written, and no other row changes |
| FileMonRuns.UndoKeepsStampedDate | Group1/FileMon/src/fileMonitorTable.c:156-224 | a date column stamped by a commit always reads the same to the worker after a refused SET of it, whatever the refused value was |
| FileMonRuns.RunSendsTraps | Group1/FileMon/src/fileMonitorTable.c:1504-1615 | along any run the traps sent are, in order, those of the wake-ups that reach the file and find a date other than the one stored |
| FileMonRuns.RunTrapsAreChanges | Group1/FileMon/src/fileMonitorTable.c:1517-1607 | along any run without a restart or a SET of the row, whatever its workers and the other rows do, the traps for an index are as many as the changes among the modification times its workers find |
| FileMonEffects.SetStoresColumns | Group1/FileMon/src/fileMonitorTable.c:792-1029 | after a committed SET, field by field: each of the columns a manager sets holds the last value written to it or what it held (30 for a new row's interval), the status is the one asked for, settled; dates, size and owner come from clock and file when the row is to be watched; the row is gone exactly when that was asked for; no other row changes |
| FileMonEffects.SetStoresRecord | Group1/FileMon/src/fileMonitorTable.c:1923-2002 | the record of the row in the data file holds every column as written last or as it was, and no other record changes |
| FileMonEffects.SetStartsWorker | Group1/FileMon/src/fileMonitorTable.c:1013-1029 | a SET starts a worker exactly when the row is then to be watched and its flag was down, and stops none |
| FileMonEffects.AcceptedIff | Group1/FileMon/src/fileMonitorTable.c:742-760 | which requests pass the RESERVE phases: an active or inactive row takes 1, 2 and 6 as status, an absent one 4, 5 and 6 |
| FileMonEffects.WakeTouchesOnly | Group1/FileMon/src/fileMonitorTable.c:1504-1615 | a worker's turn changes nothing but flag, size and modification time of its own row, each exactly as the branch it takes says; the worker ends exactly when the row is gone or inactive |
| FileMonEffects.RestartLoadsRecords | Group1/FileMon/src/fileMonitorTable.c:1641-1763 | a start gives back each live record of the file with every column, and a worker exactly when it has a name and an interval |
| FileMonEffects.BootLoadsRecords | Group1/FileMon/src/fileMonitorTable.c:1641-1763 | so does the first start |
| FileMonEffects.RestartedRowsAreRecords | Group1/FileMon/src/fileMonitorTable.c:1641-1712 | every row of a start stands in the file as a live record |
| FileMonEffects.FirstTurnAfterRestart | Group1/FileMon/src/fileMonitorTable.c:1579-1607 | the first turn after a start sends a trap only for a date other than the one in the data file |
| FileMonEffects.OnlySetsChangeRow | Group1/FileMon/src/fileMonitorTable.c:925-1032 | along any run, refused SETs, turns, restarts and SETs of other rows leave every column a manager sets: a value stored stays until the next committed SET of the row |
| FileMonRuns.DormantWorkersDrain | Group1/FileMon/src/fileMonitorTable.c:1523-1542 | while an index is inactive or absent, workers left plus wake-ups taken equal the workers there were |
| FileMonRuns.RefusedSetKeepsStrlenLivenessIff | Group1/FileMon/src/fileMonitorTable.c:951-953 | with the name read by strlen, liveness survives a refused rename if and only if it leaves no name behind a stored length of zero on an unwatched active row |
| FileMonRuns.OtherStepsKeepStrlenLiveness | Group1/FileMon/src/fileMonitorTable.c:951-953 | every other step keeps liveness by strlen |
| FileMonRuns.StrlenLivenessFails | Group1/FileMon/src/fileMonitorTable.c:951-953 | a run of two SETs that ends with an active, watchable row and no worker |
| FileMonAgent.Agent.constructor | Group1/FileMon/src/fileMonitorTable.c:1641-1763 | the first start establishes the invariants |
| FileMonAgent.Agent.Set | Group1/FileMon/src/fileMonitorTable.c:925-1032 | a committed SET moves the live state exactly as its step |
| FileMonAgent.Agent.SetAction | Group1/FileMon/src/fileMonitorTable.c:792-900 | the loop over a request gives the row of the step |
| FileMonAgent.Agent.SetCommit | Group1/FileMon/src/fileMonitorTable.c:925-1032 | the container, file and worker effects of one commit |
| FileMonAgent.Agent.FillIn | Group1/FileMon/src/fileMonitorTable.c:951-1029 | the part of the commit after the data file |
| FileMonAgent.Agent.Refuse | Group1/FileMon/src/fileMonitorTable.c:156-224 | a refused SET moves the live state exactly as its step |
| FileMonAgent.Agent.WakeUp | Group1/FileMon/src/fileMonitorTable.c:1504-1615 | a worker's turn keeps the invariants |
| FileMonAgent.Agent.Turn | Group1/FileMon/src/fileMonitorTable.c:1504-1615 | one turn of the polling loop is the wake step |
| FileMonAgent.Agent.Restart | Group1/FileMon/src/fileMonitorTable.c:1641-1763 | a restart of the process is the restart step, and establishes the invariants |
| FileMonAgent.Agent.MasterThread | Group1/FileMon/src/fileMonitorTable.c:1446-1490 | the pass over the container starts one worker for each watchable row |
| Scanf.ReadsNumber | Group1/Common/src/subAgentConfig.c:1840-1860 | fscanf and atoi read back a 32-bit number that was printed, whatever non-digit follows it |
| Scanf.ScanTokenBefore | Group1/Common/src/agentInfo.c:2193-2213 | fscanf reads back a non-empty word without white space, up to the gap behind it |
| ScanWords.WordsAcross | Group1/Common/src/agentInfo.c:2193-2213 | white space separates words and nothing else does: the words of two texts with white space between are those of the first and those of the second |
| ScanWords.TokensTakeWords | Group1/Common/src/agentInfo.c:2193-2213 | on any text at all, k calls of fscanf with a token conversion leave exactly the words behind the k-th |
| ScanWords.IntsFromWords | Group1/Common/src/agentInfo.c:2215-2221 | on any text at all, the number fields read by fscanf are the readings of the text's words in order; a call without a number, or behind a word no number starts with, leaves its field alone |
| ConfigFields.RoundTrip | Group1/Common/src/subAgentConfig.c:1832-1860 | a list of fields printed one a line is read back whole, whatever the fields held before |
| ConfigFields.RoundTripThrough | Group1/Common/src/subAgentConfig.c:1862-1894 | the same through one token buffer |
| ConfigFields.ReadFields | Group1/Common/src/subAgentConfig.c:1840-1860 | the sequence of fscanf calls fills the fields as the list parser says, and stops where it says |
| ConfigFields.ReadFieldsThrough | Group1/Common/src/subAgentConfig.c:1862-1894 | the loops through the token buffer, which keeps its last token at the end of the file |
| ConfigFields.PrintFields | Group1/Common/src/subAgentConfig.c:1767-1824 | the sequence of fprintf calls writes the fields one a line |
| SubAgentConfig.LoadUndoesPrint | Group1/Common/src/subAgentConfig.c:1832-1898 | reading a written file gives back all 18 numbers and 28 signed octets, on any current state and any left-over buffer |
| SubAgentConfig.PrintedWords | Group1/Common/src/subAgentConfig.c:1767-1824 | the words of a written file are the numbers in their order and then the octets in theirs, in decimal |
| SubAgentConfig.LoadIsValid | Group1/Common/src/subAgentConfig.c:1832-1898 | any file at all leaves numbers of 32 and octets of 8 bits |
| SubAgentConfig.NextKeepsInStep | Group1/Common/src/subAgentConfig.c:281-295 | a SET or restart keeps the file equal to the print of the configuration |
| SubAgentConfig.RestartIsInvisible | Group1/Common/src/subAgentConfig.c:1832-1898 | once in step, a restart changes neither configuration nor file |
| SubAgentConfig.RestartTransparency | Group1/Common/src/subAgentConfig.c:1762-1829 | over every run from any file: once a SET has written, the file is the print of the configuration and restarts are invisible |
| SubAgentConfig.SetChangesOneField | Group1/Common/src/subAgentConfig.c:281-357 | an accepted SET stores its value in its own field, or its four octets in its own address, and changes nothing else; a refused one changes nothing |
| SubAgentConfig.LastWriteHolds | Group1/Common/src/subAgentConfig.c:281-357 | over every run from any file or none, restarts included: each number is the last one accepted for it, or else the file's, or else 0; and so each octet of an address |
| SubAgentConfig.Agent.constructor | Group1/Common/src/subAgentConfig.c:24-55 | zeroed statics, then the file |
| SubAgentConfig.Agent.ReadFromFile | Group1/Common/src/subAgentConfig.c:1832-1898 | reading in place is the load function; no file changes nothing |
| SubAgentConfig.Agent.WriteToFile | Group1/Common/src/subAgentConfig.c:1762-1829 | the file becomes the print of the statics |
| SubAgentConfig.Agent.CommitNumber | Group1/Common/src/subAgentConfig.c:346-357 | a port or OID: fails on the wrong type, and writes the file even then |
| SubAgentConfig.Agent.CommitAddress | Group1/Common/src/subAgentConfig.c:281-295 | an address: fails on type or length, and then writes nothing |
| AgentInfo.LoadUndoesPrint | Group1/Common/src/agentInfo.c:2186-2247 | reading a written file gives back every field when all strings are words |
| AgentInfo.LoadedStringsAreGood | Group1/Common/src/agentInfo.c:2193-2213 | a string that was read is never empty and has no white space |
| AgentInfo.RestartIsInvisibleIff | Group1/Common/src/agentInfo.c:2121-2183 | after any SET, a restart gives every field back if and only if all 19 strings are non-empty and without white space |
| AgentInfo.BeforeNul | Group1/Common/src/agentInfo.c:369-372 | what a string column holds after memcpy and the terminating NUL |
| AgentInfo.NextStaysSound | Group1/Common/src/agentInfo.c:1854-1867 | SETs of words and restarts keep the strings words, the interval above its minimum and the file in step |
| AgentInfo.SetChangesOneField | Group1/Common/src/agentInfo.c:1854-1867 | an accepted SET stores its value in its own field and changes nothing else; an interval below 10 and values of the wrong type or length change nothing |
| AgentInfo.LastWriteHolds | Group1/Common/src/agentInfo.c:46-84 | from the first start, while only words are stored, and through any restarts: each string, number and octet is the last one accepted for it, or else the program's initial one |
| AgentInfo.IntervalStaysAboveMinimum | Group1/Common/src/agentInfo.c:1854-1867 | from the first start, while only words are stored, the transfer interval is at least 10 and every restart is invisible |
| AgentInfo.SplitNameShiftsFields | Group1/Common/src/agentInfo.c:2193-2221 | a name of two words shifts every number one place: the licence becomes the system time, the interval the alert port |
| AgentInfo.IntervalCanFall | Group1/Common/src/agentInfo.c:1854-1867 | two SETs and a restart after which the interval is below its minimum |
| AgentInfoRestart.PrintedWords | Group1/Common/src/agentInfo.c:2121-2183 | the words of a written file are the words of the strings, whatever strings they are, then the numbers and octets |
| AgentInfoRestart.NumbersRead | Group1/Common/src/agentInfo.c:2186-2247 | whatever the strings, a file that was written gives back the readings of the words behind the nineteenth |
| AgentInfoRestart.FewWords | Group1/Common/src/agentInfo.c:2186-2247 | strings of at most nineteen words in all: the six numbers read are those that stand in the file as many places further on as words are missing |
| AgentInfoRestart.SurplusText | Group1/Common/src/agentInfo.c:2186-2247 | more words, the twentieth of which is nothing a number starts with: no number is read |
| AgentInfoRestart.IntervalSurvivesIff | Group1/Common/src/agentInfo.c:1854-1867 | after any SET, whatever the strings, a restart leaves the interval at 10 or more if and only if the fourth reading behind the nineteenth word is missing, is no number, or is 10 or more |
| AgentInfoRestart.RestartedInterval | Group1/Common/src/agentInfo.c:1854-1867 | with W words of at most nineteen the interval becomes the entry 22 - W of numbers and octets; with more, the twentieth of which no number starts with, it becomes the initial one |
| AgentInfo.Agent.constructor | Group1/Common/src/agentInfo.c:46-84 | initialised statics, then the file |
| AgentInfo.Agent.ReadFromFile | Group1/Common/src/agentInfo.c:2186-2247 | reading in place is the load function |
| AgentInfo.Agent.WriteToFile | Group1/Common/src/agentInfo.c:2121-2183 | the file becomes the print of the statics |
| AgentInfo.Agent.CommitString | Group1/Common/src/agentInfo.c:363-373 | a string column; the file is written even when the SET fails |
| AgentInfo.Agent.CommitNumber | Group1/Common/src/agentInfo.c:1854-1867 | a number; the interval is refused below 10; the file is written even then |
| AgentInfo.Agent.CommitAddress | Group1/Common/src/agentInfo.c:425-436 | an address; the file is written even when the SET fails |
| AgentInfo.Agent.CommitInstallDate | Group1/Common/src/agentInfo.c:921-930 | the installation date, a prefix of its octets |
| OidText.TextInjective | Group1/G2Configure/src/allowFTPTable.c:1543-1549 | two identifiers have the same text if and only if they are equal, so strcmp decides equality |
| OidText.Spell | Group1/G2Configure/src/allowFTPTable.c:1543-1549 | the loop of sprintf and strcat spells the whole name |
| OidText.DottedInjective | Group1/Common/src/agentInfo.c:2014-2018 | two addresses have the same dotted text if and only if their four signed octets are equal |
| OidText.DottedIsText | Group1/Common/src/agentInfo.c:2014-2018 | the dotted text is that of the four octets, unsigned, in their order |
| VarBinds.MergedNames | Group1/G2Configure/src/allowFTPTable.c:1731-1773 | the merged list names exactly what the request or the stored list names |
| VarBinds.MergedDistinct | Group1/G2Configure/src/allowFTPTable.c:1731-1773 | the merged list repeats no OID |
| VarBinds.MergedCarries | Group1/G2Configure/src/allowFTPTable.c:1731-1773 | the request comes first, unchanged; behind it stands a copy of each stored variable it does not name, OID and type letter as they were and the value cut at the first NUL, and nothing else |
| VarBinds.Position | Group1/G2Configure/src/allowFTPTable.c:1741-1751 | the inner loop runs through exactly when the request does not name the OID |
| VarBinds.Merge | Group1/G2Configure/src/appMeteringTable.c:2717-2779 | the nested loops over the argument array compute the merged list in place, in both tables |
| TableContainer.LoadUndoesSave | Group1/G2Configure/src/allowFTPTable.c:2799-2875 | a saved container loads as it was |
| TableContainer.LoadSorted | Group1/G2Configure/src/allowFTPTable.c:2799-2875 | any file loads to a sorted container |
| TableContainer.LoadFinds | Group1/G2Configure/src/allowFTPTable.c:2799-2875 | the container loaded from any file has the rows a search of the file finds: of two records with one index the first |
| TableContainer.FindPut | Group1/net-snmp-5.8/agent/helpers/table_array.c:728-736 | after a row is stored, a search finds it at its index and the old rows elsewhere |
| TableContainer.FindRemove | Group1/net-snmp-5.8/agent/helpers/table_array.c:716-726 | after a removal a search finds the old rows everywhere else |
| TableContainer.PutBack | Group1/net-snmp-5.8/agent/helpers/table_array.c:787-804 | a row changed in place and copied back leaves the container as it was |
| TrapTableProofs.SetKeepsInv | Group1/G2Configure/src/allowFTPTable.c:1306-1350 | any SET, accepted or refused, keeps rows settled, active rows complete and the file equal to the container |
| TrapTableProofs.RestartIsInvisible | Group1/G2Configure/src/allowFTPTable.c:2799-2875 | a restart gives back the same container |
| TrapTableProofs.ActiveRowsAreComplete | Group1/G2Configure/src/allowFTPTable.c:1320-1345 | over all runs of SETs and restarts an active row has its required columns, in the container and in the file |
| TrapTableProofs.CreationIsComplete | Group1/G2Configure/src/allowFTPTable.c:1306-1345 | createAndGo is accepted only for an absent row and leaves it active and complete |
| TrapTableProofs.DestroyedIffAsked | Group1/G2Configure/src/allowFTPTable.c:1306-1312 | a row is deleted if and only if the request asks for it |
| TrapTableProofs.SavedIsRow | Group1/G2Configure/src/allowFTPTable.c:1449-1521 | what the search finds in the file after the save is the row as ACTION and the date of the COMMIT left it |
| TrapTableProofs.SetTakesEffect | Group1/G2Configure/src/appMeteringTable.c:1775-1950 | after an accepted SET every column but the status holds what the SET puts into it (the value written; the time of the SET in the column stamped at every ACTION; else the old value), save that a column to be filled gets the commit's date when it holds no string; other rows keep theirs |
| TrapTable.DateOverReads | Group1/G2Configure/src/appMeteringTable.c:2197-2206 | a date copied over a column reads as the date, whatever the buffer held |
| TrapTableProofs.CreationAcceptedIff | Group1/G2Configure/src/allowFTPTable.c:1306-1345 | a createAndGo is accepted if and only if the row is absent and the request gives every required column a value that is not blank |
| TrapTableProofs.NewRowAcceptedIff | Group1/G2Configure/src/allowFTPTable.c:1122-1345 | which requests are accepted for an absent row: those for 4, 5, 6 or no status, and 4 only with every required column |
| TrapTableProofs.ChangeAcceptedIff | Group1/G2Configure/src/allowFTPTable.c:1122-1345 | which requests are accepted for an existing row: those for 1, 2, 6 or no status that leave no required column of an active row blank |
| TrapTableProofs.StatusIsSet | Group1/net-snmp-5.8/agent/helpers/table_array.c:728-804 | the status a SET leaves: 1 for 1 and 4, gone for 6, else 2; without one as it was, and 2 for a new row |
| TrapTableProofs.TrapSentIff | Group1/G2Configure/src/allowFTPTable.c:1703-1803 | exactly when a committed SET sends a trap, for every table of this kind |
| TrapTableProofs.CountIff | Group1/G2Configure/src/allowFTPTable.c:1647-1693 | for distinct columns the count reaches its target if and only if every mandatory column is in the request |
| TrapTableProofs.TrapFits | Group1/G2Configure/src/allowFTPTable.c:1531-1779 | a trap fits the argument array, and without a deletion repeats no OID |
| TrapTableProofs.TrapCarriesRequired | Group1/G2Configure/src/allowFTPTable.c:1703-1803 | a trap for a row that stays carries each required column exactly once, with the row's value: whole when the request writes it, up to its first NUL otherwise |
| TrapTableProofs.TrapCarriesStored | Group1/G2Configure/src/allowFTPTable.c:1727-1779 | a trap of the default branch so carries every column of the stored list |
| TrapTableProofs.TrapShowsRequest | Group1/G2Configure/src/allowFTPTable.c:1531-1640 | every trap begins with a variable for each column written, in order: type letter i and the decimal text of the number, or type letter s and the octets |
| TrapTableProofs.NumberShows | Group1/G2Configure/src/allowFTPTable.c:1576-1583 | the text of a number in a trap denotes that number and is never cut at a NUL |
| TrapTableProofs.TrapNames | Group1/G2Configure/src/allowFTPTable.c:1727-1779 | a trap of the default branch names exactly the columns of the request and of the stored list |
| TrapTableProofs.StoredOid | Group1/G2Configure/src/allowFTPTable.c:2933-2936 | a column prefix with the index behind it is the text of the column's OID |
| TrapTableProofs.DeletionRepeatsIff | Group1/G2Configure/src/appMeteringTable.c:2653-2689 | a deletion's trap repeats an OID if and only if the request wrote the named column |
| TrapTableProofs.DeletionNames | Group1/G2Configure/src/appMeteringTable.c:2653-2689 | a deletion's trap is the request and one variable more, the named column as the SET left it, cut at its first NUL |
| AllowFtp.StoredOids | Group1/G2Configure/src/allowFTPTable.c:2933-2993 | the three literal prefixes are the texts of the port, address and status columns |
| AllowFtp.TypedIff | Group1/G2Configure/src/allowFTPTable.c:913-965 | the types RESERVE asks for: octets, a four-octet address, and numbers for port and status |
| AllowFtp.SetStores | Group1/G2Configure/src/allowFTPTable.c:1226-1275 | in every reachable state, after an accepted SET identifier, address and port hold the value written or what they held; no other row changes |
| AllowFtp.ActiveRowsHavePortAndAddress | Group1/G2Configure/src/allowFTPTable.c:1320-1345 | in every reachable state, after undo and after restarts, an active row has a non-zero port and address |
| AllowFtp.TrapSentExactlyWhen | Group1/G2Configure/src/allowFTPTable.c:1703-1803 | a committed SET sends a trap if and only if it deletes the row or leaves it with a port and an address; so always when it leaves the row active |
| AllowFtp.TrapNamesExactly | Group1/G2Configure/src/allowFTPTable.c:2985-3091 | a trap that tells of a change names the columns written, the port, the address, and the status exactly when written or the row is out of service |
| AllowFtp.TrapCarriesPortAndAddress | Group1/G2Configure/src/allowFTPTable.c:1703-1803 | such a trap carries the port and the address exactly once each: the port as a decimal text that denotes it, the address whole when the request writes it and up to its first zero octet otherwise, in at most four variables |
| AllowFtp.AddressIsWholeIff | Group1/G2Configure/src/allowFTPTable.c:1731-1773 | in every reachable state, the address variable of a trap is the row's whole address if and only if the request writes the address or it holds no zero octet |
| AllowFtp.AddressIsCut | Group1/G2Configure/src/allowFTPTable.c:1731-1773 | a run: a host is created at 10.0.0.1, a SET changes its port, and the trap carries the port as the text 2121 and the address as the single octet 10 |
| AppMetering.StoredOids | Group1/G2Configure/src/appMeteringTable.c:4425-4433 | the literal prefixes of binary name, start and end time are the texts of their columns |
| AppMetering.OtherStoredOids | Group1/G2Configure/src/appMeteringTable.c:4425-4434 | so are those of reaction, alert message and status |
| AppMetering.TypedIff | Group1/G2Configure/src/appMeteringTable.c:1009-1215 | the types RESERVE asks for: numbers for reaction and status, octets for the rest |
| AppMetering.SetStores | Group1/G2Configure/src/appMeteringTable.c:1775-2037 | in every reachable state, after an accepted SET a column holds the value written or what it held; the date of the last change reads as the time of the SET, an empty date of creation as that of the commit; no other row changes |
| AppMetering.ActiveRowsHaveTimesAndBinary | Group1/G2Configure/src/appMeteringTable.c:2043-2075 | in every reachable state an active row has both times and a binary name |
| AppMetering.CreationCountsAllIff | Group1/G2Configure/src/appMeteringTable.c:2635-2651 | an accepted creation reaches the count of four if and only if it writes the reaction |
| AppMetering.TrapSentExactlyWhen | Group1/G2Configure/src/appMeteringTable.c:2617-2827 | a committed SET sends a trap if and only if it does not write the user name, writes the reaction when it creates, and deletes the row or leaves it complete |
| AppMetering.CreationWithoutReactionIsSilent | Group1/G2Configure/src/appMeteringTable.c:2635-2651 | a first SET that is accepted, leaves an active row and sends nothing, because it does not write the reaction |
| AppMetering.CreationWithUserNameIsSilent | Group1/G2Configure/src/appMeteringTable.c:2617-2827 | another one, that writes all four counted columns and the user name |
| AppMetering.TrapCarriesTimesAndBinary | Group1/G2Configure/src/appMeteringTable.c:2717-2785 | such a trap carries binary name and both times exactly once each, whole when written and up to the first NUL otherwise, in at most fifteen variables |
| AppMetering.TrapNamesExactly | Group1/G2Configure/src/appMeteringTable.c:4510-4688 | a trap that tells of a change names the columns written, times, reaction, binary name, the alert message when there is one, and the status of a row out of service, each unwritten one with what the row holds |
| AppMetering.DeletionTrap | Group1/G2Configure/src/appMeteringTable.c:2653-2689 | a deletion's trap is the request and the binary name the row had, has at most sixteen variables, and repeats an OID exactly when the request also writes the binary name |
| AppMetering.CreatedRowIsNamedTwice | Group1/G2Configure/src/appMeteringTable.c:2653-2689 | a run: a row is created, then deleted by an accepted SET that writes its binary name too; the trap names that column twice |
| TrapTableAgent.Handlers.constructor | Group1/G2Configure/src/allowFTPTable.c:2799-2875 | a start loads the file |
| TrapTableAgent.Handlers.LoadContainerFromFile | Group1/G2Configure/src/allowFTPTable.c:2799-2875 | the loading loop inserts record by record |
| TrapTableAgent.Handlers.SaveContainer | Group1/G2Configure/src/allowFTPTable.c:1449-1521 | the save loop writes the rows in order |
| TrapTableAgent.Handlers.Reserve | Group1/G2Configure/src/allowFTPTable.c:996-1160 | the loops of both RESERVE phases accept exactly well-typed columns and legal status values |
| TrapTableAgent.Handlers.Act | Group1/G2Configure/src/appMeteringTable.c:1775-2037 | the ACTION phase stamps the date, applies the writes in a loop and settles the status |
| TrapTableAgent.Handlers.Prepare | Group1/G2Configure/src/allowFTPTable.c:996-1350 | the phases before COMMIT in place: accepted exactly as specified, refused with the container as it was |
| TrapTableAgent.Handlers.FillIn | Group1/G2Configure/src/appMeteringTable.c:2197-2206 | the COMMIT fills an empty date of creation, in the row and in the container |
| TrapTableAgent.Handlers.BuildArguments | Group1/G2Configure/src/allowFTPTable.c:1531-1695 | the COMMIT loop builds one argument a column and gathers count, status and silence |
| TrapTableAgent.Handlers.FillStored | Group1/G2Configure/src/appMeteringTable.c:4510-4688 | the required columns one by one: the stored list of a complete row, or failure |
| TrapTableAgent.Handlers.FillOptional | Group1/G2Configure/src/appMeteringTable.c:4630-4660 | an optional column follows when it is not blank |
| TrapTableAgent.Handlers.SearchIndexFromFile | Group1/G2Configure/src/allowFTPTable.c:2919-3091 | the search stops at the first record of the index and fails on a blank required column |
| TrapTableAgent.Handlers.AppendNamed | Group1/G2Configure/src/appMeteringTable.c:2653-2689 | a deletion appends the kept name without a merge |
| TrapTableAgent.Handlers.AppendStored | Group1/G2Configure/src/allowFTPTable.c:1727-1779 | every other SET merges the stored list |
| TrapTableAgent.Handlers.Decide | Group1/G2Configure/src/allowFTPTable.c:1703-1779 | the three ways a trap is completed, and whether it is sent |
| TrapTableAgent.Handlers.Commit | Group1/G2Configure/src/appMeteringTable.c:2197-2827 | date of creation, save, arguments and the decision on the trap |
| TrapTableAgent.Handlers.SetRow | Group1/G2Configure/src/allowFTPTable.c:1188-1803 | all phases in place: the live state, the file and the traps sent follow the specification, also when the row is copied back |
| StructLayout.AssignChangesOneField | conv_log.c:332-346 | an assignment to a structure field changes that field and no other |
| StructLayout.CopiedField | conv_log.c:326-329 | a block copy brings over every field that ends before the cut |
| StructLayout.FieldsArePacked | conv_log.c:15-151 | each field stands as close behind the one in front as its alignment allows, and the structure is filled up to whole words |
| StructLayout.EncodeDenotes | conv_log.c:333-345 | a number stored in n octets is read back modulo 256 to the n |
| FormatDetection.SplitUndoesJoin | conv_log.c:350-377 | records written one behind the other are read back one by one |
| FormatDetection.OldFileMigrates | conv_log.c:218-247 | a file of n > 0 old records is always recognised and becomes n converted records |
| FormatDetection.MigratedRecord | conv_log.c:218-247 | record i of the file a run leaves is record i of the old file, converted |
| FormatDetection.RunIsNoOpIff | conv_log.c:379-400 | a run leaves a file alone if and only if its size is not a multiple of the old record size |
| FormatDetection.DividesIff | conv_log.c:379-400 | n new records have the size of old ones if and only if n is a multiple of old / gcd(old, new) |
| FormatDetection.SecondRunIsNoOpIff | conv_log.c:379-400 | after n old records were converted, a second run changes nothing if and only if n is not a multiple of old / gcd(old, new) |
| FormatDetection.ReadRecords | conv_log.c:261-288 | the reading loop splits the file |
| FormatDetection.WriteRecords | conv_log.c:350-377 | the writing loop joins the records |
| FormatDetection.BlockCopy | conv_log.c:326-329 | the first loop copies the front of each record |
| ConvLog.TableLayouts | conv_log.c:15-151 | the two structures share their first 21 fields, end them with a word, and differ behind them as the lemmas below require |
| ConvLog.OverrunIsRewritten | conv_log.c:326-329 | the copy overruns the shared fields by 0 to 3 octets on a 32-bit and 16 to 23 on a 64-bit machine, always inside the three new words |
| ConvLog.ConvertedField | conv_log.c:319-348 | every field of a converted record holds its old value or its default, for every path length and word size, whatever the target held before |
| ConvLog.NamesSurvive | conv_log.c:341-342 | both file names survive as C strings |
| ConvLog.CopyRemainingFields | conv_log.c:333-345 | the eleven assignments of the second loop |
| ConvLog.ConvertItem | conv_log.c:319-348 | both loops over the table in place convert every record |
| ConvLog.Run | conv_log.c:218-247 | a run on a file: detect, convert every record, write back |
| ConvLog.FileIsConverted | conv_log.c:218-247 | a run on a file of old records leaves as many new ones, each with the fields of the old one in its place, a threshold of 0, a filter counter and a trap type of 1 and a counter of 0, down to their octets, and the names padded with NULs |
| ConvLog.SecondRun | conv_log.c:379-400 | when a second run is harmless, for every path length and word size |
| ConvLog.LinuxSecondRun | conv_log.c:379-400 | with 4097-octet names on a 32-bit machine: exactly when the number of rows is not a multiple of 2335 |
| ConvPs.TableLayouts | conv_ps.c:14-153 | the two structures share their first 21 fields, end them with a word, and differ behind them as the lemmas below require |
| ConvPs.CutIs | conv_ps.c:307-309 | the copy ends with the shared fields on a 32-bit machine and twelve octets behind them on a 64-bit one |
| ConvPs.ConvertedField | conv_ps.c:302-321 | every field of a converted record, including the two settings the overrun reaches on a 64-bit machine |
| ConvPs.ExactIff | conv_ps.c:302-321 | a record is converted as intended if and only if words have four octets, or its data pointer and the low half of its idx are zero |
| ConvPs.ExactOn32Bit | conv_ps.c:302-321 | with the converter's own tables every record is converted as intended on a 32-bit machine |
| ConvPs.CopyRemainingFields | conv_ps.c:313-319 | the five assignments of the second loop |
| ConvPs.ConvertItem | conv_ps.c:302-321 | both loops over the table in place convert every record |
| ConvPs.Run | conv_ps.c:201-235 | a run on a file: detect, convert every record, write back |
| ConvPs.FileIsConverted | conv_ps.c:201-235 | a run on a file of old records leaves as many new ones, each with the fields of the old one in its place, hours of -1, and zeros in the other settings but where a 64-bit copy overruns into the first two |
| ConvPs.SecondRun | conv_ps.c:352-373 | when a second run is harmless |
| CpuShares.SavedTotalIsConsistent | tnlist.c:188-194 | after every run the saved total is the sum of the four saved states, and the fifth is user plus kernel |
| CpuShares.CountersAreSums | tnlist.c:99-127 | each counter is the sum of its own figure over the lines of single processors, of which there are as many as counted |
| CpuShares.SampleSaves | tnlist.c:188-194 | a sample saves time, processors, and user, kernel, wait and idle time, their sum, and the time in use |
| CpuShares.SampleShares | tnlist.c:129-186 | every share after a sample, also when counters ran backwards: zero at the first, the old one when no time was counted, else the part towards zero and clamped |
| CpuShares.FirstSample | tnlist.c:48-68 | what a process starts with, and the zero shares of its first sample |
| CpuShares.NestedFloors | tnlist.c:151-162 | truncating to hundredths of a percent and then to percent gives the percent rounded down |
| CpuShares.SharesAreExact | tnlist.c:147-186 | with counters that advanced, each share and percentage is the exact quotient rounded down, in range, and no clamp acts |
| CpuShares.SharesAddUp | tnlist.c:147-186 | the four shares add up to 9997 to 10000, and the time in use is user plus kernel share or one more |
| CpuShares.SharesStayInRange | tnlist.c:71-194 | over every run with such counters all shares stay between 0 and 10000 and all percentages between 0 and 100 |
| CpuShares.Monitor.constructor | tnlist.c:48-68 | the initial record |
| CpuShares.Monitor.ReadCounters | tnlist.c:99-127 | the reading loop adds up the processors' counters and counts them |
| CpuShares.Monitor.SetShares | tnlist.c:149-186 | both share arrays, truncated and clamped |
| CpuShares.Monitor.SetCpuAverage | tnlist.c:71-194 | one sample in place is the step function |

## Left out

- Handler and table registration, OID tables, logging, and the empty column loops of the FREE and UNDO phases.
- The sending of traps and alerts, sockets and file transfer; a trap is an entry of a list.
- `stat`, `getpwuid`, `localtime`, `/proc/stat`, file modes and short reads and writes: their results are inputs.
- Crashes, recovery of a left-over temporary file beyond its exact effect on a compaction, and failures of `fopen`.
- Windows branches, oversized variable bindings, and rounding of floating-point quotients: quotients are exact before
  they are truncated.
- Octets behind the stored length in the access-control tables, but for the input named above: their texts are the
  visible octets. The file monitor models them.
- Requests that set several rows of an access-control table at once; each row's phases are taken as one step.
- Sharing of a row's memory between container, request and worker: rows are values in the container, and
  `FileMonRowContext` models one row's buffers in place. `FileMonAgent` and `TrapTableAgent` run the loop over a request
  on a row value; `FileMonAgent` takes duplicate and copy back, which have no loop, as functions on values.
- The allowTelnet, allowPOP3, allowSMTP and job tables and Group1/AgentInfo/src/agentInfo.c, which repeat modelled code
  with differences of their own, and the unimplemented compare and get stubs.
- FileMonRuns.WorkersAreLively: states liveness for the name GET shows; for the name `strlen` reads it fails, and
  FileMonRuns.RefusedSetKeepsStrlenLivenessIff says exactly when.
- AgentInfo.IntervalStaysAboveMinimum: one direction over whole runs; AgentInfoRestart.IntervalSurvivesIff has the exact
  condition for a restart after any SET.
