/** The sub-agent configuration: every committed SET writes the whole file, and a start reads it back. */
module SubAgentConfig {
  import opened Options
  import opened Decimal
  import opened Scanf
  import opened ConfigFields
  import opened ConfigFormats
  import opened ScanWords

  /** Twelve ports and six OIDs, in the order of the file. */
  const NUMBERS := 18

  const IPADD_LEN := 4

  /** Seven addresses of four signed octets. */
  const OCTETS := 28

  datatype Config = Config(numbers: seq<int>, octets: seq<int>)

  ghost predicate Valid(c: Config)
  {
    |c.numbers| == NUMBERS && |c.octets| == OCTETS && AllInt32(c.numbers) && AllInt8(c.octets)
  }

  /** The statics of a process that has not read its file yet. */
  function Zeroed(): (c: Config)
    ensures Valid(c)
  {
    Config(seq(NUMBERS, _ => 0), seq(OCTETS, _ => 0))
  }

  /** "%d" of each number, then of each octet, one a line. */
  function Print(c: Config): string
  {
    Lines(Texts(IntText, c.numbers)) + Lines(Texts(IntText, c.octets))
  }

  /** A file holds the numbers in their order and then the octets in theirs, in decimal. */
  lemma PrintedWords(c: Config)
    ensures Words(Print(c)) == Texts(IntText, c.numbers) + Texts(IntText, c.octets)
  {
    var first, second := Texts(IntText, c.numbers), Texts(IntText, c.octets);
    WordsOfThree(first, second, []);
    assert Lines(second) + Lines([]) == Lines(second) && WordsOf(second) + WordsOf([]) == WordsOf(second);
    WordsOfNumbers(c.numbers);
    WordsOfNumbers(c.octets);
  }

  /** What reading a file makes of the current configuration; the token buffer starts with whatever it holds. */
  function Load(text: string, current: Config, junk: string): Config
  {
    Config(Parse(ScanInt, text, current.numbers),
           ParseThrough(ScanToken, OctetValue, After(ScanInt, text, |current.numbers|), junk, |current.octets|))
  }

  /** A file that was written reads back as the configuration it was written from, on any current state. */
  lemma LoadUndoesPrint(c: Config, current: Config, junk: string)
    requires Valid(c) && |current.numbers| == NUMBERS && |current.octets| == OCTETS
    ensures Load(Print(c), current, junk) == c
  {
    NumbersChain(c.numbers);
    OctetsReadBack(c.octets, junk);
    RoundTrip(ScanInt, IntText, c.numbers, current.numbers, StartsClean, Lines(Texts(IntText, c.octets)));
  }

  /** Any file at all yields a configuration of the declared widths. */
  lemma LoadIsValid(text: string, current: Config, junk: string)
    requires Valid(current)
    ensures Valid(Load(text, current, junk))
  {
    NumbersStayInRange(text, current.numbers);
  }

  datatype State = State(config: Config, file: Option<string>)

  datatype Step =
    | SetNumber(which: nat, isInteger: bool, v: int)
    | SetAddress(which: nat, isAddress: bool, octets: seq<int>)
    | Restart(junk: string)

  ghost predicate Allowed(step: Step)
  {
    match step
    case SetNumber(which, _, v) => which < NUMBERS && IsInt32(v)
    case SetAddress(which, _, octets) => which < OCTETS / IPADD_LEN && AllInt8(octets)
    case Restart(_) => true
  }

  /** Octets 4 * which to 4 * which + 3 replaced. */
  function WithAddress(all: seq<int>, which: nat, octets: seq<int>): (r: seq<int>)
    requires IPADD_LEN * which + IPADD_LEN <= |all| && |octets| == IPADD_LEN
    ensures |r| == |all|
    ensures forall k :: 0 <= k < |r| ==>
              r[k] == if k / IPADD_LEN == which then octets[k % IPADD_LEN] else all[k]
  {
    all[..IPADD_LEN * which] + octets + all[IPADD_LEN * which + IPADD_LEN..]
  }

  function Boot(file: Option<string>, junk: string): (s: State)
    ensures s.file == file
  {
    State(if file.Some? then Load(file.value, Zeroed(), junk) else Zeroed(), file)
  }

  /** A number of the wrong type fails to commit but still writes the file; a wrong address does not. */
  function Next(s: State, step: Step): State
    requires |s.config.numbers| == NUMBERS && |s.config.octets| == OCTETS
    requires match step
             case SetNumber(which, _, _) => which < NUMBERS
             case SetAddress(which, _, _) => which < OCTETS / IPADD_LEN
             case Restart(_) => true
  {
    match step
    case SetNumber(which, isInteger, v) =>
      var c := if isInteger then s.config.(numbers := s.config.numbers[which := v]) else s.config;
      State(c, Some(Print(c)))
    case SetAddress(which, isAddress, octets) =>
      if !isAddress || |octets| != IPADD_LEN then s else
        var c := s.config.(octets := WithAddress(s.config.octets, which, octets));
        State(c, Some(Print(c)))
    case Restart(junk) => Boot(s.file, junk)
  }

  ghost predicate Writes(step: Step)
  {
    step.SetNumber? || (step.SetAddress? && step.isAddress && |step.octets| == IPADD_LEN)
  }

  /** Either nothing was ever written, or the file is the print of what the agent answers with. */
  ghost predicate InStep(s: State)
  {
    Valid(s.config) && (s.file.Some? ==> s.file.value == Print(s.config)) && (s.file.None? ==> s.config == Zeroed())
  }

  lemma BootIsValid(file: Option<string>, junk: string)
    ensures Valid(Boot(file, junk).config)
  {
    if file.Some? {
      LoadIsValid(file.value, Zeroed(), junk);
    }
  }

  lemma NextStaysValid(s: State, step: Step)
    requires Valid(s.config) && Allowed(step)
    ensures Valid(Next(s, step).config)
    ensures Writes(step) ==> InStep(Next(s, step))
  {
    if step.Restart? {
      BootIsValid(s.file, step.junk);
    }
  }

  /** Once in step, a restart changes neither the configuration nor the file. */
  lemma RestartIsInvisible(s: State, junk: string)
    requires InStep(s)
    ensures Next(s, Restart(junk)) == s
  {
    if s.file.Some? {
      LoadUndoesPrint(s.config, Zeroed(), junk);
    }
  }

  ghost function Run(s: State, steps: seq<Step>): (r: State)
    requires Valid(s.config) && forall i :: 0 <= i < |steps| ==> Allowed(steps[i])
    ensures Valid(r.config)
  {
    if steps == [] then s else
      var mid := Run(s, steps[..|steps| - 1]);
      NextStaysValid(mid, steps[|steps| - 1]);
      Next(mid, steps[|steps| - 1])
  }

  ghost predicate AnyWrites(steps: seq<Step>)
  {
    exists i :: 0 <= i < |steps| && Writes(steps[i])
  }

  lemma AnyWritesBefore(init: seq<Step>, last: Step)
    ensures AnyWrites(init + [last]) <==> AnyWrites(init) || Writes(last)
  {
    var steps := init + [last];
    assert steps[|init|] == last;
    assert forall i :: 0 <= i < |init| ==> steps[i] == init[i];
  }

  lemma NextKeepsInStep(s: State, step: Step)
    requires InStep(s) && Allowed(step)
    ensures InStep(Next(s, step))
  {
    if step.Restart? {
      RestartIsInvisible(s, step.junk);
    } else {
      NextStaysValid(s, step);
    }
  }

  lemma {:induction false} RunsStayInStep(s: State, steps: seq<Step>)
    requires Valid(s.config) && forall i :: 0 <= i < |steps| ==> Allowed(steps[i])
    ensures AnyWrites(steps) || InStep(s) ==> InStep(Run(s, steps))
    ensures AnyWrites(steps) ==> Run(s, steps).file.Some?
  {
    if steps != [] {
      var init, last := steps[..|steps| - 1], steps[|steps| - 1];
      RunsStayInStep(s, init);
      assert steps == init + [last];
      AnyWritesBefore(init, last);
      NextStaysValid(Run(s, init), last);
      if InStep(Run(s, init)) {
        NextKeepsInStep(Run(s, init), last);
      }
    }
  }

  /** Over every run from any file, or none: once a SET has written, the file is the print of the configuration,
      and it takes no write at all when there was no file. From then on a restart is invisible. */
  lemma RestartTransparency(file: Option<string>, junk: string, steps: seq<Step>, nextJunk: string)
    requires forall i :: 0 <= i < |steps| ==> Allowed(steps[i])
    ensures Valid(Boot(file, junk).config)
    ensures var s := Run(Boot(file, junk), steps);
            && (AnyWrites(steps) ==> s.file == Some(Print(s.config)))
            && (AnyWrites(steps) || file.None? ==> Next(s, Restart(nextJunk)) == s)
  {
    BootIsValid(file, junk);
    var s := Run(Boot(file, junk), steps);
    RunsStayInStep(Boot(file, junk), steps);
    if InStep(s) {
      RestartIsInvisible(s, nextJunk);
    }
  }

  // ---------------------------------------------------------------- what is answered

  /** The number last accepted for a field. */
  function LastNumber(steps: seq<Step>, which: nat): Option<int>
  {
    if steps == [] then None else
      var last := steps[|steps| - 1];
      if last.SetNumber? && last.which == which && last.isInteger then Some(last.v)
      else LastNumber(steps[..|steps| - 1], which)
  }

  /** Octet k as part of the address last accepted for it. */
  function LastOctet(steps: seq<Step>, k: nat): Option<int>
  {
    if steps == [] then None else
      var last := steps[|steps| - 1];
      if last.SetAddress? && last.isAddress && |last.octets| == 4 && 4 * last.which <= k < 4 * last.which + 4
      then Some(last.octets[k - 4 * last.which])
      else LastOctet(steps[..|steps| - 1], k)
  }

  /** A SET that is accepted changes its own field, or the four octets of its address, and nothing else; one that is
      not changes nothing. */
  lemma SetChangesOneField(s: State, step: Step)
    requires Valid(s.config) && Allowed(step) && !step.Restart?
    ensures var c := Next(s, step).config;
            && |c.numbers| == 18 && |c.octets| == 28
            && (forall i :: 0 <= i < 18 ==>
                  c.numbers[i] == if step.SetNumber? && step.isInteger && step.which == i then step.v
                                  else s.config.numbers[i])
            && (forall k :: 0 <= k < 28 ==>
                  c.octets[k] == if step.SetAddress? && step.isAddress && |step.octets| == 4
                                    && 4 * step.which <= k < 4 * step.which + 4
                                 then step.octets[k - 4 * step.which] else s.config.octets[k])
  {
  }

  lemma BootNumbers(file: Option<string>, junk: string, other: string)
    ensures Boot(file, junk).config.numbers == Boot(file, other).config.numbers
  {
  }

  lemma {:induction false} NothingWritten(file: Option<string>, junk: string, steps: seq<Step>, which: nat, k: nat)
    requires (forall i :: 0 <= i < |steps| ==> Allowed(steps[i])) && !AnyWrites(steps)
    ensures Valid(Boot(file, junk).config)
    ensures Run(Boot(file, junk), steps).file == file
    ensures Run(Boot(file, junk), steps).config.numbers == Boot(file, junk).config.numbers
    ensures LastNumber(steps, which) == None && LastOctet(steps, k) == None
  {
    BootIsValid(file, junk);
    if steps != [] {
      var init, last := steps[..|steps| - 1], steps[|steps| - 1];
      assert steps == init + [last];
      AnyWritesBefore(init, last);
      NothingWritten(file, junk, init, which, k);
      if last.Restart? {
        BootNumbers(file, junk, last.junk);
      }
    }
  }

  /** A number field of a state, given the steps since. */
  function NumberAfter(start: State, steps: seq<Step>, which: nat): int
    requires which < |start.config.numbers|
  {
    var w := LastNumber(steps, which);
    if w.Some? then w.value else start.config.numbers[which]
  }

  function OctetAfter(start: State, steps: seq<Step>, k: nat): int
    requires k < |start.config.octets|
  {
    var w := LastOctet(steps, k);
    if w.Some? then w.value else start.config.octets[k]
  }

  lemma RestartKeepsFields(file: Option<string>, junk: string, steps: seq<Step>, next: string, which: nat, k: nat)
    requires (forall i :: 0 <= i < |steps| ==> Allowed(steps[i])) && which < 18 && k < 28
    ensures Valid(Boot(file, junk).config)
    ensures var start := Boot(file, junk);
            var s, u := Run(start, steps), Next(Run(start, steps), Restart(next));
            && |u.config.numbers| == 18 && |u.config.octets| == 28
            && u.config.numbers[which] == s.config.numbers[which]
            && (LastOctet(steps, k).Some? || InStep(start) ==> u.config.octets[k] == s.config.octets[k])
  {
    BootIsValid(file, junk);
    var start := Boot(file, junk);
    var s := Run(start, steps);
    if AnyWrites(steps) || InStep(start) {
      RunsStayInStep(start, steps);
      RestartIsInvisible(s, next);
    } else {
      NothingWritten(file, junk, steps, which, k);
      BootNumbers(file, junk, next);
      BootIsValid(file, next);
    }
  }

  /** Over every run from any file, or none, and through any restarts: each number is the last one accepted for it, or
      else what the file gave; and so is each octet of an address that was set, or of any address when the run began
      in step with the file. */
  lemma {:induction false} LastWriteHolds(file: Option<string>, junk: string, steps: seq<Step>, which: nat, k: nat)
    requires (forall i :: 0 <= i < |steps| ==> Allowed(steps[i])) && which < 18 && k < 28
    ensures Valid(Boot(file, junk).config)
    ensures var start := Boot(file, junk);
            var c := Run(start, steps).config;
            && c.numbers[which] == NumberAfter(start, steps, which)
            && (LastOctet(steps, k).Some? || InStep(start) ==> c.octets[k] == OctetAfter(start, steps, k))
            && (file.None? ==> start.config.numbers[which] == 0 && start.config.octets[k] == 0)
  {
    BootIsValid(file, junk);
    if steps != [] {
      var start, init, last := Boot(file, junk), steps[..|steps| - 1], steps[|steps| - 1];
      LastWriteHolds(file, junk, init, which, k);
      if !last.Restart? {
        SetChangesOneField(Run(start, init), last);
      } else {
        RestartKeepsFields(file, junk, init, last.junk, which, k);
      }
    }
  }

  /** The agent's statics and its file. */
  class Agent {
    const numbers: array<int>
    const octets: array<int>
    var file: Option<string>

    ghost predicate Ready()
      reads this
    {
      numbers.Length == NUMBERS && octets.Length == OCTETS
    }

    ghost function Snapshot(): State
      reads this, numbers, octets
    {
      State(Config(numbers[..], octets[..]), file)
    }

    /** The module's start: zeroed statics, then the file if there is one. */
    constructor (file: Option<string>, junk: string)
      ensures Ready() && fresh(numbers) && fresh(octets) && Snapshot() == Boot(file, junk)
    {
      numbers := new int[NUMBERS](_ => 0);
      octets := new int[OCTETS](_ => 0);
      this.file := file;
      new;
      assert Config(numbers[..], octets[..]) == Zeroed();
      ReadFromFile(junk);
    }

    method ReadFromFile(junk: string)
      requires Ready()
      modifies numbers, octets
      ensures Snapshot() == old(Snapshot()).(config :=
                if file.Some? then Load(file.value, old(Snapshot()).config, junk) else old(Snapshot()).config)
    {
      if file.Some? {
        var fp := new InFile(file.value);
        ReadFields(fp, ScanInt, numbers);
        ReadFieldsThrough(fp, ScanToken, OctetValue, octets, junk);
      }
    }

    method WriteToFile()
      requires Ready()
      modifies this`file
      ensures Snapshot() == State(old(Snapshot()).config, Some(Print(old(Snapshot()).config)))
    {
      var first := PrintFields(IntText, numbers);
      var second := PrintFields(IntText, octets);
      file := Some(first + second);
    }

    /** The COMMIT phase of a port or an OID. */
    method CommitNumber(which: nat, isInteger: bool, v: int) returns (failed: bool)
      requires Ready() && which < NUMBERS
      modifies this`file, numbers
      ensures failed == !isInteger && Snapshot() == Next(old(Snapshot()), SetNumber(which, isInteger, v))
    {
      failed := !isInteger;
      if isInteger {
        numbers[which] := v;
      }
      WriteToFile();
    }

    /** The COMMIT phase of an address. */
    method CommitAddress(which: nat, isAddress: bool, value: seq<int>) returns (failed: bool)
      requires Ready() && which < OCTETS / IPADD_LEN
      modifies this`file, octets
      ensures failed == (!isAddress || |value| != IPADD_LEN)
      ensures Snapshot() == Next(old(Snapshot()), SetAddress(which, isAddress, value))
    {
      failed := !isAddress || |value| != IPADD_LEN;
      if !failed {
        ghost var before := octets[..];
        forall i | 0 <= i < IPADD_LEN {
          octets[IPADD_LEN * which + i] := value[i];
        }
        assert octets[..] == WithAddress(before, which, value);
        assert Snapshot().config == old(Snapshot()).config.(octets := WithAddress(before, which, value));
        WriteToFile();
      }
    }
  }
}
