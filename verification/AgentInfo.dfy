/** The agent's own parameters: strings, numbers and octets kept in one file. Strings are written with "%s" and read
    back as tokens, so only some of them survive a restart. */
module AgentInfo {
  import opened Options
  import opened Decimal
  import opened Scanf
  import opened ConfigFields
  import opened ConfigFormats

  /** Fourteen log file names, then the location, the system, its description, the name and the licence. */
  const STRINGS := 19
  const OS := 15
  const OS_DESCR := 16
  const NAME := 17
  const LICENCE := 18

  const NUMBERS := 6
  const SYS_TIME := 0
  const INTERVAL := 3
  const MIN_FILE_TRANSFER_INTERVAL := 10

  const IPADD_LEN := 4
  const DATEANDTIME_LEN := 11

  /** Three addresses, of which the agent's own, the middle one, cannot be set, and the installation date. */
  const OCTETS := 23
  const ADDRESSES := 3
  const OWN_ADDRESS := 1

  datatype Config = Config(strings: seq<string>, numbers: seq<int>, octets: seq<int>)

  ghost predicate Valid(c: Config)
  {
    && |c.strings| == STRINGS && |c.numbers| == NUMBERS && |c.octets| == OCTETS
    && AllInt32(c.numbers) && AllInt8(c.octets)
  }

  /** The statics of a process that has not read its file yet. */
  function Initial(): (c: Config)
    ensures Valid(c) && AllGood(c.strings) && c.numbers[INTERVAL] >= MIN_FILE_TRANSFER_INTERVAL
  {
    Config(seq(STRINGS, _ => "x"), [0, 0, 0, 120, 2000, 1000], seq(OCTETS, _ => 0))
  }

  function Print(c: Config): string
  {
    Lines(Texts(Token, c.strings)) + (Lines(Texts(IntText, c.numbers)) + Lines(Texts(IntText, c.octets)))
  }

  function Load(text: string, current: Config, junk: string): Config
  {
    var afterStrings := After(ScanToken, text, |current.strings|);
    var afterNumbers := After(ScanInt, afterStrings, |current.numbers|);
    Config(Parse(ScanToken, text, current.strings),
           Parse(ScanInt, afterStrings, current.numbers),
           ParseThrough(ScanToken, OctetValue, afterNumbers, junk, |current.octets|))
  }

  /** The part of a file that holds the numbers and the octets. */
  lemma NumbersReadBack(numbers: seq<int>, octets: seq<int>, current: seq<int>)
    requires AllInt32(numbers) && AllInt8(octets) && |current| == |numbers|
    ensures var s := Lines(Texts(IntText, numbers)) + Lines(Texts(IntText, octets));
            && StartsClean(s)
            && Parse(ScanInt, s, current) == numbers
            && After(ScanInt, s, |numbers|) == Lines(Texts(IntText, octets))
  {
    var tail := Lines(Texts(IntText, octets));
    NumbersChain(numbers);
    OctetsReadBack(octets, "");
    RoundTrip(ScanInt, IntText, numbers, current, StartsClean, tail);
    LinesFrom(ScanInt, IntText, numbers, StartsClean, tail, 0);
    assert Texts(IntText, numbers)[0..] == Texts(IntText, numbers);
  }

  lemma LoadUndoesPrint(c: Config, current: Config, junk: string)
    requires Valid(c) && Valid(current) && AllGood(c.strings)
    ensures Load(Print(c), current, junk) == c
  {
    var tail := Lines(Texts(IntText, c.numbers)) + Lines(Texts(IntText, c.octets));
    NumbersReadBack(c.numbers, c.octets, current.numbers);
    OctetsReadBack(c.octets, junk);
    TokensChain(c.strings);
    RoundTrip(ScanToken, Token, c.strings, current.strings, StartsClean, tail);
  }

  /** Whatever the file holds, a string that was read is a token. */
  lemma LoadedStringsAreGood(text: string, current: Config, junk: string)
    requires AllGood(current.strings)
    ensures AllGood(Load(text, current, junk).strings)
  {
    var r := Load(text, current, junk).strings;
    forall k | 0 <= k < |r|
      ensures GoodToken(r[k])
    {
      assert r[k] == Field(ScanToken, text, current.strings[k], k);
    }
  }

  lemma LoadIsValid(text: string, current: Config, junk: string)
    requires Valid(current)
    ensures Valid(Load(text, current, junk))
  {
    NumbersStayInRange(After(ScanToken, text, STRINGS), current.numbers);
  }

  /** The string left in a buffer after `memcpy` of the value and a terminating NUL behind it. */
  function BeforeNul(value: string): (s: string)
    ensures s <= value && '\0' !in s
    ensures |s| < |value| ==> value[|s|] == '\0'
  {
    if value == [] || value[0] == '\0' then [] else [value[0]] + BeforeNul(value[1..])
  }

  datatype State = State(config: Config, file: Option<string>)

  datatype Step =
    | SetString(which: nat, isOctets: bool, value: string)
    | SetNumber(which: nat, isInteger: bool, v: int)
    | SetAddress(which: nat, isAddress: bool, octets: seq<int>)
    | SetInstallDate(isOctets: bool, octets: seq<int>)
    | Restart(junk: string)

  /** The instances that have a SET handler, with values of the widths their buffers hold. */
  predicate Settable(step: Step)
  {
    match step
    case SetString(which, _, _) => which < STRINGS && which != OS && which != OS_DESCR
    case SetNumber(which, _, _) => which < NUMBERS && which != SYS_TIME
    case SetAddress(which, _, octets) => which < ADDRESSES && which != OWN_ADDRESS
    case SetInstallDate(_, octets) => |octets| <= DATEANDTIME_LEN
    case Restart(_) => true
  }

  ghost predicate Allowed(step: Step)
  {
    && Settable(step)
    && (step.SetNumber? ==> IsInt32(step.v))
    && (step.SetAddress? || step.SetInstallDate? ==> AllInt8(step.octets))
  }

  /** `memcpy` to the octets from `at` on. */
  function WithOctets(all: seq<int>, at: nat, octets: seq<int>): (r: seq<int>)
    requires at + |octets| <= |all|
    ensures |r| == |all|
    ensures forall k :: 0 <= k < |r| ==> r[k] == if at <= k < at + |octets| then octets[k - at] else all[k]
  {
    all[..at] + octets + all[at + |octets|..]
  }

  /** A SET the handler refuses: the wrong type, the wrong length, an interval below the minimum. */
  predicate Fails(step: Step)
  {
    match step
    case SetString(_, isOctets, _) => !isOctets
    case SetNumber(which, isInteger, v) => !isInteger || (which == INTERVAL && v < MIN_FILE_TRANSFER_INTERVAL)
    case SetAddress(_, isAddress, octets) => !isAddress || |octets| != IPADD_LEN
    case SetInstallDate(isOctets, _) => !isOctets
    case Restart(_) => false
  }

  function Assign(c: Config, step: Step): Config
    requires Settable(step) && !Fails(step) && !step.Restart?
    requires |c.strings| == STRINGS && |c.numbers| == NUMBERS && |c.octets| == OCTETS
  {
    match step
    case SetString(which, _, value) => c.(strings := c.strings[which := BeforeNul(value)])
    case SetNumber(which, _, v) => c.(numbers := c.numbers[which := v])
    case SetAddress(which, _, octets) => c.(octets := WithOctets(c.octets, IPADD_LEN * which, octets))
    case SetInstallDate(_, octets) => c.(octets := WithOctets(c.octets, IPADD_LEN * ADDRESSES, octets))
  }

  function Boot(file: Option<string>, junk: string): State
  {
    State(if file.Some? then Load(file.value, Initial(), junk) else Initial(), file)
  }

  /** Every COMMIT writes the file, also one that failed. */
  function Next(s: State, step: Step): State
    requires Settable(step)
    requires |s.config.strings| == STRINGS && |s.config.numbers| == NUMBERS && |s.config.octets| == OCTETS
  {
    if step.Restart? then Boot(s.file, step.junk) else
      var c := if Fails(step) then s.config else Assign(s.config, step);
      State(c, Some(Print(c)))
  }

  lemma NextStaysValid(s: State, step: Step)
    requires Valid(s.config) && Allowed(step)
    ensures Valid(Next(s, step).config)
  {
    if step.Restart? && s.file.Some? {
      LoadIsValid(s.file.value, Initial(), step.junk);
    }
  }

  /** After any SET, a restart gives every field back exactly when every string is a token. */
  lemma RestartIsInvisibleIff(s: State, step: Step, junk: string)
    requires Valid(s.config) && Allowed(step) && !step.Restart?
    ensures Valid(Next(s, step).config)
    ensures var t := Next(s, step); Next(t, Restart(junk)) == t <==> AllGood(t.config.strings)
  {
    NextStaysValid(s, step);
    var t := Next(s, step);
    if AllGood(t.config.strings) {
      LoadUndoesPrint(t.config, Initial(), junk);
    }
    LoadedStringsAreGood(t.file.value, Initial(), junk);
  }

  /** A step that stores no string with white space in it and no empty one. */
  predicate Tame(step: Step)
  {
    step.SetString? && step.isOctets ==> GoodToken(BeforeNul(step.value))
  }

  ghost predicate Sound(s: State)
  {
    && Valid(s.config) && AllGood(s.config.strings)
    && s.config.numbers[INTERVAL] >= MIN_FILE_TRANSFER_INTERVAL
    && s.file == (if s.file.Some? then Some(Print(s.config)) else None)
    && (s.file.None? ==> s.config == Initial())
  }

  lemma NextStaysSound(s: State, step: Step)
    requires Sound(s) && Allowed(step) && Tame(step)
    ensures Sound(Next(s, step))
    ensures step.Restart? ==> Next(s, step) == s
  {
    if step.Restart? {
      if s.file.Some? {
        LoadUndoesPrint(s.config, Initial(), step.junk);
      }
    } else {
      NextStaysValid(s, step);
    }
  }

  ghost function Run(s: State, steps: seq<Step>): (r: State)
    requires Valid(s.config) && forall i :: 0 <= i < |steps| ==> Allowed(steps[i])
    ensures Valid(r.config)
  {
    if steps == [] then s else
      var mid := Run(s, steps[..|steps| - 1]);
      NextStaysValid(mid, steps[|steps| - 1]);
      Next(mid, steps[|steps| - 1])
  }

  /** From the first start on, as long as only tokens are stored: the file is the print of the state, every restart is
      invisible, and the transfer interval is never below its minimum. */
  lemma {:induction false} IntervalStaysAboveMinimum(steps: seq<Step>, junk: string)
    requires forall i :: 0 <= i < |steps| ==> Allowed(steps[i]) && Tame(steps[i])
    ensures var s := Run(Boot(None, junk), steps);
            && s.config.numbers[INTERVAL] >= MIN_FILE_TRANSFER_INTERVAL
            && Sound(s)
            && forall j: string :: Next(s, Restart(j)) == s
  {
    var s := Run(Boot(None, junk), steps);
    if steps != [] {
      IntervalStaysAboveMinimum(steps[..|steps| - 1], junk);
      NextStaysSound(Run(Boot(None, junk), steps[..|steps| - 1]), steps[|steps| - 1]);
    }
    forall j: string
      ensures Next(s, Restart(j)) == s
    {
      NextStaysSound(s, Restart(j));
    }
  }

  /** The numbers and octets of a file in which a number stands where the licence should end. */
  function ShiftedNumbers(c: Config, v: int): string
  {
    Lines(Texts(IntText, [v] + c.numbers)) + Lines(Texts(IntText, c.octets))
  }

  lemma Following(a: string, b: string, c: string)
    ensures (a + b) + c == a + (b + c)
  {
  }

  lemma ShiftedNumbersStart(c: Config, v: int)
    ensures ShiftedNumbers(c, v) ==
            IntText(v) + "\n" + (Lines(Texts(IntText, c.numbers)) + Lines(Texts(IntText, c.octets)))
  {
    var ts := Texts(IntText, [v] + c.numbers);
    assert ts[0] == IntText(v) && ts[1..] == Texts(IntText, c.numbers);
    Following(IntText(v) + "\n", Lines(ts[1..]), Lines(Texts(IntText, c.octets)));
  }

  lemma ShiftedNumbersStartClean(c: Config, v: int)
    ensures StartsClean(ShiftedNumbers(c, v))
  {
    ShiftedNumbersStart(c, v);
    IntTextIsGood(v);
  }

  lemma NumbersLoadedFrom(text: string, current: Config, junk: string, numbersText: string)
    requires After(ScanToken, text, |current.strings|) == numbersText
    ensures Load(text, current, junk).numbers == Parse(ScanInt, numbersText, current.numbers)
  {
  }

  lemma LastTwoLines(ts: seq<string>, x: string, y: string)
    ensures Lines(ts + [x, y]) == Lines(ts) + (x + "\n" + (y + "\n"))
  {
    LinesConcat(ts, [x, y]);
    assert [x, y][1..] == [y];
    assert Lines([y]) == y + "\n";
  }

  lemma Regroup(front: string, a: string, b: string, y: string, rest: string)
    ensures front + (a + " " + b + "\n" + (y + "\n")) + rest == front + (a + [' '] + (b + ['\n'] + (y + "\n" + rest)))
  {
  }

  lemma PrintWithSplitName(c: Config, a: string, b: string, v: int)
    requires |c.strings| == STRINGS && c.strings[NAME] == a + " " + b && c.strings[LICENCE] == IntText(v)
    ensures Print(c) == Lines(Texts(Token, c.strings[..NAME])) + (a + [' '] + (b + ['\n'] + ShiftedNumbers(c, v)))
  {
    var front := Texts(Token, c.strings[..NAME]);
    assert Texts(Token, c.strings) == front + [a + " " + b, IntText(v)];
    LastTwoLines(front, a + " " + b, IntText(v));
    ShiftedNumbersStart(c, v);
    Regroup(Lines(front), a, b, IntText(v), Lines(Texts(IntText, c.numbers)) + Lines(Texts(IntText, c.octets)));
  }

  /** Two tokens after n lines. */
  lemma TwoTokensLater(ws: seq<string>, a: string, b: string, last: string)
    requires AllGood(ws) && GoodToken(a) && GoodToken(b) && StartsClean(last)
    ensures After(ScanToken, Lines(Texts(Token, ws)) + (a + [' '] + (b + ['\n'] + last)), |ws| + 2) == last
  {
    var second := b + ['\n'] + last;
    var third := a + [' '] + second;
    assert second[0] == b[0] && third[0] == a[0];
    ScanTokenBefore(a, ' ', second);
    ScanTokenBefore(b, '\n', last);
    TokensChain(ws);
    RoundTrip(ScanToken, Token, ws, ws, StartsClean, third);
    AfterTwoMore(ScanToken, Lines(Texts(Token, ws)) + third, |ws|, third, second);
  }

  /** Fewer fields than were written give a prefix of what was written. */
  lemma FewerNumbers(numbers: seq<int>, current: seq<int>, octets: seq<int>)
    requires |current| <= |numbers| && AllInt32(numbers) && AllInt8(octets)
    ensures Parse(ScanInt, Lines(Texts(IntText, numbers)) + Lines(Texts(IntText, octets)), current) ==
            numbers[..|current|]
  {
    NumbersChain(numbers);
    OctetsReadBack(octets, "");
    ReadsPrefix(ScanInt, IntText, numbers, current, StartsClean, Lines(Texts(IntText, octets)));
  }

  /** A name of two words moves every later field one place: the licence becomes the system time, and the transfer
      interval becomes the alert manager's port. */
  lemma SplitNameShiftsFields(c: Config, a: string, b: string, v: int, current: Config, junk: string)
    requires Valid(c) && Valid(current) && IsInt32(v) && GoodToken(a) && GoodToken(b)
    requires AllGood(c.strings[..NAME]) && c.strings[NAME] == a + " " + b && c.strings[LICENCE] == IntText(v)
    ensures Load(Print(c), current, junk).numbers == [v] + c.numbers[..NUMBERS - 1]
  {
    var numbers := [v] + c.numbers;
    PrintWithSplitName(c, a, b, v);
    ShiftedNumbersStartClean(c, v);
    TwoTokensLater(c.strings[..NAME], a, b, ShiftedNumbers(c, v));
    NumbersLoadedFrom(Print(c), current, junk, ShiftedNumbers(c, v));
    FewerNumbers(numbers, current.numbers, c.octets);
  }

  function TwoWordName(): seq<Step>
  {
    [SetString(NAME, true, "a b"), SetString(LICENCE, true, "5")]
  }

  lemma AfterTwoWordName(junk: string)
    ensures forall i :: 0 <= i < |TwoWordName()| ==> Allowed(TwoWordName()[i])
    ensures var c := Initial().(strings := Initial().strings[NAME := "a b"][LICENCE := "5"]);
            Run(Boot(None, junk), TwoWordName()) == State(c, Some(Print(c)))
  {
    var first, second := TwoWordName()[0], TwoWordName()[1];
    var s := Boot(None, junk);
    var t := Next(s, first);
    assert TwoWordName()[..1] == [first] && [first][..0] == [];
    assert Run(s, []) == s && Run(s, [first]) == t;
    assert BeforeNul("a b") == "a b";
    assert BeforeNul("5") == "5";
  }

  /** Two SETs and a restart after which the interval is below the minimum its handler insists on. */
  lemma IntervalCanFall(junk: string, nextJunk: string)
    ensures forall i :: 0 <= i < |TwoWordName()| ==> Allowed(TwoWordName()[i])
    ensures var s := Run(Boot(None, junk), TwoWordName());
            Next(s, Restart(nextJunk)).config.numbers[INTERVAL] < MIN_FILE_TRANSFER_INTERVAL
  {
    AfterTwoWordName(junk);
    var c := Initial().(strings := Initial().strings[NAME := "a b"][LICENCE := "5"]);
    assert "a" + " " + "b" == "a b" && IntText(5) == "5";
    SplitNameShiftsFields(c, "a", "b", 5, Initial(), nextJunk);
  }

  // ---------------------------------------------------------------- what is answered

  /** The string last accepted for a column. */
  function LastString(steps: seq<Step>, which: nat): Option<string>
  {
    if steps == [] then None else
      var last := steps[|steps| - 1];
      if last.SetString? && last.which == which && last.isOctets then Some(BeforeNul(last.value))
      else LastString(steps[..|steps| - 1], which)
  }

  /** The number last accepted; the fourth, the transfer interval, only from ten upwards. */
  function LastNumber(steps: seq<Step>, which: nat): Option<int>
  {
    if steps == [] then None else
      var last := steps[|steps| - 1];
      if last.SetNumber? && last.which == which && last.isInteger && (which == 3 ==> last.v >= 10) then Some(last.v)
      else LastNumber(steps[..|steps| - 1], which)
  }

  /** Octet k as last accepted: the first twelve are the three addresses, the others the date. */
  function LastOctet(steps: seq<Step>, k: nat): Option<int>
  {
    if steps == [] then None else
      var last := steps[|steps| - 1];
      if last.SetAddress? && last.isAddress && |last.octets| == 4 && 4 * last.which <= k < 4 * last.which + 4
      then Some(last.octets[k - 4 * last.which])
      else if last.SetInstallDate? && last.isOctets && 12 <= k < 12 + |last.octets| then Some(last.octets[k - 12])
      else LastOctet(steps[..|steps| - 1], k)
  }

  /** A SET that is accepted changes its own field and nothing else; one that is not changes nothing. */
  lemma SetChangesOneField(s: State, step: Step)
    requires Valid(s.config) && Allowed(step) && !step.Restart?
    ensures var c := Next(s, step).config;
            && |c.strings| == 19 && |c.numbers| == 6 && |c.octets| == 23
            && (forall i :: 0 <= i < 19 ==>
                  c.strings[i] == if step.SetString? && step.isOctets && step.which == i then BeforeNul(step.value)
                                  else s.config.strings[i])
            && (forall i :: 0 <= i < 6 ==>
                  c.numbers[i] == if step.SetNumber? && step.isInteger && step.which == i && (i == 3 ==> step.v >= 10)
                                  then step.v else s.config.numbers[i])
            && (forall k :: 0 <= k < 23 ==>
                  c.octets[k] == if step.SetAddress? && step.isAddress && |step.octets| == 4
                                    && 4 * step.which <= k < 4 * step.which + 4 then step.octets[k - 4 * step.which]
                                 else if step.SetInstallDate? && step.isOctets && 12 <= k < 12 + |step.octets|
                                 then step.octets[k - 12] else s.config.octets[k])
  {
  }

  /** String i, number j and octet k are the last ones accepted, or else what the program starts with: "x" for a
      string, two minutes for the interval, 2000 for the transfer port, 1000 for the size of a log, and zeros. */
  ghost predicate AsWritten(c: Config, steps: seq<Step>, i: nat, j: nat, k: nat)
    requires Valid(c) && i < 19 && j < 6 && k < 23
  {
    && c.strings[i] == (if LastString(steps, i).Some? then LastString(steps, i).value else "x")
    && c.numbers[j] == (if LastNumber(steps, j).Some? then LastNumber(steps, j).value
                        else if j == 3 then 120 else if j == 4 then 2000 else if j == 5 then 1000 else 0)
    && c.octets[k] == (if LastOctet(steps, k).Some? then LastOctet(steps, k).value else 0)
  }

  lemma OneMoreWrite(s: State, steps: seq<Step>, i: nat, j: nat, k: nat)
    requires Valid(s.config) && i < 19 && j < 6 && k < 23
    requires steps != [] && Allowed(steps[|steps| - 1]) && AsWritten(s.config, steps[..|steps| - 1], i, j, k)
    requires steps[|steps| - 1].Restart? ==> Next(s, steps[|steps| - 1]) == s
    ensures Valid(Next(s, steps[|steps| - 1]).config)
    ensures AsWritten(Next(s, steps[|steps| - 1]).config, steps, i, j, k)
  {
    var last := steps[|steps| - 1];
    NextStaysValid(s, last);
    if !last.Restart? {
      SetChangesOneField(s, last);
    }
  }

  /** From the first start on, while only words are stored, and through any restarts: every string, number and octet
      is the last one accepted for it, or else the initial one. */
  lemma {:induction false} LastWriteHolds(steps: seq<Step>, junk: string, i: nat, j: nat, k: nat)
    requires forall n :: 0 <= n < |steps| ==> Allowed(steps[n]) && Tame(steps[n])
    requires i < 19 && j < 6 && k < 23
    ensures AsWritten(Run(Boot(None, junk), steps).config, steps, i, j, k)
  {
    if steps != [] {
      var init := steps[..|steps| - 1];
      var s := Run(Boot(None, junk), init);
      LastWriteHolds(init, junk, i, j, k);
      IntervalStaysAboveMinimum(init, junk);
      OneMoreWrite(s, steps, i, j, k);
    }
  }

  /** The agent's statics and its file. */
  class Agent {
    const strings: array<string>
    const numbers: array<int>
    const octets: array<int>
    var file: Option<string>

    ghost predicate Ready()
      reads this
    {
      strings.Length == STRINGS && numbers.Length == NUMBERS && octets.Length == OCTETS
    }

    ghost function Statics(): Config
      reads this, strings, numbers, octets
    {
      Config(strings[..], numbers[..], octets[..])
    }

    ghost function Snapshot(): State
      reads this, strings, numbers, octets
    {
      State(Statics(), file)
    }

    /** The module's start: initialised statics, then the file if there is one. */
    constructor (file: Option<string>, junk: string)
      ensures Ready() && fresh(strings) && fresh(numbers) && fresh(octets) && Snapshot() == Boot(file, junk)
    {
      var initial := Initial();
      strings := new string[STRINGS](i requires 0 <= i < STRINGS => initial.strings[i]);
      numbers := new int[NUMBERS](i requires 0 <= i < NUMBERS => initial.numbers[i]);
      octets := new int[OCTETS](i requires 0 <= i < OCTETS => initial.octets[i]);
      this.file := file;
      new;
      assert Statics() == initial;
      ReadFromFile(junk);
    }

    method ReadFromFile(junk: string)
      requires Ready()
      modifies strings, numbers, octets
      ensures Statics() == if file.Some? then Load(file.value, old(Statics()), junk) else old(Statics())
    {
      if file.Some? {
        var fp := new InFile(file.value);
        ReadFields(fp, ScanToken, strings);
        ReadFields(fp, ScanInt, numbers);
        ReadFieldsThrough(fp, ScanToken, OctetValue, octets, junk);
      }
    }

    method WriteToFile()
      requires Ready()
      modifies this`file
      ensures file == Some(Print(Statics()))
    {
      var first := PrintFields(Token, strings);
      var second := PrintFields(IntText, numbers);
      var third := PrintFields(IntText, octets);
      file := Some(first + (second + third));
    }

    /** The COMMIT phase of a file name, the location, the name or the licence. */
    method CommitString(which: nat, isOctets: bool, value: string) returns (failed: bool)
      requires Ready() && Settable(SetString(which, isOctets, value))
      modifies this`file, strings
      ensures failed == Fails(SetString(which, isOctets, value))
      ensures Snapshot() == Next(old(Snapshot()), SetString(which, isOctets, value))
    {
      failed := !isOctets;
      if isOctets {
        strings[which] := BeforeNul(value);
      }
      WriteToFile();
    }

    /** The COMMIT phase of a number; the transfer interval has a minimum. */
    method CommitNumber(which: nat, isInteger: bool, v: int) returns (failed: bool)
      requires Ready() && Settable(SetNumber(which, isInteger, v))
      modifies this`file, numbers
      ensures failed == Fails(SetNumber(which, isInteger, v))
      ensures Snapshot() == Next(old(Snapshot()), SetNumber(which, isInteger, v))
    {
      failed := !isInteger || (which == INTERVAL && v < MIN_FILE_TRANSFER_INTERVAL);
      if !failed {
        numbers[which] := v;
      }
      WriteToFile();
    }

    /** The COMMIT phase of an address. */
    method CommitAddress(which: nat, isAddress: bool, value: seq<int>) returns (failed: bool)
      requires Ready() && Settable(SetAddress(which, isAddress, value))
      modifies this`file, octets
      ensures failed == Fails(SetAddress(which, isAddress, value))
      ensures Snapshot() == Next(old(Snapshot()), SetAddress(which, isAddress, value))
    {
      failed := !isAddress || |value| != IPADD_LEN;
      if !failed {
        Memcpy(IPADD_LEN * which, value);
      }
      WriteToFile();
    }

    /** The COMMIT phase of the installation date. */
    method CommitInstallDate(isOctets: bool, value: seq<int>) returns (failed: bool)
      requires Ready() && Settable(SetInstallDate(isOctets, value))
      modifies this`file, octets
      ensures failed == Fails(SetInstallDate(isOctets, value))
      ensures Snapshot() == Next(old(Snapshot()), SetInstallDate(isOctets, value))
    {
      failed := !isOctets;
      if !failed {
        Memcpy(IPADD_LEN * ADDRESSES, value);
      }
      WriteToFile();
    }

    method Memcpy(at: nat, value: seq<int>)
      requires at + |value| <= octets.Length && octets != numbers
      modifies octets
      ensures octets[..] == WithOctets(old(octets[..]), at, value)
      ensures Statics() == old(Statics()).(octets := WithOctets(old(octets[..]), at, value))
    {
      forall i | 0 <= i < |value| {
        octets[at + i] := value[i];
      }
    }
  }
}
