/** What a restart makes of the agent's numbers when its strings are any strings at all: only their words count. */
module AgentInfoRestart {
  import opened Options
  import opened Decimal
  import opened Scanf
  import opened ConfigFields
  import opened ConfigFormats
  import opened ScanWords
  import opened AgentInfo

  lemma TextsJoin(vs: seq<int>, us: seq<int>)
    ensures Texts(IntText, vs) + Texts(IntText, us) == Texts(IntText, vs + us)
  {
  }

  lemma TextsOfTokens(ws: seq<string>)
    ensures Texts(Token, ws) == ws
  {
  }

  /** The words of a printed configuration: those of its strings, then its numbers and octets. */
  lemma PrintedWords(c: Config)
    ensures Words(Print(c)) == WordsOf(c.strings) + Texts(IntText, c.numbers + c.octets)
  {
    TextsOfTokens(c.strings);
    WordsOfThree(c.strings, Texts(IntText, c.numbers), Texts(IntText, c.octets));
    WordsOfNumbers(c.numbers);
    WordsOfNumbers(c.octets);
    TextsJoin(c.numbers, c.octets);
  }

  /** The numbers and the octets, as they stand in the file one behind the other. */
  function Tail(c: Config): seq<int>
  {
    c.numbers + c.octets
  }

  /** The words of a file of this configuration behind the nineteenth. */
  function Surplus(c: Config): seq<string>
    requires |c.numbers| == NUMBERS && |c.octets| == OCTETS
  {
    (WordsOf(c.strings) + Texts(IntText, Tail(c)))[STRINGS..]
  }

  /** Whatever its strings are, a file that was written gives back the readings of the words behind the nineteenth. */
  lemma NumbersRead(c: Config, current: Config, junk: string)
    requires Valid(c) && Valid(current)
    ensures var r := Load(Print(c), current, junk).numbers;
            && |r| == NUMBERS
            && forall k :: 0 <= k < NUMBERS ==> r[k] == Read(ReadingsOf(Surplus(c)), k, current.numbers[k])
  {
    PrintedWords(c);
    TokensTakeWords(Print(c), STRINGS);
    IntsFromWords(After(ScanToken, Print(c), STRINGS), current.numbers);
  }

  /** Strings of no more than nineteen words in all: the numbers slide back by the words that are missing. */
  lemma FewWords(c: Config, current: Config, junk: string)
    requires Valid(c) && Valid(current) && |WordsOf(c.strings)| <= STRINGS
    ensures var missing := STRINGS - |WordsOf(c.strings)|;
            Load(Print(c), current, junk).numbers == Tail(c)[missing..missing + NUMBERS]
  {
    var missing := STRINGS - |WordsOf(c.strings)|;
    NumbersRead(c, current, junk);
    SurplusOfFew(WordsOf(c.strings), Tail(c));
    ReadingsOfNumbers(Tail(c)[missing..]);
    SliceRead(Load(Print(c), current, junk).numbers, current.numbers, ReadingsOf(Surplus(c)), Tail(c), missing);
  }

  lemma SliceRead(r: seq<int>, current: seq<int>, rs: seq<Option<int>>, vs: seq<int>, missing: nat)
    requires |r| == |current| == NUMBERS && missing + NUMBERS <= |vs| && |rs| == |vs| - missing
    requires forall k :: 0 <= k < NUMBERS ==> r[k] == Read(rs, k, current[k])
    requires forall k :: 0 <= k < |rs| ==> rs[k] == Some(vs[missing..][k])
    ensures r == vs[missing..missing + NUMBERS]
  {
  }

  lemma SurplusOfFew(words: seq<string>, vs: seq<int>)
    requires |words| <= STRINGS <= |vs|
    ensures (words + Texts(IntText, vs))[STRINGS..] == Texts(IntText, vs[STRINGS - |words|..])
  {
  }

  /** More words, the twentieth of which is nothing a number starts with: no number is read. */
  lemma SurplusText(c: Config, current: Config, junk: string)
    requires Valid(c) && Valid(current)
    requires |WordsOf(c.strings)| > STRINGS && NotNumeric(WordsOf(c.strings)[STRINGS])
    ensures Load(Print(c), current, junk).numbers == current.numbers
  {
    NumbersRead(c, current, junk);
    assert Surplus(c)[0] == WordsOf(c.strings)[STRINGS];
  }

  /** After any SET, whatever the strings, exactly when a restart leaves the transfer interval at or above its
      minimum: when the fourth reading behind the nineteenth word is missing or is no number, or is large enough. */
  lemma IntervalSurvivesIff(s: State, step: Step, junk: string)
    requires Valid(s.config) && Allowed(step) && !step.Restart?
    ensures Valid(Next(s, step).config)
    ensures var t := Next(s, step);
            var rs := ReadingsOf(Surplus(t.config));
            Next(t, Restart(junk)).config.numbers[INTERVAL] >= MIN_FILE_TRANSFER_INTERVAL <==>
            |rs| <= INTERVAL || rs[INTERVAL].None? || rs[INTERVAL].value >= MIN_FILE_TRANSFER_INTERVAL
  {
    NextStaysValid(s, step);
    NumbersRead(Next(s, step).config, Initial(), junk);
  }

  /** For strings of at most nineteen words that reading is the field that then stands in the interval's place; with
      no number to start the twentieth word, the interval is the initial one. */
  lemma RestartedInterval(s: State, step: Step, junk: string)
    requires Valid(s.config) && Allowed(step) && !step.Restart?
    ensures Valid(Next(s, step).config)
    ensures var t := Next(s, step);
            var words := WordsOf(t.config.strings);
            var interval := Next(t, Restart(junk)).config.numbers[INTERVAL];
            && (|words| <= STRINGS ==> interval == Tail(t.config)[INTERVAL + STRINGS - |words|])
            && (|words| > STRINGS && NotNumeric(words[STRINGS]) ==> interval == Initial().numbers[INTERVAL])
  {
    NextStaysValid(s, step);
    var c := Next(s, step).config;
    var words := WordsOf(c.strings);
    if |words| <= STRINGS {
      FewWords(c, Initial(), junk);
    } else if NotNumeric(words[STRINGS]) {
      SurplusText(c, Initial(), junk);
    }
  }
}
