/** A text as its words: what successive `fscanf` calls see of it, wherever its white space lies. */
module ScanWords {
  import opened Options
  import opened Decimal
  import opened Scanf
  import opened ConfigFields

  /** The runs of characters that are not white space, in order. */
  function Words(s: string): (ws: seq<string>)
    ensures ws != [] ==> ws[0] != []
    decreases |s|
  {
    var t := SkipSpace(s);
    if t == [] then [] else [Word(t)] + Words(t[|Word(t)|..])
  }

  lemma {:induction false} WordSplits(t: string)
    ensures t[..|Word(t)|] == Word(t)
    ensures |Word(t)| < |t| ==> IsSpace(t[|Word(t)|])
  {
    if t != [] && !IsSpace(t[0]) {
      WordSplits(t[1..]);
    }
  }

  lemma WordsSkip(s: string)
    ensures Words(SkipSpace(s)) == Words(s)
  {
    assert SkipSpace(SkipSpace(s)) == SkipSpace(s);
  }

  /** The front of a text that has words. */
  lemma FirstWord(s: string) returns (rest: string)
    requires Words(s) != []
    ensures SkipSpace(s) == Words(s)[0] + rest && Words(rest) == Words(s)[1..]
    ensures rest == [] || IsSpace(rest[0])
  {
    var t := SkipSpace(s);
    WordSplits(t);
    rest := t[|Word(t)|..];
    assert t == Word(t) + rest;
  }

  /** A token is a word. */
  lemma TokenTakesWord(s: string)
    ensures Words(ScanToken(s).1) == if Words(s) == [] then [] else Words(s)[1..]
  {
    var t := SkipSpace(s);
    if t != [] {
      WordsSkip(t[|Word(t)|..]);
    }
  }

  function Reached(k: nat, n: nat): nat { if k < n then k else n }

  /** A call that takes one entry off whatever is read from a text. */
  ghost predicate TakesOne<T, X(!new)>(scan: Conversion<T>, read: string -> seq<X>)
  {
    forall u: string :: read(scan(u).1) == if read(u) == [] then [] else read(u)[1..]
  }

  /** Then k calls take k entries off. */
  lemma {:induction false} CallsTake<T, X(!new)>(scan: Conversion<T>, read: string -> seq<X>, s: string, k: nat)
    requires TakesOne(scan, read)
    ensures read(After(scan, s, k)) == read(s)[Reached(k, |read(s)|)..]
  {
    if k > 0 {
      CallsTake(scan, read, s, k - 1);
      var u := After(scan, s, k - 1);
      assert read(scan(u).1) == if read(u) == [] then [] else read(u)[1..];
    }
  }

  lemma TokensTakeWords(s: string, k: nat)
    requires k <= |Words(s)|
    ensures Words(After(ScanToken, s, k)) == Words(s)[k..]
  {
    forall u: string
      ensures Words(ScanToken(u).1) == if Words(u) == [] then [] else Words(u)[1..]
    {
      TokenTakesWord(u);
    }
    CallsTake(ScanToken, Words, s, k);
  }

  lemma WordEnds(s: string, a: string, gap: char, b: string)
    requires s == a + [gap] + b && IsSpace(gap) && a != [] && !IsSpace(a[0])
    ensures Word(s) == Word(a) && |Word(a)| <= |a| && s[|Word(a)|..] == a[|Word(a)|..] + [gap] + b
  {
    var w := Word(a);
    WordSplits(a);
    var rest := a[|w|..] + [gap] + b;
    assert s == w + rest;
    assert rest[0] == if |w| < |a| then a[|w|] else gap;
    WordOf(w, rest);
  }

  lemma WordsAfterSpace(s: string)
    requires s != [] && IsSpace(s[0])
    ensures Words(s) == Words(s[1..])
  {
  }

  lemma WordsAfterWord(s: string)
    requires s != [] && !IsSpace(s[0])
    ensures Words(s) == [Word(s)] + Words(s[|Word(s)|..]) && 0 < |Word(s)| <= |s|
  {
  }

  /** White space separates words, and nothing else does. */
  lemma {:induction false} WordsAcross(a: string, gap: char, b: string)
    requires IsSpace(gap)
    ensures Words(a + [gap] + b) == Words(a) + Words(b)
    decreases |a|
  {
    var s := a + [gap] + b;
    if a == [] {
      assert s[1..] == b;
      WordsAfterSpace(s);
    } else if IsSpace(a[0]) {
      assert s[1..] == a[1..] + [gap] + b;
      WordsAcross(a[1..], gap, b);
      WordsAfterSpace(s);
      WordsAfterSpace(a);
    } else {
      var rest := a[|Word(a)|..];
      WordsAcross(rest, gap, b);
      AcrossWord(a, gap, b, Words(rest), Words(b));
    }
  }

  lemma WordsAre(s: string, w: string, rest: string)
    requires s != [] && !IsSpace(s[0]) && Word(s) == w && s[|w|..] == rest
    ensures Words(s) == [w] + Words(rest)
  {
    WordsAfterWord(s);
  }

  lemma AcrossWord(a: string, gap: char, b: string, us: seq<string>, vs: seq<string>)
    requires a != [] && !IsSpace(a[0]) && IsSpace(gap)
    requires us == Words(a[|Word(a)|..]) && Words(a[|Word(a)|..] + [gap] + b) == us + vs
    ensures Words(a + [gap] + b) == Words(a) + vs
  {
    var s, w, rest := a + [gap] + b, Word(a), a[|Word(a)|..];
    WordEnds(s, a, gap, b);
    assert s[0] == a[0];
    WordsAre(s, w, rest + [gap] + b);
    WordsAre(a, w, rest);
    Grouped([w], us, vs);
  }

  /** The words of a list of texts. */
  function WordsOf(ts: seq<string>): seq<string>
  {
    if ts == [] then [] else Words(ts[0]) + WordsOf(ts[1..])
  }

  lemma LinesFirst(ts: seq<string>, tail: string)
    requires ts != []
    ensures Lines(ts) + tail == ts[0] + ['\n'] + (Lines(ts[1..]) + tail)
  {
  }

  lemma Grouped(a: seq<string>, b: seq<string>, c: seq<string>)
    ensures a + (b + c) == (a + b) + c
  {
  }

  lemma {:induction false} WordsOfLines(ts: seq<string>, tail: string)
    ensures Words(Lines(ts) + tail) == WordsOf(ts) + Words(tail)
  {
    if ts == [] {
      assert Lines(ts) + tail == tail;
    } else {
      LinesFirst(ts, tail);
      WordsAcross(ts[0], '\n', Lines(ts[1..]) + tail);
      WordsOfLines(ts[1..], tail);
      Grouped(Words(ts[0]), WordsOf(ts[1..]), Words(tail));
    }
  }

  lemma WordsOfThree(a: seq<string>, b: seq<string>, c: seq<string>)
    ensures Words(Lines(a) + (Lines(b) + Lines(c))) == WordsOf(a) + (WordsOf(b) + WordsOf(c))
  {
    WordsOfLines(a, Lines(b) + Lines(c));
    WordsOfLines(b, Lines(c));
    WordsOfLines(c, "");
    assert Lines(c) + "" == Lines(c) && Words("") == [] && WordsOf(c) + [] == WordsOf(c);
  }

  lemma OneWord(w: string)
    requires GoodToken(w)
    ensures Words(w) == [w]
  {
    assert w + ['\n'] == w + ['\n'] + [];
    WordOf(w, ['\n']);
    WordSplits(w);
    var n := |Word(w)|;
    assert n == |w|;
    assert w[n..] == [] && w[..n] == w;
  }

  lemma {:induction false} WordsOfTokens(ts: seq<string>)
    requires AllGood(ts)
    ensures WordsOf(ts) == ts
  {
    if ts != [] {
      OneWord(ts[0]);
      WordsOfTokens(ts[1..]);
    }
  }

  lemma WordsOfNumbers(vs: seq<int>)
    ensures WordsOf(Texts(IntText, vs)) == Texts(IntText, vs)
  {
    forall i | 0 <= i < |vs|
      ensures GoodToken(Texts(IntText, vs)[i])
    {
      IntTextIsGood(vs[i]);
    }
    WordsOfTokens(Texts(IntText, vs));
  }

  /** A word no number can start with. */
  predicate NotNumeric(w: string)
  {
    w != [] && !IsDigit(w[0]) && w[0] != '-' && w[0] != '+'
  }

  /** What successive `%d` calls make of one word: for each call that gets past something its number, or none for a
      sign without digits; and whether they are then stuck for good. */
  function Readings(w: string): (r: (seq<Option<int>>, bool))
    decreases |w|
  {
    if w == [] then ([], false)
    else if NotNumeric(w) then ([], true)
    else
      var u, d := Unsigned(w), Digits(Unsigned(w));
      var more := Readings(u[|d|..]);
      ([if d == [] then None else Some(Signed(w, NatOf(d)))] + more.0, more.1)
  }

  /** The same for a list of words. */
  function ReadingsOf(ws: seq<string>): seq<Option<int>>
  {
    if ws == [] then [] else
      var r := Readings(ws[0]);
      r.0 + if r.1 then [] else ReadingsOf(ws[1..])
  }

  lemma ReadingsFrom(w: string, ws: seq<string>)
    ensures ReadingsOf([w] + ws) == Readings(w).0 + if Readings(w).1 then [] else ReadingsOf(ws)
  {
    assert ([w] + ws)[1..] == ws;
  }

  lemma {:induction false} WordBefore(x: string, rest: string)
    requires NoSpace(x) && (rest == [] || IsSpace(rest[0]))
    ensures Word(x + rest) == x
  {
    if x == [] {
      assert x + rest == rest;
    } else {
      assert (x + rest)[1..] == x[1..] + rest;
      WordBefore(x[1..], rest);
    }
  }

  lemma {:induction false} DigitsBefore(x: string, rest: string)
    requires rest == [] || IsSpace(rest[0])
    ensures Digits(x + rest) == Digits(x)
  {
    if x == [] {
      assert x + rest == rest;
    } else {
      assert (x + rest)[1..] == x[1..] + rest;
      if IsDigit(x[0]) {
        DigitsBefore(x[1..], rest);
      }
    }
  }

  /** What is left of a word, and the words behind it. */
  lemma ReadingsOfPiece(x: string, rest: string)
    requires NoSpace(x) && (rest == [] || IsSpace(rest[0]))
    ensures ReadingsOf(Words(x + rest)) == Readings(x).0 + if Readings(x).1 then [] else ReadingsOf(Words(rest))
  {
    if x == [] {
      assert x + rest == rest;
    } else {
      var s := x + rest;
      assert s[0] == x[0];
      WordBefore(x, rest);
      WordsAfterWord(s);
      assert s[|x|..] == rest;
      ReadingsFrom(x, Words(rest));
    }
  }

  lemma DigitsLead(u: string)
    ensures |Digits(u)| <= |u| && u[..|Digits(u)|] == Digits(u)
  {
    if u != [] && IsDigit(u[0]) {
      DigitsLead(u[1..]);
    }
  }

  lemma NoSpaceFrom(w: string, n: nat)
    requires NoSpace(w) && n <= |w|
    ensures NoSpace(w[n..])
  {
  }

  /** What a word leaves behind its first reading. */
  function LeftOf(w: string): (x: string)
    ensures |x| <= |w|
  {
    Unsigned(w)[|Digits(Unsigned(w))|..]
  }

  function FirstReading(w: string): Option<int>
  {
    var d := Digits(Unsigned(w));
    if d == [] then None else Some(Signed(w, NatOf(d)))
  }

  /** `%d` at a word that begins like a number. */
  lemma IntAtWord(w: string, rest: string)
    requires w != [] && NoSpace(w) && !NotNumeric(w) && (rest == [] || IsSpace(rest[0]))
    ensures ScanInt(w + rest).0 == FirstReading(w)
    ensures Words(ScanInt(w + rest).1) == Words(LeftOf(w) + rest)
  {
    var t, u, d := w + rest, Unsigned(w), Digits(Unsigned(w));
    assert t[0] == w[0];
    assert Unsigned(t) == u + rest;
    DigitsBefore(u, rest);
    assert (u + rest)[|d|..] == u[|d|..] + rest;
    WordsSkip(u[|d|..] + rest);
  }

  lemma ReadingsOfWord(w: string)
    requires w != [] && !NotNumeric(w)
    ensures Readings(w).0 == [FirstReading(w)] + Readings(LeftOf(w)).0 && Readings(w).1 == Readings(LeftOf(w)).1
  {
  }

  lemma LeftHasNoSpace(w: string)
    requires NoSpace(w)
    ensures NoSpace(LeftOf(w))
  {
    NoSpaceFrom(w, |w| - |Unsigned(w)|);
    NoSpaceFrom(Unsigned(w), |Digits(Unsigned(w))|);
  }

  lemma FirstAndRest(first: Option<int>, more: seq<Option<int>>, others: seq<Option<int>>)
    ensures var all := ([first] + more) + others;
            all != [] && all[0] == first && all[1..] == more + others
  {
  }

  lemma IntAtPiece(w: string, rest: string, others: seq<Option<int>>)
    requires w != [] && NoSpace(w) && !NotNumeric(w) && (rest == [] || IsSpace(rest[0]))
    requires others == if Readings(w).1 then [] else ReadingsOf(Words(rest))
    ensures var all := Readings(w).0 + others;
            && all != [] && ScanInt(w + rest).0 == all[0]
            && ReadingsOf(Words(ScanInt(w + rest).1)) == all[1..]
  {
    IntAtWord(w, rest);
    ReadingsOfWord(w);
    LeftHasNoSpace(w);
    ReadingsOfPiece(LeftOf(w), rest);
    FirstAndRest(FirstReading(w), Readings(LeftOf(w)).0, others);
  }

  lemma IntSkips(s: string)
    ensures ScanInt(s) == ScanInt(SkipSpace(s))
  {
    assert SkipSpace(SkipSpace(s)) == SkipSpace(s);
  }

  /** Before a word no number starts with, or at the end, the reader stays. */
  lemma IntStuck(s: string)
    requires Words(s) == [] || NotNumeric(Words(s)[0])
    ensures ScanInt(s).0 == None && Words(ScanInt(s).1) == Words(s)
  {
    WordsSkip(s);
    if Words(s) != [] {
      var rest := FirstWord(s);
      assert SkipSpace(s)[0] == Words(s)[0][0];
    }
  }

  /** One `%d` call on any text takes one reading off. */
  lemma IntTakesReading(s: string)
    ensures var all := ReadingsOf(Words(s));
            && ScanInt(s).0 == (if all == [] then None else all[0])
            && ReadingsOf(Words(ScanInt(s).1)) == if all == [] then [] else all[1..]
  {
    if Words(s) == [] || NotNumeric(Words(s)[0]) {
      IntStuck(s);
    } else {
      var rest := FirstWord(s);
      var w := Words(s)[0];
      assert Words(s) == [w] + Words(rest);
      ReadingsFrom(w, Words(rest));
      IntSkips(s);
      IntAtPiece(w, rest, if Readings(w).1 then [] else ReadingsOf(Words(rest)));
    }
  }

  /** All the readings of a text. */
  function ReadingsIn(s: string): seq<Option<int>>
  {
    ReadingsOf(Words(s))
  }

  lemma IntsTakeReadings(s: string, k: nat)
    ensures ReadingsIn(After(ScanInt, s, k)) == ReadingsIn(s)[Reached(k, |ReadingsIn(s)|)..]
  {
    forall u: string
      ensures ReadingsIn(ScanInt(u).1) == if ReadingsIn(u) == [] then [] else ReadingsIn(u)[1..]
    {
      IntTakesReading(u);
    }
    CallsTake(ScanInt, ReadingsIn, s, k);
  }

  /** A number field after its call. */
  function Read(rs: seq<Option<int>>, k: nat, current: int): int
  {
    if k < |rs| && rs[k].Some? then rs[k].value else current
  }

  /** On any text at all, a list of numbers is read from the words of the text. */
  lemma IntsFromWords(s: string, current: seq<int>)
    ensures var r := Parse(ScanInt, s, current);
            forall k :: 0 <= k < |current| ==> r[k] == Read(ReadingsOf(Words(s)), k, current[k])
  {
    var rs := ReadingsIn(s);
    forall k | 0 <= k < |current|
      ensures Field(ScanInt, s, current[k], k) == Read(rs, k, current[k])
    {
      IntsTakeReadings(s, k);
      IntTakesReading(After(ScanInt, s, k));
    }
  }

  lemma PrintedReadings(v: int)
    requires IsInt32(v)
    ensures Readings(IntText(v)) == ([Some(v)], false)
  {
    var w, n := IntText(v), NatText(Magnitude(v));
    assert w + [] == w && n + [] == n;
    SignOfIntText(v, []);
    DigitsOfNatText(Magnitude(v), []);
    assert v >= 0 ==> w[0] == n[0];
    ReadingsOfWord(w);
    assert Unsigned(w) == n && n[|Digits(n)|..] == [];
    assert FirstReading(w) == Some(v) && LeftOf(w) == [];
    assert Readings(LeftOf(w)) == ([], false);
    assert Readings(w).0 == [Some(v)] && !Readings(w).1;
  }

  /** Printed numbers are read one by one. */
  lemma {:induction false} ReadingsOfNumbers(vs: seq<int>)
    requires AllInt32(vs)
    ensures |ReadingsOf(Texts(IntText, vs))| == |vs|
    ensures forall i :: 0 <= i < |vs| ==> ReadingsOf(Texts(IntText, vs))[i] == Some(vs[i])
  {
    if vs != [] {
      var rest := Texts(IntText, vs[1..]);
      assert Texts(IntText, vs) == [IntText(vs[0])] + rest;
      PrintedReadings(vs[0]);
      ReadingsFrom(IntText(vs[0]), rest);
      ReadingsOfNumbers(vs[1..]);
    }
  }
}
