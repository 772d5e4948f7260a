/** The parts of `fscanf`, `atoi` and `fprintf` the configuration files rely on. Integers are 32 bits wide,
    `long` as well as `int`, and a number out of range is clamped. */
module Scanf {
  import opened Options
  import opened Decimal

  predicate IsSpace(c: char)
  {
    c == ' ' || c == '\t' || c == '\n' || c == '\U{B}' || c == '\U{C}' || c == '\r'
  }

  predicate NoSpace(w: string) { forall i :: 0 <= i < |w| ==> !IsSpace(w[i]) }

  predicate IsInt32(v: int) { -0x8000_0000 <= v < 0x8000_0000 }

  predicate IsInt8(v: int) { -128 <= v < 128 }

  /** A conversion to a signed char. */
  function ToInt8(v: int): (r: int)
    ensures IsInt8(r) && (v - r) % 256 == 0
    ensures IsInt8(v) ==> r == v
  {
    (v + 128) % 256 - 128
  }

  function Clamp(v: int): (r: int)
    ensures IsInt32(r) && (v > r ==> r == 2147483647) && (v < r ==> r == -2147483648)
  {
    if v < -0x8000_0000 then -0x8000_0000 else if v >= 0x8000_0000 then 0x7FFF_FFFF else v
  }

  /** A text whose first character, if any, is not white space. */
  predicate StartsClean(s: string)
  {
    s == [] || !IsSpace(s[0])
  }

  function SkipSpace(s: string): (r: string)
    ensures StartsClean(r) && |r| <= |s|
    ensures StartsClean(s) ==> r == s
  {
    if s != [] && IsSpace(s[0]) then SkipSpace(s[1..]) else s
  }

  /** The longest run of characters that are not white space. */
  function Word(s: string): (w: string)
    ensures |w| <= |s| && NoSpace(w)
    ensures s != [] && !IsSpace(s[0]) ==> w != []
  {
    if s == [] || IsSpace(s[0]) then [] else [s[0]] + Word(s[1..])
  }

  /** The longest run of digits. */
  function Digits(s: string): (w: string)
    ensures |w| <= |s| && AllDigits(w)
  {
    if s == [] || !IsDigit(s[0]) then [] else [s[0]] + Digits(s[1..])
  }

  /** `fscanf(fp, "%s\n", buf)`: the token stored, if any, and the text left. */
  function ScanToken(s: string): (r: (Option<string>, string))
    ensures r.0.Some? ==> GoodToken(r.0.value)
  {
    var t := SkipSpace(s);
    if t == [] then (None, t) else
      var w := Word(t);
      (Some(w), SkipSpace(t[|w|..]))
  }

  /** A text without its sign. */
  function Unsigned(t: string): (u: string)
    ensures |u| <= |t|
  {
    if t != [] && (t[0] == '-' || t[0] == '+') then t[1..] else t
  }

  /** The number a text with this magnitude denotes. */
  function Signed(t: string, magnitude: int): (v: int)
    ensures IsInt32(v)
  {
    Clamp(if t != [] && t[0] == '-' then 0 - magnitude else magnitude)
  }

  /** `fscanf(fp, "%d\n", &n)`: a sign is consumed even when no digit follows it. */
  function ScanInt(s: string): (r: (Option<int>, string))
    ensures r.0.Some? ==> IsInt32(r.0.value)
  {
    var t := SkipSpace(s);
    var d := Digits(Unsigned(t));
    if d == [] then (None, Unsigned(t)) else
      (Some(Signed(t, NatOf(d))), SkipSpace(Unsigned(t)[|d|..]))
  }

  /** `atoi(s)` */
  function Atoi(s: string): (v: int)
    ensures IsInt32(v)
  {
    var t := SkipSpace(s);
    Signed(t, NatOf(Digits(Unsigned(t))))
  }

  /** A string that `%s` writes and reads back: not empty, no white space. */
  predicate GoodToken(w: string)
  {
    w != [] && NoSpace(w)
  }

  lemma {:induction false} WordOf(w: string, rest: string)
    requires NoSpace(w)
    requires rest != [] && IsSpace(rest[0])
    ensures Word(w + rest) == w
  {
    if w == [] {
      assert w + rest == rest;
    } else {
      assert (w + rest)[1..] == w[1..] + rest;
      WordOf(w[1..], rest);
    }
  }

  lemma {:induction false} DigitsOf(w: string, rest: string)
    requires AllDigits(w)
    requires rest == [] || !IsDigit(rest[0])
    ensures Digits(w + rest) == w
  {
    if w == [] {
      assert w + rest == rest;
    } else {
      assert (w + rest)[1..] == w[1..] + rest;
      DigitsOf(w[1..], rest);
    }
  }

  lemma ScanTokenBefore(w: string, gap: char, tail: string)
    requires GoodToken(w) && IsSpace(gap) && StartsClean(tail)
    ensures ScanToken(w + [gap] + tail) == (Some(w), tail)
  {
    var s := w + [gap] + tail;
    assert s == w + ([gap] + tail) && s[0] == w[0];
    WordOf(w, [gap] + tail);
    assert s[|w|..] == [gap] + tail && ([gap] + tail)[1..] == tail;
  }

  /** Where the digits of a written number end. */
  lemma DigitsOfNatText(n: nat, rest: string)
    requires rest == [] || !IsDigit(rest[0])
    ensures var d := Digits(NatText(n) + rest);
            d != [] && NatOf(d) == n && (NatText(n) + rest)[|d|..] == rest
    ensures IsDigit((NatText(n) + rest)[0])
  {
    NatTextDenotes(n);
    DigitsOf(NatText(n), rest);
  }

  function Magnitude(v: int): nat { if v < 0 then -v else v }

  lemma SignOfDigits(u: string)
    requires u != [] && IsDigit(u[0])
    ensures StartsClean(u) && Unsigned(u) == u && forall m: int :: IsInt32(m) ==> Signed(u, m) == m
  {
  }

  lemma SignOfMinus(u: string)
    ensures StartsClean("-" + u) && Unsigned("-" + u) == u && forall m: int :: IsInt32(-m) ==> Signed("-" + u, m) == -m
  {
    assert ("-" + u)[0] == '-' && ("-" + u)[1..] == u;
  }

  lemma SignOfIntText(v: int, rest: string)
    requires IsInt32(v) && (rest == [] || !IsDigit(rest[0]))
    ensures var t := IntText(v) + rest;
            StartsClean(t) && Unsigned(t) == NatText(Magnitude(v)) + rest && Signed(t, Magnitude(v)) == v
  {
    var u := NatText(Magnitude(v)) + rest;
    DigitsOfNatText(Magnitude(v), rest);
    if v < 0 {
      assert IntText(v) + rest == "-" + u;
      SignOfMinus(u);
    } else {
      SignOfDigits(u);
    }
  }

  /** The two readers agree on a written number, whatever that is not a digit follows it. */
  lemma ReadsNumber(v: int, rest: string)
    requires IsInt32(v) && (rest == [] || !IsDigit(rest[0]))
    ensures ScanInt(IntText(v) + rest) == (Some(v), SkipSpace(rest))
    ensures Atoi(IntText(v) + rest) == v
  {
    var t := IntText(v) + rest;
    SignOfIntText(v, rest);
    DigitsOfNatText(Magnitude(v), rest);
    var d := Digits(Unsigned(t));
    assert SkipSpace(t) == t && NatOf(d) == Magnitude(v);
  }

  lemma ScanIntLine(v: int, tail: string)
    requires IsInt32(v) && StartsClean(tail)
    ensures ScanInt(IntText(v) + "\n" + tail) == (Some(v), tail)
  {
    var rest := "\n" + tail;
    assert IntText(v) + "\n" + tail == IntText(v) + rest;
    ReadsNumber(v, rest);
    assert rest[1..] == tail && SkipSpace(rest) == tail;
  }

  lemma AtoiReads(v: int)
    requires IsInt32(v)
    ensures Atoi(IntText(v)) == v
  {
    assert IntText(v) + [] == IntText(v);
    ReadsNumber(v, []);
  }

  lemma IntTextIsGood(v: int)
    ensures GoodToken(IntText(v))
  {
    var n: nat := if v < 0 then -v else v;
    var d := NatText(n);
    assert forall i :: 0 <= i < |d| ==> IsDigit(d[i]);
    assert IntText(v) == if v < 0 then "-" + d else d;
  }

  ghost predicate AllInt32(vs: seq<int>) { forall i :: 0 <= i < |vs| ==> IsInt32(vs[i]) }

  ghost predicate AllInt8(vs: seq<int>) { forall i :: 0 <= i < |vs| ==> IsInt8(vs[i]) }

  ghost predicate AllGood(ws: seq<string>) { forall i :: 0 <= i < |ws| ==> GoodToken(ws[i]) }
}
