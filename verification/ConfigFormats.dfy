/** The three kinds of line in the configuration files: a token, a number, and an octet written as a number and
    read back as a token. */
module ConfigFormats {
  import opened Options
  import opened Decimal
  import opened Scanf
  import opened ConfigFields

  function OctetValue(token: string): int
  {
    ToInt8(Atoi(token))
  }

  lemma NumberReadsBack(v: int)
    requires IsInt32(v)
    ensures ReadsBack(ScanInt, IntText, v, StartsClean)
  {
    forall tail: string | StartsClean(tail)
      ensures ScanInt(IntText(v) + "\n" + tail) == (Some(v), tail)
    {
      ScanIntLine(v, tail);
    }
  }

  lemma NumbersChain(vs: seq<int>)
    requires AllInt32(vs)
    ensures Chains(ScanInt, IntText, vs, StartsClean)
  {
    forall i | 0 <= i < |vs|
      ensures ReadsBack(ScanInt, IntText, vs[i], StartsClean)
      ensures forall t: string :: StartsClean(IntText(vs[i]) + "\n" + t)
    {
      IntTextIsGood(vs[i]);
      NumberReadsBack(vs[i]);
    }
  }

  function Token(w: string): string { w }

  lemma TokenReadsBack(w: string)
    requires GoodToken(w)
    ensures ReadsBack(ScanToken, Token, w, StartsClean)
  {
    forall tail: string | StartsClean(tail)
      ensures ScanToken(Token(w) + "\n" + tail) == (Some(w), tail)
    {
      ScanTokenBefore(w, '\n', tail);
    }
  }

  lemma TokensChain(ws: seq<string>)
    requires AllGood(ws)
    ensures Chains(ScanToken, Token, ws, StartsClean)
  {
    forall i | 0 <= i < |ws|
      ensures ReadsBack(ScanToken, Token, ws[i], StartsClean)
      ensures forall t: string :: StartsClean(Token(ws[i]) + "\n" + t)
    {
      TokenReadsBack(ws[i]);
    }
  }

  /** The octets come back whatever the token buffer held. */
  lemma OctetsReadBack(octets: seq<int>, junk: string)
    requires AllInt8(octets)
    ensures ParseThrough(ScanToken, OctetValue, Lines(Texts(IntText, octets)), junk, |octets|) == octets
    ensures StartsClean(Lines(Texts(IntText, octets)))
  {
    var ws := Texts(IntText, octets);
    forall i | 0 <= i < |ws|
      ensures GoodToken(ws[i]) && OctetValue(ws[i]) == octets[i]
    {
      IntTextIsGood(octets[i]);
      AtoiReads(octets[i]);
    }
    TokensChain(ws);
    assert Texts(Token, ws) == ws;
    assert Lines(ws) + [] == Lines(ws);
    RoundTripThrough(ScanToken, Token, OctetValue, ws, junk, StartsClean, []);
    LinesFrom(ScanToken, Token, ws, StartsClean, [], 0);
    assert ws[0..] == ws;
  }

  lemma NumbersStayInRange(text: string, current: seq<int>)
    requires AllInt32(current)
    ensures AllInt32(Parse(ScanInt, text, current))
  {
    var r := Parse(ScanInt, text, current);
    forall k | 0 <= k < |r|
      ensures IsInt32(r[k])
    {
      assert r[k] == Field(ScanInt, text, current[k], k);
    }
  }
}
