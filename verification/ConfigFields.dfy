/** A configuration file: one field a line, written and read back by a fixed list of `fprintf` and `fscanf`
    calls. The conversions are parameters here, so that what holds of the lists holds of every format. */
module ConfigFields {
  import opened Options

  type Conversion<T> = string -> (Option<T>, string)

  /** The text left after k calls. */
  function After<T>(scan: Conversion<T>, s: string, k: nat): string
  {
    if k == 0 then s else scan(After(scan, s, k - 1)).1
  }

  /** Field k after its call: a conversion that fails leaves it as it was. */
  function Field<T>(scan: Conversion<T>, s: string, current: T, k: nat): T
  {
    var v := scan(After(scan, s, k)).0;
    if v.Some? then v.value else current
  }

  /** The fields after their calls, in order. */
  function Parse<T>(scan: Conversion<T>, s: string, current: seq<T>): (r: seq<T>)
    ensures |r| == |current| && forall k :: 0 <= k < |r| ==> r[k] == Field(scan, s, current[k], k)
  {
    seq(|current|, k requires 0 <= k < |current| => Field(scan, s, current[k], k))
  }

  /** A token buffer after k calls: at the end of the file it keeps what it last held. */
  function Last<T>(scan: Conversion<T>, s: string, temp: T, k: nat): T
  {
    if k == 0 then temp else
      var w := scan(After(scan, s, k - 1)).0;
      if w.Some? then w.value else Last(scan, s, temp, k - 1)
  }

  /** n values read through one token buffer. */
  function ParseThrough<T, U>(scan: Conversion<T>, value: T -> U, s: string, temp: T, n: nat): (r: seq<U>)
    ensures |r| == n && forall k :: 0 <= k < n ==> r[k] == value(Last(scan, s, temp, k + 1))
  {
    seq(n, k requires 0 <= k < n => value(Last(scan, s, temp, k + 1)))
  }

  /** One field a line. */
  function Lines(texts: seq<string>): string
  {
    if texts == [] then "" else texts[0] + "\n" + Lines(texts[1..])
  }

  lemma {:induction false} LinesConcat(a: seq<string>, b: seq<string>)
    ensures Lines(a + b) == Lines(a) + Lines(b)
  {
    if a == [] {
      assert a + b == b;
    } else {
      assert (a + b)[1..] == a[1..] + b;
      LinesConcat(a[1..], b);
    }
  }

  function Texts<T>(show: T -> string, vs: seq<T>): (r: seq<string>)
    ensures |r| == |vs| && forall i :: 0 <= i < |vs| ==> r[i] == show(vs[i])
  {
    seq(|vs|, i requires 0 <= i < |vs| => show(vs[i]))
  }

  /** What is printed for one value is read back from the front of any text that may follow it. */
  ghost predicate ReadsBack<T>(scan: Conversion<T>, show: T -> string, v: T, follows: string -> bool)
  {
    forall tail: string :: follows(tail) ==> scan(show(v) + "\n" + tail) == (Some(v), tail)
  }

  /** Every text the remaining fields can start is one that may follow a field. */
  ghost predicate Chains<T>(scan: Conversion<T>, show: T -> string, vs: seq<T>, follows: string -> bool)
  {
    forall i :: 0 <= i < |vs| ==>
      ReadsBack(scan, show, vs[i], follows) && forall t: string :: follows(show(vs[i]) + "\n" + t)
  }

  lemma LinesFrom<T>(scan: Conversion<T>, show: T -> string, vs: seq<T>, follows: string -> bool, tail: string, k: nat)
    requires Chains(scan, show, vs, follows) && follows(tail) && k <= |vs|
    ensures follows(Lines(Texts(show, vs)[k..]) + tail)
    ensures k < |vs| ==>
              Lines(Texts(show, vs)[k..]) + tail == show(vs[k]) + "\n" + (Lines(Texts(show, vs)[k + 1..]) + tail)
  {
    var ts := Texts(show, vs);
    if k == |vs| {
      assert Lines(ts[k..]) + tail == tail;
    } else {
      assert ts[k..][1..] == ts[k + 1..];
      var more := Lines(ts[k + 1..]) + tail;
      assert Lines(ts[k..]) + tail == show(vs[k]) + "\n" + more;
      assert ReadsBack(scan, show, vs[k], follows);
    }
  }

  lemma {:induction false} LeftOver<T>(scan: Conversion<T>, show: T -> string, vs: seq<T>, follows: string -> bool,
                                       tail: string, k: nat)
    requires Chains(scan, show, vs, follows) && follows(tail) && k <= |vs|
    ensures After(scan, Lines(Texts(show, vs)) + tail, k) == Lines(Texts(show, vs)[k..]) + tail
    ensures k > 0 ==> scan(After(scan, Lines(Texts(show, vs)) + tail, k - 1)).0 == Some(vs[k - 1])
  {
    if k == 0 {
      assert Texts(show, vs)[0..] == Texts(show, vs);
    } else {
      LeftOver(scan, show, vs, follows, tail, k - 1);
      LinesFrom(scan, show, vs, follows, tail, k - 1);
      LinesFrom(scan, show, vs, follows, tail, k);
      assert ReadsBack(scan, show, vs[k - 1], follows);
    }
  }

  /** Fields read from the front of a longer list. */
  lemma ReadsPrefix<T>(scan: Conversion<T>, show: T -> string, vs: seq<T>, current: seq<T>,
                       follows: string -> bool, tail: string)
    requires Chains(scan, show, vs, follows) && follows(tail) && |current| <= |vs|
    ensures Parse(scan, Lines(Texts(show, vs)) + tail, current) == vs[..|current|]
  {
    var s := Lines(Texts(show, vs)) + tail;
    var r := Parse(scan, s, current);
    forall k | 0 <= k < |r|
      ensures r[k] == vs[k]
    {
      LeftOver(scan, show, vs, follows, tail, k + 1);
      assert r[k] == Field(scan, s, current[k], k);
    }
  }

  /** The whole list is read back, whatever the fields held before, and the reader stands at what follows. */
  lemma RoundTrip<T>(scan: Conversion<T>, show: T -> string, vs: seq<T>, current: seq<T>,
                     follows: string -> bool, tail: string)
    requires Chains(scan, show, vs, follows) && follows(tail) && |current| == |vs|
    ensures Parse(scan, Lines(Texts(show, vs)) + tail, current) == vs
    ensures After(scan, Lines(Texts(show, vs)) + tail, |vs|) == tail
  {
    ReadsPrefix(scan, show, vs, current, follows, tail);
    assert vs[..|vs|] == vs;
    LeftOver(scan, show, vs, follows, tail, |vs|);
    assert Lines(Texts(show, vs)[|vs|..]) + tail == tail;
  }

  /** Two calls more. */
  lemma AfterTwoMore<T>(scan: Conversion<T>, s: string, k: nat, third: string, second: string)
    requires After(scan, s, k) == third && scan(third).1 == second
    ensures After(scan, s, k + 2) == scan(second).1
  {
    assert After(scan, s, k + 1) == second;
  }

  /** The same through a token buffer. */
  lemma RoundTripThrough<T, U>(scan: Conversion<T>, show: T -> string, value: T -> U, vs: seq<T>, temp: T,
                               follows: string -> bool, tail: string)
    requires Chains(scan, show, vs, follows) && follows(tail)
    ensures var r := ParseThrough(scan, value, Lines(Texts(show, vs)) + tail, temp, |vs|);
            forall k :: 0 <= k < |vs| ==> r[k] == value(vs[k])
  {
    forall k | 0 <= k < |vs|
      ensures Last(scan, Lines(Texts(show, vs)) + tail, temp, k + 1) == vs[k]
    {
      LeftOver(scan, show, vs, follows, tail, k + 1);
    }
  }

  /** A file open for reading. */
  class InFile {
    var rest: string

    constructor (text: string)
      ensures rest == text
    {
      rest := text;
    }

    method Scanf<T>(scan: Conversion<T>) returns (v: Option<T>)
      modifies this
      ensures v == scan(old(rest)).0 && rest == scan(old(rest)).1
    {
      var r := scan(rest);
      v, rest := r.0, r.1;
    }
  }

  /** Reads a list of fields in place. */
  method ReadFields<T>(fp: InFile, scan: Conversion<T>, fields: array<T>)
    modifies fp, fields
    ensures fields[..] == Parse(scan, old(fp.rest), old(fields[..]))
    ensures fp.rest == After(scan, old(fp.rest), fields.Length)
  {
    ghost var s, current := fp.rest, fields[..];
    var i := 0;
    while i < fields.Length
      invariant 0 <= i <= fields.Length && fp.rest == After(scan, s, i)
      invariant forall k :: 0 <= k < fields.Length ==>
                fields[k] == if k < i then Field(scan, s, current[k], k) else current[k]
    {
      var v := fp.Scanf(scan);
      if v.Some? {
        fields[i] := v.value;
      }
      i := i + 1;
    }
  }

  /** Reads a list of fields in place, each through the token buffer. */
  method ReadFieldsThrough<T, U>(fp: InFile, scan: Conversion<T>, value: T -> U, fields: array<U>, junk: T)
    modifies fp, fields
    ensures fields[..] == ParseThrough(scan, value, old(fp.rest), junk, fields.Length)
    ensures fp.rest == After(scan, old(fp.rest), fields.Length)
  {
    ghost var s := fp.rest;
    var tempBuff := junk;
    var i := 0;
    while i < fields.Length
      invariant 0 <= i <= fields.Length && fp.rest == After(scan, s, i) && tempBuff == Last(scan, s, junk, i)
      invariant forall k :: 0 <= k < i ==> fields[k] == value(Last(scan, s, junk, k + 1))
    {
      var w := fp.Scanf(scan);
      if w.Some? {
        tempBuff := w.value;
      }
      fields[i] := value(tempBuff);
      i := i + 1;
    }
  }

  /** Prints a list of fields, one a line. */
  method PrintFields<T>(show: T -> string, fields: array<T>) returns (text: string)
    ensures text == Lines(Texts(show, fields[..]))
  {
    ghost var ts := Texts(show, fields[..]);
    text := "";
    var i := 0;
    while i < fields.Length
      invariant 0 <= i <= fields.Length
      invariant text == Lines(ts[..i])
    {
      assert ts[..i + 1] == ts[..i] + [ts[i]];
      LinesConcat(ts[..i], [ts[i]]);
      assert Lines([ts[i]]) == ts[i] + "\n" + "";
      text := text + (show(fields[i]) + "\n");
      i := i + 1;
    }
    assert ts[..i] == ts;
  }
}
