/** Object identifiers as the trap code writes and compares them: one ".%lu" a sub-identifier. */
module OidText {
  import opened Decimal

  function Text(name: seq<nat>): string
  {
    if name == [] then "" else Text(name[..|name| - 1]) + "." + NatText(name[|name| - 1])
  }

  lemma TextBefore(name: seq<nat>, last: nat)
    ensures Text(name + [last]) == Text(name) + "." + NatText(last)
  {
    assert (name + [last])[..|name|] == name;
  }

  lemma Associates(a: string, b: string, c: string)
    ensures a + b + "." + c == a + (b + "." + c)
  {
  }

  lemma {:induction false} TextConcat(a: seq<nat>, b: seq<nat>)
    ensures Text(a + b) == Text(a) + Text(b)
  {
    if b == [] {
      assert a + b == a;
    } else {
      var init, last := b[..|b| - 1], b[|b| - 1];
      TextConcat(a, init);
      TextBefore(a + init, last);
      assert a + b == a + init + [last];
      Associates(Text(a), Text(init), NatText(last));
    }
  }

  lemma TextOfOne(n: nat)
    ensures Text([n]) == "." + NatText(n)
  {
    TextBefore([], n);
    assert [] + [n] == [n];
    assert "" + "." == ".";
  }

  /** One sub-identifier in front. */
  lemma Prepend(first: nat, rest: seq<nat>, name: seq<nat>)
    requires name == [first] + rest
    ensures Text(name) == "." + NatText(first) + Text(rest)
  {
    TextOfOne(first);
    TextConcat([first], rest);
  }

  lemma EnterprisesText()
    ensures Text([1, 3, 6, 1, 4, 1]) == ".1.3.6.1.4.1"
  {
    Prepend(1, [], [1]);
    Prepend(4, [1], [4, 1]);
    Prepend(1, [4, 1], [1, 4, 1]);
    Prepend(6, [1, 4, 1], [6, 1, 4, 1]);
    Prepend(3, [6, 1, 4, 1], [3, 6, 1, 4, 1]);
    Prepend(1, [3, 6, 1, 4, 1], [1, 3, 6, 1, 4, 1]);
  }

  lemma EnterpriseText()
    ensures Text([1, 3, 6, 1, 4, 1, 3204]) == ".1.3.6.1.4.1.3204"
  {
    assert NatText(32) == "32" && NatText(320) == "320" && NatText(3204) == "3204";
    EnterprisesText();
    TextBefore([1, 3, 6, 1, 4, 1], 3204);
    assert [1, 3, 6, 1, 4, 1] + [3204] == [1, 3, 6, 1, 4, 1, 3204];
  }

  /** The arc both tables are under. */
  lemma GroupText()
    ensures Text([1, 3, 6, 1, 4, 1, 3204, 1, 3, 34]) == ".1.3.6.1.4.1.3204.1.3.34"
  {
    EnterpriseText();
    assert NatText(34) == "34";
    Prepend(34, [], [34]);
    Prepend(3, [34], [3, 34]);
    Prepend(1, [3, 34], [1, 3, 34]);
    TextConcat([1, 3, 6, 1, 4, 1, 3204], [1, 3, 34]);
    assert [1, 3, 6, 1, 4, 1, 3204] + [1, 3, 34] == [1, 3, 6, 1, 4, 1, 3204, 1, 3, 34];
  }

  lemma LastDot(front: string, digits: string)
    requires AllDigits(digits)
    ensures var s := front + "." + digits;
            s[|front|] == '.' && forall i :: |front| < i < |s| ==> s[i] != '.'
  {
    var s := front + "." + digits;
    assert forall i :: |front| < i < |s| ==> s[i] == digits[i - |front| - 1];
  }

  /** Equal texts that end in a dot and digits have the same digits: a longer run of digits would hold the dot. */
  lemma LastPartEqual(front: string, digits: string, front': string, digits': string)
    requires AllDigits(digits) && AllDigits(digits')
    requires front + "." + digits == front' + "." + digits'
    ensures front == front' && digits == digits'
  {
    var s := front + "." + digits;
    LastDot(front, digits);
    LastDot(front', digits');
    assert |front| == |front'|;
    assert s[..|front|] == front && s[..|front'|] == front';
    assert s[|front| + 1..] == digits && s[|front'| + 1..] == digits';
  }

  /** `strcmp` on the texts decides equality of the identifiers. */
  lemma {:induction false} TextInjective(a: seq<nat>, b: seq<nat>)
    ensures Text(a) == Text(b) <==> a == b
  {
    if a != [] && b != [] && Text(a) == Text(b) {
      var m, n := |a| - 1, |b| - 1;
      LastPartEqual(Text(a[..m]), NatText(a[m]), Text(b[..n]), NatText(b[n]));
      NatTextInjective(a[m], b[n]);
      TextInjective(a[..m], b[..n]);
      assert a == a[..m] + [a[m]] && b == b[..n] + [b[n]];
    }
  }

  /** The loop of `sprintf` and `strcat` over the name of a request's variable. */
  method Spell(name: seq<nat>) returns (text: string)
    ensures text == Text(name)
  {
    text := "";
    var i := 0;
    while i < |name|
      invariant 0 <= i <= |name| && text == Text(name[..i])
    {
      TextBefore(name[..i], name[i]);
      assert name[..i + 1] == name[..i] + [name[i]];
      text := text + ("." + NatText(name[i]));
      i := i + 1;
    }
    assert name[..i] == name;
  }

  /** "%d.%d.%d.%d" of four signed octets, each masked to its unsigned value. */
  function Dotted(asn: seq<int>): string
    requires |asn| == 4
  {
    NatText(asn[0] % 256) + "." + NatText(asn[1] % 256) + "." + NatText(asn[2] % 256) + "." + NatText(asn[3] % 256)
  }

  function Unsigned(asn: seq<int>): (p: seq<nat>)
    requires |asn| == 4
    ensures |p| == 4 && forall i :: 0 <= i < 4 ==> p[i] == asn[i] % 256
  {
    [asn[0] % 256, asn[1] % 256, asn[2] % 256, asn[3] % 256]
  }

  lemma DottedIsText(asn: seq<int>)
    requires |asn| == 4
    ensures "." + Dotted(asn) == Text(Unsigned(asn))
  {
    var p := Unsigned(asn);
    var t0, t1, t2, t3 := NatText(p[0]), NatText(p[1]), NatText(p[2]), NatText(p[3]);
    TextBefore([], p[0]);
    assert [] + [p[0]] == [p[0]] && Text([p[0]]) == "." + t0;
    TextBefore([p[0]], p[1]);
    assert [p[0]] + [p[1]] == [p[0], p[1]] && [p[0], p[1]] + [p[2]] == [p[0], p[1], p[2]];
    assert Text([p[0], p[1]]) == "." + t0 + "." + t1;
    TextBefore([p[0], p[1]], p[2]);
    assert Text([p[0], p[1], p[2]]) == "." + t0 + "." + t1 + "." + t2;
    TextBefore([p[0], p[1], p[2]], p[3]);
    assert p == [p[0], p[1], p[2]] + [p[3]];
    DottedAssociates(t0, t1, t2, t3);
  }

  lemma DottedAssociates(a: string, b: string, c: string, d: string)
    ensures "." + a + "." + b + "." + c + "." + d == "." + (a + "." + b + "." + c + "." + d)
  {
  }

  lemma OctetInjective(x: int, y: int)
    requires -128 <= x < 128 && -128 <= y < 128 && x % 256 == y % 256
    ensures x == y
  {
  }

  lemma UnsignedInjective(a: seq<int>, b: seq<int>)
    requires |a| == 4 && |b| == 4 && Unsigned(a) == Unsigned(b)
    requires forall i :: 0 <= i < 4 ==> -128 <= a[i] < 128 && -128 <= b[i] < 128
    ensures a == b
  {
    forall i | 0 <= i < 4
      ensures a[i] == b[i]
    {
      assert Unsigned(a)[i] == Unsigned(b)[i];
      OctetInjective(a[i], b[i]);
    }
  }

  /** Two addresses with the same dotted text are the same four octets. */
  lemma DottedInjective(a: seq<int>, b: seq<int>)
    requires |a| == 4 && |b| == 4
    requires forall i :: 0 <= i < 4 ==> -128 <= a[i] < 128 && -128 <= b[i] < 128
    ensures Dotted(a) == Dotted(b) <==> a == b
  {
    if Dotted(a) == Dotted(b) {
      DottedIsText(a);
      DottedIsText(b);
      TextInjective(Unsigned(a), Unsigned(b));
      UnsignedInjective(a, b);
    }
  }
}
