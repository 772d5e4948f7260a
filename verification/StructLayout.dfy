/** C structures in memory: the offset and size of each field, and reads and writes of fields in a record's octets. */
module StructLayout {
  import opened Octets

  /** A `long` and a pointer take one word, an `int` four octets. */
  datatype Kind = Word | Int | Chars(n: nat)

  function Size(k: Kind, w: nat): nat
  {
    match k
    case Word => w
    case Int => 4
    case Chars(n) => n
  }

  function Align(k: Kind, w: nat): nat
  {
    match k
    case Word => w
    case Int => 4
    case Chars(_) => 1
  }

  predicate WordSize(w: nat) { w == 4 || w == 8 }

  function UpTo4(n: nat): (r: nat)
    ensures n <= r < n + 4 && r % 4 == 0
  {
    if n % 4 == 0 then n else n + 4 - n % 4
  }

  function UpTo8(n: nat): (r: nat)
    ensures n <= r < n + 8 && r % 8 == 0
  {
    if n % 8 == 0 then n else n + 8 - n % 8
  }

  /** A multiple of an alignment. */
  predicate Aligned(n: nat, a: nat)
  {
    (a == 4 ==> n % 4 == 0) && (a == 8 ==> n % 8 == 0)
  }

  /** The next multiple of an alignment. */
  function RoundUp(n: nat, a: nat): (r: nat)
    requires a == 1 || a == 4 || a == 8
    ensures n <= r < n + a && Aligned(r, a) && (Aligned(n, a) ==> r == n)
  {
    if a == 1 then n else if a == 4 then UpTo4(n) else UpTo8(n)
  }

  /** The offsets of the fields, each behind the one in front of it. */
  function Offsets(fields: seq<Kind>, w: nat): (r: seq<nat>)
    requires WordSize(w)
    ensures |r| == |fields|
  {
    if fields == [] then [] else
      var n := |fields| - 1;
      var r := Offsets(fields[..n], w);
      r + [if n == 0 then 0 else RoundUp(r[n - 1] + Size(fields[n - 1], w), Align(fields[n], w))]
  }

  function Offset(fields: seq<Kind>, w: nat, i: nat): nat
    requires WordSize(w) && i < |fields|
  {
    Offsets(fields, w)[i]
  }

  /** The first octet behind field i. */
  function End(fields: seq<Kind>, w: nat, i: nat): nat
    requires WordSize(w) && i < |fields|
  {
    Offset(fields, w, i) + Size(fields[i], w)
  }

  /** `sizeof`: every structure here has a word in it, so it is padded to a whole number of words. */
  function SizeOf(fields: seq<Kind>, w: nat): (r: nat)
    requires WordSize(w) && fields != []
    ensures r >= End(fields, w, |fields| - 1)
  {
    RoundUp(End(fields, w, |fields| - 1), w)
  }

  lemma {:induction false} OffsetsOfPrefix(fields: seq<Kind>, w: nat, n: nat)
    requires WordSize(w) && n <= |fields|
    ensures Offsets(fields[..n], w) == Offsets(fields, w)[..n]
  {
    if n == |fields| {
      assert fields[..n] == fields;
    } else {
      var init := fields[..|fields| - 1];
      OffsetsOfPrefix(init, w, n);
      assert init[..n] == fields[..n];
      assert Offsets(init, w)[..n] == Offsets(fields, w)[..n];
    }
  }

  lemma OffsetOfPrefix(fields: seq<Kind>, w: nat, n: nat, i: nat)
    requires WordSize(w) && i < n <= |fields|
    ensures Offset(fields[..n], w, i) == Offset(fields, w, i) && End(fields[..n], w, i) == End(fields, w, i)
  {
    OffsetsOfPrefix(fields, w, n);
    assert Offsets(fields, w)[..n][i] == Offsets(fields, w)[i];
  }

  lemma LastOffset(fields: seq<Kind>, w: nat)
    requires WordSize(w) && |fields| > 1
    ensures var n := |fields| - 1;
            Offset(fields, w, n) == RoundUp(End(fields[..n], w, n - 1), Align(fields[n], w))
  {
  }

  /** Each offset is the end of the field in front, rounded up. */
  lemma OffsetFollows(fields: seq<Kind>, w: nat, i: nat)
    requires WordSize(w) && 0 < i < |fields|
    ensures Offset(fields, w, i) == RoundUp(End(fields, w, i - 1), Align(fields[i], w))
  {
    var front := fields[..i + 1];
    assert front[..i] == fields[..i] && front[i] == fields[i];
    LastOffset(front, w);
    OffsetOfPrefix(fields, w, i + 1, i);
    OffsetOfPrefix(fields, w, i, i - 1);
  }

  /** Each field stands as close behind the one in front as its alignment allows: characters directly, an `int` on the
      next multiple of four, a word on the next multiple of the word size; and the structure is filled up to whole
      words. */
  lemma FieldsArePacked(fields: seq<Kind>, w: nat, i: nat)
    requires WordSize(w) && 0 < i < |fields|
    ensures var e, o := End(fields, w, i - 1), Offset(fields, w, i);
            match fields[i]
            case Chars(_) => o == e
            case Int => o % 4 == 0 && e <= o < e + 4
            case Word => o % w == 0 && e <= o < e + w
    ensures SizeOf(fields, w) % w == 0
    ensures End(fields, w, |fields| - 1) <= SizeOf(fields, w) < End(fields, w, |fields| - 1) + w
  {
    OffsetFollows(fields, w, i);
  }

  lemma FirstOffset(fields: seq<Kind>, w: nat)
    requires WordSize(w) && fields != []
    ensures Offset(fields, w, 0) == 0
  {
    OffsetsOfPrefix(fields, w, 1);
    assert fields[..1][..0] == [];
    assert Offsets(fields[..1], w)[0] == Offsets(fields, w)[..1][0];
  }

  lemma OffsetAligned(fields: seq<Kind>, w: nat, i: nat)
    requires WordSize(w) && i < |fields|
    ensures Aligned(Offset(fields, w, i), Align(fields[i], w))
  {
    if i == 0 {
      FirstOffset(fields, w);
    } else {
      OffsetFollows(fields, w, i);
    }
  }

  lemma NextWordOf4(e: nat)
    requires e % 4 == 0
    ensures (e + 4) % 4 == 0
  {
  }

  lemma NextWordOf8(e: nat)
    requires e % 8 == 0
    ensures (e + 8) % 8 == 0
  {
  }

  lemma NextWord(e: nat, w: nat)
    requires WordSize(w) && Aligned(e, w)
    ensures Aligned(e + w, w) && RoundUp(e, w) == e
  {
    if w == 4 {
      NextWordOf4(e);
    } else {
      NextWordOf8(e);
    }
  }

  /** A word ends on a word boundary. */
  lemma EndOfWord(fields: seq<Kind>, w: nat, i: nat)
    requires WordSize(w) && i < |fields| && fields[i] == Word
    ensures Aligned(End(fields, w, i), w)
  {
    OffsetAligned(fields, w, i);
    NextWord(Offset(fields, w, i), w);
  }

  /** Field i follows the octet where the one in front of it ends. */
  predicate Behind(fields: seq<Kind>, w: nat, i: nat, e: nat)
    requires WordSize(w)
  {
    0 < i < |fields| && End(fields, w, i - 1) == e
  }

  lemma CharsField(fields: seq<Kind>, w: nat, i: nat, e: nat, n: nat)
    requires WordSize(w) && Behind(fields, w, i, e) && fields[i] == Chars(n)
    ensures Offset(fields, w, i) == e && End(fields, w, i) == e + n
    ensures i + 1 < |fields| ==> Behind(fields, w, i + 1, e + n)
  {
    OffsetFollows(fields, w, i);
  }

  lemma WordField(fields: seq<Kind>, w: nat, i: nat, e: nat)
    requires WordSize(w) && Behind(fields, w, i, e) && fields[i] == Word
    ensures Offset(fields, w, i) == RoundUp(e, w) && End(fields, w, i) == RoundUp(e, w) + w
    ensures i + 1 < |fields| ==> Behind(fields, w, i + 1, RoundUp(e, w) + w)
  {
    OffsetFollows(fields, w, i);
  }

  /** A word on a word boundary needs no padding, and ends on the next one. */
  lemma AlignedWord(fields: seq<Kind>, w: nat, i: nat, e: nat)
    requires WordSize(w) && Behind(fields, w, i, e) && fields[i] == Word && Aligned(e, w)
    ensures Offset(fields, w, i) == e && Aligned(e + w, w)
    ensures i + 1 < |fields| ==> Behind(fields, w, i + 1, e + w)
  {
    WordField(fields, w, i, e);
    NextWord(e, w);
  }

  lemma WordAlignedIsIntAligned(e: nat, w: nat)
    requires WordSize(w) && Aligned(e, w)
    ensures RoundUp(e, 4) == e
  {
    if w == 8 {
      assert e == 4 * (2 * (e / 8));
    }
  }

  /** An `int` where a word could stand. */
  lemma IntField(fields: seq<Kind>, w: nat, i: nat, e: nat)
    requires WordSize(w) && Behind(fields, w, i, e) && fields[i] == Int && Aligned(e, w)
    ensures Offset(fields, w, i) == e && End(fields, w, i) == e + 4
    ensures i + 1 < |fields| ==> Behind(fields, w, i + 1, e + 4)
  {
    OffsetFollows(fields, w, i);
    WordAlignedIsIntAligned(e, w);
  }

  lemma {:induction false} FieldsAreApart(fields: seq<Kind>, w: nat, i: nat, j: nat)
    requires WordSize(w) && i < j < |fields|
    ensures End(fields, w, i) <= Offset(fields, w, j)
    decreases j
  {
    OffsetFollows(fields, w, j);
    if i + 1 < j {
      FieldsAreApart(fields, w, i, j - 1);
    }
  }

  lemma FieldIsInside(fields: seq<Kind>, w: nat, i: nat)
    requires WordSize(w) && i < |fields|
    ensures End(fields, w, i) <= SizeOf(fields, w)
  {
    if i < |fields| - 1 {
      FieldsAreApart(fields, w, i, |fields| - 1);
    }
  }

  /** Offsets depend on the fields in front only. */
  lemma SamePrefix(a: seq<Kind>, b: seq<Kind>, w: nat, n: nat, i: nat)
    requires WordSize(w) && i < n <= |a| && n <= |b| && a[..n] == b[..n]
    ensures Offset(a, w, i) == Offset(b, w, i) && End(a, w, i) == End(b, w, i)
  {
    OffsetsOfPrefix(a, w, n);
    OffsetsOfPrefix(b, w, n);
    assert a[i] == a[..n][i] && b[i] == b[..n][i];
    assert Offsets(a, w)[i] == Offsets(a, w)[..n][i] && Offsets(b, w)[i] == Offsets(b, w)[..n][i];
  }

  /** The octets of one field of a record. */
  function Field(fields: seq<Kind>, w: nat, record: seq<byte>, i: nat): (r: seq<byte>)
    requires WordSize(w) && i < |fields| && |record| == SizeOf(fields, w)
    ensures |r| == Size(fields[i], w)
  {
    FieldIsInside(fields, w, i);
    record[Offset(fields, w, i)..End(fields, w, i)]
  }

  /** An assignment to one field. */
  function Assign(fields: seq<Kind>, w: nat, record: seq<byte>, i: nat, v: seq<byte>): (r: seq<byte>)
    requires WordSize(w) && i < |fields| && |record| == SizeOf(fields, w) && |v| == Size(fields[i], w)
    ensures |r| == |record|
  {
    FieldIsInside(fields, w, i);
    record[..Offset(fields, w, i)] + v + record[End(fields, w, i)..]
  }

  lemma Splice(s: seq<byte>, lo: nat, hi: nat, v: seq<byte>, from: nat, to: nat)
    requires lo <= hi <= |s| && |v| == hi - lo && from <= to <= |s|
    ensures var r := s[..lo] + v + s[hi..];
            && r[lo..hi] == v
            && (to <= lo || hi <= from ==> r[from..to] == s[from..to])
  {
  }

  /** It changes that field and no other. */
  lemma AssignChangesOneField(fields: seq<Kind>, w: nat, record: seq<byte>, i: nat, v: seq<byte>, j: nat)
    requires WordSize(w) && i < |fields| && j < |fields| && |record| == SizeOf(fields, w) && |v| == Size(fields[i], w)
    ensures Field(fields, w, Assign(fields, w, record, i, v), j) == if i == j then v else Field(fields, w, record, j)
  {
    FieldIsInside(fields, w, i);
    FieldIsInside(fields, w, j);
    Splice(record, Offset(fields, w, i), End(fields, w, i), v, Offset(fields, w, j), End(fields, w, j));
    if i < j {
      FieldsAreApart(fields, w, i, j);
    } else if j < i {
      FieldsAreApart(fields, w, j, i);
    }
  }

  /** Octets copied over the front of a record: a field wholly in front of the cut is copied. */
  lemma CopiedField(a: seq<Kind>, b: seq<Kind>, w: nat, src: seq<byte>, dst: seq<byte>, cut: nat, n: nat, i: nat)
    requires WordSize(w) && i < n <= |a| && n <= |b| && a[..n] == b[..n]
    requires |src| == SizeOf(a, w) && |dst| == SizeOf(b, w) && cut <= |src| && cut <= |dst|
    requires End(a, w, i) <= cut
    ensures Field(b, w, Overlay(dst, src[..cut]), i) == Field(a, w, src, i)
  {
    SamePrefix(a, b, w, n, i);
    FieldIsInside(a, w, i);
  }

  /** A number in n octets, the least significant first. */
  function Encode(v: int, n: nat): (r: seq<byte>)
    ensures |r| == n
    decreases n
  {
    if n == 0 then [] else [v % 256] + Encode(v / 256, n - 1)
  }

  function Power256(n: nat): nat
  {
    if n == 0 then 1 else 256 * Power256(n - 1)
  }

  /** The number some octets denote, the least significant first. */
  function Denoted(octets: seq<byte>): nat
  {
    if octets == [] then 0 else octets[0] + 256 * Denoted(octets[1..])
  }

  lemma {:induction false} DenotedBound(octets: seq<byte>)
    ensures Denoted(octets) < Power256(|octets|)
  {
    if octets != [] {
      DenotedBound(octets[1..]);
    }
  }

  lemma PowerPositive(n: nat)
    ensures Power256(n) > 0
  {
  }

  /** A number between 0 and p that differs from v by a multiple of p is the rest of v. */
  lemma RestIs(v: int, p: int, r: int, k: int)
    requires 0 <= r < p && v == r + p * k
    ensures v % p == r
  {
    var q, d := v % p, v / p;
    assert v == p * d + q;
    assert q - r == p * (k - d);
    if k - d >= 1 {
      assert p * (k - d) == p + p * (k - d - 1);
      Product(p, k - d - 1);
    } else if k - d <= -1 {
      assert p * (d - k) == p + p * (d - k - 1);
      Product(p, d - k - 1);
    }
  }

  lemma Product(a: nat, b: nat)
    ensures a * b >= 0
  {
  }

  lemma {:induction false} EncodeDiffers(v: int, n: nat) returns (k: int)
    ensures v == Denoted(Encode(v, n)) + Power256(n) * k
    decreases n
  {
    if n == 0 {
      k := v;
    } else {
      k := EncodeDiffers(v / 256, n - 1);
      assert Encode(v, n)[1..] == Encode(v / 256, n - 1);
      assert 256 * (Power256(n - 1) * k) == Power256(n) * k;
    }
  }

  /** A number stored in n octets is read back modulo 256 to the n. */
  lemma EncodeDenotes(v: int, n: nat)
    ensures Power256(n) > 0 && Denoted(Encode(v, n)) == v % Power256(n)
  {
    var k := EncodeDiffers(v, n);
    PowerPositive(n);
    DenotedBound(Encode(v, n));
    RestIs(v, Power256(n), Denoted(Encode(v, n)), k);
  }

  /** The octets of zero, one and minus one. */
  lemma {:induction false} SmallNumbers(n: nat)
    ensures Encode(0, n) == Zeros(n)
    ensures Encode(-1, n) == seq(n, _ => 255)
    ensures n > 0 ==> Encode(1, n) == [1] + Zeros(n - 1)
  {
    if n > 0 {
      SmallNumbers(n - 1);
      assert Zeros(n) == [0] + Zeros(n - 1);
      assert seq(n, _ => 255) == [255] + seq(n - 1, _ => 255);
      assert -1 / 256 == -1 && -1 % 256 == 255;
    }
  }
}
