/** The converter of the process monitor's table: each record is copied as a block, all but its last twelve octets,
    and five fields are then assigned. Twelve octets are the tail of the old format only where words have four. */
module ConvPs {
  import opened Octets
  import opened StructLayout
  import opened FormatDetection

  /** From `index` to `psMonitorStatus`. */
  const SHARED := 21

  const TAIL := 12

  function Shared(): (r: seq<Kind>)
    ensures |r| == SHARED && r[SHARED - 1] == Word
  {
    [Word, Word, Word, Chars(255), Word, Chars(255), Word, Word, Word, Chars(80), Word, Chars(255), Word, Chars(20),
     Word, Word, Chars(255), Word, Chars(255), Word, Word]
  }

  const OLD_DATA := 21
  const OLD_IDX := 22
  const OLD_FLAG := 23

  /** Behind the shared fields: data, idx, the thread flag. */
  function OldTable(): (r: seq<Kind>)
    ensures |r| == SHARED + 3 && r[..SHARED] == Shared()
    ensures r[OLD_DATA] == r[OLD_IDX] == Word && r[OLD_FLAG] == Int
  {
    Shared() + [Word, Word, Int]
  }

  const THRESHOLD := 21
  const CPU := 22
  const MEM := 23
  const START_HOUR := 24
  const END_HOUR := 25
  const DATA := 26
  const IDX := 27
  const FLAG := 28
  const THRESHOLD_CPU := 29
  const THRESHOLD_MEM := 30

  /** The new format has five words more in front of them, and two `int`s behind. */
  function NewTable(): (r: seq<Kind>)
    ensures |r| == SHARED + 10 && r[..SHARED] == Shared()
    ensures forall j :: SHARED <= j < FLAG ==> r[j] == Word
    ensures forall j :: FLAG <= j < |r| ==> r[j] == Int
  {
    Shared() + [Word, Word, Word, Word, Word, Word, Word, Int, Int, Int]
  }

  /** All that matters of the two layouts: the same fields in front, ending with a word, and the fields behind them.
      */
  predicate Layouts(f: seq<Kind>, g: seq<Kind>)
  {
    && |f| == SHARED + 3 && |g| == SHARED + 10 && f[..SHARED] == g[..SHARED] && f[SHARED - 1] == Word
    && f[OLD_DATA] == f[OLD_IDX] == Word && f[OLD_FLAG] == Int
    && g[THRESHOLD] == g[CPU] == g[MEM] == g[START_HOUR] == g[END_HOUR] == g[DATA] == g[IDX] == Word
    && g[FLAG] == g[THRESHOLD_CPU] == g[THRESHOLD_MEM] == Int
  }

  lemma TableLayouts()
    ensures Layouts(OldTable(), NewTable())
  {
    assert OldTable()[SHARED - 1] == OldTable()[..SHARED][SHARED - 1];
  }

  /** Where the shared fields end. */
  function SharedEnd(f: seq<Kind>, g: seq<Kind>, w: nat): nat
    requires WordSize(w) && Layouts(f, g)
  {
    End(f, w, SHARED - 1)
  }

  lemma SharedFirst(f: seq<Kind>, g: seq<Kind>, w: nat)
    requires WordSize(w) && Layouts(f, g)
    ensures Behind(f, w, SHARED, SharedEnd(f, g, w)) && Behind(g, w, SHARED, SharedEnd(f, g, w))
    ensures Aligned(SharedEnd(f, g, w), w)
  {
    EndOfWord(f, w, SHARED - 1);
    SamePrefix(f, g, w, SHARED, SHARED - 1);
  }

  lemma OldTail(f: seq<Kind>, w: nat, p: nat)
    requires WordSize(w) && |f| == SHARED + 3 && Behind(f, w, SHARED, p) && Aligned(p, w)
    requires f[OLD_DATA] == f[OLD_IDX] == Word && f[OLD_FLAG] == Int
    ensures Offset(f, w, OLD_DATA) == p && Offset(f, w, OLD_IDX) == p + w
    ensures End(f, w, OLD_FLAG) == p + w + w + 4
  {
    AlignedWord(f, w, OLD_DATA, p);
    AlignedWord(f, w, OLD_IDX, p + w);
    IntField(f, w, OLD_FLAG, p + w + w);
  }

  lemma OldSize(w: nat, p: nat)
    requires WordSize(w) && Aligned(p, w)
    ensures RoundUp(p + w + w + 4, w) == if w == 4 then p + 12 else p + 24
  {
    if w == 4 {
      assert Aligned(p + 12, 4);
    } else {
      assert p % 8 == 0 && (p + 20) % 8 == 4;
      assert UpTo8(p + 20) == p + 24;
    }
  }

  lemma OldCut(f: seq<Kind>, w: nat, p: nat)
    requires WordSize(w) && |f| == SHARED + 3 && Behind(f, w, SHARED, p) && Aligned(p, w)
    requires f[OLD_DATA] == f[OLD_IDX] == Word && f[OLD_FLAG] == Int
    ensures SizeOf(f, w) - TAIL == if w == 4 then p else p + 12
  {
    OldTail(f, w, p);
    OldSize(w, p);
  }

  lemma NewTail(f: seq<Kind>, w: nat, p: nat)
    requires WordSize(w) && |f| == SHARED + 10 && Behind(f, w, SHARED, p) && Aligned(p, w)
    requires f[THRESHOLD] == f[CPU] == Word
    ensures Offset(f, w, THRESHOLD) == p && Offset(f, w, CPU) == p + w && End(f, w, CPU) == p + w + w
  {
    AlignedWord(f, w, THRESHOLD, p);
    AlignedWord(f, w, CPU, p + w);
  }

  /** The number of octets the block copy moves. */
  function Cut(f: seq<Kind>, g: seq<Kind>, w: nat): int
    requires WordSize(w) && Layouts(f, g)
  {
    SizeOf(f, w) - TAIL
  }

  /** The copy ends with the shared fields on a 32-bit machine, and twelve octets behind them on a 64-bit one. */
  lemma CutIs(f: seq<Kind>, g: seq<Kind>, w: nat)
    requires WordSize(w) && Layouts(f, g)
    ensures var p := SharedEnd(f, g, w);
            && Cut(f, g, w) == (if w == 4 then p else p + 12) && Cut(f, g, w) <= SizeOf(f, w)
            && Offset(f, w, OLD_DATA) == p && Offset(f, w, OLD_IDX) == p + w
  {
    SharedFirst(f, g, w);
    OldTail(f, w, SharedEnd(f, g, w));
    OldCut(f, w, SharedEnd(f, g, w));
  }

  /** What lies there in the new format. */
  lemma NewSettings(f: seq<Kind>, g: seq<Kind>, w: nat)
    requires WordSize(w) && Layouts(f, g)
    ensures var p := SharedEnd(f, g, w);
            Offset(g, w, THRESHOLD) == p && Offset(g, w, CPU) == p + w && End(g, w, CPU) == p + w + w
  {
    SharedFirst(f, g, w);
    NewTail(g, w, SharedEnd(f, g, w));
  }

  lemma NewIsLonger(f: seq<Kind>, g: seq<Kind>, w: nat)
    requires WordSize(w) && Layouts(f, g)
    ensures 0 <= Cut(f, g, w) <= SizeOf(f, w) < SizeOf(g, w)
  {
    CutIs(f, g, w);
    NewSettings(f, g, w);
    FieldsAreApart(g, w, CPU, MEM);
    FieldsAreApart(g, w, MEM, START_HOUR);
    FieldIsInside(g, w, START_HOUR);
  }

  /** What field j of a new record should hold, for the old record o: hours that are not set, zeros in the other new
      settings, and the rest as it was. */
  function Intended(f: seq<Kind>, g: seq<Kind>, w: nat, o: seq<byte>, j: nat): (v: seq<byte>)
    requires WordSize(w) && Layouts(f, g) && |o| == SizeOf(f, w) && j < |g|
    ensures |v| == Size(g[j], w)
  {
    if j < SHARED then assert g[j] == g[..SHARED][j] && f[j] == f[..SHARED][j]; Field(f, w, o, j)
    else if j == START_HOUR || j == END_HOUR then Encode(-1, w)
    else if DATA <= j <= FLAG then Field(f, w, o, j - 5)
    else Zeros(Size(g[j], w))
  }

  /** The order of the assignments: data, idx, flag, start hour, end hour. */
  function Target(k: nat): (j: nat)
    requires k < 5
    ensures START_HOUR <= j <= FLAG
  {
    if k < 3 then DATA + k else START_HOUR + (k - 3)
  }

  /** The record after the first k assignments. */
  function Assigned(f: seq<Kind>, g: seq<Kind>, w: nat, n: seq<byte>, o: seq<byte>, k: nat): (r: seq<byte>)
    requires WordSize(w) && Layouts(f, g) && |o| == SizeOf(f, w) && |n| == SizeOf(g, w) && k <= 5
    ensures |r| == |n|
  {
    if k == 0 then n else
      Assign(g, w, Assigned(f, g, w, n, o, k - 1), Target(k - 1), Intended(f, g, w, o, Target(k - 1)))
  }

  function Converted(f: seq<Kind>, g: seq<Kind>, w: nat, n: seq<byte>, o: seq<byte>): (r: seq<byte>)
    requires WordSize(w) && Layouts(f, g) && |o| == SizeOf(f, w) && |n| == SizeOf(g, w)
    ensures |r| == |n|
  {
    NewIsLonger(f, g, w);
    Assigned(f, g, w, Overlay(n, o[..Cut(f, g, w)]), o, 5)
  }

  lemma {:induction false} AssignedField(f: seq<Kind>, g: seq<Kind>, w: nat, n: seq<byte>, o: seq<byte>, k: nat, j: nat)
    requires WordSize(w) && Layouts(f, g) && |o| == SizeOf(f, w) && |n| == SizeOf(g, w) && k <= 5 && j < |g|
    ensures Field(g, w, Assigned(f, g, w, n, o, k), j) ==
            if exists i :: 0 <= i < k && Target(i) == j then Intended(f, g, w, o, j) else Field(g, w, n, j)
  {
    if k > 0 {
      AssignedField(f, g, w, n, o, k - 1, j);
      AssignChangesOneField(g, w, Assigned(f, g, w, n, o, k - 1),
                            Target(k - 1), Intended(f, g, w, o, Target(k - 1)), j);
    }
  }

  /** The five assignments reach the hours and the old tail, and no other field. */
  lemma AssignedFive(f: seq<Kind>, g: seq<Kind>, w: nat, n: seq<byte>, o: seq<byte>, j: nat)
    requires WordSize(w) && Layouts(f, g) && |o| == SizeOf(f, w) && |n| == SizeOf(g, w) && j < |g|
    ensures Field(g, w, Assigned(f, g, w, n, o, 5), j) ==
            if START_HOUR <= j <= FLAG then Intended(f, g, w, o, j) else Field(g, w, n, j)
  {
    AssignedField(f, g, w, n, o, 5, j);
    if START_HOUR <= j <= FLAG {
      assert Target(if j >= DATA then j - DATA else j - START_HOUR + 3) == j;
    }
  }

  /** Where the block copy leaves a field of a zeroed record that no assignment reaches. */
  function Left(f: seq<Kind>, g: seq<Kind>, w: nat, o: seq<byte>, j: nat): (v: seq<byte>)
    requires WordSize(w) && Layouts(f, g) && |o| == SizeOf(f, w) && j < |g|
  {
    if w == 8 && j == THRESHOLD then Field(f, w, o, OLD_DATA)
    else if w == 8 && j == CPU then Field(f, w, o, OLD_IDX)[..4] + Zeros(4)
    else Intended(f, g, w, o, j)
  }

  lemma SharedFieldCopied(f: seq<Kind>, g: seq<Kind>, w: nat, n: seq<byte>, o: seq<byte>, j: nat)
    requires WordSize(w) && Layouts(f, g) && |o| == SizeOf(f, w) && |n| == SizeOf(g, w) && j < SHARED
    ensures 0 <= Cut(f, g, w) <= |n| && Cut(f, g, w) <= |o|
    ensures Field(g, w, Overlay(n, o[..Cut(f, g, w)]), j) == Field(f, w, o, j)
  {
    NewIsLonger(f, g, w);
    CutIs(f, g, w);
    NewSettings(f, g, w);
    FieldsAreApart(f, w, j, OLD_DATA);
    CopiedField(f, g, w, o, n, Cut(f, g, w), SHARED, j);
  }

  /** The front of a copy over zeros, cut in the middle. */
  lemma OverlaySlice(size: nat, front: seq<byte>, lo: nat, hi: nat)
    requires |front| <= size && lo <= hi <= size
    ensures var s := Overlay(Zeros(size), front)[lo..hi];
            && (hi <= |front| ==> s == front[lo..hi])
            && (lo <= |front| <= hi ==> s == front[lo..] + Zeros(hi - |front|))
            && (|front| <= lo ==> s == Zeros(hi - lo))
  {
  }

  lemma FrontOfSlice(s: seq<byte>, lo: nat, mid: nat, hi: nat)
    requires lo <= mid <= hi <= |s|
    ensures s[..mid][lo..] == s[lo..hi][..mid - lo]
  {
  }

  /** A field of a zeroed record after the block copy. */
  function CopiedOverZeros(f: seq<Kind>, g: seq<Kind>, w: nat, o: seq<byte>, j: nat): seq<byte>
    requires WordSize(w) && Layouts(f, g) && |o| == SizeOf(f, w) && j < |g|
  {
    NewIsLonger(f, g, w);
    Field(g, w, Overlay(Zeros(SizeOf(g, w)), o[..Cut(f, g, w)]), j)
  }

  lemma ThresholdLeft(f: seq<Kind>, g: seq<Kind>, w: nat, o: seq<byte>)
    requires WordSize(w) && Layouts(f, g) && |o| == SizeOf(f, w)
    ensures CopiedOverZeros(f, g, w, o, THRESHOLD) == if w == 8 then Field(f, w, o, OLD_DATA) else Zeros(w)
  {
    NewIsLonger(f, g, w);
    CutIs(f, g, w);
    NewSettings(f, g, w);
    FieldIsInside(g, w, THRESHOLD);
    OverlaySlice(SizeOf(g, w), o[..Cut(f, g, w)], SharedEnd(f, g, w), SharedEnd(f, g, w) + w);
  }

  /** The slice of the new CPU setting, at its offset behind p. */
  lemma CpuSlice(o: seq<byte>, size: nat, p: nat, cut: nat, w: nat)
    requires WordSize(w) && cut == (if w == 4 then p else p + 12) && cut <= |o| && p + w + w <= size && p + w + w <= |o|
    ensures cut <= size
    ensures Overlay(Zeros(size), o[..cut])[p + w..p + w + w] ==
            if w == 8 then o[p + w..p + w + w][..4] + Zeros(4) else Zeros(w)
  {
    OverlaySlice(size, o[..cut], p + w, p + w + w);
    if w == 8 {
      FrontOfSlice(o, p + 8, p + 12, p + 16);
    }
  }

  lemma CpuPlace(f: seq<Kind>, g: seq<Kind>, w: nat)
    requires WordSize(w) && Layouts(f, g)
    ensures var p := SharedEnd(f, g, w);
            && 0 <= Cut(f, g, w) == (if w == 4 then p else p + 12) && Cut(f, g, w) <= SizeOf(f, w)
            && Offset(f, w, OLD_IDX) == p + w && End(f, w, OLD_IDX) == p + w + w <= SizeOf(f, w)
            && Offset(g, w, CPU) == p + w && End(g, w, CPU) == p + w + w <= SizeOf(g, w)
  {
    CutIs(f, g, w);
    NewSettings(f, g, w);
    FieldIsInside(g, w, CPU);
    FieldIsInside(f, w, OLD_IDX);
  }

  lemma CpuLeft(f: seq<Kind>, g: seq<Kind>, w: nat, o: seq<byte>)
    requires WordSize(w) && Layouts(f, g) && |o| == SizeOf(f, w)
    ensures CopiedOverZeros(f, g, w, o, CPU) == if w == 8 then Field(f, w, o, OLD_IDX)[..4] + Zeros(4) else Zeros(w)
  {
    CpuPlace(f, g, w);
    var p := SharedEnd(f, g, w);
    assert Field(f, w, o, OLD_IDX) == o[p + w..p + w + w];
    assert CopiedOverZeros(f, g, w, o, CPU) == Overlay(Zeros(SizeOf(g, w)), o[..Cut(f, g, w)])[p + w..p + w + w];
    CpuSlice(o, SizeOf(g, w), SharedEnd(f, g, w), Cut(f, g, w), w);
  }

  lemma BehindCpuLeft(f: seq<Kind>, g: seq<Kind>, w: nat, o: seq<byte>, j: nat)
    requires WordSize(w) && Layouts(f, g) && |o| == SizeOf(f, w) && CPU < j < |g|
    ensures CopiedOverZeros(f, g, w, o, j) == Zeros(Size(g[j], w))
  {
    NewIsLonger(f, g, w);
    CutIs(f, g, w);
    NewSettings(f, g, w);
    FieldsAreApart(g, w, CPU, j);
    FieldIsInside(g, w, j);
    OverlaySlice(SizeOf(g, w), o[..Cut(f, g, w)], Offset(g, w, j), End(g, w, j));
  }

  /** A record converted on its own, into zeroed memory. */
  function Result(f: seq<Kind>, g: seq<Kind>, w: nat, o: seq<byte>): (r: seq<byte>)
    requires WordSize(w) && Layouts(f, g) && |o| == SizeOf(f, w)
    ensures |r| == SizeOf(g, w)
  {
    Converted(f, g, w, Zeros(SizeOf(g, w)), o)
  }

  lemma ResultField(f: seq<Kind>, g: seq<Kind>, w: nat, o: seq<byte>, j: nat)
    requires WordSize(w) && Layouts(f, g) && |o| == SizeOf(f, w) && j < |g|
    ensures Field(g, w, Result(f, g, w, o), j) ==
            if START_HOUR <= j <= FLAG then Intended(f, g, w, o, j) else CopiedOverZeros(f, g, w, o, j)
  {
    NewIsLonger(f, g, w);
    AssignedFive(f, g, w, Overlay(Zeros(SizeOf(g, w)), o[..Cut(f, g, w)]), o, j);
  }

  lemma SharedFieldResult(f: seq<Kind>, g: seq<Kind>, w: nat, o: seq<byte>, j: nat)
    requires WordSize(w) && Layouts(f, g) && |o| == SizeOf(f, w) && j < SHARED
    ensures CopiedOverZeros(f, g, w, o, j) == Left(f, g, w, o, j)
  {
    SharedFieldCopied(f, g, w, Zeros(SizeOf(g, w)), o, j);
  }

  lemma TailFieldResult(f: seq<Kind>, g: seq<Kind>, w: nat, o: seq<byte>, j: nat)
    requires WordSize(w) && Layouts(f, g) && |o| == SizeOf(f, w) && SHARED <= j < |g| && !(START_HOUR <= j <= FLAG)
    ensures CopiedOverZeros(f, g, w, o, j) == Left(f, g, w, o, j)
  {
    if j == THRESHOLD {
      ThresholdLeft(f, g, w, o);
    } else if j == CPU {
      CpuLeft(f, g, w, o);
    } else {
      BehindCpuLeft(f, g, w, o, j);
    }
  }

  /** Every field of a converted record. */
  lemma ConvertedField(f: seq<Kind>, g: seq<Kind>, w: nat, o: seq<byte>, j: nat)
    requires WordSize(w) && Layouts(f, g) && |o| == SizeOf(f, w) && j < |g|
    ensures Field(g, w, Result(f, g, w, o), j) == Left(f, g, w, o, j)
  {
    ResultField(f, g, w, o, j);
    if j < SHARED {
      SharedFieldResult(f, g, w, o, j);
    } else if j < START_HOUR || j > FLAG {
      TailFieldResult(f, g, w, o, j);
    }
  }

  ghost predicate AsIntended(f: seq<Kind>, g: seq<Kind>, w: nat, o: seq<byte>)
    requires WordSize(w) && Layouts(f, g) && |o| == SizeOf(f, w)
  {
    forall j :: 0 <= j < |g| ==> Field(g, w, Result(f, g, w, o), j) == Intended(f, g, w, o, j)
  }

  predicate NothingToOverrun(f: seq<Kind>, g: seq<Kind>, w: nat, o: seq<byte>)
    requires WordSize(w) && Layouts(f, g) && |o| == SizeOf(f, w)
  {
    w == 4 || (Field(f, w, o, OLD_DATA) == Zeros(8) && Field(f, w, o, OLD_IDX)[..4] == Zeros(4))
  }

  lemma LeftIsIntendedIff(f: seq<Kind>, g: seq<Kind>, w: nat, o: seq<byte>)
    requires WordSize(w) && Layouts(f, g) && |o| == SizeOf(f, w)
    ensures Left(f, g, w, o, THRESHOLD) == Intended(f, g, w, o, THRESHOLD)
            && Left(f, g, w, o, CPU) == Intended(f, g, w, o, CPU)
            <==> NothingToOverrun(f, g, w, o)
  {
    var idx := Field(f, w, o, OLD_IDX);
    if w == 8 {
      assert (idx[..4] + Zeros(4))[..4] == idx[..4];
      assert Zeros(4) + Zeros(4) == Zeros(8) && Zeros(8)[..4] == Zeros(4);
    }
  }

  /** A record is converted as intended exactly on a 32-bit machine, or when its data pointer and the low half of its
      idx are zero. */
  lemma ExactIff(f: seq<Kind>, g: seq<Kind>, w: nat, o: seq<byte>)
    requires WordSize(w) && Layouts(f, g) && |o| == SizeOf(f, w)
    ensures AsIntended(f, g, w, o) <==> NothingToOverrun(f, g, w, o)
  {
    LeftIsIntendedIff(f, g, w, o);
    ConvertedField(f, g, w, o, THRESHOLD);
    ConvertedField(f, g, w, o, CPU);
    if NothingToOverrun(f, g, w, o) {
      forall j | 0 <= j < |g|
        ensures Field(g, w, Result(f, g, w, o), j) == Intended(f, g, w, o, j)
      {
        ConvertedField(f, g, w, o, j);
      }
    }
  }

  /** The second loop on one record. */
  method CopyRemainingFields(f: seq<Kind>, g: seq<Kind>, o: seq<byte>, n: seq<byte>, w: nat) returns (r: seq<byte>)
    requires WordSize(w) && Layouts(f, g) && |o| == SizeOf(f, w) && |n| == SizeOf(g, w)
    ensures r == Assigned(f, g, w, n, o, 5)
  {
    r := Assign(g, w, n, DATA, Field(f, w, o, OLD_DATA));
    assert r == Assigned(f, g, w, n, o, 1);
    r := Assign(g, w, r, IDX, Field(f, w, o, OLD_IDX));
    assert r == Assigned(f, g, w, n, o, 2);
    r := Assign(g, w, r, FLAG, Field(f, w, o, OLD_FLAG));
    assert r == Assigned(f, g, w, n, o, 3);
    r := Assign(g, w, r, START_HOUR, Encode(-1, w));
    assert r == Assigned(f, g, w, n, o, 4);
    r := Assign(g, w, r, END_HOUR, Encode(-1, w));
  }

  function Fixed(f: seq<Kind>, g: seq<Kind>, w: nat, n: seq<byte>, o: seq<byte>): seq<byte>
    requires WordSize(w) && Layouts(f, g)
  {
    if |o| == SizeOf(f, w) && |n| == SizeOf(g, w) then Assigned(f, g, w, n, o, 5) else n
  }

  function Whole(f: seq<Kind>, g: seq<Kind>, w: nat, n: seq<byte>, o: seq<byte>): seq<byte>
    requires WordSize(w) && Layouts(f, g)
  {
    if |o| == SizeOf(f, w) && |n| == SizeOf(g, w) then Converted(f, g, w, n, o) else n
  }

  function Fixes(f: seq<Kind>, g: seq<Kind>, w: nat): (seq<byte>, seq<byte>) -> seq<byte>
    requires WordSize(w) && Layouts(f, g)
  {
    (n: seq<byte>, o: seq<byte>) => Fixed(f, g, w, n, o)
  }

  function Conversion(f: seq<Kind>, g: seq<Kind>, w: nat): (seq<byte>, seq<byte>) -> seq<byte>
    requires WordSize(w) && Layouts(f, g)
  {
    (n: seq<byte>, o: seq<byte>) => Whole(f, g, w, n, o)
  }

  method FixRecord(f: seq<Kind>, g: seq<Kind>, o: seq<byte>, n: seq<byte>, w: nat) returns (r: seq<byte>)
    requires WordSize(w) && Layouts(f, g) && |o| == SizeOf(f, w) && |n| == SizeOf(g, w)
    ensures r == Fixes(f, g, w)(n, o)
  {
    r := CopyRemainingFields(f, g, o, n, w);
  }

  /** The second loop. */
  method CopyRemaining(f: seq<Kind>, g: seq<Kind>, otbl: array<seq<byte>>, ntbl: array<seq<byte>>, w: nat,
                       ghost oldSize: nat, ghost newSize: nat, ghost fix: (seq<byte>, seq<byte>) -> seq<byte>)
    requires WordSize(w) && Layouts(f, g) && otbl != ntbl && otbl.Length == ntbl.Length
    requires oldSize == SizeOf(f, w) && newSize == SizeOf(g, w) && fix == Fixes(f, g, w)
    requires AllOfSize(otbl[..], oldSize) && AllOfSize(ntbl[..], newSize)
    modifies ntbl
    ensures ntbl[..] == EachInto(old(ntbl[..]), otbl[..], fix)
  {
    ghost var olds, before := otbl[..], ntbl[..];
    var i := 0;
    while i < otbl.Length
      invariant 0 <= i <= otbl.Length && otbl[..] == olds
      invariant forall k :: 0 <= k < i ==> ntbl[k] == fix(before[k], olds[k])
      invariant forall k :: i <= k < ntbl.Length ==> ntbl[k] == before[k]
    {
      assert olds[i] == otbl[i] && before[i] == ntbl[i];
      assert |olds[i]| == oldSize && |before[i]| == newSize;
      ntbl[i] := FixRecord(f, g, otbl[i], ntbl[i], w);
      i := i + 1;
    }
  }

  lemma BothLoops(f: seq<Kind>, g: seq<Kind>, w: nat, n: seq<byte>, o: seq<byte>)
    requires WordSize(w) && Layouts(f, g) && |o| == SizeOf(f, w) && |n| == SizeOf(g, w)
    ensures 0 <= Cut(f, g, w)
    ensures Fixes(f, g, w)(Copies(Cut(f, g, w))(n, o), o) == Conversion(f, g, w)(n, o)
  {
    NewIsLonger(f, g, w);
  }

  /** `convertItem`: the block copies, then the assignments. */
  method ConvertItem(f: seq<Kind>, g: seq<Kind>, otbl: array<seq<byte>>, ntbl: array<seq<byte>>, w: nat)
    requires WordSize(w) && Layouts(f, g) && otbl != ntbl && otbl.Length == ntbl.Length
    requires AllOfSize(otbl[..], SizeOf(f, w)) && AllOfSize(ntbl[..], SizeOf(g, w))
    modifies ntbl
    ensures ntbl[..] == EachInto(old(ntbl[..]), otbl[..], Conversion(f, g, w))
  {
    ghost var before, olds := ntbl[..], otbl[..];
    NewIsLonger(f, g, w);
    BlockCopy(otbl, ntbl, Cut(f, g, w), SizeOf(f, w), SizeOf(g, w));
    CopyRemaining(f, g, otbl, ntbl, w, SizeOf(f, w), SizeOf(g, w), Fixes(f, g, w));
    forall i | 0 <= i < |olds|
      ensures Fixes(f, g, w)(Copies(Cut(f, g, w))(before[i], olds[i]), olds[i]) ==
              Conversion(f, g, w)(before[i], olds[i])
    {
      BothLoops(f, g, w, before[i], olds[i]);
    }
    EachIntoTwice(before, olds, Copies(Cut(f, g, w)), Fixes(f, g, w), Conversion(f, g, w));
  }

  function ConvertRecord(f: seq<Kind>, g: seq<Kind>, w: nat, o: seq<byte>): (r: seq<byte>)
    requires WordSize(w) && Layouts(f, g)
    ensures |r| == SizeOf(g, w)
    ensures |o| == SizeOf(f, w) ==> r == Result(f, g, w, o)
  {
    Whole(f, g, w, Zeros(SizeOf(g, w)), o)
  }

  function Converter(f: seq<Kind>, g: seq<Kind>, w: nat): seq<byte> -> seq<byte>
    requires WordSize(w) && Layouts(f, g)
  {
    (o: seq<byte>) => ConvertRecord(f, g, w, o)
  }

  /** The new records are zeroed before they are filled. */
  method ConvertTable(f: seq<Kind>, g: seq<Kind>, otbl: array<seq<byte>>, w: nat) returns (ntbl: array<seq<byte>>)
    requires WordSize(w) && Layouts(f, g) && AllOfSize(otbl[..], SizeOf(f, w))
    ensures fresh(ntbl) && ntbl[..] == Each(otbl[..], Converter(f, g, w))
  {
    var blank := Zeros(SizeOf(g, w));
    ntbl := new seq<byte>[otbl.Length](_ => blank);
    ghost var before := ntbl[..];
    ConvertItem(f, g, otbl, ntbl, w);
    assert forall i :: 0 <= i < |before| ==> before[i] == blank;
  }

  lemma SizesArePositive(f: seq<Kind>, g: seq<Kind>, w: nat)
    requires WordSize(w) && Layouts(f, g)
    ensures 0 < SizeOf(f, w) < SizeOf(g, w)
  {
    NewIsLonger(f, g, w);
    FieldIsInside(f, w, OLD_FLAG);
  }

  /** A run with `-c -f file`. */
  method Run(f: seq<Kind>, g: seq<Kind>, file: seq<byte>, w: nat) returns (result: seq<byte>)
    requires WordSize(w) && Layouts(f, g)
    ensures 0 < SizeOf(f, w) < SizeOf(g, w)
    ensures result == Migrate(file, SizeOf(f, w), SizeOf(g, w), Converter(f, g, w))
  {
    var oldSize, newSize := SizeOf(f, w), SizeOf(g, w);
    SizesArePositive(f, g, w);
    var item := IsOldTable(|file|, oldSize, newSize);
    result := file;
    if item > 0 {
      MigrateOld(file, oldSize, newSize, Converter(f, g, w), item);
      var otbl := ReadRecords(file, oldSize, item);
      var ntbl := ConvertTable(f, g, otbl, w);
      result := WriteRecords(ntbl);
    }
  }

  /** A new record r made from an old record o, field by field: index to status as they were; hours that are not set;
      data, idx and flag as they were; and zeros in the other new settings, but that on a 64-bit machine the first two
      hold the old data pointer and the low half of the old idx. */
  ghost predicate MadeFrom(f: seq<Kind>, g: seq<Kind>, w: nat, r: seq<byte>, o: seq<byte>)
    requires WordSize(w) && Layouts(f, g)
  {
    && |r| == SizeOf(g, w) && |o| == SizeOf(f, w)
    && (forall j :: 0 <= j < 21 ==> Field(g, w, r, j) == Field(f, w, o, j))
    && Field(g, w, r, 21) == (if w == 4 then Zeros(4) else Field(f, w, o, 21))
    && Field(g, w, r, 22) == (if w == 4 then Zeros(4) else Field(f, w, o, 22)[..4] + Zeros(4))
    && Field(g, w, r, 23) == Zeros(w)
    && Field(g, w, r, 24) == seq(w, _ => 255) && Field(g, w, r, 25) == seq(w, _ => 255)
    && Field(g, w, r, 26) == Field(f, w, o, 21) && Field(g, w, r, 27) == Field(f, w, o, 22)
    && Field(g, w, r, 28) == Field(f, w, o, 23)
    && Field(g, w, r, 29) == Zeros(4) && Field(g, w, r, 30) == Zeros(4)
  }

  lemma LeftIs(f: seq<Kind>, g: seq<Kind>, w: nat, o: seq<byte>)
    requires WordSize(w) && Layouts(f, g) && |o| == SizeOf(f, w)
    ensures forall j :: 0 <= j < 21 ==> Left(f, g, w, o, j) == Field(f, w, o, j)
    ensures Left(f, g, w, o, 21) == (if w == 4 then Zeros(4) else Field(f, w, o, 21))
    ensures Left(f, g, w, o, 22) == (if w == 4 then Zeros(4) else Field(f, w, o, 22)[..4] + Zeros(4))
    ensures Left(f, g, w, o, 23) == Zeros(w)
    ensures Left(f, g, w, o, 24) == Left(f, g, w, o, 25) == seq(w, _ => 255)
    ensures forall j :: 26 <= j < 29 ==> Left(f, g, w, o, j) == Field(f, w, o, j - 5)
    ensures Left(f, g, w, o, 29) == Left(f, g, w, o, 30) == Zeros(4)
  {
    SmallNumbers(w);
  }

  lemma RecordIsMade(f: seq<Kind>, g: seq<Kind>, w: nat, o: seq<byte>)
    requires WordSize(w) && Layouts(f, g) && |o| == SizeOf(f, w)
    ensures MadeFrom(f, g, w, ConvertRecord(f, g, w, o), o)
  {
    LeftIs(f, g, w, o);
    forall j | 0 <= j < |g|
      ensures Field(g, w, Result(f, g, w, o), j) == Left(f, g, w, o, j)
    {
      ConvertedField(f, g, w, o, j);
    }
  }

  lemma ConverterSizes(f: seq<Kind>, g: seq<Kind>, w: nat)
    requires WordSize(w) && Layouts(f, g)
    ensures SizeOf(g, w) > 0 && Converts(Converter(f, g, w), SizeOf(f, w), SizeOf(g, w))
  {
    SizesArePositive(f, g, w);
  }

  lemma ConverterMakes(f: seq<Kind>, g: seq<Kind>, w: nat, o: seq<byte>)
    requires WordSize(w) && Layouts(f, g) && |o| == SizeOf(f, w)
    ensures MadeFrom(f, g, w, Converter(f, g, w)(o), o)
  {
    RecordIsMade(f, g, w, o);
  }

  /** A run on a file of whole old records leaves as many new ones, each made from the one in its place. */
  lemma FileIsConverted(f: seq<Kind>, g: seq<Kind>, file: seq<byte>, w: nat, i: nat)
    requires WordSize(w) && Layouts(f, g)
    requires SizeOf(f, w) > 0 && |file| % SizeOf(f, w) == 0 && i < |file| / SizeOf(f, w)
    ensures SizeOf(g, w) > 0
    ensures var a, b := SizeOf(f, w), SizeOf(g, w);
            var result := Migrate(file, a, b, Converter(f, g, w));
            && |result| == |file| / a * b
            && MadeFrom(f, g, w, RecordAt(result, b, i), RecordAt(file, a, i))
  {
    var a, b := SizeOf(f, w), SizeOf(g, w);
    ConverterSizes(f, g, w);
    MigratedRecord(file, a, b, Converter(f, g, w), i);
    ConverterMakes(f, g, w, RecordAt(file, a, i));
  }

  /** A second run leaves the table of n rows alone exactly when n is not a multiple of old / gcd(old, new). */
  lemma SecondRun(f: seq<Kind>, g: seq<Kind>, records: seq<seq<byte>>, w: nat)
    requires WordSize(w) && Layouts(f, g) && AllOfSize(records, SizeOf(f, w)) && records != []
    ensures var a, b := SizeOf(f, w), SizeOf(g, w);
            && 0 < a < b && a / Gcd(a, b) > 0
            && (var once := Migrate(Join(records), a, b, Converter(f, g, w));
                Migrate(once, a, b, Converter(f, g, w)) == once <==> |records| % (a / Gcd(a, b)) != 0)
  {
    SizesArePositive(f, g, w);
    SecondRunIsNoOpIff(records, SizeOf(f, w), SizeOf(g, w), Converter(f, g, w));
  }

  /** The tables of the converter itself: exact on a 32-bit machine for every record. */
  lemma ExactOn32Bit(o: seq<byte>)
    requires |o| == SizeOf(OldTable(), 4)
    ensures Layouts(OldTable(), NewTable()) && AsIntended(OldTable(), NewTable(), 4, o)
  {
    TableLayouts();
    ExactIff(OldTable(), NewTable(), 4, o);
  }
}
