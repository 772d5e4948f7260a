/** The converter of the log monitor's table: each record is copied as a block up to a computed cut, and the fields
    behind the cut are then assigned one by one. N is the length of the two file name buffers. */
module ConvLog {
  import opened Octets
  import opened StructLayout
  import opened FormatDetection

  /** From `index` to `logMonRowReadLine`. */
  const SHARED := 21

  function Shared(): (r: seq<Kind>)
    ensures |r| == SHARED && r[SHARED - 1] == Word
  {
    [Word, Word, Word, Chars(255), Word, Word, Chars(255), Word, Chars(255), Word, Chars(20), Word, Chars(255), Word,
     Word, Chars(20), Word, Word, Word, Word, Word]
  }

  /** Behind the shared fields: data, idx, the thread flag, the two file names, the seek position, the start flag. */
  function OldTable(N: nat): (r: seq<Kind>)
    ensures |r| == SHARED + 7 && r[..SHARED] == Shared()
    ensures r[SHARED..] == [Word, Word, Int, Chars(N), Chars(N), Word, Int]
  {
    Shared() + [Word, Word, Int, Chars(N), Chars(N), Word, Int]
  }

  /** The new format has three words more in front of them, and a counter behind. */
  function NewTable(N: nat): (r: seq<Kind>)
    ensures |r| == SHARED + 11 && r[..SHARED] == Shared()
    ensures r[SHARED..] == [Word, Word, Word, Word, Word, Int, Chars(N), Chars(N), Word, Int, Word]
  {
    Shared() + [Word, Word, Word, Word, Word, Int, Chars(N), Chars(N), Word, Int, Word]
  }

  const THRESHOLD := 21
  const FILTER_COUNTER := 22
  const TRAP_TYPE := 23
  const OLD_FILE_NAME := 27
  const CHANGED_FILE_NAME := 28
  const COUNTER := 31

  /** All that matters of the two layouts: the same fields in front, ending with a word, and the fields behind them.
      */
  predicate Layouts(f: seq<Kind>, g: seq<Kind>, N: nat)
  {
    && |f| == SHARED + 7 && |g| == SHARED + 11 && f[..SHARED] == g[..SHARED] && f[SHARED - 1] == Word
    && f[21] == f[22] == f[26] == Word && f[23] == f[27] == Int && f[24] == f[25] == Chars(N)
    && g[21] == g[22] == g[23] == g[24] == g[25] == g[29] == g[31] == Word && g[26] == g[30] == Int
    && g[27] == g[28] == Chars(N)
  }

  lemma TableLayouts(N: nat)
    ensures Layouts(OldTable(N), NewTable(N), N)
  {
    var t, u := OldTable(N)[SHARED..], NewTable(N)[SHARED..];
    assert forall k :: 0 <= k < 7 ==> OldTable(N)[SHARED + k] == t[k];
    assert forall k :: 0 <= k < 11 ==> NewTable(N)[SHARED + k] == u[k];
    assert OldTable(N)[SHARED - 1] == OldTable(N)[..SHARED][SHARED - 1];
  }

  /** Where the shared fields end. */
  function SharedEnd(f: seq<Kind>, w: nat): nat
    requires WordSize(w) && |f| >= SHARED
  {
    End(f, w, SHARED - 1)
  }

  /** The number of octets the block copy moves. */
  function Cut(f: seq<Kind>, g: seq<Kind>, N: nat, w: nat): int
    requires WordSize(w) && Layouts(f, g, N)
  {
    SizeOf(f, w) - (2 * N + 20)
  }

  lemma WordsAndFlag(f: seq<Kind>, w: nat, i: nat, e: nat)
    requires WordSize(w) && Behind(f, w, i, e) && Aligned(e, w) && i + 3 < |f|
    requires f[i] == f[i + 1] == Word && f[i + 2] == Int
    ensures Offset(f, w, i) == e && Behind(f, w, i + 3, e + w + w + 4)
  {
    AlignedWord(f, w, i, e);
    AlignedWord(f, w, i + 1, e + w);
    IntField(f, w, i + 2, e + w + w);
  }

  lemma NamesSeekAndFlag(f: seq<Kind>, w: nat, i: nat, e: nat, N: nat)
    requires WordSize(w) && Behind(f, w, i, e) && i + 3 < |f|
    requires f[i] == f[i + 1] == Chars(N) && f[i + 2] == Word && f[i + 3] == Int
    ensures End(f, w, i + 3) == RoundUp(e + N + N, w) + w + 4
  {
    CharsField(f, w, i, e, N);
    CharsField(f, w, i + 1, e + N, N);
    WordField(f, w, i + 2, e + N + N);
    EndOfWord(f, w, i + 2);
    IntField(f, w, i + 3, RoundUp(e + N + N, w) + w);
  }

  /** The part both formats have: two words, a flag, two names, a word, a flag. Only the second word can need padding
      in front of it. */
  lemma TailEnd(f: seq<Kind>, w: nat, i: nat, e: nat, N: nat)
    requires WordSize(w) && Behind(f, w, i, e) && Aligned(e, w) && i + 6 < |f|
    requires f[i] == f[i + 1] == f[i + 5] == Word && f[i + 2] == f[i + 6] == Int && f[i + 3] == f[i + 4] == Chars(N)
    ensures Offset(f, w, i) == e
    ensures End(f, w, i + 6) == RoundUp(e + w + w + 4 + N + N, w) + w + 4
  {
    WordsAndFlag(f, w, i, e);
    NamesSeekAndFlag(f, w, i + 3, e + w + w + 4, N);
  }

  lemma ThreeWords(f: seq<Kind>, w: nat, i: nat, e: nat)
    requires WordSize(w) && Behind(f, w, i, e) && Aligned(e, w) && i + 3 < |f|
    requires f[i] == f[i + 1] == f[i + 2] == Word
    ensures Offset(f, w, i) == e && Behind(f, w, i + 3, e + w + w + w) && Aligned(e + w + w + w, w)
  {
    AlignedWord(f, w, i, e);
    AlignedWord(f, w, i + 1, e + w);
    AlignedWord(f, w, i + 2, e + w + w);
  }

  lemma OldTail(f: seq<Kind>, w: nat, N: nat, p: nat)
    requires WordSize(w) && |f| == SHARED + 7 && Behind(f, w, SHARED, p) && Aligned(p, w)
    requires f[21] == f[22] == f[26] == Word && f[23] == f[27] == Int && f[24] == f[25] == Chars(N)
    ensures SizeOf(f, w) == RoundUp(RoundUp(p + w + w + 4 + N + N, w) + w + 4, w)
  {
    TailEnd(f, w, 21, p, N);
  }

  lemma LastWord(g: seq<Kind>, w: nat, i: nat, e: nat)
    requires WordSize(w) && 0 < i == |g| - 1 && g[i] == Word && End(g, w, i - 1) == e
    ensures SizeOf(g, w) == RoundUp(e, w) + w
  {
    WordField(g, w, i, e);
    EndOfWord(g, w, i);
  }

  /** Where the old tail starts in the new format. */
  lemma NewTailStarts(f: seq<Kind>, g: seq<Kind>, N: nat, w: nat)
    requires WordSize(w) && Layouts(f, g, N)
    ensures var p := SharedEnd(f, w);
            Offset(g, w, THRESHOLD) == p && Behind(g, w, 24, p + w + w + w) && Aligned(p + w + w + w, w)
  {
    SharedFirst(f, g, N, w);
    ThreeWords(g, w, 21, SharedEnd(f, w));
  }

  lemma SharedFirst(f: seq<Kind>, g: seq<Kind>, N: nat, w: nat)
    requires WordSize(w) && Layouts(f, g, N)
    ensures Behind(f, w, SHARED, SharedEnd(f, w)) && Behind(g, w, SHARED, SharedEnd(f, w))
    ensures Aligned(SharedEnd(f, w), w)
  {
    EndOfWord(f, w, SHARED - 1);
    SamePrefix(f, g, w, SHARED, SHARED - 1);
  }

  /** The copy covers the shared fields and overruns them by less than the three new words: by 0 to 3 octets on a
      32-bit machine, by 16 to 23 on a 64-bit one. */
  lemma OverrunIsRewritten(f: seq<Kind>, g: seq<Kind>, N: nat, w: nat)
    requires WordSize(w) && Layouts(f, g, N)
    ensures var over := Cut(f, g, N, w) - Offset(g, w, THRESHOLD);
            && (if w == 4 then 0 <= over <= 3 else 16 <= over <= 23)
            && Cut(f, g, N, w) <= Offset(g, w, TRAP_TYPE + 1)
            && SharedEnd(f, w) <= Cut(f, g, N, w) <= SizeOf(f, w) < SizeOf(g, w)
  {
    var p := SharedEnd(f, w);
    SharedFirst(f, g, N, w);
    OldTail(f, w, N, p);
    NewTailStarts(f, g, N, w);
    TailEnd(g, w, 24, p + w + w + w, N);
    LastWord(g, w, 31, End(g, w, 30));
    OverrunBounds(p, N, w);
  }

  /** The arithmetic of the cut. */
  lemma OverrunBounds(p: nat, N: nat, w: nat)
    requires WordSize(w) && Aligned(p, w)
    ensures var size := RoundUp(RoundUp(p + w + w + 4 + N + N, w) + w + 4, w);
            var over := size - (2 * N + 20) - p;
            && (if w == 4 then 0 <= over <= 3 else 16 <= over <= 23)
            && size < p + 5 * w + 4 + 2 * N + 2 * w + 4
  {
    if w == 4 {
      Overrun4(p + 12 + N + N);
    } else {
      Overrun8(p + 20 + N + N);
    }
  }

  lemma Overrun4(x: nat)
    ensures x + 8 <= RoundUp(RoundUp(x, 4) + 8, 4) <= x + 11
  {
    assert Aligned(RoundUp(x, 4) + 8, 4);
  }

  lemma Overrun8(x: nat)
    ensures x + 16 <= RoundUp(RoundUp(x, 8) + 12, 8) <= x + 23
  {
    var r := RoundUp(x, 8);
    assert r % 8 == 0 && (r + 12) % 8 == 4;
    assert UpTo8(r + 12) == r + 16;
  }

  /** What field j of a new record should hold, for the old record o: the new settings have their defaults, the rest
      is the old record's, the names padded with NULs. */
  function NewValue(f: seq<Kind>, g: seq<Kind>, N: nat, w: nat, o: seq<byte>, j: nat): (v: seq<byte>)
    requires WordSize(w) && Layouts(f, g, N) && |o| == SizeOf(f, w) && j < |g|
    ensures |v| == Size(g[j], w)
  {
    if j < SHARED then assert g[j] == g[..SHARED][j] && f[j] == f[..SHARED][j]; Field(f, w, o, j)
    else if j == THRESHOLD || j == COUNTER then Encode(0, w)
    else if j == FILTER_COUNTER || j == TRAP_TYPE then Encode(1, w)
    else if j == OLD_FILE_NAME || j == CHANGED_FILE_NAME then StrNCpy(Field(f, w, o, j - 3), N)
    else Field(f, w, o, j - 3)
  }

  /** The record after the first k assignments of the second loop. */
  function Assigned(f: seq<Kind>, g: seq<Kind>, N: nat, w: nat, n: seq<byte>, o: seq<byte>, k: nat): (r: seq<byte>)
    requires WordSize(w) && Layouts(f, g, N) && |o| == SizeOf(f, w) && |n| == SizeOf(g, w) && SHARED + k <= |g|
    ensures |r| == |n|
  {
    if k == 0 then n else
      Assign(g, w, Assigned(f, g, N, w, n, o, k - 1), SHARED + k - 1, NewValue(f, g, N, w, o, SHARED + k - 1))
  }

  function Converted(f: seq<Kind>, g: seq<Kind>, N: nat, w: nat, n: seq<byte>, o: seq<byte>): (r: seq<byte>)
    requires WordSize(w) && Layouts(f, g, N) && |o| == SizeOf(f, w) && |n| == SizeOf(g, w)
    ensures |r| == |n|
  {
    OverrunIsRewritten(f, g, N, w);
    Assigned(f, g, N, w, Overlay(n, o[..Cut(f, g, N, w)]), o, 11)
  }

  lemma {:induction false} AssignedField(f: seq<Kind>, g: seq<Kind>, N: nat, w: nat, n: seq<byte>, o: seq<byte>,
                                            k: nat, j: nat)
    requires WordSize(w) && Layouts(f, g, N) && |o| == SizeOf(f, w) && |n| == SizeOf(g, w)
    requires SHARED + k <= |g| && j < |g|
    ensures Field(g, w, Assigned(f, g, N, w, n, o, k), j) ==
            if SHARED <= j < SHARED + k then NewValue(f, g, N, w, o, j) else Field(g, w, n, j)
  {
    if k > 0 {
      AssignedField(f, g, N, w, n, o, k - 1, j);
      AssignChangesOneField(g, w, Assigned(f, g, N, w, n, o, k - 1),
                            SHARED + k - 1, NewValue(f, g, N, w, o, SHARED + k - 1), j);
    }
  }

  /** Every field of a converted record holds what it should, whatever the block copy put behind the shared fields and
      whatever the new record held before. */
  lemma ConvertedField(f: seq<Kind>, g: seq<Kind>, N: nat, w: nat, n: seq<byte>, o: seq<byte>, j: nat)
    requires WordSize(w) && Layouts(f, g, N) && |o| == SizeOf(f, w) && |n| == SizeOf(g, w) && j < |g|
    ensures Field(g, w, Converted(f, g, N, w, n, o), j) == NewValue(f, g, N, w, o, j)
  {
    OverrunIsRewritten(f, g, N, w);
    var copied := Overlay(n, o[..Cut(f, g, N, w)]);
    AssignedField(f, g, N, w, copied, o, 11, j);
    if j < SHARED {
      SharedFieldEnds(f, g, N, w, j);
      CopiedField(f, g, w, o, n, Cut(f, g, N, w), SHARED, j);
    }
  }

  lemma SharedFieldEnds(f: seq<Kind>, g: seq<Kind>, N: nat, w: nat, j: nat)
    requires WordSize(w) && Layouts(f, g, N) && j < SHARED
    ensures End(f, w, j) <= SharedEnd(f, w)
  {
    if j < SHARED - 1 {
      FieldsAreApart(f, w, j, SHARED - 1);
    }
  }

  /** The file names survive as C strings. */
  lemma NamesSurvive(f: seq<Kind>, g: seq<Kind>, N: nat, w: nat, n: seq<byte>, o: seq<byte>, j: nat)
    requires WordSize(w) && Layouts(f, g, N) && |o| == SizeOf(f, w) && |n| == SizeOf(g, w)
    requires j == OLD_FILE_NAME || j == CHANGED_FILE_NAME
    ensures CString(Field(g, w, Converted(f, g, N, w, n, o), j)) == CString(Field(f, w, o, j - 3))
  {
    var name := Field(f, w, o, j - 3);
    ConvertedField(f, g, N, w, n, o, j);
    NameValue(f, g, N, w, o, j);
    StrNCpyKeepsString(name);
  }

  lemma NameValue(f: seq<Kind>, g: seq<Kind>, N: nat, w: nat, o: seq<byte>, j: nat)
    requires WordSize(w) && Layouts(f, g, N) && |o| == SizeOf(f, w)
    requires j == OLD_FILE_NAME || j == CHANGED_FILE_NAME
    ensures |Field(f, w, o, j - 3)| == N && NewValue(f, g, N, w, o, j) == StrNCpy(Field(f, w, o, j - 3), N)
  {
  }

  /** One assignment of the second loop that copies a field three places further. */
  method CopyField(f: seq<Kind>, g: seq<Kind>, o: seq<byte>, ghost n: seq<byte>, record: seq<byte>, N: nat, w: nat,
                   j: nat) returns (r: seq<byte>)
    requires WordSize(w) && Layouts(f, g, N) && |o| == SizeOf(f, w) && |n| == SizeOf(g, w)
    requires TRAP_TYPE < j < OLD_FILE_NAME || CHANGED_FILE_NAME < j < COUNTER
    requires record == Assigned(f, g, N, w, n, o, j - SHARED)
    ensures r == Assigned(f, g, N, w, n, o, j - SHARED + 1)
  {
    ghost var v := NewValue(f, g, N, w, o, j);
    r := Assign(g, w, record, j, Field(f, w, o, j - 3));
  }

  /** One that copies a name. */
  method CopyName(f: seq<Kind>, g: seq<Kind>, o: seq<byte>, ghost n: seq<byte>, record: seq<byte>, N: nat, w: nat,
                  j: nat) returns (r: seq<byte>)
    requires WordSize(w) && Layouts(f, g, N) && |o| == SizeOf(f, w) && |n| == SizeOf(g, w)
    requires j == OLD_FILE_NAME || j == CHANGED_FILE_NAME
    requires record == Assigned(f, g, N, w, n, o, j - SHARED)
    ensures r == Assigned(f, g, N, w, n, o, j - SHARED + 1)
  {
    ghost var v := NewValue(f, g, N, w, o, j);
    r := Assign(g, w, record, j, StrNCpy(Field(f, w, o, j - 3), N));
  }

  /** One that stores a number. */
  method Store(f: seq<Kind>, g: seq<Kind>, ghost o: seq<byte>, ghost n: seq<byte>, record: seq<byte>, N: nat, w: nat,
               j: nat, v: int)
    returns (r: seq<byte>)
    requires WordSize(w) && Layouts(f, g, N) && |o| == SizeOf(f, w) && |n| == SizeOf(g, w)
    requires ((j == THRESHOLD || j == COUNTER) && v == 0) || ((j == FILTER_COUNTER || j == TRAP_TYPE) && v == 1)
    requires record == Assigned(f, g, N, w, n, o, j - SHARED)
    ensures r == Assigned(f, g, N, w, n, o, j - SHARED + 1)
  {
    ghost var expected := NewValue(f, g, N, w, o, j);
    r := Assign(g, w, record, j, Encode(v, w));
  }

  /** The body of the second loop. */
  method CopyRemainingFields(f: seq<Kind>, g: seq<Kind>, o: seq<byte>, n: seq<byte>, N: nat, w: nat)
      returns (r: seq<byte>)
    requires WordSize(w) && Layouts(f, g, N) && |o| == SizeOf(f, w) && |n| == SizeOf(g, w)
    ensures r == Assigned(f, g, N, w, n, o, 11)
  {
    r := Store(f, g, o, n, n, N, w, THRESHOLD, 0);
    r := Store(f, g, o, n, r, N, w, FILTER_COUNTER, 1);
    r := Store(f, g, o, n, r, N, w, TRAP_TYPE, 1);
    r := CopyField(f, g, o, n, r, N, w, 24);
    r := CopyField(f, g, o, n, r, N, w, 25);
    r := CopyField(f, g, o, n, r, N, w, 26);
    r := CopyName(f, g, o, n, r, N, w, OLD_FILE_NAME);
    r := CopyName(f, g, o, n, r, N, w, CHANGED_FILE_NAME);
    r := CopyField(f, g, o, n, r, N, w, 29);
    r := CopyField(f, g, o, n, r, N, w, 30);
    r := Store(f, g, o, n, r, N, w, COUNTER, 0);
  }

  /** What the second loop makes of a record. */
  function Remaining(f: seq<Kind>, g: seq<Kind>, N: nat, w: nat, n: seq<byte>, o: seq<byte>): (r: seq<byte>)
    requires WordSize(w) && Layouts(f, g, N)
    ensures |r| == |n|
  {
    if |o| == SizeOf(f, w) && |n| == SizeOf(g, w) then Assigned(f, g, N, w, n, o, 11) else n
  }

  /** What both loops make of it. */
  function Whole(f: seq<Kind>, g: seq<Kind>, N: nat, w: nat, n: seq<byte>, o: seq<byte>): seq<byte>
    requires WordSize(w) && Layouts(f, g, N)
  {
    if |o| == SizeOf(f, w) && |n| == SizeOf(g, w) then Converted(f, g, N, w, n, o) else n
  }

  function Fixes(f: seq<Kind>, g: seq<Kind>, N: nat, w: nat): (seq<byte>, seq<byte>) -> seq<byte>
    requires WordSize(w) && Layouts(f, g, N)
  {
    (n: seq<byte>, o: seq<byte>) => Remaining(f, g, N, w, n, o)
  }

  function Conversion(f: seq<Kind>, g: seq<Kind>, N: nat, w: nat): (seq<byte>, seq<byte>) -> seq<byte>
    requires WordSize(w) && Layouts(f, g, N)
  {
    (n: seq<byte>, o: seq<byte>) => Whole(f, g, N, w, n, o)
  }

  /** The second loop on one record. */
  method FixRecord(f: seq<Kind>, g: seq<Kind>, o: seq<byte>, n: seq<byte>, N: nat, w: nat) returns (r: seq<byte>)
    requires WordSize(w) && Layouts(f, g, N) && |o| == SizeOf(f, w) && |n| == SizeOf(g, w)
    ensures r == Fixes(f, g, N, w)(n, o)
  {
    r := CopyRemainingFields(f, g, o, n, N, w);
  }

  /** The second loop. */
  method CopyRemaining(f: seq<Kind>, g: seq<Kind>, otbl: array<seq<byte>>, ntbl: array<seq<byte>>, N: nat, w: nat,
                       ghost oldSize: nat, ghost newSize: nat, ghost fix: (seq<byte>, seq<byte>) -> seq<byte>)
    requires WordSize(w) && Layouts(f, g, N) && otbl != ntbl && otbl.Length == ntbl.Length
    requires oldSize == SizeOf(f, w) && newSize == SizeOf(g, w) && fix == Fixes(f, g, N, w)
    requires AllOfSize(otbl[..], oldSize) && AllOfSize(ntbl[..], newSize)
    modifies ntbl
    ensures ntbl[..] == EachInto(old(ntbl[..]), otbl[..], fix)
  {
    ghost var olds, before := otbl[..], ntbl[..];
    var i := 0;
    while i < otbl.Length
      invariant 0 <= i <= otbl.Length && otbl[..] == olds
      invariant forall k :: 0 <= k < i ==> ntbl[k] == fix(before[k], olds[k])
      invariant forall k :: i <= k < ntbl.Length ==> ntbl[k] == before[k]
    {
      assert olds[i] == otbl[i] && before[i] == ntbl[i];
      assert |olds[i]| == oldSize && |before[i]| == newSize;
      ntbl[i] := FixRecord(f, g, otbl[i], ntbl[i], N, w);
      i := i + 1;
    }
  }

  lemma BothLoops(f: seq<Kind>, g: seq<Kind>, N: nat, w: nat, n: seq<byte>, o: seq<byte>)
    requires WordSize(w) && Layouts(f, g, N) && |o| == SizeOf(f, w) && |n| == SizeOf(g, w)
    ensures 0 <= Cut(f, g, N, w)
    ensures Fixes(f, g, N, w)(Copies(Cut(f, g, N, w))(n, o), o) == Conversion(f, g, N, w)(n, o)
  {
    OverrunIsRewritten(f, g, N, w);
  }

  /** `convertItem`: the block copies, then the assignments. */
  method ConvertItem(f: seq<Kind>, g: seq<Kind>, otbl: array<seq<byte>>, ntbl: array<seq<byte>>, N: nat, w: nat)
    requires WordSize(w) && Layouts(f, g, N) && otbl != ntbl && otbl.Length == ntbl.Length
    requires AllOfSize(otbl[..], SizeOf(f, w)) && AllOfSize(ntbl[..], SizeOf(g, w))
    modifies ntbl
    ensures ntbl[..] == EachInto(old(ntbl[..]), otbl[..], Conversion(f, g, N, w))
  {
    ghost var before, olds := ntbl[..], otbl[..];
    OverrunIsRewritten(f, g, N, w);
    BlockCopy(otbl, ntbl, Cut(f, g, N, w), SizeOf(f, w), SizeOf(g, w));
    CopyRemaining(f, g, otbl, ntbl, N, w, SizeOf(f, w), SizeOf(g, w), Fixes(f, g, N, w));
    forall i | 0 <= i < |olds|
      ensures Fixes(f, g, N, w)(Copies(Cut(f, g, N, w))(before[i], olds[i]), olds[i]) ==
              Conversion(f, g, N, w)(before[i], olds[i])
    {
      BothLoops(f, g, N, w, before[i], olds[i]);
    }
    EachIntoTwice(before, olds, Copies(Cut(f, g, N, w)), Fixes(f, g, N, w), Conversion(f, g, N, w));
  }

  /** A record converted on its own, into zeroed memory. */
  function ConvertRecord(f: seq<Kind>, g: seq<Kind>, N: nat, w: nat, o: seq<byte>): (r: seq<byte>)
    requires WordSize(w) && Layouts(f, g, N)
    ensures |r| == SizeOf(g, w)
  {
    Whole(f, g, N, w, Zeros(SizeOf(g, w)), o)
  }

  function Converter(f: seq<Kind>, g: seq<Kind>, N: nat, w: nat): seq<byte> -> seq<byte>
    requires WordSize(w) && Layouts(f, g, N)
  {
    (o: seq<byte>) => ConvertRecord(f, g, N, w, o)
  }

  /** A run with `-c -f file`. */
  method Run(f: seq<Kind>, g: seq<Kind>, file: seq<byte>, N: nat, w: nat) returns (result: seq<byte>)
    requires WordSize(w) && Layouts(f, g, N)
    ensures result == Migrate(file, SizeOf(f, w), SizeOf(g, w), Converter(f, g, N, w))
  {
    var oldSize, newSize := SizeOf(f, w), SizeOf(g, w);
    OverrunIsRewritten(f, g, N, w);
    var item := IsOldTable(|file|, oldSize, newSize);
    result := file;
    if item > 0 {
      MigrateOld(file, oldSize, newSize, Converter(f, g, N, w), item);
      var otbl := ReadRecords(file, oldSize, item);
      var ntbl := ConvertTable(f, g, otbl, N, w);
      result := WriteRecords(ntbl);
    }
  }

  /** The new records are zeroed before they are filled. */
  method ConvertTable(f: seq<Kind>, g: seq<Kind>, otbl: array<seq<byte>>, N: nat, w: nat)
      returns (ntbl: array<seq<byte>>)
    requires WordSize(w) && Layouts(f, g, N) && AllOfSize(otbl[..], SizeOf(f, w))
    ensures fresh(ntbl) && ntbl[..] == Each(otbl[..], Converter(f, g, N, w))
  {
    var blank := Zeros(SizeOf(g, w));
    ntbl := new seq<byte>[otbl.Length](_ => blank);
    ghost var before := ntbl[..];
    ConvertItem(f, g, otbl, ntbl, N, w);
    assert forall i :: 0 <= i < |before| ==> before[i] == blank;
  }

  /** A name buffer: the old name up to its NUL, and NULs behind it. */
  predicate Renamed(v: seq<byte>, name: seq<byte>)
  {
    |v| == |name| && forall i :: 0 <= i < |v| ==> v[i] == if i < |CString(name)| then name[i] else 0
  }

  /** A new record r made from an old record o, field by field: index to line count as they were; a size threshold of
      zero, a filter counter and a trap type of one; data, idx, flag, names, seek position and start flag as they
      were; and a counter of zero. */
  ghost predicate MadeFrom(f: seq<Kind>, g: seq<Kind>, N: nat, w: nat, r: seq<byte>, o: seq<byte>)
    requires WordSize(w) && Layouts(f, g, N)
  {
    && |r| == SizeOf(g, w) && |o| == SizeOf(f, w)
    && (forall j :: 0 <= j < 21 ==> Field(g, w, r, j) == Field(f, w, o, j))
    && Field(g, w, r, 21) == Zeros(w)
    && Field(g, w, r, 22) == [1] + Zeros(w - 1) && Field(g, w, r, 23) == [1] + Zeros(w - 1)
    && Field(g, w, r, 24) == Field(f, w, o, 21) && Field(g, w, r, 25) == Field(f, w, o, 22)
    && Field(g, w, r, 26) == Field(f, w, o, 23)
    && Renamed(Field(g, w, r, 27), Field(f, w, o, 24)) && Renamed(Field(g, w, r, 28), Field(f, w, o, 25))
    && Field(g, w, r, 29) == Field(f, w, o, 26) && Field(g, w, r, 30) == Field(f, w, o, 27)
    && Field(g, w, r, 31) == Zeros(w)
  }

  lemma NewValueIs(f: seq<Kind>, g: seq<Kind>, N: nat, w: nat, o: seq<byte>)
    requires WordSize(w) && Layouts(f, g, N) && |o| == SizeOf(f, w)
    ensures forall j :: 0 <= j < 21 ==> NewValue(f, g, N, w, o, j) == Field(f, w, o, j)
    ensures NewValue(f, g, N, w, o, 21) == NewValue(f, g, N, w, o, 31) == Zeros(w)
    ensures NewValue(f, g, N, w, o, 22) == NewValue(f, g, N, w, o, 23) == [1] + Zeros(w - 1)
    ensures forall j :: 24 <= j < 27 || 29 <= j < 31 ==> NewValue(f, g, N, w, o, j) == Field(f, w, o, j - 3)
    ensures Renamed(NewValue(f, g, N, w, o, 27), Field(f, w, o, 24))
    ensures Renamed(NewValue(f, g, N, w, o, 28), Field(f, w, o, 25))
  {
    SmallNumbers(w);
    NameValue(f, g, N, w, o, 27);
    NameValue(f, g, N, w, o, 28);
  }

  lemma RecordIsMade(f: seq<Kind>, g: seq<Kind>, N: nat, w: nat, o: seq<byte>)
    requires WordSize(w) && Layouts(f, g, N) && |o| == SizeOf(f, w)
    ensures MadeFrom(f, g, N, w, ConvertRecord(f, g, N, w, o), o)
  {
    var n := Zeros(SizeOf(g, w));
    NewValueIs(f, g, N, w, o);
    forall j | 0 <= j < |g|
      ensures Field(g, w, Converted(f, g, N, w, n, o), j) == NewValue(f, g, N, w, o, j)
    {
      ConvertedField(f, g, N, w, n, o, j);
    }
  }

  lemma ConverterSizes(f: seq<Kind>, g: seq<Kind>, N: nat, w: nat)
    requires WordSize(w) && Layouts(f, g, N)
    ensures SizeOf(g, w) > 0 && Converts(Converter(f, g, N, w), SizeOf(f, w), SizeOf(g, w))
  {
    OverrunIsRewritten(f, g, N, w);
  }

  lemma ConverterMakes(f: seq<Kind>, g: seq<Kind>, N: nat, w: nat, o: seq<byte>)
    requires WordSize(w) && Layouts(f, g, N) && |o| == SizeOf(f, w)
    ensures MadeFrom(f, g, N, w, Converter(f, g, N, w)(o), o)
  {
    RecordIsMade(f, g, N, w, o);
  }

  /** A run on a file of whole old records leaves as many new ones, each made from the one in its place. */
  lemma FileIsConverted(f: seq<Kind>, g: seq<Kind>, file: seq<byte>, N: nat, w: nat, i: nat)
    requires WordSize(w) && Layouts(f, g, N)
    requires SizeOf(f, w) > 0 && |file| % SizeOf(f, w) == 0 && i < |file| / SizeOf(f, w)
    ensures SizeOf(g, w) > 0
    ensures var a, b := SizeOf(f, w), SizeOf(g, w);
            var result := Migrate(file, a, b, Converter(f, g, N, w));
            && |result| == |file| / a * b
            && MadeFrom(f, g, N, w, RecordAt(result, b, i), RecordAt(file, a, i))
  {
    var a, b := SizeOf(f, w), SizeOf(g, w);
    ConverterSizes(f, g, N, w);
    MigratedRecord(file, a, b, Converter(f, g, N, w), i);
    ConverterMakes(f, g, N, w, RecordAt(file, a, i));
  }

  /** A second run leaves the table of n rows alone exactly when n is not a multiple of old / gcd(old, new). */
  lemma SecondRun(f: seq<Kind>, g: seq<Kind>, records: seq<seq<byte>>, N: nat, w: nat)
    requires WordSize(w) && Layouts(f, g, N) && AllOfSize(records, SizeOf(f, w)) && records != []
    ensures var a, b := SizeOf(f, w), SizeOf(g, w);
            && 0 < a < b && a / Gcd(a, b) > 0
            && (var once := Migrate(Join(records), a, b, Converter(f, g, N, w));
                Migrate(once, a, b, Converter(f, g, N, w)) == once <==> |records| % (a / Gcd(a, b)) != 0)
  {
    OverrunIsRewritten(f, g, N, w);
    SecondRunIsNoOpIff(records, SizeOf(f, w), SizeOf(g, w), Converter(f, g, N, w));
  }

  lemma SharedEndFirst()
    ensures End(Shared(), 4, 7) == 536
  {
    var f := Shared();
    FirstOffset(f, 4);
    WordField(Shared(), 4, 1, 4);
    WordField(Shared(), 4, 2, 8);
    CharsField(Shared(), 4, 3, 12, 255);
    WordField(Shared(), 4, 4, 267);
    WordField(Shared(), 4, 5, 272);
    CharsField(Shared(), 4, 6, 276, 255);
    WordField(Shared(), 4, 7, 531);
  }

  lemma SharedEndSecond()
    ensures End(Shared(), 4, 14) == 1084
  {
    SharedEndFirst();
    CharsField(Shared(), 4, 8, 536, 255);
    WordField(Shared(), 4, 9, 791);
    CharsField(Shared(), 4, 10, 796, 20);
    WordField(Shared(), 4, 11, 816);
    CharsField(Shared(), 4, 12, 820, 255);
    WordField(Shared(), 4, 13, 1075);
    WordField(Shared(), 4, 14, 1080);
  }

  lemma SharedEndThird()
    ensures SharedEnd(Shared(), 4) == 1124
  {
    SharedEndSecond();
    CharsField(Shared(), 4, 15, 1084, 20);
    WordField(Shared(), 4, 16, 1104);
    WordField(Shared(), 4, 17, 1108);
    WordField(Shared(), 4, 18, 1112);
    WordField(Shared(), 4, 19, 1116);
    WordField(Shared(), 4, 20, 1120);
  }

  /** `MAXPATHLEN + 1` where paths have up to 4096 octets. */
  const LINUX_NAME := 4097

  lemma LinuxOldSize(f: seq<Kind>)
    requires |f| == SHARED + 7 && Behind(f, 4, SHARED, 1124)
    requires f[21] == f[22] == f[26] == Word && f[23] == f[27] == Int && f[24] == f[25] == Chars(LINUX_NAME)
    ensures SizeOf(f, 4) == 9340
  {
    OldTail(f, 4, LINUX_NAME, 1124);
    assert UpTo4(9330) == 9332 && UpTo4(9340) == 9340;
  }

  lemma LinuxNewSize(g: seq<Kind>)
    requires |g| == SHARED + 11 && Behind(g, 4, 24, 1136)
    requires g[24] == g[25] == g[29] == g[31] == Word && g[26] == g[30] == Int && g[27] == g[28] == Chars(LINUX_NAME)
    ensures SizeOf(g, 4) == 9356
  {
    TailEnd(g, 4, 24, 1136, LINUX_NAME);
    assert UpTo4(9342) == 9344 && UpTo4(9352) == 9352;
    LastWord(g, 4, 31, 9352);
  }

  lemma LinuxSizes()
    ensures SizeOf(OldTable(LINUX_NAME), 4) == 9340 && SizeOf(NewTable(LINUX_NAME), 4) == 9356
  {
    var f, g := OldTable(LINUX_NAME), NewTable(LINUX_NAME);
    SharedEndThird();
    TableLayouts(LINUX_NAME);
    SamePrefix(Shared(), f, 4, SHARED, SHARED - 1);
    SharedFirst(f, g, LINUX_NAME, 4);
    NewTailStarts(f, g, LINUX_NAME, 4);
    LinuxOldSize(f);
    LinuxNewSize(g);
  }

  /** With those names on a 32-bit machine, running the converter twice is harmless exactly for tables whose number of
      rows is not a multiple of 2335. */
  lemma LinuxSecondRun(records: seq<seq<byte>>)
    requires AllOfSize(records, SizeOf(OldTable(LINUX_NAME), 4)) && records != []
    ensures Layouts(OldTable(LINUX_NAME), NewTable(LINUX_NAME), LINUX_NAME)
    ensures var a, b := SizeOf(OldTable(LINUX_NAME), 4), SizeOf(NewTable(LINUX_NAME), 4);
            var convert := Converter(OldTable(LINUX_NAME), NewTable(LINUX_NAME), LINUX_NAME, 4);
            && a > 0 && b > 0
            && (var once := Migrate(Join(records), a, b, convert);
                Migrate(once, a, b, convert) == once <==> |records| % 2335 != 0)
  {
    TableLayouts(LINUX_NAME);
    LinuxSizes();
    assert Gcd(9340, 9356) == Gcd(9356, 9340) == Gcd(9340, 16) == Gcd(16, 12) == Gcd(12, 4) == Gcd(4, 0) == 4;
    SecondRun(OldTable(LINUX_NAME), NewTable(LINUX_NAME), records, LINUX_NAME, 4);
  }
}
