/** Which format a table file has is told from its size alone, and a file in the old format is rewritten record by
    record. */
module FormatDetection {
  import opened Octets

  /** What `isOldTable` answers for a file of this size: a number of old records, 0 for a new file, -1 for neither. */
  function IsOldTable(size: nat, old_: nat, new_: nat): int
    requires old_ > 0 && new_ > 0
  {
    if size % old_ == 0 then size / old_ else if size % new_ == 0 then 0 else -1
  }

  function Join(records: seq<seq<byte>>): seq<byte>
  {
    if records == [] then [] else Join(records[..|records| - 1]) + records[|records| - 1]
  }

  /** The first n records of a file. */
  function Split(file: seq<byte>, size: nat, n: nat): (r: seq<seq<byte>>)
    requires n * size <= |file|
    ensures |r| == n && forall i :: 0 <= i < n ==> |r[i]| == size
    decreases n
  {
    if n == 0 then [] else
      assert (n - 1) * size + size == n * size;
      Split(file, size, n - 1) + [file[(n - 1) * size..n * size]]
  }

  ghost predicate AllOfSize(records: seq<seq<byte>>, size: nat)
  {
    forall i :: 0 <= i < |records| ==> |records[i]| == size
  }

  lemma {:induction false} JoinSize(records: seq<seq<byte>>, size: nat)
    requires AllOfSize(records, size)
    ensures |Join(records)| == |records| * size
  {
    if records != [] {
      JoinSize(records[..|records| - 1], size);
      assert (|records| - 1) * size + size == |records| * size;
    }
  }

  lemma {:induction false} SplitPrefix(a: seq<byte>, b: seq<byte>, size: nat, n: nat)
    requires n * size <= |a|
    ensures n * size <= |a + b| && Split(a + b, size, n) == Split(a, size, n)
    decreases n
  {
    if n > 0 {
      assert (n - 1) * size + size == n * size;
      SplitPrefix(a, b, size, n - 1);
      assert (a + b)[(n - 1) * size..n * size] == a[(n - 1) * size..n * size];
    }
  }

  /** What was written record by record is read back record by record. */
  lemma {:induction false} SplitUndoesJoin(records: seq<seq<byte>>, size: nat)
    requires AllOfSize(records, size)
    ensures |records| * size == |Join(records)| && Split(Join(records), size, |records|) == records
  {
    JoinSize(records, size);
    if records != [] {
      var n := |records| - 1;
      JoinSize(records[..n], size);
      SplitUndoesJoin(records[..n], size);
      assert n * size + size == |records| * size;
      SplitPrefix(Join(records[..n]), records[n], size, n);
      assert Join(records)[n * size..|records| * size] == records[n];
    }
  }

  /** One run of the converter with `-c`. */
  ghost function Migrate(file: seq<byte>, old_: nat, new_: nat, convert: seq<byte> -> seq<byte>): seq<byte>
    requires old_ > 0 && new_ > 0
  {
    var item := IsOldTable(|file|, old_, new_);
    if item > 0 then
      DivTimes(|file|, old_);
      Join(Each(Split(file, old_, item), convert))
    else file
  }

  lemma MigrateOld(file: seq<byte>, old_: nat, new_: nat, convert: seq<byte> -> seq<byte>, item: nat)
    requires 0 < old_ && 0 < new_ && item == IsOldTable(|file|, old_, new_) && item > 0
    ensures item * old_ <= |file|
    ensures Migrate(file, old_, new_, convert) == Join(Each(Split(file, old_, item), convert))
  {
    DivTimes(|file|, old_);
  }

  lemma DivTimes(a: nat, b: nat)
    requires b > 0
    ensures a / b * b <= a
    ensures a % b == 0 ==> a / b * b == a
  {
  }

  function Each(records: seq<seq<byte>>, convert: seq<byte> -> seq<byte>): (r: seq<seq<byte>>)
    ensures |r| == |records| && forall i :: 0 <= i < |r| ==> r[i] == convert(records[i])
  {
    seq(|records|, i requires 0 <= i < |records| => convert(records[i]))
  }

  ghost predicate Converts(convert: seq<byte> -> seq<byte>, old_: nat, new_: nat)
  {
    forall r: seq<byte> :: |r| == old_ ==> |convert(r)| == new_
  }

  /** A multiple of p in 0..p is zero. */
  lemma SmallMultiple(p: nat, e: int)
    requires 0 <= p * e < p
    ensures e == 0
  {
    if e >= 1 {
      assert p * e == p * (e - 1) + p;
      Nonnegative(p, e - 1);
    } else if e <= -1 {
      assert p * e == -(p * (-e - 1)) - p;
      Nonnegative(p, -e - 1);
    }
  }

  lemma Nonnegative(a: nat, b: nat)
    ensures a * b >= 0
  {
  }

  /** Division of a multiple. */
  lemma QuotientOf(n: nat, p: nat, k: int)
    requires p > 0 && n == p * k
    ensures n % p == 0 && n / p == k
  {
    var d, r := n / p, n % p;
    assert n == p * d + r;
    assert p * (k - d) == r;
    SmallMultiple(p, k - d);
  }

  /** An old file of n > 0 records is always recognised, and becomes n converted records. */
  lemma OldFileMigrates(records: seq<seq<byte>>, old_: nat, new_: nat, convert: seq<byte> -> seq<byte>)
    requires 0 < old_ && 0 < new_ && Converts(convert, old_, new_) && AllOfSize(records, old_) && records != []
    ensures IsOldTable(|Join(records)|, old_, new_) == |records|
    ensures Migrate(Join(records), old_, new_, convert) == Join(Each(records, convert))
    ensures |Join(Each(records, convert))| == |records| * new_
  {
    SplitUndoesJoin(records, old_);
    QuotientOf(|records| * old_, old_, |records|);
    JoinSize(Each(records, convert), new_);
  }

  /** The octets of record i of a file, if it has that many. */
  function RecordAt(file: seq<byte>, size: nat, i: nat): (r: seq<byte>)
    ensures i * size + size <= |file| ==> r == file[i * size..i * size + size]
  {
    if i * size + size <= |file| then file[i * size..i * size + size] else []
  }

  lemma SliceOfFront(a: seq<byte>, b: seq<byte>, lo: nat, hi: nat)
    requires lo <= hi <= |a|
    ensures (a + b)[lo..hi] == a[lo..hi]
  {
  }

  lemma SliceOfBack(a: seq<byte>, b: seq<byte>, lo: nat, hi: nat)
    requires lo == |a| && hi == |a| + |b|
    ensures (a + b)[lo..hi] == b
  {
  }

  lemma {:induction false} RecordOfJoinAt(records: seq<seq<byte>>, size: nat, i: nat, at: nat)
    requires AllOfSize(records, size) && i < |records| && at == i * size
    ensures at + size <= |Join(records)| && Join(records)[at..at + size] == records[i]
  {
    var n := |records| - 1;
    var init, last := records[..n], records[n];
    assert Join(records) == Join(init) + last;
    if i < n {
      RecordOfJoinAt(init, size, i, at);
      SliceOfFront(Join(init), last, at, at + size);
    } else {
      JoinSize(init, size);
      SliceOfBack(Join(init), last, at, at + size);
    }
  }

  /** Record i of a file begins after i records. */
  lemma RecordOfJoin(records: seq<seq<byte>>, size: nat, i: nat)
    requires AllOfSize(records, size) && i < |records|
    ensures i * size + size <= |Join(records)|
    ensures Join(records)[i * size..i * size + size] == records[i]
  {
    RecordOfJoinAt(records, size, i, i * size);
  }

  lemma {:induction false} RecordOfSplit(file: seq<byte>, size: nat, n: nat, i: nat)
    requires n * size <= |file| && i < n
    ensures i * size + size <= |file|
    ensures Split(file, size, n)[i] == file[i * size..i * size + size]
    decreases n
  {
    assert (n - 1) * size + size == n * size;
    if i < n - 1 {
      RecordOfSplit(file, size, n - 1, i);
    }
  }

  /** Record i of the file a run leaves is record i of the old file, converted. */
  lemma MigratedRecord(file: seq<byte>, old_: nat, new_: nat, convert: seq<byte> -> seq<byte>, i: nat)
    requires 0 < old_ && 0 < new_ && Converts(convert, old_, new_) && |file| % old_ == 0 && i < |file| / old_
    ensures |RecordAt(file, old_, i)| == old_
    ensures var result := Migrate(file, old_, new_, convert);
            && |result| == |file| / old_ * new_ && |RecordAt(result, new_, i)| == new_
            && RecordAt(result, new_, i) == convert(RecordAt(file, old_, i))
  {
    var n := |file| / old_;
    DivTimes(|file|, old_);
    MigrateOld(file, old_, new_, convert, n);
    var news := Each(Split(file, old_, n), convert);
    assert AllOfSize(news, new_);
    JoinSize(news, new_);
    RecordOfSplit(file, old_, n, i);
    RecordOfJoin(news, new_, i);
  }

  /** A run leaves a file alone exactly when its size does not pass for that of an old file. */
  lemma RunIsNoOpIff(file: seq<byte>, old_: nat, new_: nat, convert: seq<byte> -> seq<byte>)
    requires 0 < old_ < new_ && Converts(convert, old_, new_) && file != []
    ensures Migrate(file, old_, new_, convert) == file <==> |file| % old_ != 0
  {
    if |file| % old_ == 0 {
      var item := |file| / old_;
      DivTimes(|file|, old_);
      assert item != 0;
      var records := Split(file, old_, item);
      JoinSize(Each(records, convert), new_);
      assert item * old_ < item * new_ by { Grows(item, old_, new_); }
    }
  }

  lemma Grows(n: nat, a: nat, b: nat)
    requires n > 0 && a < b
    ensures n * a < n * b
  {
    assert n * b == n * a + n * (b - a);
  }

  /** Euclid's algorithm. */
  function Gcd(a: nat, b: nat): (g: nat)
    requires a > 0
    ensures g > 0
    decreases b
  {
    if b == 0 then a else Gcd(b, a % b)
  }

  /** The greatest common divisor divides both, and is a combination of them. */
  lemma {:induction false} GcdCombines(a: nat, b: nat) returns (x: int, y: int, p: nat, q: nat)
    requires a > 0
    ensures a * x + b * y == Gcd(a, b)
    ensures a == Gcd(a, b) * p && b == Gcd(a, b) * q
    decreases b
  {
    if b == 0 {
      x, y, p, q := 1, 0, 1, 0;
    } else {
      var x', y', p', q' := GcdCombines(b, a % b);
      var d := a / b;
      assert a == b * d + a % b;
      x, y := y', x' - d * y';
      GcdStep(a, b, d, x', y');
      p, q := p' * d + q', p';
      GcdShares(a, b, d, a % b, Gcd(a, b), p', q');
    }
  }

  lemma GcdShares(a: int, b: int, d: int, r: int, g: int, p: int, q: int)
    requires a == b * d + r && b == g * p && r == g * q
    ensures a == g * (p * d + q)
  {
    assert g * (p * d + q) == g * p * d + g * q;
  }

  lemma GcdStep(a: int, b: int, d: int, x: int, y: int)
    requires b > 0 && a == b * d + a % b
    ensures a * y + b * (x - d * y) == b * x + a % b * y
  {
    assert b * (x - d * y) == b * x - b * d * y;
    assert a * y == b * d * y + a % b * y;
  }

  /** Which multiples of the new size are multiples of the old one. */
  lemma DividesIff(n: nat, a: nat, b: nat)
    requires a > 0
    ensures var g := Gcd(a, b); a / g > 0 && (n * b % a == 0 <==> n % (a / g) == 0)
  {
    var g := Gcd(a, b);
    var x, y, p, q := GcdCombines(a, b);
    QuotientOf(a, g, p);
    if n * b % a == 0 {
      RestImpliesRest(n, a, b, g, x, y, p);
    }
    if n % p == 0 {
      NoRestFromShare(n, a, b, g, p, q);
    }
  }

  lemma NoRestFromShare(n: nat, a: nat, b: nat, g: nat, p: nat, q: nat)
    requires a > 0 && p > 0 && a == g * p && b == g * q && n % p == 0
    ensures n * b % a == 0
  {
    var t := n / p;
    MultipleByShares(n, a, b, g, p, q, t);
    QuotientOf(n * b, a, t * q);
  }

  lemma RestImpliesRest(n: nat, a: nat, b: nat, g: nat, x: int, y: int, p: nat)
    requires a > 0 && g > 0 && p > 0 && a == g * p && a * x + b * y == g && n * b % a == 0
    ensures n % p == 0
  {
    var k := n * b / a;
    MultipleByCombination(n, a, b, g, x, y, p, k);
    QuotientOf(n, p, n * x + k * y);
  }

  lemma MultipleByCombination(n: nat, a: nat, b: nat, g: nat, x: int, y: int, p: nat, k: nat)
    requires g > 0 && a == g * p && a * x + b * y == g && n * b == k * a
    ensures n == p * (n * x + k * y)
  {
    assert g * n == n * (a * x + b * y);
    assert n * (a * x + b * y) == a * (n * x) + n * b * y;
    assert n * b * y == a * (k * y);
    assert a * (n * x) + a * (k * y) == a * (n * x + k * y);
    assert a * (n * x + k * y) == g * (p * (n * x + k * y));
    Cancel(g, n, p * (n * x + k * y));
  }

  lemma Cancel(g: nat, a: int, b: int)
    requires g > 0 && g * a == g * b
    ensures a == b
  {
    assert g * (a - b) == g * a - g * b;
    SmallMultiple(g, a - b);
  }

  lemma MultipleByShares(n: nat, a: nat, b: nat, g: nat, p: nat, q: nat, t: nat)
    requires a == g * p && b == g * q && n == p * t
    ensures n * b == a * (t * q)
  {
    assert n * b == p * t * (g * q);
    assert p * t * (g * q) == g * p * (t * q);
  }

  /** Running the converter again on what it made of n old records changes nothing exactly when n is not a multiple of
      old / gcd(old, new). */
  lemma SecondRunIsNoOpIff(records: seq<seq<byte>>, old_: nat, new_: nat, convert: seq<byte> -> seq<byte>)
    requires 0 < old_ < new_ && Converts(convert, old_, new_) && AllOfSize(records, old_) && records != []
    ensures var once := Migrate(Join(records), old_, new_, convert);
            var step := old_ / Gcd(old_, new_);
            step > 0 && (Migrate(once, old_, new_, convert) == once <==> |records| % step != 0)
  {
    OldFileMigrates(records, old_, new_, convert);
    var once := Join(Each(records, convert));
    assert |records| * new_ > 0 by { Grows(|records|, 0, new_); }
    RunIsNoOpIff(once, old_, new_, convert);
    DividesIff(|records|, old_, new_);
  }

  /** Each new record combined with its old one. */
  function EachInto(news: seq<seq<byte>>, olds: seq<seq<byte>>, into: (seq<byte>, seq<byte>) -> seq<byte>)
    : (r: seq<seq<byte>>)
    requires |news| == |olds|
    ensures |r| == |olds| && forall i :: 0 <= i < |r| ==> r[i] == into(news[i], olds[i])
  {
    seq(|olds|, i requires 0 <= i < |olds| => into(news[i], olds[i]))
  }

  /** One combination after another is their composition. */
  lemma EachIntoTwice(news: seq<seq<byte>>, olds: seq<seq<byte>>, first: (seq<byte>, seq<byte>) -> seq<byte>,
                      second: (seq<byte>, seq<byte>) -> seq<byte>, both: (seq<byte>, seq<byte>) -> seq<byte>)
    requires |news| == |olds|
    requires forall i :: 0 <= i < |olds| ==> second(first(news[i], olds[i]), olds[i]) == both(news[i], olds[i])
    ensures EachInto(EachInto(news, olds, first), olds, second) == EachInto(news, olds, both)
  {
  }

  /** `copyOldItem` */
  method ReadRecords(file: seq<byte>, size: nat, item: nat) returns (records: array<seq<byte>>)
    requires item * size <= |file|
    ensures fresh(records) && records[..] == Split(file, size, item)
  {
    records := new seq<byte>[item](_ => []);
    var i := 0;
    while i < item
      invariant 0 <= i <= item && i * size <= |file|
      invariant records[..i] == Split(file, size, i)
    {
      assert i * size + size == (i + 1) * size && (i + 1) * size <= |file| by { Scaled(i + 1, item, size); }
      records[i] := file[i * size..(i + 1) * size];
      i := i + 1;
    }
  }

  lemma Scaled(i: nat, n: nat, size: nat)
    requires i <= n
    ensures i * size <= n * size
  {
    assert n * size == i * size + (n - i) * size;
  }

  /** `restoreItem` */
  method WriteRecords(records: array<seq<byte>>) returns (file: seq<byte>)
    ensures file == Join(records[..])
  {
    file := [];
    var i := 0;
    while i < records.Length
      invariant 0 <= i <= records.Length && file == Join(records[..i])
    {
      assert records[..i + 1][..i] == records[..i];
      file := file + records[i];
      i := i + 1;
    }
    assert records[..i] == records[..];
  }

  function Copies(cut: nat): (seq<byte>, seq<byte>) -> seq<byte>
  {
    (n: seq<byte>, o: seq<byte>) => if cut <= |n| && cut <= |o| then Overlay(n, o[..cut]) else n
  }

  /** The first loop of `convertItem`: the first `cut` octets of each old record over the new one. */
  method BlockCopy(otbl: array<seq<byte>>, ntbl: array<seq<byte>>, cut: nat, oldSize: nat, newSize: nat)
    requires otbl != ntbl && otbl.Length == ntbl.Length && cut <= oldSize && cut <= newSize
    requires AllOfSize(otbl[..], oldSize) && AllOfSize(ntbl[..], newSize)
    modifies ntbl
    ensures AllOfSize(ntbl[..], newSize) && ntbl[..] == EachInto(old(ntbl[..]), otbl[..], Copies(cut))
  {
    ghost var olds, before := otbl[..], ntbl[..];
    var i := 0;
    while i < otbl.Length
      invariant 0 <= i <= otbl.Length && otbl[..] == olds
      invariant forall k :: 0 <= k < i ==> ntbl[k] == Copies(cut)(before[k], olds[k]) && |ntbl[k]| == newSize
      invariant forall k :: i <= k < ntbl.Length ==> ntbl[k] == before[k]
    {
      assert olds[i] == otbl[i] && before[i] == ntbl[i];
      ntbl[i] := Overlay(ntbl[i], otbl[i][..cut]);
      i := i + 1;
    }
  }
}
