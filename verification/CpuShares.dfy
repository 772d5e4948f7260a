/** The sampling of the processor counters: shares of the time since the last sample, in hundredths of a percent and
    in percent. Quotients are exact before they are truncated. */
module CpuShares {

  const USER := 0
  const KERNEL := 1
  const WAIT := 2
  const IDLE := 3
  const UTIL := 4

  /** The lines of the statistics file: the sum over all processors, one processor, anything else. */
  datatype Line = Aggregate | PerCpu(user: nat, wait: nat, kernel: nat, idle: nat) | Other

  /** The counter of one state, added up over the processors. */
  function Counter(lines: seq<Line>, s: nat): nat
    requires s < UTIL
  {
    if lines == [] then 0 else
      Counter(lines[..|lines| - 1], s) + CounterOf(lines[|lines| - 1], s)
  }

  function CounterOf(line: Line, s: nat): nat
    requires s < UTIL
  {
    match line
    case PerCpu(user, wait, kernel, idle) =>
      if s == USER then user else if s == KERNEL then kernel else if s == WAIT then wait else idle
    case Aggregate => 0
    case Other => 0
  }

  function Processors(lines: seq<Line>): nat
  {
    if lines == [] then 0 else
      Processors(lines[..|lines| - 1]) + (if lines[|lines| - 1].PerCpu? then 1 else 0)
  }

  function Counters(lines: seq<Line>): (c: seq<nat>)
    ensures |c| == UTIL && forall s :: 0 <= s < UTIL ==> c[s] == Counter(lines, s)
  {
    [Counter(lines, USER), Counter(lines, KERNEL), Counter(lines, WAIT), Counter(lines, IDLE)]
  }

  function Total(c: seq<nat>): nat
    requires |c| == UTIL
  {
    c[USER] + c[KERNEL] + c[WAIT] + c[IDLE]
  }

  /** What is saved: the four counters and the time in use. */
  function Saved(c: seq<nat>): (r: seq<int>)
    requires |c| == UTIL
    ensures |r| == UTIL + 1 && r[UTIL] == c[USER] + c[KERNEL]
    ensures forall s :: 0 <= s < UTIL ==> r[s] == c[s]
  {
    c + [c[USER] + c[KERNEL]]
  }

  /** A conversion to an integer type drops the fraction. */
  function Truncate(n: int, d: int): int
    requires d > 0
  {
    if n >= 0 then n / d else -(-n / d)
  }

  function Least(a: int, b: int): int { if a > b then b else a }

  datatype Info = Info(ncpus: nat, sampletime: int, total: int, state: seq<int>, usage: seq<int>, usageFloat: seq<int>)

  predicate Shape(i: Info)
  {
    |i.state| == UTIL + 1 && |i.usage| == UTIL + 1 && |i.usageFloat| == UTIL + 1
  }

  function Initial(): (i: Info)
    ensures Shape(i)
  {
    Info(1, 0, 0, [0, 0, 0, 0, 0], [0, 0, 0, 0, 0], [0, 0, 0, 0, 0])
  }

  /** Hundredths of a percent of the elapsed time spent in state s, before the clamp. */
  function Share(before: seq<int>, after: seq<int>, elapsed: int, s: nat): int
    requires |before| == UTIL + 1 && |after| == UTIL + 1 && s <= UTIL && elapsed > 0
  {
    Truncate((after[s] - before[s]) * 10000, elapsed)
  }

  function Shares(before: seq<int>, after: seq<int>, elapsed: int): (r: seq<int>)
    requires |before| == UTIL + 1 && |after| == UTIL + 1 && elapsed > 0
    ensures |r| == UTIL + 1 && forall s :: 0 <= s <= UTIL ==> r[s] == Least(Share(before, after, elapsed, s), 10000)
  {
    seq(UTIL + 1, s requires 0 <= s <= UTIL => Least(Share(before, after, elapsed, s), 10000))
  }

  function Percents(before: seq<int>, after: seq<int>, elapsed: int): (r: seq<int>)
    requires |before| == UTIL + 1 && |after| == UTIL + 1 && elapsed > 0
    ensures |r| == UTIL + 1
    ensures forall s :: 0 <= s <= UTIL ==> r[s] == Least(Truncate(Share(before, after, elapsed, s), 100), 100)
  {
    seq(UTIL + 1, s requires 0 <= s <= UTIL => Least(Truncate(Share(before, after, elapsed, s), 100), 100))
  }

  /** One sample: no shares at the first, the last shares when no time has passed. */
  function Step(i: Info, lines: seq<Line>, now: int): (r: Info)
    requires Shape(i)
    ensures Shape(r)
  {
    var c := Counters(lines);
    var elapsed := Total(c) - i.total;
    var sampled := Info(Processors(lines), now, Total(c), Saved(c), i.usage, i.usageFloat);
    if i.sampletime < 1 then sampled.(usage := [0, 0, 0, 0, 0], usageFloat := [0, 0, 0, 0, 0])
    else if elapsed > 0 then
      sampled.(usage := Percents(i.state, Saved(c), elapsed), usageFloat := Shares(i.state, Saved(c), elapsed))
    else sampled
  }

  datatype Sample = Sample(lines: seq<Line>, now: int)

  function Run(samples: seq<Sample>): (i: Info)
    ensures Shape(i)
  {
    if samples == [] then Initial() else
      var last := samples[|samples| - 1];
      Step(Run(samples[..|samples| - 1]), last.lines, last.now)
  }

  /** After every run the saved total is the sum of the saved states, and the fifth state is the time in use. */
  predicate Consistent(i: Info)
    requires Shape(i)
  {
    && i.total == i.state[USER] + i.state[KERNEL] + i.state[WAIT] + i.state[IDLE]
    && i.state[UTIL] == i.state[USER] + i.state[KERNEL]
  }

  lemma {:induction false} SavedTotalIsConsistent(samples: seq<Sample>)
    ensures Consistent(Run(samples))
    ensures samples != [] ==> Run(samples).state == Saved(Counters(samples[|samples| - 1].lines))
  {
    if samples != [] {
      SavedTotalIsConsistent(samples[..|samples| - 1]);
    }
  }

  /** A figure of the lines, added up. */
  function Sum(lines: seq<Line>, figure: Line -> nat): nat
  {
    if lines == [] then 0 else Sum(lines[..|lines| - 1], figure) + figure(lines[|lines| - 1])
  }

  function User(line: Line): nat { if line.PerCpu? then line.user else 0 }

  function Kernel(line: Line): nat { if line.PerCpu? then line.kernel else 0 }

  function Wait(line: Line): nat { if line.PerCpu? then line.wait else 0 }

  function Idle(line: Line): nat { if line.PerCpu? then line.idle else 0 }

  function One(line: Line): nat { if line.PerCpu? then 1 else 0 }

  /** Each counter is the sum of its own figure over the lines of single processors, of which there are as many as are
      counted. */
  lemma {:induction false} CountersAreSums(lines: seq<Line>)
    ensures Counters(lines) == [Sum(lines, User), Sum(lines, Kernel), Sum(lines, Wait), Sum(lines, Idle)]
    ensures Processors(lines) == Sum(lines, One)
  {
    if lines != [] {
      CountersAreSums(lines[..|lines| - 1]);
      var c := Counters(lines[..|lines| - 1]);
      assert c[0] == Counter(lines[..|lines| - 1], 0) && c[1] == Counter(lines[..|lines| - 1], 1);
      assert c[2] == Counter(lines[..|lines| - 1], 2) && c[3] == Counter(lines[..|lines| - 1], 3);
    }
  }

  /** What a sample saves: the time, the number of processors, and user, kernel, wait and idle time, their sum, and
      the time in use. */
  lemma SampleSaves(i: Info, lines: seq<Line>, now: int)
    requires Shape(i)
    ensures var u, k, w, d := Sum(lines, User), Sum(lines, Kernel), Sum(lines, Wait), Sum(lines, Idle);
            var r := Step(i, lines, now);
            && r.sampletime == now && r.ncpus == Sum(lines, One)
            && r.state == [u, k, w, d, u + k] && r.total == u + k + w + d
  {
    CountersAreSums(lines);
  }

  /** A share of n in t, towards zero and at most the bound. */
  function Part(n: int, t: int, bound: int): int
    requires t > 0
  {
    if n < 0 then -(-n / t) else if n / t > bound then bound else n / t
  }

  lemma TruncateBelow(n: nat, t: int)
    requires t > 0
    ensures Truncate(0 - n, t) == 0 - n / t <= 0
  {
    var m: int := 0 - n;
    assert n > 0 ==> -m == n;
    NonNegativeQuotient(n, t);
  }

  lemma NonNegativeQuotient(n: nat, t: nat)
    requires t > 0
    ensures n / t >= 0
  {
  }

  lemma PercentBelow(e: nat, t: nat)
    requires t > 0 && e > 0
    ensures Least(Truncate(-(e * 10000), t), 10000) == -(e * 10000 / t)
    ensures Least(Truncate(Truncate(-(e * 10000), t), 100), 100) == -(e * 100 / t)
  {
    TruncateBelow(e * 10000, t);
    NonNegativeQuotient(e * 10000, t);
    TruncateBelow(e * 10000 / t, 100);
    NestedFloors(e, t);
  }

  lemma PercentAbove(d: nat, t: nat)
    requires t > 0
    ensures Least(Truncate(d * 10000, t), 10000) == Part(d * 10000, t, 10000)
    ensures Least(Truncate(Truncate(d * 10000, t), 100), 100) == Part(d * 100, t, 100)
  {
    NonNegativeQuotient(d * 10000, t);
    NestedFloors(d, t);
  }

  lemma PercentOf(d: int, t: nat)
    requires t > 0
    ensures Least(Truncate(d * 10000, t), 10000) == Part(d * 10000, t, 10000)
    ensures Least(Truncate(Truncate(d * 10000, t), 100), 100) == Part(d * 100, t, 100)
  {
    if d >= 0 {
      PercentAbove(d, t);
    } else {
      var e: nat := -d;
      assert d * 10000 == -(e * 10000) && d * 100 == -(e * 100);
      PercentBelow(e, t);
    }
  }

  /** What a sample makes of the shares, also when counters ran backwards: zeros at the first sample, the old shares
      when no time was counted, and otherwise the part of it that each state took, in hundredths of a percent and in
      percent. */
  lemma SampleShares(i: Info, lines: seq<Line>, now: int, s: nat)
    requires Shape(i) && s <= 4
    ensures var r := Step(i, lines, now);
            var d, t := r.state[s] - i.state[s], r.total - i.total;
            && (i.sampletime < 1 ==> r.usage[s] == 0 && r.usageFloat[s] == 0)
            && (i.sampletime >= 1 && t <= 0 ==> r.usage[s] == i.usage[s] && r.usageFloat[s] == i.usageFloat[s])
            && (i.sampletime >= 1 && t > 0 ==>
                  r.usage[s] == Part(d * 100, t, 100) && r.usageFloat[s] == Part(d * 10000, t, 10000))
  {
    var r := Step(i, lines, now);
    var d, t := r.state[s] - i.state[s], r.total - i.total;
    if t > 0 {
      PercentOf(d, t);
    }
  }

  /** The first sample of a process has nothing to compare with: all shares are zero. Before it there is one processor
      and nothing was counted. */
  lemma FirstSample(sample: Sample)
    ensures var i := Run([sample]);
            i.usage == [0, 0, 0, 0, 0] && i.usageFloat == [0, 0, 0, 0, 0] && i.sampletime == sample.now
    ensures var i := Run([]); i.ncpus == 1 && i.sampletime == 0 && i.total == 0 && i.state == [0, 0, 0, 0, 0]
  {
    assert [sample][..0] == [];
    assert Run([sample]) == Step(Initial(), sample.lines, sample.now);
  }

  /** Counters that never run backwards. */
  predicate Advances(before: seq<int>, c: seq<nat>)
    requires |before| == UTIL + 1 && |c| == UTIL
  {
    forall s :: 0 <= s < UTIL ==> before[s] <= c[s]
  }

  lemma Less(a: int, b: int, t: int)
    requires t > 0 && a * t < b * t
    ensures a < b
  {
    if a >= b {
      assert a * t == b * t + (a - b) * t;
      NonNegative(a - b, t);
    }
  }

  lemma NonNegative(a: nat, b: nat)
    ensures a * b >= 0
  {
  }

  /** The floor of a quotient. */
  lemma Floor(n: nat, t: nat)
    requires t > 0
    ensures n / t * t <= n < (n / t + 1) * t
  {
    assert n == t * (n / t) + n % t;
    assert (n / t + 1) * t == n / t * t + t;
  }

  /** Truncating to hundredths of a percent first and then to percent loses nothing more. */
  lemma NestedFloors(d: nat, t: nat)
    requires t > 0
    ensures d * 10000 / t / 100 == d * 100 / t
  {
    var b, q := d * 10000 / t, d * 100 / t;
    Floor(d * 10000, t);
    Floor(d * 100, t);
    assert 100 * (q * t) == 100 * q * t && 100 * ((q + 1) * t) == 100 * (q + 1) * t;
    Less(100 * q, b + 1, t);
    Less(b, 100 * (q + 1), t);
  }

  lemma AtMost(q: int, n: int, bound: int, t: int)
    requires t > 0 && q * t <= n <= bound * t
    ensures q <= bound
  {
    assert (bound + 1) * t == bound * t + t;
    Less(q, bound + 1, t);
  }

  /** What a quotient q of n lies between, when it is rounded down. */
  lemma QuotientRange(q: int, n: nat, t: int, bound: nat)
    requires 0 < t && n <= bound * t && q * t <= n < (q + 1) * t
    ensures 0 <= q <= bound
  {
    AtMost(q, n, bound, t);
    assert (q + 1) * t == q * t + t && -1 * t == -t;
    Less(-1, q, t);
  }

  lemma QuotientBounds(n: nat, t: nat, bound: nat)
    requires 0 < t && n <= bound * t
    ensures 0 <= n / t <= bound
    ensures n / t * t <= n < (n / t + 1) * t
  {
    Floor(n, t);
    QuotientRange(n / t, n, t, bound);
  }

  /** Four floors of shares that make up the whole lose less than four hundredths of a percent. */
  lemma FourFloors(u: int, k: int, w: int, i: int, t: int, fu: int, fk: int, fw: int, fi: int)
    requires t > 0 && u + k + w + i == t * 10000
    requires fu * t <= u < (fu + 1) * t && fk * t <= k < (fk + 1) * t
    requires fw * t <= w < (fw + 1) * t && fi * t <= i < (fi + 1) * t
    ensures 9997 <= fu + fk + fw + fi <= 10000
  {
    var f := fu + fk + fw + fi;
    assert f * t == fu * t + fk * t + fw * t + fi * t;
    assert (f + 4) * t == (fu + 1) * t + (fk + 1) * t + (fw + 1) * t + (fi + 1) * t;
    Less(f, 10001, t);
    Less(10000, f + 4, t);
  }

  /** The floor of a sum is the sum of the floors or one more. */
  lemma TwoFloors(u: int, k: int, t: int, fu: int, fk: int, fs: int)
    requires t > 0 && fu * t <= u < (fu + 1) * t && fk * t <= k < (fk + 1) * t && fs * t <= u + k < (fs + 1) * t
    ensures fs == fu + fk || fs == fu + fk + 1
  {
    assert (fu + fk) * t == fu * t + fk * t;
    assert (fu + fk + 2) * t == (fu + 1) * t + (fk + 1) * t;
    Less(fu + fk, fs + 1, t);
    Less(fs, fu + fk + 2, t);
  }

  lemma OneShare(i: Info, lines: seq<Line>, now: int, s: nat, d: nat)
    requires Shape(i) && i.sampletime >= 1 && Total(Counters(lines)) > i.total && s <= UTIL
    requires d == Saved(Counters(lines))[s] - i.state[s] && d <= Total(Counters(lines)) - i.total
    ensures var t, r := Total(Counters(lines)) - i.total, Step(i, lines, now);
            && r.usageFloat[s] == d * 10000 / t && r.usage[s] == d * 100 / t
            && r.usageFloat[s] * t <= d * 10000 < (r.usageFloat[s] + 1) * t
            && 0 <= r.usageFloat[s] <= 10000 && 0 <= r.usage[s] <= 100
  {
    var t := Total(Counters(lines)) - i.total;
    QuotientBounds(d * 10000, t, 10000);
    NestedFloors(d, t);
    assert Share(i.state, Saved(Counters(lines)), t, s) == d * 10000 / t;
  }

  /** The time each state took between two samples. */
  function Deltas(i: Info, lines: seq<Line>): (d: seq<int>)
    requires Shape(i)
    ensures |d| == UTIL + 1 && forall s :: 0 <= s <= UTIL ==> d[s] == Saved(Counters(lines))[s] - i.state[s]
  {
    seq(UTIL + 1, s requires 0 <= s <= UTIL => Saved(Counters(lines))[s] - i.state[s])
  }

  lemma DeltasMakeUpElapsed(i: Info, lines: seq<Line>)
    requires Shape(i) && Consistent(i) && Advances(i.state, Counters(lines))
    ensures var d, t := Deltas(i, lines), Total(Counters(lines)) - i.total;
            && d[USER] + d[KERNEL] + d[WAIT] + d[IDLE] == t && d[UTIL] == d[USER] + d[KERNEL]
            && forall s :: 0 <= s <= UTIL ==> 0 <= d[s] <= t
  {
    var d := Deltas(i, lines);
    assert d[USER] >= 0 && d[KERNEL] >= 0 && d[WAIT] >= 0 && d[IDLE] >= 0;
  }

  /** A sample taken after an earlier one, with counters that advanced: each share is the exact quotient rounded down,
      in hundredths of a percent and in percent, and no clamp acts. */
  lemma SharesAreExact(i: Info, lines: seq<Line>, now: int, s: nat)
    requires Shape(i) && Consistent(i) && i.sampletime >= 1 && Advances(i.state, Counters(lines)) && s <= UTIL
    requires Total(Counters(lines)) > i.total
    ensures var d, t := Deltas(i, lines)[s], Total(Counters(lines)) - i.total;
            var r := Step(i, lines, now);
            && 0 <= d <= t
            && r.usageFloat[s] == d * 10000 / t && r.usage[s] == d * 100 / t
            && 0 <= r.usageFloat[s] <= 10000 && 0 <= r.usage[s] <= 100
  {
    DeltasMakeUpElapsed(i, lines);
    OneShare(i, lines, now, s, Deltas(i, lines)[s]);
  }

  lemma FloorsAddUp(d: seq<int>, f: seq<int>, t: int)
    requires |d| == UTIL + 1 && |f| == UTIL + 1 && t > 0
    requires d[USER] + d[KERNEL] + d[WAIT] + d[IDLE] == t && d[UTIL] == d[USER] + d[KERNEL]
    requires f[USER] * t <= d[USER] * 10000 < (f[USER] + 1) * t
    requires f[KERNEL] * t <= d[KERNEL] * 10000 < (f[KERNEL] + 1) * t
    requires f[WAIT] * t <= d[WAIT] * 10000 < (f[WAIT] + 1) * t
    requires f[IDLE] * t <= d[IDLE] * 10000 < (f[IDLE] + 1) * t
    requires f[UTIL] * t <= d[UTIL] * 10000 < (f[UTIL] + 1) * t
    ensures 9997 <= f[USER] + f[KERNEL] + f[WAIT] + f[IDLE] <= 10000
    ensures 0 <= f[UTIL] - (f[USER] + f[KERNEL]) <= 1
  {
    FourFloors(d[USER] * 10000, d[KERNEL] * 10000, d[WAIT] * 10000, d[IDLE] * 10000, t,
               f[USER], f[KERNEL], f[WAIT], f[IDLE]);
    TwoFloors(d[USER] * 10000, d[KERNEL] * 10000, t, f[USER], f[KERNEL], f[UTIL]);
  }

  /** The four shares then make up the whole but for at most three hundredths of a percent, and the time in use is
      user plus kernel time or one hundredth more. */
  lemma SharesAddUp(i: Info, lines: seq<Line>, now: int)
    requires Shape(i) && Consistent(i) && i.sampletime >= 1 && Advances(i.state, Counters(lines))
    requires Total(Counters(lines)) > i.total
    ensures var f := Step(i, lines, now).usageFloat;
            && 9997 <= f[USER] + f[KERNEL] + f[WAIT] + f[IDLE] <= 10000
            && 0 <= f[UTIL] - (f[USER] + f[KERNEL]) <= 1
  {
    var d, t := Deltas(i, lines), Total(Counters(lines)) - i.total;
    var f := Step(i, lines, now).usageFloat;
    DeltasMakeUpElapsed(i, lines);
    OneShare(i, lines, now, USER, d[USER]);
    OneShare(i, lines, now, KERNEL, d[KERNEL]);
    OneShare(i, lines, now, WAIT, d[WAIT]);
    OneShare(i, lines, now, IDLE, d[IDLE]);
    OneShare(i, lines, now, UTIL, d[UTIL]);
    FloorsAddUp(d, f, t);
  }

  /** Samples whose counters never run backwards. */
  predicate Forward(samples: seq<Sample>)
  {
    forall k :: 0 <= k < |samples| - 1 ==>
      Advances(Saved(Counters(samples[k].lines)), Counters(samples[k + 1].lines))
  }

  predicate InRange(i: Info)
    requires Shape(i)
  {
    forall s :: 0 <= s <= UTIL ==> 0 <= i.usage[s] <= 100 && 0 <= i.usageFloat[s] <= 10000
  }

  lemma StepStaysInRange(i: Info, lines: seq<Line>, now: int)
    requires Shape(i) && Consistent(i) && InRange(i) && Advances(i.state, Counters(lines))
    ensures InRange(Step(i, lines, now))
  {
    if i.sampletime >= 1 && Total(Counters(lines)) > i.total {
      forall s | 0 <= s <= UTIL
        ensures 0 <= Step(i, lines, now).usage[s] <= 100 && 0 <= Step(i, lines, now).usageFloat[s] <= 10000
      {
        SharesAreExact(i, lines, now, s);
      }
    }
  }

  /** Over every run with such samples all shares stay between nothing and everything. */
  lemma {:induction false} SharesStayInRange(samples: seq<Sample>)
    requires Forward(samples)
    ensures InRange(Run(samples))
  {
    if samples != [] {
      var n := |samples| - 1;
      SharesStayInRange(samples[..n]);
      SavedTotalIsConsistent(samples[..n]);
      if n > 0 {
        assert samples[..n][n - 1] == samples[n - 1];
        assert Advances(Saved(Counters(samples[n - 1].lines)), Counters(samples[n - 1 + 1].lines));
      }
      StepStaysInRange(Run(samples[..n]), samples[n].lines, samples[n].now);
    }
  }

  /** The global record and the routine that updates it every thirty seconds. */
  class Monitor {
    var ncpus: nat
    var sampletime: int
    var total: int
    const state: array<int>
    const stateUsage: array<int>
    const stateUsageFloat: array<int>

    ghost predicate Ready()
      reads this
    {
      && state.Length == UTIL + 1 && stateUsage.Length == UTIL + 1 && stateUsageFloat.Length == UTIL + 1
      && state != stateUsage && state != stateUsageFloat && stateUsage != stateUsageFloat
    }

    ghost function Snapshot(): (i: Info)
      requires Ready()
      reads this, state, stateUsage, stateUsageFloat
      ensures Shape(i)
    {
      Info(ncpus, sampletime, total, state[..], stateUsage[..], stateUsageFloat[..])
    }

    constructor ()
      ensures Ready() && Snapshot() == Initial() && fresh(state) && fresh(stateUsage) && fresh(stateUsageFloat)
    {
      ncpus, sampletime, total := 1, 0, 0;
      state := new int[UTIL + 1](_ => 0);
      stateUsage := new int[UTIL + 1](_ => 0);
      stateUsageFloat := new int[UTIL + 1](_ => 0);
    }

    /** The reading loop. */
    static method ReadCounters(lines: seq<Line>) returns (ncpu: nat, c: seq<nat>)
      ensures ncpu == Processors(lines) && c == Counters(lines)
    {
      ncpu := 0;
      var user, kernel, wait, idle := 0, 0, 0, 0;
      var i := 0;
      while i < |lines|
        invariant 0 <= i <= |lines| && ncpu == Processors(lines[..i])
        invariant user == Counter(lines[..i], USER) && kernel == Counter(lines[..i], KERNEL)
        invariant wait == Counter(lines[..i], WAIT) && idle == Counter(lines[..i], IDLE)
      {
        assert lines[..i + 1][..i] == lines[..i];
        match lines[i] {
          case PerCpu(u, w, k, d) =>
            ncpu := ncpu + 1;
            user, kernel, wait, idle := user + u, kernel + k, wait + w, idle + d;
          case Aggregate =>
          case Other =>
        }
        i := i + 1;
      }
      assert lines[..i] == lines;
      c := [user, kernel, wait, idle];
    }

    /** Fills both share arrays. */
    method SetShares(after: seq<int>, elapsed: int)
      requires Ready() && |after| == UTIL + 1 && elapsed > 0
      modifies stateUsage, stateUsageFloat
      ensures stateUsage[..] == Percents(state[..], after, elapsed)
      ensures stateUsageFloat[..] == Shares(state[..], after, elapsed)
    {
      var s := 0;
      while s <= UTIL
        invariant 0 <= s <= UTIL + 1
        invariant forall k :: 0 <= k < s ==> stateUsage[k] == Percents(state[..], after, elapsed)[k]
        invariant forall k :: 0 <= k < s ==> stateUsageFloat[k] == Shares(state[..], after, elapsed)[k]
      {
        var usageFloat := Truncate((after[s] - state[s]) * 10000, elapsed);
        var usage := Truncate(usageFloat, 100);
        stateUsage[s] := if usage > 100 then 100 else usage;
        stateUsageFloat[s] := if usageFloat > 10000 then 10000 else usageFloat;
        s := s + 1;
      }
    }

    method SetCpuAverage(lines: seq<Line>, curTime: int)
      requires Ready()
      modifies this`ncpus, this`sampletime, this`total, state, stateUsage, stateUsageFloat
      ensures Snapshot() == Step(old(Snapshot()), lines, curTime)
    {
      var ncpu, c := ReadCounters(lines);
      ncpus := ncpu;
      var curtotal := c[USER] + c[KERNEL] + c[WAIT] + c[IDLE];
      var after := [c[USER], c[KERNEL], c[WAIT], c[IDLE], c[USER] + c[KERNEL]];
      assert after == Saved(c);
      if sampletime < 1 {
        forall s | 0 <= s <= UTIL { stateUsage[s] := 0; }
        forall s | 0 <= s <= UTIL { stateUsageFloat[s] := 0; }
        assert stateUsage[..] == [0, 0, 0, 0, 0] && stateUsageFloat[..] == [0, 0, 0, 0, 0];
      } else {
        var elapsed := curtotal - total;
        if elapsed > 0 {
          SetShares(after, elapsed);
        }
      }
      sampletime, total := curTime, curtotal;
      forall s | 0 <= s <= UTIL { state[s] := after[s]; }
      assert state[..] == after;
    }
  }
}
