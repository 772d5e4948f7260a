/** How a poll decides that the monitored file was modified: the modification time is written as a
    DateAndTime octet string, cut at its first NUL by strcpy, and compared with the stored one. */
module FileMonDetector {
  import opened Octets
  import opened Options
  import opened FileMonRow

  const MAX_DATE_TIME_LEN := 20

  /** Local broken-down time. */
  datatype DateTime = DateTime(year: nat, month: nat, day: nat, hour: nat, minute: nat, second: nat)

  predicate ValidDate(d: DateTime)
  {
    && 256 <= d.year < 65536 && 1 <= d.month <= 12 && 1 <= d.day <= 31
    && d.hour < 24 && d.minute < 60 && d.second <= 60
  }

  /** A time as `date_n_time_buf` receives it: `None` is time 0 or -1. */
  predicate ValidTime(when: Option<DateTime>)
  {
    when.Some? ==> ValidDate(when.value)
  }

  predicate ValidTimes(polls: seq<Option<DateTime>>)
  {
    forall i :: 0 <= i < |polls| ==> ValidTime(polls[i])
  }

  /** The octets `date_n_time_buf` writes; the last three are the offset from UTC. */
  function DateOctets(when: Option<DateTime>, zone: (byte, byte, byte)): (b: seq<byte>)
    requires ValidTime(when)
    ensures |b| == if when.None? then 8 else 11
  {
    match when
    case None => [0, 0, 1, 1, 0, 0, 0, 0]
    case Some(d) => [d.year / 256, d.year % 256, d.month, d.day, d.hour, d.minute, d.second, 0, zone.0, zone.1, zone.2]
  }

  /** A DateAndTime (section 2 of RFC 2579) as its reader takes it: two octets of year, the most significant first,
      then month, day, hour, minutes and seconds. */
  function DateOf(b: seq<byte>): DateTime
    requires |b| >= 8
  {
    DateTime(b[0] as int * 256 + b[1] as int, b[2], b[3], b[4], b[5], b[6])
  }

  /** What is written denotes the time, without deciseconds; for no time it is the first of January of the year 0. */
  lemma DateOctetsDenote(when: Option<DateTime>, zone: (byte, byte, byte))
    requires ValidTime(when)
    ensures var b := DateOctets(when, zone);
            && DateOf(b) == (if when.Some? then when.value else DateTime(0, 1, 1, 0, 0, 0))
            && b[7] == 0 && (when.Some? ==> b[8..] == [zone.0, zone.1, zone.2])
  {
  }

  /** What is left of it after strcpy. */
  function Key(when: Option<DateTime>): (k: seq<byte>)
    requires ValidTime(when)
    ensures |k| <= 7 && 0 !in k
    ensures k == [] <==> when == None
  {
    match when
    case None => []
    case Some(d) =>
      var date := [d.year / 256, d.year % 256, d.month, d.day];
      if d.year % 256 == 0 then date[..1]
      else if d.hour == 0 then date
      else if d.minute == 0 then date + [d.hour]
      else if d.second == 0 then date + [d.hour, d.minute]
      else date + [d.hour, d.minute, d.second]
  }

  lemma KeyIsCString(when: Option<DateTime>, zone: (byte, byte, byte))
    requires ValidTime(when)
    ensures CString(DateOctets(when, zone)) == Key(when)
  {
    var b, k := DateOctets(when, zone), Key(when);
    assert b[..|k|] == k;
    CStringUnique(b, |k|);
  }

  /** The fields that reach the comparison: all of them up to the first that is zero. */
  predicate SameUpToFirstZero(a: DateTime, b: DateTime)
  {
    && a.year == b.year
    && (a.year % 256 != 0 ==>
          && a.month == b.month && a.day == b.day && a.hour == b.hour
          && (a.hour != 0 ==> a.minute == b.minute && (a.minute != 0 ==> a.second == b.second)))
  }

  lemma KeysEqualIff(a: DateTime, b: DateTime)
    requires ValidDate(a) && ValidDate(b)
    ensures Key(Some(a)) == Key(Some(b)) <==> SameUpToFirstZero(a, b)
  {
    var k, l := Key(Some(a)), Key(Some(b));
    assert k[0] == a.year / 256 && l[0] == b.year / 256;
    assert |k| > 1 ==> k[1] == a.year % 256 && k[2] == a.month && k[3] == a.day;
    assert |l| > 1 ==> l[1] == b.year % 256 && l[2] == b.month && l[3] == b.day;
    assert |k| > 4 ==> k[4] == a.hour;
    assert |l| > 4 ==> l[4] == b.hour;
    assert |k| > 5 ==> k[5] == a.minute;
    assert |l| > 5 ==> l[5] == b.minute;
    assert |k| > 6 ==> k[6] == a.second;
    assert |l| > 6 ==> l[6] == b.second;
  }

  /** Away from midnight hours, whole hours and years divisible by 256 no modification is missed. */
  lemma KeysSeparateTimes(a: DateTime, b: DateTime)
    requires ValidDate(a) && ValidDate(b)
    requires a.year % 256 != 0 && a.hour != 0 && a.minute != 0
    ensures Key(Some(a)) == Key(Some(b)) <==> a == b
  {
    KeysEqualIff(a, b);
  }

  /** Two times of one night that the comparison cannot tell apart. */
  lemma MidnightHidesModification()
    ensures var a := DateTime(2009, 6, 26, 0, 10, 0);
            var b := DateTime(2009, 6, 26, 0, 50, 0);
            ValidDate(a) && ValidDate(b) && a != b && Key(Some(a)) == Key(Some(b))
  {
    KeysEqualIff(DateTime(2009, 6, 26, 0, 10, 0), DateTime(2009, 6, 26, 0, 50, 0));
  }

  /** `strncmp(a, b, n) == 0` */
  predicate StrNCmpEqual(a: seq<byte>, b: seq<byte>, n: nat)
  {
    var s, t := CString(a), CString(b);
    s[..if |s| < n then |s| else n] == t[..if |t| < n then |t| else n]
  }

  /** A successful poll: the new column, and whether a trap is sent. */
  function Poll(t: Text, when: Option<DateTime>, zone: (byte, byte, byte)): (r: (Text, bool))
    requires |t.bytes| == 20 && ValidTime(when)
    ensures ValidText(r.0, 20)
    ensures CString(r.0.bytes) == Key(when)
    ensures r.1 <==> CString(t.bytes) != Key(when)
  {
    var octets := DateOctets(when, zone);
    KeyIsCString(when, zone);
    var tmpdate := StrCpy(Zeros(MAX_DATE_TIME_LEN + 1), octets);
    var fired := !StrNCmpEqual(t.bytes, tmpdate, MAX_DATE_TIME_LEN);
    assert CString(t.bytes)[..|CString(t.bytes)|] == CString(t.bytes);
    assert Key(when)[..|Key(when)|] == Key(when);
    (Text(if fired then StrCpy(t.bytes, octets) else t.bytes, |octets|), fired)
  }

  function Polls(t: Text, polls: seq<Option<DateTime>>, zone: (byte, byte, byte)): (r: (Text, nat))
    requires |t.bytes| == 20 && ValidTimes(polls)
    ensures |r.0.bytes| == 20
    ensures CString(r.0.bytes) == if polls == [] then CString(t.bytes) else Key(polls[|polls| - 1])
  {
    if polls == [] then (t, 0) else
      var (u, n) := Polls(t, polls[..|polls| - 1], zone);
      var (v, fired) := Poll(u, polls[|polls| - 1], zone);
      (v, n + if fired then 1 else 0)
  }

  /** The key of poll i differs from the one before, the stored column standing before the first. */
  predicate Differs(stored: seq<byte>, polls: seq<Option<DateTime>>, i: nat)
    requires ValidTimes(polls) && i < |polls|
  {
    Key(polls[i]) != if i == 0 then stored else Key(polls[i - 1])
  }

  ghost function Changes(stored: seq<byte>, polls: seq<Option<DateTime>>): set<nat>
    requires ValidTimes(polls)
  {
    set i: nat | i < |polls| && Differs(stored, polls, i)
  }

  lemma DiffersOfPrefix(stored: seq<byte>, polls: seq<Option<DateTime>>, n: nat, i: nat)
    requires ValidTimes(polls) && i < n <= |polls|
    ensures ValidTimes(polls[..n]) && Differs(stored, polls[..n], i) == Differs(stored, polls, i)
  {
  }

  lemma ChangesSnoc(stored: seq<byte>, polls: seq<Option<DateTime>>)
    requires ValidTimes(polls) && polls != []
    ensures var n := |polls| - 1;
            |Changes(stored, polls)| == |Changes(stored, polls[..n])| + if Differs(stored, polls, n) then 1 else 0
  {
    var n := |polls| - 1;
    var init := polls[..n];
    var c, d := Changes(stored, init), Changes(stored, polls);
    forall i: nat | i < n
      ensures i in c <==> i in d
    {
      DiffersOfPrefix(stored, polls, n, i);
    }
    assert forall i :: i in d ==> i <= n;
    assert n in d <==> Differs(stored, polls, n);
    CountSnoc(c, d, n, Differs(stored, polls, n));
  }

  lemma CountSnoc(c: set<nat>, d: set<nat>, n: nat, last: bool)
    requires forall i :: i in c ==> i < n
    requires forall i :: i in d <==> i in c || (i == n && last)
    ensures |d| == |c| + if last then 1 else 0
  {
    assert d == if last then c + {n} else c;
  }

  lemma DiffersAfterFirst(stored: seq<byte>, polls: seq<Option<DateTime>>, i: nat)
    requires ValidTimes(polls) && 0 < i < |polls|
    ensures ValidTimes(polls[1..]) && Differs(stored, polls, i) == Differs(Key(polls[0]), polls[1..], i - 1)
  {
  }

  lemma OneChange(stored: seq<byte>, when: Option<DateTime>)
    requires ValidTime(when)
    ensures ValidTimes([when]) && |Changes(stored, [when])| == if stored != Key(when) then 1 else 0
  {
    ChangesSnoc(stored, [when]);
    assert Changes(stored, [when][..0]) == {};
  }

  /** The first poll is compared with the stored key, the others with the key of the first. */
  lemma {:induction false} ChangesCons(stored: seq<byte>, polls: seq<Option<DateTime>>)
    requires ValidTimes(polls) && polls != []
    ensures |Changes(stored, polls)| ==
            (if stored != Key(polls[0]) then 1 else 0) + |Changes(Key(polls[0]), polls[1..])|
  {
    var n, rest := |polls| - 1, polls[1..];
    if n == 0 {
      assert polls == [polls[0]];
      OneChange(stored, polls[0]);
      assert Changes(Key(polls[0]), rest) == {};
    } else {
      var init := polls[..n];
      assert init[1..] == rest[..n - 1] && init[0] == polls[0];
      ChangesCons(stored, init);
      ChangesSnoc(stored, polls);
      ChangesSnoc(Key(polls[0]), rest);
      DiffersAfterFirst(stored, polls, n);
    }
  }

  /** Traps sent are exactly the changes of key, over any sequence of successful polls. */
  lemma {:induction false} TrapsAreChanges(t: Text, polls: seq<Option<DateTime>>, zone: (byte, byte, byte))
    requires |t.bytes| == 20 && ValidTimes(polls)
    ensures Polls(t, polls, zone).1 == |Changes(CString(t.bytes), polls)|
  {
    if polls != [] {
      TrapsAreChanges(t, polls[..|polls| - 1], zone);
      ChangesSnoc(CString(t.bytes), polls);
    }
  }

  lemma UnchangedDiffers(stored: seq<byte>, when: Option<DateTime>, polls: seq<Option<DateTime>>, i: nat)
    requires ValidTime(when) && (forall k :: 0 <= k < |polls| ==> polls[k] == when) && i < |polls|
    ensures ValidTimes(polls) && (Differs(stored, polls, i) <==> i == 0 && stored != Key(when))
  {
  }

  lemma UnchangedChanges(stored: seq<byte>, when: Option<DateTime>, polls: seq<Option<DateTime>>)
    requires ValidTime(when) && forall k :: 0 <= k < |polls| ==> polls[k] == when
    ensures ValidTimes(polls)
    ensures Changes(stored, polls) == if polls != [] && stored != Key(when) then {0} else {}
  {
    forall i: nat | i < |polls|
      ensures Differs(stored, polls, i) <==> i == 0 && stored != Key(when)
    {
      UnchangedDiffers(stored, when, polls, i);
    }
  }

  /** An unchanged modification time fires at most once, however often it is polled. */
  lemma UnchangedFiresAtMostOnce(t: Text, when: Option<DateTime>, polls: seq<Option<DateTime>>,
                                  zone: (byte, byte, byte))
    requires |t.bytes| == 20 && ValidTime(when) && forall i :: 0 <= i < |polls| ==> polls[i] == when
    ensures ValidTimes(polls)
    ensures Polls(t, polls, zone).1 == if polls != [] && CString(t.bytes) != Key(when) then 1 else 0
  {
    UnchangedChanges(CString(t.bytes), when, polls);
    TrapsAreChanges(t, polls, zone);
  }
}
