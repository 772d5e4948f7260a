/** One row of the file-monitor table: its columns, the writes of a SET request, the copy that
    the undo phase makes, and what GET returns. */
module FileMonRow {
  import opened Octets
  import opened RowStatus

  /** A text column: a fixed buffer and the stored length. GET shows the first `len` octets,
      every string function of the agent reads up to the first NUL instead. */
  datatype Text = Text(bytes: seq<byte>, len: nat)

  datatype TextColumn = Name | Description | CreatedDateTime | ModifiedDateTime | Owner | ReactionPath | AlertMessage

  datatype NumberColumn = Index | CheckInterval | FileSize | Reaction | Status

  datatype Row = Row(
    oids: seq<nat>,
    index: int,
    name: Text,
    checkInterval: int,
    description: Text,
    created: Text,
    modified: Text,
    fileSize: int,
    owner: Text,
    reaction: int,
    reactionPath: Text,
    alertMessage: Text,
    status: int,
    idx: nat,
    threadActive: int)

  /** One variable binding of a SET request, already matched to its column. */
  datatype Write = WriteText(text: TextColumn, octets: seq<byte>) | WriteNumber(number: NumberColumn, value: int)

  function Capacity(c: TextColumn): nat
  {
    if c.CreatedDateTime? || c.ModifiedDateTime? then 20 else 255
  }

  function TextOf(r: Row, c: TextColumn): Text
  {
    match c
    case Name => r.name
    case Description => r.description
    case CreatedDateTime => r.created
    case ModifiedDateTime => r.modified
    case Owner => r.owner
    case ReactionPath => r.reactionPath
    case AlertMessage => r.alertMessage
  }

  function WithText(r: Row, c: TextColumn, t: Text): (q: Row)
    ensures forall d: TextColumn :: TextOf(q, d) == if d == c then t else TextOf(r, d)
    ensures forall n: NumberColumn :: NumberOf(q, n) == NumberOf(r, n)
    ensures q.oids == r.oids && q.idx == r.idx && q.threadActive == r.threadActive
  {
    match c
    case Name => r.(name := t)
    case Description => r.(description := t)
    case CreatedDateTime => r.(created := t)
    case ModifiedDateTime => r.(modified := t)
    case Owner => r.(owner := t)
    case ReactionPath => r.(reactionPath := t)
    case AlertMessage => r.(alertMessage := t)
  }

  function NumberOf(r: Row, n: NumberColumn): int
  {
    match n
    case Index => r.index
    case CheckInterval => r.checkInterval
    case FileSize => r.fileSize
    case Reaction => r.reaction
    case Status => r.status
  }

  function WithNumber(r: Row, n: NumberColumn, v: int): (q: Row)
    ensures forall m: NumberColumn :: NumberOf(q, m) == if m == n then v else NumberOf(r, m)
    ensures forall c: TextColumn :: TextOf(q, c) == TextOf(r, c)
    ensures q.oids == r.oids && q.idx == r.idx && q.threadActive == r.threadActive
  {
    match n
    case Index => r.(index := v)
    case CheckInterval => r.(checkInterval := v)
    case FileSize => r.(fileSize := v)
    case Reaction => r.(reaction := v)
    case Status => r.(status := v)
  }

  predicate ValidText(t: Text, capacity: nat)
  {
    |t.bytes| == capacity && t.len <= capacity
  }

  ghost predicate ValidRow(r: Row)
  {
    && |r.oids| == 1
    && forall c: TextColumn :: ValidText(TextOf(r, c), Capacity(c))
  }

  /** What GET returns for a text column. */
  function Shown(t: Text): seq<byte>
    requires t.len <= |t.bytes|
  {
    t.bytes[..t.len]
  }

  /** A freshly allocated context, all octets zero. */
  function ZeroRow(): (r: Row)
    ensures forall c: TextColumn :: ValidText(TextOf(r, c), Capacity(c)) && TextOf(r, c) == Text(Zeros(Capacity(c)), 0)
  {
    var wide := Text(Zeros(255), 0);
    var narrow := Text(Zeros(20), 0);
    Row([], 0, wide, 0, wide, narrow, narrow, 0, wide, 0, wide, wide, 0, 0, 0)
  }

  /** A row the helper creates for a new index. */
  function CreateRow(key: nat): (r: Row)
    ensures ValidRow(r) && r.oids == [key]
  {
    ZeroRow().(oids := [key], index := key, checkInterval := 30)
  }

  /** A value reaches its column only when it is shorter than the buffer. */
  predicate Fits(w: Write)
  {
    w.WriteText? ==> |w.octets| < Capacity(w.text)
  }

  predicate AllFit(ws: seq<Write>)
  {
    forall w :: w in ws ==> Fits(w)
  }

  function StoreText(t: Text, val: seq<byte>): (r: Text)
    requires |val| < |t.bytes|
    ensures ValidText(r, |t.bytes|)
    ensures Shown(r) == val && r.bytes[|val|] == 0
  {
    Text(Overlay(t.bytes, val + [0]), |val|)
  }

  function ApplyWrite(r: Row, w: Write): (q: Row)
    requires ValidRow(r) && Fits(w)
    ensures ValidRow(q)
    ensures q.oids == r.oids && q.idx == r.idx && q.threadActive == r.threadActive
  {
    match w
    case WriteText(c, val) =>
      assert ValidText(TextOf(r, c), Capacity(c));
      WithText(r, c, StoreText(TextOf(r, c), val))
    case WriteNumber(n, v) => WithNumber(r, n, v)
  }

  function ApplyWrites(r: Row, ws: seq<Write>): (q: Row)
    requires ValidRow(r) && AllFit(ws)
    ensures ValidRow(q)
    ensures q.oids == r.oids && q.idx == r.idx && q.threadActive == r.threadActive
  {
    if ws == [] then r else ApplyWrite(ApplyWrites(r, ws[..|ws| - 1]), ws[|ws| - 1])
  }

  /** The ACTION phase: the column writes, then the row-status check, which never fails here. */
  function Action(r: Row, ws: seq<Write>): (q: Row)
    requires ValidRow(r) && AllFit(ws)
    ensures ValidRow(q)
    ensures q.oids == r.oids && q.idx == r.idx && q.threadActive == r.threadActive
  {
    var q := ApplyWrites(r, ws);
    WithNumber(q, Status, Settle(q.status))
  }

  /** One text column of the row copy: only the stored length is copied, without a NUL. */
  function CopyText(dst: Text, src: Text): (r: Text)
    requires src.len <= |src.bytes| == |dst.bytes|
    ensures ValidText(r, |dst.bytes|)
    ensures Shown(r) == Shown(src)
  {
    Text(Overlay(dst.bytes, src.bytes[..src.len]), src.len)
  }

  ghost predicate SameCapacities(dst: Row, src: Row)
  {
    forall c: TextColumn :: ValidText(TextOf(dst, c), Capacity(c)) && ValidText(TextOf(src, c), Capacity(c))
  }

  function RowCopy(dst: Row, src: Row): (r: Row)
    requires SameCapacities(dst, src)
    ensures forall c: TextColumn :: ValidText(TextOf(dst, c), Capacity(c)) && ValidText(TextOf(src, c), Capacity(c)) &&
                                    TextOf(r, c) == CopyText(TextOf(dst, c), TextOf(src, c))
    ensures forall n: NumberColumn :: NumberOf(r, n) == NumberOf(src, n)
    ensures r.oids == src.oids && r.idx == dst.idx && r.threadActive == dst.threadActive
  {
    assert forall c: TextColumn :: ValidText(TextOf(dst, c), Capacity(c)) && ValidText(TextOf(src, c), Capacity(c));
    assert ValidText(TextOf(dst, Name), 255) && ValidText(TextOf(src, Name), 255);
    assert ValidText(TextOf(dst, Description), 255) && ValidText(TextOf(src, Description), 255);
    assert ValidText(TextOf(dst, CreatedDateTime), 20) && ValidText(TextOf(src, CreatedDateTime), 20);
    assert ValidText(TextOf(dst, ModifiedDateTime), 20) && ValidText(TextOf(src, ModifiedDateTime), 20);
    assert ValidText(TextOf(dst, Owner), 255) && ValidText(TextOf(src, Owner), 255);
    assert ValidText(TextOf(dst, ReactionPath), 255) && ValidText(TextOf(src, ReactionPath), 255);
    assert ValidText(TextOf(dst, AlertMessage), 255) && ValidText(TextOf(src, AlertMessage), 255);
    Row(src.oids, src.index,
        CopyText(dst.name, src.name), src.checkInterval, CopyText(dst.description, src.description),
        CopyText(dst.created, src.created), CopyText(dst.modified, src.modified), src.fileSize,
        CopyText(dst.owner, src.owner), src.reaction, CopyText(dst.reactionPath, src.reactionPath),
        CopyText(dst.alertMessage, src.alertMessage), src.status, dst.idx, dst.threadActive)
  }

  /** The copy taken before a SET and kept as undo information. */
  function Duplicate(r: Row): (u: Row)
    requires ValidRow(r)
    ensures ValidRow(u)
  {
    RowCopy(ZeroRow(), r)
  }

  /** A SET whose ACTION phase ran on this row and was then undone. */
  function Undone(r: Row, ws: seq<Write>): (q: Row)
    requires ValidRow(r) && AllFit(ws)
    ensures ValidRow(q)
  {
    RowCopy(Action(r, ws), Duplicate(r))
  }

  /** What every GET of the row answers. */
  ghost predicate SameAnswers(a: Row, b: Row)
    requires ValidRow(a) && ValidRow(b)
  {
    && (forall c: TextColumn :: ValidText(TextOf(a, c), Capacity(c)) && ValidText(TextOf(b, c), Capacity(c)) ==>
                                  Shown(TextOf(a, c)) == Shown(TextOf(b, c)))
    && (forall n: NumberColumn :: NumberOf(a, n) == NumberOf(b, n))
  }

  /** Undo restores every column of GET, for any group of writes, and leaves the bookkeeping alone. */
  lemma UndoRestoresAnswers(r: Row, ws: seq<Write>)
    requires ValidRow(r) && AllFit(ws)
    ensures SameAnswers(Undone(r, ws), r)
    ensures Undone(r, ws).threadActive == r.threadActive && Undone(r, ws).idx == r.idx && Undone(r, ws).oids == r.oids
  {
    forall c: TextColumn
      ensures Shown(TextOf(Undone(r, ws), c)) == Shown(TextOf(r, c))
    {
      assert TextOf(Undone(r, ws), c) == CopyText(TextOf(Action(r, ws), c), TextOf(Duplicate(r), c));
      assert TextOf(Duplicate(r), c) == CopyText(TextOf(ZeroRow(), c), TextOf(r, c));
    }
  }

  predicate Touches(w: Write, c: TextColumn)
  {
    w.WriteText? && w.text == c
  }

  lemma {:induction false} UntouchedText(r: Row, ws: seq<Write>, c: TextColumn)
    requires ValidRow(r) && AllFit(ws)
    requires forall w :: w in ws ==> !Touches(w, c)
    ensures TextOf(ApplyWrites(r, ws), c) == TextOf(r, c)
  {
    if ws != [] {
      assert ws[|ws| - 1] in ws && forall w :: w in ws[..|ws| - 1] ==> w in ws;
      UntouchedText(r, ws[..|ws| - 1], c);
    }
  }

  lemma {:induction false} TouchedOnce(r: Row, ws: seq<Write>, c: TextColumn, i: nat)
    requires ValidRow(r) && AllFit(ws)
    requires i < |ws| && Touches(ws[i], c)
    requires forall j :: 0 <= j < |ws| && j != i ==> !Touches(ws[j], c)
    ensures ValidText(TextOf(r, c), Capacity(c)) && Fits(ws[i])
    ensures TextOf(ApplyWrites(r, ws), c) == StoreText(TextOf(r, c), ws[i].octets)
  {
    assert ValidText(TextOf(r, c), Capacity(c));
    var init := ws[..|ws| - 1];
    assert ws[|ws| - 1] in ws && forall w :: w in init ==> w in ws;
    if i == |ws| - 1 {
      UntouchedText(r, init, c);
    } else {
      TouchedOnce(r, init, c, i);
    }
  }

  lemma CStringAfter(b: seq<byte>, n: nat)
    requires n <= |b|
    ensures |CString(b)| >= n ==> b[..n] == CString(b)[..n] && CString(b) == b[..n] + CString(b[n..])
  {
    var s, tail := CString(b), CString(b[n..]);
    if |s| >= n {
      assert s[..n] == b[..n] && b[..n] + tail == b[..n + |tail|];
      assert forall k :: 0 <= k < n ==> b[..n + |tail|][k] == s[k];
      CStringUnique(b, n + |tail|);
    }
  }

  lemma CStringWithin(a: seq<byte>, b: seq<byte>, n: nat)
    requires n <= |a| && n <= |b| && a[..n] == b[..n] && |CString(a)| < n
    ensures CString(b) == CString(a)
  {
    var s := CString(a);
    assert b[..|s|] == a[..n][..|s|] == s && b[|s|] == a[..n][|s|];
    CStringUnique(b, |s|);
  }

  /** Two buffers that agree up to a length hold the same string exactly when it ends before that length, or they go
      on alike. */
  lemma SameStringIff(a: seq<byte>, b: seq<byte>, n: nat)
    requires n <= |a| && n <= |b| && a[..n] == b[..n]
    ensures CString(a) == CString(b) <==> |CString(a)| < n || CString(a[n..]) == CString(b[n..])
  {
    if |CString(a)| < n {
      CStringWithin(a, b, n);
    } else {
      if |CString(b)| < n {
        CStringWithin(b, a, n);
      }
      CStringAfter(a, n);
      CStringAfter(b, n);
    }
  }

  /** What an undone write leaves behind the stored length. */
  lemma BehindUndo(t: Text, val: seq<byte>)
    requires t.len <= |t.bytes| && |val| < |t.bytes|
    ensures var b := CopyText(StoreText(t, val), t).bytes;
            && b[..t.len] == t.bytes[..t.len]
            && CString(b[t.len..]) == if |val| < t.len then CString(t.bytes[t.len..]) else CString(val[t.len..])
  {
    var b := CopyText(StoreText(t, val), t).bytes;
    if |val| < t.len {
      assert b == t.bytes;
    } else {
      var rest, s := val[t.len..], CString(val[t.len..]);
      assert forall k :: 0 <= k < |rest| ==> b[t.len..][k] == rest[k];
      assert b[t.len..][|rest|] == 0;
      assert b[t.len..][..|s|] == s;
      CStringUnique(b[t.len..], |s|);
    }
  }

  lemma UndoneText(r: Row, ws: seq<Write>, c: TextColumn, i: nat)
    requires ValidRow(r) && AllFit(ws)
    requires i < |ws| && Touches(ws[i], c)
    requires forall j :: 0 <= j < |ws| && j != i ==> !Touches(ws[j], c)
    ensures ValidText(TextOf(r, c), Capacity(c)) && Fits(ws[i])
    ensures TextOf(Undone(r, ws), c) == CopyText(StoreText(TextOf(r, c), ws[i].octets), TextOf(r, c))
  {
    var t := TextOf(r, c);
    TouchedOnce(r, ws, c, i);
    assert ValidText(t, Capacity(c));
    assert TextOf(Undone(r, ws), c) == CopyText(TextOf(Action(r, ws), c), TextOf(Duplicate(r), c));
    assert TextOf(Duplicate(r), c) == CopyText(TextOf(ZeroRow(), c), t);
    assert TextOf(Action(r, ws), c) == StoreText(t, ws[i].octets);
  }

  /** Whatever a text column holds, the string functions of the worker see the old text again after an undo exactly
      when that text ends before the stored length, or the refused value is shorter than that length, or leaves the
      same string behind it: the copy brings back the octets but not the NUL. */
  lemma UndoRestoresStringIff(r: Row, ws: seq<Write>, c: TextColumn, i: nat)
    requires ValidRow(r) && AllFit(ws)
    requires i < |ws| && Touches(ws[i], c)
    requires forall j :: 0 <= j < |ws| && j != i ==> !Touches(ws[j], c)
    ensures ValidText(TextOf(r, c), Capacity(c))
    ensures var t, val := TextOf(r, c), ws[i].octets;
            CString(TextOf(Undone(r, ws), c).bytes) == CString(t.bytes) <==>
            |CString(t.bytes)| < t.len || |val| < t.len || CString(val[t.len..]) == CString(t.bytes[t.len..])
  {
    var t, val := TextOf(r, c), ws[i].octets;
    UndoneText(r, ws, c, i);
    BehindUndo(t, val);
    SameStringIff(t.bytes, TextOf(Undone(r, ws), c).bytes, t.len);
  }

  /** A text column whose buffer still ends where the stored length says. */
  predicate Terminated(t: Text)
  {
    t.len < |t.bytes| && 0 !in t.bytes[..t.len] && t.bytes[t.len] == 0
  }

  /** For such a column: exactly when the refused value does not reach past the old length. */
  lemma UndoRestoresTerminatedIff(r: Row, ws: seq<Write>, c: TextColumn, i: nat)
    requires ValidRow(r) && AllFit(ws) && Terminated(TextOf(r, c))
    requires i < |ws| && Touches(ws[i], c)
    requires forall j :: 0 <= j < |ws| && j != i ==> !Touches(ws[j], c)
    ensures CString(TextOf(Undone(r, ws), c).bytes) == CString(TextOf(r, c).bytes) <==>
            |ws[i].octets| <= TextOf(r, c).len || ws[i].octets[TextOf(r, c).len] == 0
  {
    var t, val := TextOf(r, c), ws[i].octets;
    UndoRestoresStringIff(r, ws, c, i);
    CStringUnique(t.bytes, t.len);
    assert t.bytes[t.len..][0] == 0;
    if t.len < |val| {
      assert val[t.len..][0] == val[t.len];
    }
  }

  /** A concrete refused SET after which GET still answers an empty name while the worker reads "f". */
  lemma UndoLeavesResidue()
    ensures var r := CreateRow(7);
            var ws := [WriteText(Name, [102])];
            && AllFit(ws)
            && ValidText(TextOf(Undone(r, ws), Name), 255)
            && Shown(TextOf(Undone(r, ws), Name)) == Shown(TextOf(r, Name)) == []
            && CString(TextOf(r, Name).bytes) == []
            && CString(TextOf(Undone(r, ws), Name).bytes) == [102]
  {
    var r := CreateRow(7);
    var ws := [WriteText(Name, [102])];
    UndoRestoresAnswers(r, ws);
    TouchedOnce(r, ws, Name, 0);
    assert TextOf(Undone(r, ws), Name) == CopyText(TextOf(Action(r, ws), Name), TextOf(Duplicate(r), Name));
    var b := TextOf(Undone(r, ws), Name).bytes;
    assert b[0] == 102 && b[1] == 0;
    CStringUnique(b, 1);
    assert ValidText(TextOf(Undone(r, ws), Name), Capacity(Name));
  }
}
