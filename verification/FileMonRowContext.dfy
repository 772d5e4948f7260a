/** The row context in memory: fixed octet arrays updated in place by the SET handlers. */
module FileMonRowContext {
  import opened Octets
  import opened RowStatus
  import opened FileMonRow

  method Memcpy(dst: array<byte>, src: seq<byte>)
    requires |src| <= dst.Length
    modifies dst
    ensures dst[..] == Overlay(old(dst[..]), src)
  {
    var i := 0;
    while i < |src|
      invariant 0 <= i <= |src|
      invariant forall k :: 0 <= k < dst.Length ==> dst[k] == if k < i then src[k] else old(dst[k])
    {
      dst[i] := src[i];
      i := i + 1;
    }
  }

  lemma Bounds(dst: Row, src: Row)
    requires SameCapacities(dst, src)
    ensures src.name.len <= 255 && src.description.len <= 255 && src.created.len <= 20 && src.modified.len <= 20
    ensures src.owner.len <= 255 && src.reactionPath.len <= 255 && src.alertMessage.len <= 255
    ensures |src.name.bytes| == |src.description.bytes| == |src.owner.bytes| == |dst.name.bytes| ==
            |dst.description.bytes| == |dst.owner.bytes| == 255
    ensures |src.reactionPath.bytes| == |src.alertMessage.bytes| == |dst.reactionPath.bytes| ==
            |dst.alertMessage.bytes| == 255
    ensures |src.created.bytes| == |src.modified.bytes| == |dst.created.bytes| == |dst.modified.bytes| == 20
  {
    assert TextOf(dst, Name) == dst.name && TextOf(dst, Description) == dst.description
        && TextOf(dst, Owner) == dst.owner;
    assert TextOf(dst, CreatedDateTime) == dst.created && TextOf(dst, ModifiedDateTime) == dst.modified;
    assert TextOf(dst, ReactionPath) == dst.reactionPath && TextOf(dst, AlertMessage) == dst.alertMessage;
  }

  /** The first four text columns of row_copy. */
  ghost function CopyFour(r: Row, src: Row): Row
    requires SameCapacities(r, src)
  {
    Bounds(r, src);
    r.(name := CopyText(r.name, src.name), description := CopyText(r.description, src.description),
       created := CopyText(r.created, src.created), modified := CopyText(r.modified, src.modified))
  }

  /** The last three. */
  ghost function CopyThree(r: Row, src: Row): Row
    requires SameCapacities(r, src)
  {
    Bounds(r, src);
    r.(owner := CopyText(r.owner, src.owner), reactionPath := CopyText(r.reactionPath, src.reactionPath),
       alertMessage := CopyText(r.alertMessage, src.alertMessage))
  }

  /** The numbers, then the seven text columns, are the row copy. */
  lemma CopiedRow(before: Row, src: Row, numbers: Row)
    requires ValidRow(before) && ValidRow(src)
    requires numbers == before.(oids := src.oids, index := src.index, checkInterval := src.checkInterval,
                                fileSize := src.fileSize, reaction := src.reaction, status := src.status)
    ensures SameCapacities(before, src) && SameCapacities(numbers, src) && SameCapacities(CopyFour(numbers, src), src)
    ensures CopyThree(CopyFour(numbers, src), src) == RowCopy(before, src)
    ensures ValidRow(RowCopy(before, src))
  {
    forall c: TextColumn
      ensures ValidText(TextOf(before, c), Capacity(c)) && ValidText(TextOf(src, c), Capacity(c))
      ensures ValidText(TextOf(numbers, c), Capacity(c))
    {
      assert TextOf(numbers, c) == TextOf(before, c);
    }
    Bounds(before, src);
    forall c: TextColumn
      ensures ValidText(TextOf(CopyFour(numbers, src), c), Capacity(c))
    {
    }
  }

  class RowContext {
    var oids: seq<nat>
    var index: int
    const name: array<byte>
    var nameLen: nat
    var checkInterval: int
    const description: array<byte>
    var descriptionLen: nat
    const created: array<byte>
    var createdLen: nat
    const modified: array<byte>
    var modifiedLen: nat
    var fileSize: int
    const owner: array<byte>
    var ownerLen: nat
    var reaction: int
    const reactionPath: array<byte>
    var reactionPathLen: nat
    const alertMessage: array<byte>
    var alertMessageLen: nat
    var status: int
    var idx: nat
    var threadActive: int

    ghost function Buffers(): set<object>
    {
      {name, description, created, modified, owner, reactionPath, alertMessage}
    }

    ghost predicate Separate()
    {
      && name.Length == description.Length == owner.Length == reactionPath.Length == alertMessage.Length == 255
      && created.Length == modified.Length == 20
      && created != modified
      && name != description && name != owner && name != reactionPath && name != alertMessage
      && description != owner && description != reactionPath && description != alertMessage
      && owner != reactionPath && owner != alertMessage && reactionPath != alertMessage
    }

    ghost function Value(): Row
      reads this, Buffers()
    {
      Row(oids, index, Text(name[..], nameLen), checkInterval, Text(description[..], descriptionLen),
          Text(created[..], createdLen), Text(modified[..], modifiedLen), fileSize, Text(owner[..], ownerLen),
          reaction, Text(reactionPath[..], reactionPathLen), Text(alertMessage[..], alertMessageLen),
          status, idx, threadActive)
    }

    ghost predicate Valid()
      reads this, Buffers()
    {
      Separate() && ValidRow(Value())
    }

    /** create_row: a zeroed allocation, the index, and the default interval. */
    constructor (key: nat)
      ensures Valid() && fresh(Buffers())
      ensures Value() == CreateRow(key)
    {
      oids, index, nameLen, checkInterval, descriptionLen, createdLen, modifiedLen := [key], key, 0, 30, 0, 0, 0;
      fileSize, ownerLen, reaction, reactionPathLen := 0, 0, 0, 0;
      alertMessageLen, status, idx, threadActive := 0, 0, 0, 0;
      name := new byte[255](_ => 0);
      description := new byte[255](_ => 0);
      created := new byte[20](_ => 0);
      modified := new byte[20](_ => 0);
      owner := new byte[255](_ => 0);
      reactionPath := new byte[255](_ => 0);
      alertMessage := new byte[255](_ => 0);
      new;
      assert name[..] == Zeros(255) && description[..] == Zeros(255) && owner[..] == Zeros(255);
      assert reactionPath[..] == Zeros(255) && alertMessage[..] == Zeros(255);
      assert created[..] == Zeros(20) && modified[..] == Zeros(20);
      assert Value() == CreateRow(key);
    }

    /** duplicate_row: the copy kept as undo information. */
    method Duplicated() returns (u: Row)
      requires Valid()
      ensures ValidRow(Value()) && u == FileMonRow.Duplicate(Value()) && ValidRow(u)
    {
      var r := Row(oids, index, Text(name[..], nameLen), checkInterval, Text(description[..], descriptionLen),
                   Text(created[..], createdLen), Text(modified[..], modifiedLen), fileSize, Text(owner[..], ownerLen),
                   reaction, Text(reactionPath[..], reactionPathLen), Text(alertMessage[..], alertMessageLen),
                   status, idx, threadActive);
      u := FileMonRow.Duplicate(r);
    }

    /** One text branch of the column switch: memcpy, stored length, terminating NUL. */
    method StoreColumn(c: TextColumn, val: seq<byte>)
      requires Valid() && |val| < Capacity(c)
      modifies this, Buffers()
      ensures Valid()
      ensures ValidText(old(TextOf(Value(), c)), Capacity(c)) &&
              Value() == WithText(old(Value()), c, StoreText(old(TextOf(Value(), c)), val))
    {
      assert ValidText(TextOf(Value(), c), Capacity(c));
      ghost var before := Value();
      match c {
        case Name => Memcpy(name, val + [0]); nameLen := |val|;
        case Description => Memcpy(description, val + [0]); descriptionLen := |val|;
        case CreatedDateTime => Memcpy(created, val + [0]); createdLen := |val|;
        case ModifiedDateTime => Memcpy(modified, val + [0]); modifiedLen := |val|;
        case Owner => Memcpy(owner, val + [0]); ownerLen := |val|;
        case ReactionPath => Memcpy(reactionPath, val + [0]); reactionPathLen := |val|;
        case AlertMessage => Memcpy(alertMessage, val + [0]); alertMessageLen := |val|;
      }
      assert Value() == WithText(before, c, StoreText(TextOf(before, c), val));
      assert forall d: TextColumn :: d != c ==> ValidText(TextOf(before, d), Capacity(d));
    }

    /** The column switch. */
    method WriteColumn(w: Write)
      requires Valid() && Fits(w)
      modifies this, Buffers()
      ensures Valid()
      ensures ValidRow(old(Value())) && Value() == ApplyWrite(old(Value()), w)
    {
      match w {
        case WriteText(c, val) => StoreColumn(c, val);
        case WriteNumber(Index, v) => index := v;
        case WriteNumber(CheckInterval, v) => checkInterval := v;
        case WriteNumber(FileSize, v) => fileSize := v;
        case WriteNumber(Reaction, v) => reaction := v;
        case WriteNumber(Status, v) => status := v;
      }
    }

    /** set_action: the loop over the request, then the row-status check. */
    method SetAction(request: seq<Write>)
      requires Valid() && AllFit(request)
      modifies this, Buffers()
      ensures Valid()
      ensures ValidRow(old(Value())) && Value() == Action(old(Value()), request)
    {
      ghost var before := Value();
      var i := 0;
      while i < |request|
        invariant 0 <= i <= |request|
        invariant Valid()
        invariant Value() == ApplyWrites(before, request[..i])
      {
        assert request[..i + 1][..i] == request[..i];
        assert request[i] in request;
        WriteColumn(request[i]);
        i := i + 1;
      }
      assert request[..i] == request;
      status := Settle(status);
      assert Value() == Action(before, request);
    }

    /** One text column of row_copy: memcpy of the stored length, then the length. */
    method CopyColumn(c: TextColumn, from: Text)
      requires Separate() && from.len <= |from.bytes| == Capacity(c)
      modifies this, Buffers()
      ensures |old(TextOf(Value(), c)).bytes| == Capacity(c) &&
              Value() == WithText(old(Value()), c, CopyText(old(TextOf(Value(), c)), from))
    {
      match c {
        case Name => Memcpy(name, from.bytes[..from.len]); nameLen := from.len;
        case Description => Memcpy(description, from.bytes[..from.len]); descriptionLen := from.len;
        case CreatedDateTime => Memcpy(created, from.bytes[..from.len]); createdLen := from.len;
        case ModifiedDateTime => Memcpy(modified, from.bytes[..from.len]); modifiedLen := from.len;
        case Owner => Memcpy(owner, from.bytes[..from.len]); ownerLen := from.len;
        case ReactionPath => Memcpy(reactionPath, from.bytes[..from.len]); reactionPathLen := from.len;
        case AlertMessage => Memcpy(alertMessage, from.bytes[..from.len]); alertMessageLen := from.len;
      }
    }

    method CopyFirstColumns(src: Row)
      requires Separate() && SameCapacities(Value(), src)
      modifies this, Buffers()
      ensures SameCapacities(old(Value()), src) && Value() == CopyFour(old(Value()), src)
    {
      Bounds(Value(), src);
      CopyColumn(Name, src.name);
      CopyColumn(Description, src.description);
      CopyColumn(CreatedDateTime, src.created);
      CopyColumn(ModifiedDateTime, src.modified);
    }

    method CopyLastColumns(src: Row)
      requires Separate() && SameCapacities(Value(), src)
      modifies this, Buffers()
      ensures SameCapacities(old(Value()), src) && Value() == CopyThree(old(Value()), src)
    {
      Bounds(Value(), src);
      CopyColumn(Owner, src.owner);
      CopyColumn(ReactionPath, src.reactionPath);
      CopyColumn(AlertMessage, src.alertMessage);
    }

    /** row_copy back from the undo information, which nothing writes while it exists. */
    method CopyFrom(src: Row)
      requires Valid() && ValidRow(src)
      modifies this, Buffers()
      ensures Valid()
      ensures SameCapacities(old(Value()), src) && Value() == RowCopy(old(Value()), src)
    {
      ghost var before := Value();
      oids, index, checkInterval := src.oids, src.index, src.checkInterval;
      fileSize, reaction, status := src.fileSize, src.reaction, src.status;
      ghost var numbers := Value();
      CopiedRow(before, src, numbers);
      CopyFirstColumns(src);
      CopyLastColumns(src);
    }
  }

  /** duplicate, ACTION, then row_copy back: the path of a refused SET, on the real buffers. */
  method RefusedSet(row: RowContext, request: seq<Write>)
    requires row.Valid() && AllFit(request)
    modifies row, row.Buffers()
    ensures row.Valid()
    ensures ValidRow(old(row.Value())) && row.Value() == Undone(old(row.Value()), request)
    ensures SameAnswers(row.Value(), old(row.Value()))
  {
    ghost var before := row.Value();
    var undo := row.Duplicated();
    row.SetAction(request);
    row.CopyFrom(undo);
    UndoRestoresAnswers(before, request);
  }
}
