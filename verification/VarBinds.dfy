/** The variables of a trap, and the merge that completes a request's variables with the stored ones. */
module VarBinds {
  import opened Octets

  /** One `stVarBindArgs`: the OID's text, the type letter, and the octets written to the zeroed value buffer. */
  datatype VarBind = VarBind(oid: string, kind: char, value: seq<byte>)

  predicate Names(list: seq<VarBind>, oid: string)
  {
    exists i :: 0 <= i < |list| && list[i].oid == oid
  }

  ghost predicate Distinct(list: seq<VarBind>)
  {
    forall i, j :: 0 <= i < j < |list| ==> list[i].oid != list[j].oid
  }

  /** The copy made by the merge: the value ends at its first NUL. */
  function Cut(v: VarBind): VarBind
  {
    v.(value := CString(v.value))
  }

  /** Stored variables the request does not name, in their order. */
  function Missing(request: seq<VarBind>, stored: seq<VarBind>): (r: seq<VarBind>)
    ensures |r| <= |stored|
  {
    if stored == [] then [] else
      var last := stored[|stored| - 1];
      Missing(request, stored[..|stored| - 1]) + (if Names(request, last.oid) then [] else [Cut(last)])
  }

  function Merged(request: seq<VarBind>, stored: seq<VarBind>): seq<VarBind>
  {
    request + Missing(request, stored)
  }

  lemma MissingBefore(request: seq<VarBind>, init: seq<VarBind>, last: VarBind)
    ensures Missing(request, init + [last]) ==
            Missing(request, init) + (if Names(request, last.oid) then [] else [Cut(last)])
  {
    assert (init + [last])[..|init|] == init;
  }

  /** Each added variable copies a stored one that the request does not name. */
  lemma {:induction false} MissingComesFrom(request: seq<VarBind>, stored: seq<VarBind>, k: nat) returns (i: nat)
    requires k < |Missing(request, stored)|
    ensures i < |stored| && !Names(request, stored[i].oid) && Missing(request, stored)[k] == Cut(stored[i])
  {
    var n := |stored| - 1;
    if k < |Missing(request, stored[..n])| {
      i := MissingComesFrom(request, stored[..n], k);
    } else {
      i := n;
    }
  }

  /** Every stored variable the request does not name is added. */
  lemma {:induction false} MissingHolds(request: seq<VarBind>, stored: seq<VarBind>, i: nat) returns (k: nat)
    requires i < |stored| && !Names(request, stored[i].oid)
    ensures k < |Missing(request, stored)| && Missing(request, stored)[k] == Cut(stored[i])
  {
    var n := |stored| - 1;
    if i < n {
      k := MissingHolds(request, stored[..n], i);
    } else {
      k := |Missing(request, stored[..n])|;
    }
  }

  /** The merged list names what the request or the stored list names. */
  lemma MergedNames(request: seq<VarBind>, stored: seq<VarBind>, oid: string)
    ensures Names(Merged(request, stored), oid) <==> Names(request, oid) || Names(stored, oid)
  {
    var merged := Merged(request, stored);
    if Names(merged, oid) {
      var i :| 0 <= i < |merged| && merged[i].oid == oid;
      if i >= |request| {
        var j := MissingComesFrom(request, stored, i - |request|);
        assert stored[j].oid == oid;
      }
    }
    if Names(request, oid) {
      var i :| 0 <= i < |request| && request[i].oid == oid;
      assert merged[i].oid == oid;
    } else if Names(stored, oid) {
      var i :| 0 <= i < |stored| && stored[i].oid == oid;
      var k := MissingHolds(request, stored, i);
      assert merged[|request| + k].oid == oid;
    }
  }

  lemma {:induction false} MissingDistinct(request: seq<VarBind>, stored: seq<VarBind>)
    requires Distinct(stored)
    ensures Distinct(Missing(request, stored))
  {
    if stored != [] {
      var n := |stored| - 1;
      var before := Missing(request, stored[..n]);
      MissingDistinct(request, stored[..n]);
      forall k | 0 <= k < |before|
        ensures before[k].oid != stored[n].oid
      {
        var i := MissingComesFrom(request, stored[..n], k);
      }
    }
  }

  /** No OID is repeated. */
  lemma MergedDistinct(request: seq<VarBind>, stored: seq<VarBind>)
    requires Distinct(request) && Distinct(stored)
    ensures Distinct(Merged(request, stored))
  {
    var more := Missing(request, stored);
    MissingDistinct(request, stored);
    forall i, k | 0 <= i < |request| && 0 <= k < |more|
      ensures request[i].oid != more[k].oid
    {
      var j := MissingComesFrom(request, stored, k);
    }
  }

  /** A stored variable as a trap carries it: the same OID and type letter, and the value up to its first NUL. */
  predicate CopyOf(v: VarBind, stored: VarBind)
  {
    v.oid == stored.oid && v.kind == stored.kind && v.value == CString(stored.value)
  }

  /** The request's own variables come first, unchanged. Behind them stands a copy of each stored variable the request
      does not name, and nothing else. */
  lemma MergedCarries(request: seq<VarBind>, stored: seq<VarBind>)
    ensures request <= Merged(request, stored)
    ensures forall i :: 0 <= i < |stored| && !Names(request, stored[i].oid) ==>
              exists k :: |request| <= k < |Merged(request, stored)| && CopyOf(Merged(request, stored)[k], stored[i])
    ensures forall k :: |request| <= k < |Merged(request, stored)| ==>
              exists i :: 0 <= i < |stored| && !Names(request, stored[i].oid)
                          && CopyOf(Merged(request, stored)[k], stored[i])
  {
    var list := Merged(request, stored);
    forall i | 0 <= i < |stored| && !Names(request, stored[i].oid)
      ensures exists k :: |request| <= k < |list| && CopyOf(list[k], stored[i])
    {
      var k := MissingHolds(request, stored, i);
      assert CopyOf(list[|request| + k], stored[i]);
    }
    forall k | |request| <= k < |list|
      ensures exists i :: 0 <= i < |stored| && !Names(request, stored[i].oid) && CopyOf(list[k], stored[i])
    {
      var i := MissingComesFrom(request, stored, k - |request|);
      assert CopyOf(list[k], stored[i]);
    }
  }

  /** The inner loop: the first of the arguments with this OID, or their count. */
  method Position(stargs: array<VarBind>, count: nat, oid: string) returns (subcnt: nat)
    requires count <= stargs.Length
    ensures subcnt <= count && (subcnt == count <==> !Names(stargs[..count], oid))
    ensures subcnt < count ==> stargs[subcnt].oid == oid
  {
    subcnt := 0;
    while subcnt < count && oid != stargs[subcnt].oid
      invariant 0 <= subcnt <= count
      invariant forall i :: 0 <= i < subcnt ==> stargs[..count][i].oid != oid
    {
      subcnt := subcnt + 1;
    }
    if subcnt < count {
      assert stargs[..count][subcnt].oid == oid;
    }
  }

  /** One more argument: the stored OID and type, and the value up to its first NUL. */
  method Append(stargs: array<VarBind>, srecCount: nat, v: VarBind)
    requires srecCount < stargs.Length
    modifies stargs
    ensures stargs[..srecCount + 1] == old(stargs[..srecCount]) + [Cut(v)]
  {
    stargs[srecCount] := VarBind(v.oid, v.kind, CString(v.value));
  }

  /** The nested loops of the commit handlers: the stored variables are compared with the first `count` arguments and
      the missing ones are appended behind them. */
  method Merge(stored: array<VarBind>, strapCount: nat, stargs: array<VarBind>, count: nat) returns (srecCount: nat)
    requires stored != stargs && strapCount <= stored.Length && count <= stargs.Length
    requires count + |Missing(stargs[..count], stored[..strapCount])| <= stargs.Length
    modifies stargs
    ensures srecCount <= stargs.Length
    ensures stargs[..srecCount] == Merged(old(stargs[..count]), old(stored[..strapCount]))
  {
    ghost var request, others := stargs[..count], stored[..strapCount];
    srecCount := count;
    var icnt := 0;
    while icnt < strapCount
      invariant 0 <= icnt <= strapCount && stored[..strapCount] == others
      invariant count <= srecCount <= stargs.Length && stargs[..srecCount] == Merged(request, others[..icnt])
    {
      MergedGrows(request, others, icnt);
      var v := stored[icnt];
      assert stargs[..count] == stargs[..srecCount][..count];
      var subcnt := Position(stargs, count, v.oid);
      if subcnt == count {
        Append(stargs, srecCount, v);
        srecCount := srecCount + 1;
      }
      icnt := icnt + 1;
    }
    assert others[..icnt] == others;
  }

  lemma MergedGrows(request: seq<VarBind>, stored: seq<VarBind>, n: nat)
    requires n < |stored|
    ensures Merged(request, stored[..n])[..|request|] == request
    ensures Merged(request, stored[..n + 1]) ==
            Merged(request, stored[..n]) + (if Names(request, stored[n].oid) then [] else [Cut(stored[n])])
    ensures |Merged(request, stored[..n + 1])| <= |request| + |Missing(request, stored)|
  {
    MissingGrows(request, stored, n);
  }

  lemma {:induction false} MissingGrows(request: seq<VarBind>, stored: seq<VarBind>, n: nat)
    requires n < |stored|
    ensures Missing(request, stored[..n + 1]) ==
            Missing(request, stored[..n]) + (if Names(request, stored[n].oid) then [] else [Cut(stored[n])])
    ensures |Missing(request, stored[..n + 1])| <= |Missing(request, stored)|
    decreases |stored| - n
  {
    assert stored[..n + 1] == stored[..n] + [stored[n]];
    MissingBefore(request, stored[..n], stored[n]);
    if n + 1 < |stored| {
      MissingGrows(request, stored, n + 1);
    } else {
      assert stored[..n + 1] == stored;
    }
  }
}
