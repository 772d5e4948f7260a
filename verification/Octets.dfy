/** Octet buffers as the C code sees them: fixed arrays, NUL-terminated strings inside them,
    and the bounded copies between them. */
module Octets {

  type byte = x: int | 0 <= x < 256

  /** The C string held at the start of a buffer: everything before the first NUL. */
  function CString(b: seq<byte>): (s: seq<byte>)
    ensures |s| <= |b| && s == b[..|s|]
    ensures 0 !in s
    ensures |s| < |b| ==> b[|s|] == 0
  {
    if b == [] || b[0] == 0 then [] else [b[0]] + CString(b[1..])
  }

  /** The first NUL decides the C string, whatever follows it. */
  lemma {:induction false} CStringUnique(b: seq<byte>, n: nat)
    requires n <= |b| && 0 !in b[..n] && (n < |b| ==> b[n] == 0)
    ensures CString(b) == b[..n]
  {
    if n > 0 {
      assert b[0] == b[..n][0];
      assert forall x :: x in b[1..][..n - 1] ==> x in b[..n];
      CStringUnique(b[1..], n - 1);
    }
  }

  /** `memcpy(dst, src, |src|)`: the head of the buffer is replaced, the tail stays. */
  function Overlay(dst: seq<byte>, src: seq<byte>): (r: seq<byte>)
    requires |src| <= |dst|
    ensures |r| == |dst|
    ensures forall k :: 0 <= k < |r| ==> r[k] == if k < |src| then src[k] else dst[k]
  {
    src + dst[|src|..]
  }

  function Zeros(n: nat): (r: seq<byte>)
    ensures |r| == n && forall k :: 0 <= k < n ==> r[k] == 0
  {
    seq(n, _ => 0)
  }

  /** `strcpy(dst, src)` for a source whose C string is shorter than the buffer. */
  function StrCpy(dst: seq<byte>, src: seq<byte>): (r: seq<byte>)
    requires |CString(src)| < |dst|
    ensures |r| == |dst|
    ensures CString(r) == CString(src)
  {
    var r := Overlay(dst, CString(src) + [0]);
    assert r[..|CString(src)|] == CString(src);
    CStringUnique(r, |CString(src)|);
    r
  }

  /** `strncpy(dst, src, n)` into a buffer of exactly n octets: pads with NULs, never adds one more. */
  function StrNCpy(src: seq<byte>, n: nat): (r: seq<byte>)
    ensures |r| == n
  {
    var s := CString(src);
    if |s| >= n then s[..n] else s + Zeros(n - |s|)
  }

  lemma StrNCpyKeepsString(src: seq<byte>)
    ensures CString(StrNCpy(src, |src|)) == CString(src)
  {
    var r := StrNCpy(src, |src|);
    assert r[..|CString(src)|] == CString(src);
    CStringUnique(r, |CString(src)|);
  }
}
