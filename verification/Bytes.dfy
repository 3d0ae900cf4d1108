// Bytes and NUL-terminated strings.
module Bytes {

  newtype byte = x: int | 0 <= x < 256

  type Data = seq<byte>

  function Min(a: int, b: int): int { if a <= b then a else b }

  function Zeros(n: nat): Data { seq(n, i => 0) }

  ghost predicate NulFree(s: Data) { forall i :: 0 <= i < |s| ==> s[i] != 0 }

  // strlen on a buffer: the position of the first NUL, or the buffer's size.
  function StrLen(s: Data): (n: nat)
    ensures n <= |s| && NulFree(s[..n])
    ensures n < |s| ==> s[n] == 0
  {
    if s == [] || s[0] == 0 then 0
    else
      var n := 1 + StrLen(s[1..]);
      assert s[..n] == [s[0]] + s[1..][..n - 1];
      n
  }

  function CStr(s: Data): Data { s[..StrLen(s)] }

  // The first NUL is where nothing before is NUL.
  lemma {:induction false} StrLenIs(s: Data, n: nat)
    requires n <= |s| && NulFree(s[..n]) && (n < |s| ==> s[n] == 0)
    ensures StrLen(s) == n
  {
    if n > 0 {
      assert s[0] == s[..n][0];
      assert s[1..][..n - 1] == s[..n][1..];
      StrLenIs(s[1..], n - 1);
    }
  }

  lemma {:induction false} StrLenAtMost(s: Data, k: nat)
    requires k < |s| && s[k] == 0
    ensures StrLen(s) <= k
  {
    if k > 0 && s[0] != 0 {
      StrLenAtMost(s[1..], k - 1);
    }
  }
}
