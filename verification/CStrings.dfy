// NUL-terminated character strings.
module CStrings {

  const NUL: char := '\0'

  function StrLen(c: string): nat {
    if c == [] || c[0] == NUL then 0 else 1 + StrLen(c[1..])
  }

  lemma {:induction false} StrLenMeans(c: string)
    ensures StrLen(c) <= |c|
    ensures forall i :: 0 <= i < StrLen(c) ==> c[i] != NUL
    ensures StrLen(c) < |c| ==> c[StrLen(c)] == NUL
  {
    if c != [] && c[0] != NUL {
      StrLenMeans(c[1..]);
      forall i | 0 <= i < StrLen(c) ensures c[i] != NUL {
        if i > 0 { assert c[i] == c[1..][i - 1]; }
      }
    }
  }

  lemma {:induction false} StrLenIs(c: string, n: nat)
    requires n < |c| && c[n] == NUL && forall i :: 0 <= i < n ==> c[i] != NUL
    ensures StrLen(c) == n
  {
    if n > 0 {
      StrLenIs(c[1..], n - 1);
    }
  }
}
