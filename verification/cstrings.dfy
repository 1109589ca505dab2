/**
 C strings over `seq<char>`. A C function handed a buffer reads it only up to
 the first NUL character; these definitions say what such a function sees.
 */
module CStrings {

  /** The character that ends a C string. */
  const NUL: char := '\0'

  predicate NulFree(s: seq<char>) {
    forall k :: 0 <= k < |s| ==> s[k] != NUL
  }

  /** strlen: the number of characters before the first NUL, or all of them when there is none. */
  function CLength(s: seq<char>): (n: nat)
    ensures n <= |s|
    ensures forall k :: 0 <= k < n ==> s[k] != NUL
    ensures n < |s| ==> s[n] == NUL
  {
    if |s| == 0 || s[0] == NUL then 0 else 1 + CLength(s[1..])
  }

  /** The text a C function sees when handed `s`: the longest NUL-free prefix. */
  function CString(s: seq<char>): (c: seq<char>)
    ensures NulFree(c)
    ensures c <= s
    ensures NulFree(s) ==> c == s
    ensures |c| < |s| ==> s[|c|] == NUL
  {
    s[..CLength(s)]
  }

  /** `strcmp(a, b) == 0`: the two C strings agree up to their terminating NULs. */
  function StrEq(a: seq<char>, b: seq<char>): (eq: bool)
    ensures NulFree(a) && NulFree(b) ==> (eq <==> a == b)
  {
    CString(a) == CString(b)
  }
}
