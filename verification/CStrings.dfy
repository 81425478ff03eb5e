/** NUL-terminated strings in char arrays. */
module CStrings {

  const NUL: char := '\0'

  /** The characters before the first NUL. */
  function CStr(s: string): (t: string)
    ensures t <= s && NUL !in t
    ensures |t| < |s| ==> s[|t|] == NUL
  {
    if |s| == 0 || s[0] == NUL then "" else
      var t := CStr(s[1..]);
      assert s == [s[0]] + s[1..];
      [s[0]] + t
  }

  lemma {:induction false} CStrIs(s: string, t: string)
    requires t <= s && NUL !in t && |t| < |s| && s[|t|] == NUL
    ensures CStr(s) == t
  {
    var u := CStr(s);
    assert forall i :: 0 <= i < |t| ==> t[i] == s[i] != NUL;
    assert forall i :: 0 <= i < |u| ==> u[i] == s[i] != NUL;
  }

  /** Of all its prefixes, the C string in s is the one without a zero byte and up to one. */
  lemma {:induction false} CStrExact(s: string, t: string)
    requires '\0' in s
    ensures CStr(s) == t <==> t <= s && '\0' !in t && |t| < |s| && s[|t|] == '\0'
  {
    if t <= s && '\0' !in t && |t| < |s| && s[|t|] == '\0' {
      CStrIs(s, t);
    }
  }

  method Strlen(s: array<char>) returns (n: nat)
    requires NUL in s[..]
    ensures n == |CStr(s[..])| < s.Length
    ensures s[n] == '\0' && '\0' !in s[..n] && CStr(s[..]) == s[..n]
  {
    ghost var end :| 0 <= end < s.Length && s[end] == NUL;
    n := 0;
    while s[n] != NUL
      invariant n <= end && NUL !in s[..n]
      decreases end - n
    {
      n := n + 1;
    }
    CStrIs(s[..], s[..n]);
  }

  /** memcpy of n bytes into an array. */
  method CopyInto(dst: array<char>, at: nat, src: string, n: nat)
    requires at + n <= dst.Length && n <= |src|
    modifies dst
    ensures dst[..at + n] == old(dst[..at]) + src[..n]
    ensures forall k :: at + n <= k < dst.Length ==> dst[k] == old(dst[k])
  {
    forall k | 0 <= k < n {
      dst[at + k] := src[k];
    }
  }
}
