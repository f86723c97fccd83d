/** Strings in arrays of chars, ended early by a NUL. */
module CStrings {
  const NUL: char := 0 as char

  /** The characters of a C string up to its NUL. */
  function CString(a: seq<char>): (s: string)
    ensures s <= a && NUL !in s
    ensures |s| < |a| ==> a[|s|] == NUL
  {
    if a == [] || a[0] == NUL then "" else [a[0]] + CString(a[1..])
  }

  lemma {:induction false} CStringUnique(a: seq<char>, n: nat)
    requires n < |a| && NUL !in a[..n] && a[n] == NUL
    ensures CString(a) == a[..n]
  {
    if n > 0 {
      assert a[0] == a[..n][0] && a[0] in a[..n];
      assert a[1..][..n - 1] == a[..n][1..];
      CStringUnique(a[1..], n - 1);
      assert a[..n] == [a[0]] + a[1..][..n - 1];
    } else {
      assert a[..n] == [];
    }
  }

  lemma {:induction false} NoNul(s: string)
    requires NUL !in s
    ensures CString(s) == s
  {
    if s != "" {
      NoNul(s[1..]);
      assert s == [s[0]] + s[1..];
    }
  }

  /** The C string of n + 1 chars is that of the first n, or one char longer. */
  lemma {:induction false} FirstNul(src: seq<char>, n: nat)
    requires |src| == n + 1
    ensures CString(src[..n]) <= CString(src)
    ensures |CString(src[..n])| < n ==> CString(src) == CString(src[..n])
  {
    if n > 0 && src[0] != NUL {
      assert src[..n][1..] == src[1..][..n - 1];
      FirstNul(src[1..], n - 1);
    }
  }
}
