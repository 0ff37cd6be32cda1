/** Generic facts about strings used by the certificate formatter model:
    an Option type, runs of hyphens and the subsequence relation that
    describes "obtained from the input by deleting characters". */
module Strings {

  datatype Option<T> = None | Some(value: T)

  /** The string of `n` hyphen-minus characters. */
  function Hyphens(n: nat): string
  {
    seq(n, _ => '-')
  }

  predicate NoHyphen(s: string)
  {
    forall i :: 0 <= i < |s| ==> s[i] != '-'
  }

  /** `t` can be obtained from `s` by deleting zero or more characters. */
  predicate IsSubsequence(t: string, s: string)
    decreases |s|
  {
    if t == [] then true
    else if s == [] then false
    else (t[0] == s[0] && IsSubsequence(t[1..], s[1..])) || IsSubsequence(t, s[1..])
  }

  lemma {:induction false} SubsequenceLength(t: string, s: string)
    requires IsSubsequence(t, s)
    ensures |t| <= |s|
    decreases |s|
  {
    if t != [] {
      if t[0] == s[0] && IsSubsequence(t[1..], s[1..]) {
        SubsequenceLength(t[1..], s[1..]);
      } else {
        SubsequenceLength(t, s[1..]);
      }
    }
  }

  lemma {:induction false} SubsequenceTransitive(a: string, b: string, c: string)
    requires IsSubsequence(a, b) && IsSubsequence(b, c)
    ensures IsSubsequence(a, c)
    decreases |c|
  {
    if a != [] {
      assert b != [] && c != [];
      if IsSubsequence(b, c[1..]) {
        SubsequenceTransitive(a, b, c[1..]);
      } else {
        assert b[0] == c[0] && IsSubsequence(b[1..], c[1..]);
        if a[0] == b[0] && IsSubsequence(a[1..], b[1..]) {
          SubsequenceTransitive(a[1..], b[1..], c[1..]);
        } else {
          SubsequenceTransitive(a, b[1..], c[1..]);
        }
      }
    }
  }

  /** Deleting a whole prefix of `s` keeps a subsequence a subsequence. */
  lemma {:induction false} SubsequenceOfSuffix(t: string, s: string, n: nat)
    requires n <= |s| && IsSubsequence(t, s[n..])
    ensures IsSubsequence(t, s)
    decreases n
  {
    if n > 0 {
      assert s[1..][n - 1..] == s[n..];
      SubsequenceOfSuffix(t, s[1..], n - 1);
    }
  }

  /** Splitting the first character off a concatenation. */
  lemma AppendCons(a: string, x: string)
    requires a != []
    ensures (a + x)[0] == a[0] && (a + x)[1..] == a[1..] + x
    ensures [a[0]] + (a[1..] + x) == a + x
  {
    assert a == [a[0]] + a[1..];
  }

  lemma HyphensCons(j: nat, x: string)
    requires 1 <= j
    ensures ['-'] + (Hyphens(j - 1) + x) == Hyphens(j) + x
    ensures (Hyphens(j) + x)[0] == '-' && (Hyphens(j) + x)[1..] == Hyphens(j - 1) + x
  {
    assert Hyphens(j) == ['-'] + Hyphens(j - 1);
  }

  lemma HyphensThen(j: nat, x: string)
    ensures forall i :: 0 <= i < j ==> (Hyphens(j) + x)[i] == '-'
    ensures (Hyphens(j) + x)[j..] == x
  {
  }

  lemma AppendParts(x: string, y: string)
    ensures (x + y)[..|x|] == x && (x + y)[|x|..] == y
  {
  }

  lemma Reassociate(p: string, q: string, r: string, u: string)
    ensures p + q + r + u == p + (q + (r + u))
    ensures (p + q + r + u)[|p| + |q| + |r|..] == u
  {
  }

  lemma HyphensAppend(j: nat, k: nat, x: string)
    ensures Hyphens(j) + [] + Hyphens(k) + x == Hyphens(j + k) + x
  {
  }
}
