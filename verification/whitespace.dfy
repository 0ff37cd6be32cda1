/** Whitespace removal as saml/cert_formatter.py writes it:
    `''.join(cert_content.split())`. `Split` models Python's `str.split()`
    with no separator and `Join` models `''.join`; `RemoveWhitespace` is the
    reference "delete every whitespace character" that the pair is proved to
    equal. */
module Whitespace {
  import opened Strings

  /** The characters for which Python's `str.isspace()` holds; `str.split()`
      without a separator splits on exactly these. */
  predicate IsWhitespace(c: char)
  {
    ('\t' <= c <= '\r')
    || ('\U{1C}' <= c <= '\U{1F}')
    || c == ' '
    || c == '\U{85}'
    || c == '\U{A0}'
    || c == '\U{1680}'
    || ('\U{2000}' <= c <= '\U{200A}')
    || c == '\U{2028}'
    || c == '\U{2029}'
    || c == '\U{202F}'
    || c == '\U{205F}'
    || c == '\U{3000}'
  }

  predicate NoWhitespace(s: string)
  {
    forall i :: 0 <= i < |s| ==> !IsWhitespace(s[i])
  }

  predicate AllWhitespace(s: string)
  {
    forall i :: 0 <= i < |s| ==> IsWhitespace(s[i])
  }

  /** Reference: `s` with every whitespace character deleted, the rest kept in order. */
  function RemoveWhitespace(s: string): (r: string)
    ensures NoWhitespace(r)
    decreases |s|
  {
    if s == [] then []
    else if IsWhitespace(s[0]) then RemoveWhitespace(s[1..])
    else [s[0]] + RemoveWhitespace(s[1..])
  }

  lemma {:induction false} RemoveWhitespaceIsSubsequence(s: string)
    ensures IsSubsequence(RemoveWhitespace(s), s)
    decreases |s|
  {
    if s != [] {
      RemoveWhitespaceIsSubsequence(s[1..]);
    }
  }

  /** Exactly the whitespace characters are deleted. */
  lemma {:induction false} RemoveWhitespaceMembers(s: string)
    ensures forall c :: c in RemoveWhitespace(s) <==> c in s && !IsWhitespace(c)
    decreases |s|
  {
    if s != [] {
      RemoveWhitespaceMembers(s[1..]);
      assert s == [s[0]] + s[1..];
    }
  }

  /** Deleting whitespace works piece by piece: together with the one-character
      cases of the definition this determines `RemoveWhitespace` completely. */
  lemma {:induction false} RemoveWhitespaceAppend(a: string, b: string)
    ensures RemoveWhitespace(a + b) == RemoveWhitespace(a) + RemoveWhitespace(b)
    decreases |a|
  {
    if a != [] {
      assert (a + b)[0] == a[0] && (a + b)[1..] == a[1..] + b;
      RemoveWhitespaceAppend(a[1..], b);
    } else {
      assert a + b == b;
    }
  }

  /** A string without whitespace is left alone; one made only of whitespace vanishes. */
  lemma {:induction false} RemoveWhitespaceIdentity(s: string)
    ensures NoWhitespace(s) ==> RemoveWhitespace(s) == s
    ensures AllWhitespace(s) ==> RemoveWhitespace(s) == []
    decreases |s|
  {
    if s != [] {
      RemoveWhitespaceIdentity(s[1..]);
    }
  }

  /** Number of whitespace characters at the start of `s`. */
  function LeadingWhitespace(s: string): (n: nat)
    ensures n <= |s| && AllWhitespace(s[..n])
    ensures n < |s| ==> !IsWhitespace(s[n])
    decreases |s|
  {
    if s != [] && IsWhitespace(s[0]) then 1 + LeadingWhitespace(s[1..]) else 0
  }

  /** Number of non-whitespace characters at the start of `s`. */
  function WordLength(s: string): (n: nat)
    ensures n <= |s| && NoWhitespace(s[..n])
    ensures n < |s| ==> IsWhitespace(s[n])
    decreases |s|
  {
    if s != [] && !IsWhitespace(s[0]) then 1 + WordLength(s[1..]) else 0
  }

  /** `''.join(words)`. */
  function Join(words: seq<string>): string
  {
    if words == [] then [] else words[0] + Join(words[1..])
  }

  /** Deleting whitespace from `s` yields its first word followed by what
      deleting whitespace from the text after that word yields. */
  lemma RemoveWhitespaceFirstWord(s: string, lead: nat, len: nat)
    requires lead + len <= |s|
    requires AllWhitespace(s[..lead]) && NoWhitespace(s[lead..lead + len])
    ensures RemoveWhitespace(s) == s[lead..lead + len] + RemoveWhitespace(s[lead + len..])
  {
    var blank, word, tail := s[..lead], s[lead..lead + len], s[lead + len..];
    assert s == (blank + word) + tail;
    RemoveWhitespaceAppend(blank + word, tail);
    RemoveWhitespaceAppend(blank, word);
    RemoveWhitespaceIdentity(blank);
    RemoveWhitespaceIdentity(word);
    assert RemoveWhitespace(blank + word) == word;
  }

  /** Python's `s.split()` with no separator. Each step skips the leading
      whitespace run (`LeadingWhitespace`) and takes the non-whitespace run
      after it (`WordLength`) as the next word. The contract states what
      `''.join` of the words can observe: no word is empty or holds
      whitespace, and joining them deletes exactly the whitespace. */
  function Split(s: string): (words: seq<string>)
    ensures forall k :: 0 <= k < |words| ==> words[k] != [] && NoWhitespace(words[k])
    ensures Join(words) == RemoveWhitespace(s)
    decreases |s|
  {
    var lead := LeadingWhitespace(s);
    if lead == |s| then
      assert RemoveWhitespace(s) == [] by {
        assert s[..lead] == s;
        RemoveWhitespaceIdentity(s);
      }
      []
    else
      var len := WordLength(s[lead..]);
      assert s[lead..][..len] == s[lead..lead + len];
      var rest := Split(s[lead + len..]);
      assert RemoveWhitespace(s) == s[lead..lead + len] + Join(rest) by {
        RemoveWhitespaceFirstWord(s, lead, len);
      }
      [s[lead..lead + len]] + rest
  }
}
