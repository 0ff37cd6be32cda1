/** The two marker substitutions of saml/cert_formatter.py,
    `re.sub(r'-+BEGIN CERTIFICATE-+', '', s)` and
    `re.sub(r'-+END CERTIFICATE-+', '', s)`.

    The pattern `-+LABEL-+` is modelled in three layers:
    - `IsMarker` says which strings the pattern matches as a whole;
    - `MatchAt` is the anchored match at the start of a string, the way the
      regular-expression engine tries it (greedy `-+` on both sides);
    - `Tokenize` is the left-to-right scan of `re.sub`: leftmost matches,
      never overlapping, every occurrence, each match as long as possible.
    `Substitute` keeps the text between the matches, which is what replacing
    every match by '' produces. */
module Markers {
  import opened Strings
  import opened Whitespace

  /** The literal text between the two hyphen runs of a pattern. The
      pattern is matched case-sensitively and the label itself never
      contains a hyphen, so a match's leading hyphen run ends exactly where
      the label begins. */
  predicate ValidLabel(name: string)
  {
    |name| > 0 && NoHyphen(name)
  }

  /** `t` is a whole match of `-+LABEL-+`: one or more hyphens, the name,
      one or more hyphens. */
  ghost predicate IsMarker(t: string, name: string)
  {
    exists j: nat, k: nat :: 1 <= j && 1 <= k && t == Hyphens(j) + name + Hyphens(k)
  }

  /** No match of the pattern starts at the beginning of `s`. */
  ghost predicate NoMarkerAt(s: string, name: string)
  {
    forall n :: 0 <= n <= |s| ==> !IsMarker(s[..n], name)
  }

  /** `s[..m]` is the longest match of the pattern at the beginning of `s`. */
  ghost predicate LongestMarkerAt(s: string, name: string, m: nat)
  {
    m <= |s| && IsMarker(s[..m], name) && forall n :: m < n <= |s| ==> !IsMarker(s[..n], name)
  }

  /** Number of hyphens at the start of `s`. */
  function HyphenRun(s: string): (n: nat)
    ensures n <= |s| && (forall i :: 0 <= i < n ==> s[i] == '-') && (n < |s| ==> s[n] != '-')
    decreases |s|
  {
    if s != [] && s[0] == '-' then 1 + HyphenRun(s[1..]) else 0
  }

  lemma HyphenRunExact(s: string, m: nat)
    requires m <= |s| && (forall i :: 0 <= i < m ==> s[i] == '-') && (m < |s| ==> s[m] != '-')
    ensures HyphenRun(s) == m
  {
  }

  lemma HyphenRunAtLeast(s: string, m: nat)
    requires m <= |s| && forall i :: 0 <= i < m ==> s[i] == '-'
    ensures HyphenRun(s) >= m
  {
  }

  /** `s` begins with `p`, compared character by character. */
  predicate HasPrefix(s: string, p: string)
    ensures HasPrefix(s, p) ==> |p| <= |s|
    decreases |p|
  {
    p == [] || (s != [] && s[0] == p[0] && HasPrefix(s[1..], p[1..]))
  }

  lemma {:induction false} HasPrefixIff(s: string, p: string)
    ensures HasPrefix(s, p) <==> |p| <= |s| && s[..|p|] == p
    decreases |p|
  {
    if p != [] && s != [] {
      HasPrefixIff(s[1..], p[1..]);
      if |p| <= |s| {
        assert s[..|p|] == [s[0]] + s[1..][..|p| - 1];
        assert p == [p[0]] + p[1..];
      }
    }
  }

  /** The anchored match `-+LABEL-+` at the start of `s`: the length of the
      match, or None. The leading run must be the whole run of hyphens at the
      start (the label begins with a letter), the trailing run is taken
      greedily. */
  function MatchAt(s: string, name: string): (r: Option<nat>)
    ensures r.Some? ==> 0 < r.value <= |s|
  {
    var lead := HyphenRun(s);
    if lead == 0 || !HasPrefix(s[lead..], name) then None
    else
      var trail := HyphenRun(s[lead + |name|..]);
      if trail == 0 then None else Some(lead + |name| + trail)
  }

  /** The three parts of a prefix `Hyphens(j) + name + Hyphens(k)` of `s`, read back. */
  lemma FramedParts(s: string, n: nat, j: nat, name: string, k: nat)
    requires n <= |s| && s[..n] == Hyphens(j) + name + Hyphens(k)
    ensures n == j + |name| + k
    ensures forall i :: 0 <= i < j ==> s[i] == '-'
    ensures forall i :: 0 <= i < |name| ==> s[j + i] == name[i]
    ensures forall i :: j + |name| <= i < n ==> s[i] == '-'
  {
    var t := s[..n];
    var front := Hyphens(j) + name;
    assert t == front + Hyphens(k);
    forall i | 0 <= i < j ensures s[i] == '-' {
      assert s[i] == t[i] == front[i];
    }
    forall i | 0 <= i < |name| ensures s[j + i] == name[i] {
      assert s[j + i] == t[j + i] == front[j + i];
    }
    forall i | |front| <= i < n ensures s[i] == '-' {
      assert s[i] == t[i] == Hyphens(k)[i - |front|];
    }
  }

  /** Any match at the start of `s` begins with the whole leading hyphen run,
      continues with the label and ends within the hyphen run after it. */
  lemma MarkerPrefixShape(s: string, name: string, n: nat, j: nat, k: nat)
    requires ValidLabel(name) && n <= |s| && 1 <= j && 1 <= k
    requires s[..n] == Hyphens(j) + name + Hyphens(k)
    ensures HyphenRun(s) == j && j + |name| < n && s[j..j + |name|] == name
    ensures n <= j + |name| + HyphenRun(s[j + |name|..])
  {
    FramedParts(s, n, j, name, k);
    assert s[j] == name[0];
    HyphenRunExact(s, j);
    assert s[j..j + |name|] == name;
    var after := s[j + |name|..];
    forall i | 0 <= i < k ensures after[i] == '-' {
      assert after[i] == s[j + |name| + i];
    }
    HyphenRunAtLeast(after, k);
  }

  /** Where `MatchAt` finds nothing, no prefix of `s` is a match. */
  lemma MatchAtNoneCorrect(s: string, name: string)
    requires ValidLabel(name) && MatchAt(s, name).None?
    ensures NoMarkerAt(s, name)
  {
    var lead := HyphenRun(s);
    HasPrefixIff(s[lead..], name);
    if lead + |name| <= |s| {
      assert s[lead..][..|name|] == s[lead..lead + |name|];
    }
    forall n | 0 <= n <= |s| ensures !IsMarker(s[..n], name) {
      if IsMarker(s[..n], name) {
        var j: nat, k: nat :| 1 <= j && 1 <= k && s[..n] == Hyphens(j) + name + Hyphens(k);
        MarkerPrefixShape(s, name, n, j, k);
      }
    }
  }

  /** Where `MatchAt` finds a match, it is the longest prefix of `s` that is one. */
  lemma MatchAtSomeCorrect(s: string, name: string, m: nat)
    requires ValidLabel(name) && MatchAt(s, name) == Some(m)
    ensures LongestMarkerAt(s, name, m)
  {
    var lead := HyphenRun(s);
    HasPrefixIff(s[lead..], name);
    assert s[lead..][..|name|] == s[lead..lead + |name|];
    var trail := HyphenRun(s[lead + |name|..]);
    assert s[..m] == Hyphens(lead) + name + Hyphens(trail);
    forall n | m < n <= |s| ensures !IsMarker(s[..n], name) {
      if IsMarker(s[..n], name) {
        var j: nat, k: nat :| 1 <= j && 1 <= k && s[..n] == Hyphens(j) + name + Hyphens(k);
        MarkerPrefixShape(s, name, n, j, k);
      }
    }
  }

  /** `MatchAt` finds a match exactly when the pattern matches at the start
      of `s`, and then the longest one. */
  lemma MatchAtCorrect(s: string, name: string)
    requires ValidLabel(name)
    ensures MatchAt(s, name).None? <==> NoMarkerAt(s, name)
    ensures MatchAt(s, name).Some? ==> LongestMarkerAt(s, name, MatchAt(s, name).value)
  {
    match MatchAt(s, name)
    case None =>
      MatchAtNoneCorrect(s, name);
    case Some(m) =>
      MatchAtSomeCorrect(s, name, m);
  }

  /** One step of the scan: a single kept character, or a removed match. */
  datatype Segment = Kept(c: char) | Removed(text: string)

  function SegmentText(seg: Segment): string
  {
    match seg
    case Kept(c) => [c]
    case Removed(t) => t
  }

  /** The text the segments were cut from. */
  function Flatten(segs: seq<Segment>): string
  {
    if segs == [] then [] else SegmentText(segs[0]) + Flatten(segs[1..])
  }

  /** The text that remains once every removed segment is replaced by ''. */
  function KeptText(segs: seq<Segment>): string
  {
    if segs == [] then []
    else (if segs[0].Kept? then [segs[0].c] else []) + KeptText(segs[1..])
  }

  lemma {:induction false} KeptTextIsSubsequence(segs: seq<Segment>)
    ensures IsSubsequence(KeptText(segs), Flatten(segs))
  {
    if segs != [] {
      var tail := Flatten(segs[1..]);
      KeptTextIsSubsequence(segs[1..]);
      var head := SegmentText(segs[0]);
      assert Flatten(segs)[|head|..] == tail;
      if segs[0].Kept? {
        assert Flatten(segs)[0] == segs[0].c && Flatten(segs)[1..] == tail;
      } else {
        assert KeptText(segs) == KeptText(segs[1..]);
        SubsequenceOfSuffix(KeptText(segs[1..]), Flatten(segs), |head|);
      }
    }
  }

  /** Every step of a scan is the one `re.sub` takes: a kept character is
      one at which no match starts, and a removed segment is the longest
      match starting there. */
  ghost predicate ScanSteps(segs: seq<Segment>, name: string)
  {
    (forall k :: 0 <= k < |segs| && segs[k].Kept? ==> NoMarkerAt(Flatten(segs[k..]), name))
    && (forall k :: 0 <= k < |segs| && segs[k].Removed? ==>
          LongestMarkerAt(Flatten(segs[k..]), name, |segs[k].text|))
  }

  lemma FlattenCons(seg: Segment, rest: seq<Segment>)
    ensures Flatten([seg] + rest) == SegmentText(seg) + Flatten(rest)
  {
    assert ([seg] + rest)[1..] == rest;
  }

  /** A correct first step in front of a correct scan is a correct scan. */
  lemma ScanStepsCons(seg: Segment, rest: seq<Segment>, name: string)
    requires ScanSteps(rest, name)
    requires seg.Kept? ==> NoMarkerAt(SegmentText(seg) + Flatten(rest), name)
    requires seg.Removed? ==> LongestMarkerAt(SegmentText(seg) + Flatten(rest), name, |seg.text|)
    ensures ScanSteps([seg] + rest, name)
  {
    var segs := [seg] + rest;
    assert segs[1..] == rest && segs[0..] == segs;
    forall k | 1 <= k <= |segs| ensures segs[k..] == rest[k - 1..] {
    }
  }

  /** The scan `re.sub` performs over `s`: from left to right, a match of
      the pattern at the current position is removed whole and the scan
      resumes after it; otherwise the character is kept and the scan moves
      on by one. The segments cover `s` exactly and, for a label the
      pattern can be built from, every step is the one the
      regular-expression engine takes. */
  function Tokenize(s: string, name: string): (segs: seq<Segment>)
    ensures Flatten(segs) == s
    ensures ValidLabel(name) ==> ScanSteps(segs, name)
    decreases |s|
  {
    if s == [] then []
    else
      match MatchAt(s, name)
      case Some(n) =>
        var rest := Tokenize(s[n..], name);
        var segs := [Removed(s[..n])] + rest;
        assert Flatten(segs) == s by {
          FlattenCons(Removed(s[..n]), rest);
          assert s[..n] + s[n..] == s;
        }
        assert ValidLabel(name) ==> ScanSteps(segs, name) by {
          if ValidLabel(name) {
            MatchAtSomeCorrect(s, name, n);
            ScanStepsCons(Removed(s[..n]), rest, name);
          }
        }
        segs
      case None =>
        var rest := Tokenize(s[1..], name);
        var segs := [Kept(s[0])] + rest;
        assert Flatten(segs) == s by {
          FlattenCons(Kept(s[0]), rest);
          assert [s[0]] + s[1..] == s;
        }
        assert ValidLabel(name) ==> ScanSteps(segs, name) by {
          if ValidLabel(name) {
            MatchAtNoneCorrect(s, name);
            ScanStepsCons(Kept(s[0]), rest, name);
          }
        }
        segs
  }

  /** `re.sub(pattern, '', s)`: the scan over `s`, dropping each match
      found and keeping every other character. */
  function Substitute(s: string, name: string): string
    decreases |s|
  {
    if s == [] then []
    else
      match MatchAt(s, name)
      case Some(n) => Substitute(s[n..], name)
      case None => [s[0]] + Substitute(s[1..], name)
  }

  /** One step of the scan where no match starts: the first character is kept. */
  lemma SubstituteStepKeep(s: string, name: string)
    requires s != [] && MatchAt(s, name).None?
    ensures Substitute(s, name) == [s[0]] + Substitute(s[1..], name)
  {
  }

  /** One step of the scan where a match of length `n` starts: it is dropped. */
  lemma SubstituteStepDrop(s: string, name: string, n: nat)
    requires MatchAt(s, name) == Some(n)
    ensures Substitute(s, name) == Substitute(s[n..], name)
  {
  }

  /** A substitution only deletes characters. */
  lemma {:induction false} SubstituteIsSubsequence(s: string, name: string)
    ensures IsSubsequence(Substitute(s, name), s)
    decreases |s|
  {
    if s != [] {
      match MatchAt(s, name)
      case Some(n) =>
        SubstituteIsSubsequence(s[n..], name);
        SubsequenceOfSuffix(Substitute(s[n..], name), s, n);
      case None =>
        SubstituteIsSubsequence(s[1..], name);
    }
  }

  /** The substitution keeps exactly the characters the scan keeps: with the
      contract of `Tokenize`, every character outside a removed match is
      kept, in its original order, and nothing else. */
  lemma {:induction false} SubstituteKeepsUnmatched(s: string, name: string)
    ensures Substitute(s, name) == KeptText(Tokenize(s, name))
    decreases |s|
  {
    if s != [] {
      var segs := Tokenize(s, name);
      match MatchAt(s, name)
      case Some(n) =>
        assert segs[1..] == Tokenize(s[n..], name);
        SubstituteKeepsUnmatched(s[n..], name);
      case None =>
        assert segs[1..] == Tokenize(s[1..], name);
        SubstituteKeepsUnmatched(s[1..], name);
    }
  }

  /** Characters that are not hyphens cannot start a match: a hyphen-free
      prefix passes through unchanged. */
  lemma {:induction false} SubstituteSkipsNoHyphenPrefix(a: string, b: string, name: string)
    requires NoHyphen(a)
    ensures Substitute(a + b, name) == a + Substitute(b, name)
    decreases |a|
  {
    if a == [] {
      assert a + b == b;
    } else {
      AppendCons(a, b);
      assert MatchAt(a + b, name).None?;
      SubstituteStepKeep(a + b, name);
      SubstituteSkipsNoHyphenPrefix(a[1..], b, name);
      AppendCons(a, Substitute(b, name));
    }
  }

  lemma SubstituteNoHyphen(s: string, name: string)
    requires NoHyphen(s)
    ensures Substitute(s, name) == s
  {
    SubstituteSkipsNoHyphenPrefix(s, [], name);
    assert s + [] == s;
  }

  /** Every match contains the name's space, so a string without whitespace
      contains no match and is returned unchanged. */
  lemma {:induction false} SubstituteNoWhitespace(s: string, name: string)
    requires ValidLabel(name) && !NoWhitespace(name) && NoWhitespace(s)
    ensures Substitute(s, name) == s
    decreases |s|
  {
    if s != [] {
      var lead := HyphenRun(s);
      if MatchAt(s, name).Some? {
        HasPrefixIff(s[lead..], name);
        assert false;
      }
      assert NoWhitespace(s[1..]);
      SubstituteNoWhitespace(s[1..], name);
      SubstituteStepKeep(s, name);
    }
  }

  /** `rest` starts with the label immediately followed by a hyphen. */
  predicate LabelThenHyphen(rest: string, name: string)
  {
    HasPrefix(rest, name) && |rest| > |name| && rest[|name|] == '-'
  }

  /** At the start of a whole hyphen run, the pattern matches exactly when
      the run is followed by the label and a further hyphen. */
  lemma MatchAtHyphenRun(j: nat, rest: string, name: string)
    requires ValidLabel(name) && 1 <= j && (rest == [] || rest[0] != '-')
    ensures MatchAt(Hyphens(j) + rest, name) ==
      if LabelThenHyphen(rest, name) then Some(j + |name| + HyphenRun(rest[|name|..])) else None
  {
    HyphensThen(j, rest);
    HyphenRunExact(Hyphens(j) + rest, j);
  }

  /** The pattern matches a framed marker whole, both hyphen runs included. */
  lemma MatchAtFramedMarker(j: nat, k: nat, rest: string, name: string)
    requires ValidLabel(name) && 1 <= j && 1 <= k
    requires rest == [] || rest[0] != '-'
    ensures MatchAt(Hyphens(j) + name + Hyphens(k) + rest, name) == Some(j + |name| + k)
  {
    var tail := Hyphens(k) + rest;
    var after := name + tail;
    assert LabelThenHyphen(after, name) && HyphenRun(after[|name|..]) == k by {
      AppendParts(name, tail);
      HasPrefixIff(after, name);
      HyphensThen(k, rest);
      HyphenRunExact(tail, k);
    }
    MatchAtHyphenRun(j, after, name);
    Reassociate(Hyphens(j), name, Hyphens(k), rest);
  }

  /** A marker framed by hyphen runs of any lengths is removed together with
      both whole runs, provided the text after it does not extend the
      trailing run. */
  lemma SubstituteRemovesMarker(j: nat, k: nat, rest: string, name: string)
    requires ValidLabel(name) && 1 <= j && 1 <= k
    requires rest == [] || rest[0] != '-'
    ensures Substitute(Hyphens(j) + name + Hyphens(k) + rest, name) == Substitute(rest, name)
  {
    MatchAtFramedMarker(j, k, rest, name);
    Reassociate(Hyphens(j), name, Hyphens(k), rest);
    SubstituteStepDrop(Hyphens(j) + name + Hyphens(k) + rest, name, j + |name| + k);
  }

  /** The first step of the scan over a hyphen run that is not followed by
      the label and a further hyphen: no match, one hyphen kept. */
  lemma HyphenRunStep(j: nat, rest: string, name: string)
    requires ValidLabel(name) && 1 <= j && (rest == [] || rest[0] != '-')
    requires !LabelThenHyphen(rest, name)
    ensures MatchAt(Hyphens(j) + rest, name).None?
    ensures (Hyphens(j) + rest)[0] == '-' && (Hyphens(j) + rest)[1..] == Hyphens(j - 1) + rest
  {
    MatchAtHyphenRun(j, rest, name);
    HyphensCons(j, rest);
  }

  /** A hyphen run that is not followed by the label and a further hyphen is
      not the start of a match, at any of its positions, and is kept. */
  lemma {:induction false} SubstituteKeepsHyphenRun(j: nat, rest: string, name: string)
    requires ValidLabel(name) && (rest == [] || rest[0] != '-')
    requires !LabelThenHyphen(rest, name)
    ensures Substitute(Hyphens(j) + rest, name) == Hyphens(j) + Substitute(rest, name)
    decreases j
  {
    if j == 0 {
      assert Hyphens(j) + rest == rest;
    } else {
      HyphenRunStep(j, rest, name);
      SubstituteStepKeep(Hyphens(j) + rest, name);
      SubstituteKeepsHyphenRun(j - 1, rest, name);
      HyphensCons(j, Substitute(rest, name));
    }
  }

  /** A hyphen-free word other than the name, followed by nothing or by a
      hyphen, does not begin with the name and a hyphen. */
  lemma OtherWordNotLabel(w: string, tail: string, name: string)
    requires ValidLabel(name) && NoHyphen(w) && w != name
    requires tail == [] || tail[0] == '-'
    ensures !LabelThenHyphen(w + tail, name)
  {
    var rest := w + tail;
    HasPrefixIff(rest, name);
    if |name| < |w| {
      assert rest[|name|] == w[|name|];
    } else if |name| == |w| {
      assert rest[..|name|] == w;
    } else if |rest| > |name| {
      assert rest[..|name|][|w|] == tail[0];
    }
  }

  /** The framed word is kept, with both hyphen runs around it. */
  lemma SubstituteKeepsFramedWord(j: nat, w: string, k: nat, b: string, name: string)
    requires ValidLabel(name) && 1 <= k && NoHyphen(w) && w != [] && w != name && NoHyphen(b)
    ensures Substitute(Hyphens(j) + (w + (Hyphens(k) + b)), name) == Hyphens(j) + (w + (Hyphens(k) + b))
  {
    var tail := Hyphens(k) + b;
    var rest := w + tail;
    calc {
      Substitute(Hyphens(j) + rest, name);
      == { OtherWordNotLabel(w, tail, name); SubstituteKeepsHyphenRun(j, rest, name); }
      Hyphens(j) + Substitute(rest, name);
      == { SubstituteSkipsNoHyphenPrefix(w, tail, name); }
      Hyphens(j) + (w + Substitute(tail, name));
      == { SubstituteKeepsHyphenRun(k, b, name); SubstituteNoHyphen(b, name); }
      Hyphens(j) + rest;
    }
  }

  /** Text framed by hyphen runs is kept when the framed word is not exactly
      the name: matching is exact and case-sensitive. */
  lemma SubstituteKeepsOtherWord(j: nat, w: string, k: nat, b: string, name: string)
    requires ValidLabel(name) && 1 <= k && NoHyphen(w) && w != name && NoHyphen(b)
    ensures Substitute(Hyphens(j) + w + Hyphens(k) + b, name) == Hyphens(j) + w + Hyphens(k) + b
  {
    if w == [] {
      HyphensAppend(j, k, b);
      SubstituteKeepsHyphenRun(j + k, b, name);
      SubstituteNoHyphen(b, name);
    } else {
      Reassociate(Hyphens(j), w, Hyphens(k), b);
      SubstituteKeepsFramedWord(j, w, k, b, name);
    }
  }
}
