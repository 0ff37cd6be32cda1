/** `format_certificate` of saml/cert_formatter.py, on the file's contents:
    remove every `-+BEGIN CERTIFICATE-+` marker, then every
    `-+END CERTIFICATE-+` marker of what is left, then delete all whitespace.
    The result is the one-line base64 body that the SAML settings expect. */
module CertFormatter {
  import opened Strings
  import opened Whitespace
  import opened Markers

  const BeginLabel: string := "BEGIN CERTIFICATE"
  const EndLabel: string := "END CERTIFICATE"

  /** Both labels are patterns the marker machinery accepts, both contain a
      space, and they differ. */
  lemma LabelsValid()
    ensures ValidLabel(BeginLabel) && !NoWhitespace(BeginLabel)
    ensures ValidLabel(EndLabel) && !NoWhitespace(EndLabel)
    ensures BeginLabel != EndLabel
  {
    assert IsWhitespace(BeginLabel[5]);
    assert IsWhitespace(EndLabel[3]);
  }

  /** The two substitutions, in the order the source applies them. */
  function StripMarkers(content: string): string
  {
    Substitute(Substitute(content, BeginLabel), EndLabel)
  }

  /** The formatted certificate: no whitespace is left in it. */
  function FormatCertificateText(content: string): (r: string)
    ensures NoWhitespace(r)
    ensures r == RemoveWhitespace(StripMarkers(content))
  {
    Join(Split(StripMarkers(content)))
  }

  /** The formatted text is what the two scans keep, with the whitespace
      deleted: every character outside a removed marker that is not
      whitespace survives, in its original order, and nothing else does. */
  lemma FormatKeepsUnmatched(content: string)
    ensures FormatCertificateText(content) ==
      RemoveWhitespace(KeptText(Tokenize(KeptText(Tokenize(content, BeginLabel)), EndLabel)))
  {
    SubstituteKeepsUnmatched(content, BeginLabel);
    SubstituteKeepsUnmatched(Substitute(content, BeginLabel), EndLabel);
  }

  /** Formatting only deletes characters: the result is the input with some
      characters taken out, the rest in their original order. */
  lemma FormatDeletesOnly(content: string)
    ensures IsSubsequence(FormatCertificateText(content), content)
    ensures |FormatCertificateText(content)| <= |content|
  {
    var once := Substitute(content, BeginLabel);
    var twice := Substitute(once, EndLabel);
    SubstituteIsSubsequence(content, BeginLabel);
    SubstituteIsSubsequence(once, EndLabel);
    RemoveWhitespaceIsSubsequence(twice);
    SubsequenceTransitive(RemoveWhitespace(twice), twice, once);
    SubsequenceTransitive(RemoveWhitespace(twice), once, content);
    SubsequenceLength(FormatCertificateText(content), content);
  }

  /** Text without whitespace holds no marker (each label contains a space),
      so it is returned unchanged; and only such text is. */
  lemma FormatFixedPoints(content: string)
    ensures FormatCertificateText(content) == content <==> NoWhitespace(content)
  {
    if NoWhitespace(content) {
      LabelsValid();
      SubstituteNoWhitespace(content, BeginLabel);
      SubstituteNoWhitespace(content, EndLabel);
      RemoveWhitespaceIdentity(content);
    }
  }

  /** Formatting an already formatted certificate changes nothing. */
  lemma FormatIdempotent(content: string)
    ensures FormatCertificateText(FormatCertificateText(content)) == FormatCertificateText(content)
  {
    FormatFixedPoints(FormatCertificateText(content));
  }

  /** Without a hyphen there is no marker: only the whitespace goes. */
  lemma FormatNoHyphens(content: string)
    requires NoHyphen(content)
    ensures FormatCertificateText(content) == RemoveWhitespace(content)
  {
    SubstituteNoHyphen(content, BeginLabel);
    SubstituteNoHyphen(content, EndLabel);
  }

  lemma NoHyphenAppend(a: string, b: string)
    requires NoHyphen(a) && NoHyphen(b)
    ensures NoHyphen(a + b)
  {
    assert forall i :: 0 <= i < |a + b| ==> (a + b)[i] == if i < |a| then a[i] else b[i - |a|];
  }

  /** A BEGIN marker with hyphen runs of any lengths, between hyphen-free
      text, is removed. */
  lemma FormatDropsBeginMarker(a: string, j: nat, k: nat, b: string)
    requires 1 <= j && 1 <= k && NoHyphen(a) && NoHyphen(b)
    ensures FormatCertificateText(a + (Hyphens(j) + BeginLabel + Hyphens(k) + b)) == RemoveWhitespace(a + b)
  {
    LabelsValid();
    calc {
      Substitute(a + (Hyphens(j) + BeginLabel + Hyphens(k) + b), BeginLabel);
      == { SubstituteSkipsNoHyphenPrefix(a, Hyphens(j) + BeginLabel + Hyphens(k) + b, BeginLabel); }
      a + Substitute(Hyphens(j) + BeginLabel + Hyphens(k) + b, BeginLabel);
      == { SubstituteRemovesMarker(j, k, b, BeginLabel); SubstituteNoHyphen(b, BeginLabel); }
      a + b;
    }
    NoHyphenAppend(a, b);
    SubstituteNoHyphen(a + b, EndLabel);
  }

  /** An END marker with hyphen runs of any lengths, between hyphen-free
      text, survives the first pass and is removed by the second. */
  lemma FormatDropsEndMarker(a: string, j: nat, k: nat, b: string)
    requires 1 <= j && 1 <= k && NoHyphen(a) && NoHyphen(b)
    ensures FormatCertificateText(a + (Hyphens(j) + EndLabel + Hyphens(k) + b)) == RemoveWhitespace(a + b)
  {
    LabelsValid();
    var marked := a + (Hyphens(j) + EndLabel + Hyphens(k) + b);
    calc {
      Substitute(marked, BeginLabel);
      == { SubstituteSkipsNoHyphenPrefix(a, Hyphens(j) + EndLabel + Hyphens(k) + b, BeginLabel); }
      a + Substitute(Hyphens(j) + EndLabel + Hyphens(k) + b, BeginLabel);
      == { SubstituteKeepsOtherWord(j, EndLabel, k, b, BeginLabel); }
      marked;
    }
    calc {
      Substitute(marked, EndLabel);
      == { SubstituteSkipsNoHyphenPrefix(a, Hyphens(j) + EndLabel + Hyphens(k) + b, EndLabel); }
      a + Substitute(Hyphens(j) + EndLabel + Hyphens(k) + b, EndLabel);
      == { SubstituteRemovesMarker(j, k, b, EndLabel); SubstituteNoHyphen(b, EndLabel); }
      a + b;
    }
  }

  lemma HyphensNoWhitespace(n: nat)
    ensures NoWhitespace(Hyphens(n)) && RemoveWhitespace(Hyphens(n)) == Hyphens(n)
  {
    RemoveWhitespaceIdentity(Hyphens(n));
  }

  /** Hyphen runs around any other hyphen-free word are kept: the labels are
      matched exactly and case-sensitively. Only the whitespace goes. */
  lemma FormatKeepsOtherWord(j: nat, w: string, k: nat)
    requires 1 <= k && NoHyphen(w) && w != BeginLabel && w != EndLabel
    ensures FormatCertificateText(Hyphens(j) + w + Hyphens(k)) == Hyphens(j) + RemoveWhitespace(w) + Hyphens(k)
  {
    LabelsValid();
    var framed := Hyphens(j) + w + Hyphens(k);
    assert framed + [] == framed;
    SubstituteKeepsOtherWord(j, w, k, [], BeginLabel);
    SubstituteKeepsOtherWord(j, w, k, [], EndLabel);
    RemoveWhitespaceAppend(Hyphens(j) + w, Hyphens(k));
    RemoveWhitespaceAppend(Hyphens(j), w);
    HyphensNoWhitespace(j);
    HyphensNoWhitespace(k);
  }

  /** Text between a BEGIN marker and an END marker, with hyphen-free text
      around them and hyphen runs of any lengths, is all that remains, with
      its whitespace deleted. The body must not be empty: the greedy trailing
      run of the BEGIN marker would otherwise swallow the END marker's
      leading run (see `FormatEmptyBody`). */
  lemma FormatFramedBody(s: string, a: string, j1: nat, k1: nat, body: string, j2: nat, k2: nat, c: string)
    requires 1 <= j1 && 1 <= k1 && 1 <= j2 && 1 <= k2
    requires NoHyphen(a) && NoHyphen(body) && body != [] && NoHyphen(c)
    requires s == a + (Hyphens(j1) + BeginLabel + Hyphens(k1) + (body + (Hyphens(j2) + EndLabel + Hyphens(k2) + c)))
    ensures FormatCertificateText(s) == RemoveWhitespace(a + (body + c))
  {
    LabelsValid();
    var endPart := Hyphens(j2) + EndLabel + Hyphens(k2) + c;
    var rest := body + endPart;
    calc {
      Substitute(a + (Hyphens(j1) + BeginLabel + Hyphens(k1) + rest), BeginLabel);
      == { SubstituteSkipsNoHyphenPrefix(a, Hyphens(j1) + BeginLabel + Hyphens(k1) + rest, BeginLabel); }
      a + Substitute(Hyphens(j1) + BeginLabel + Hyphens(k1) + rest, BeginLabel);
      == { SubstituteRemovesMarker(j1, k1, rest, BeginLabel); }
      a + Substitute(body + endPart, BeginLabel);
      == { SubstituteSkipsNoHyphenPrefix(body, endPart, BeginLabel); }
      a + (body + Substitute(endPart, BeginLabel));
      == { SubstituteKeepsOtherWord(j2, EndLabel, k2, c, BeginLabel); }
      a + (body + endPart);
    }
    calc {
      Substitute(a + (body + endPart), EndLabel);
      == { SubstituteSkipsNoHyphenPrefix(a, body + endPart, EndLabel); }
      a + Substitute(body + endPart, EndLabel);
      == { SubstituteSkipsNoHyphenPrefix(body, endPart, EndLabel); }
      a + (body + Substitute(endPart, EndLabel));
      == { SubstituteRemovesMarker(j2, k2, c, EndLabel); SubstituteNoHyphen(c, EndLabel); }
      a + (body + c);
    }
  }

  /** With nothing between the two markers, the BEGIN marker's trailing run
      takes every hyphen up to the END label, so the END marker no longer
      has a leading run: its label and trailing hyphens stay behind. */
  lemma FormatEmptyBody(j: nat, k: nat, l: nat)
    requires 1 <= j && 1 <= k && 1 <= l
    ensures FormatCertificateText(Hyphens(j) + BeginLabel + Hyphens(k) + (EndLabel + Hyphens(l)))
      == RemoveWhitespace(EndLabel) + Hyphens(l)
  {
    LabelsValid();
    var rest := EndLabel + Hyphens(l);
    var run := Hyphens(l);
    assert run + [] == run;
    assert !LabelThenHyphen([], BeginLabel) && !LabelThenHyphen([], EndLabel);
    calc {
      Substitute(Hyphens(j) + BeginLabel + Hyphens(k) + rest, BeginLabel);
      == { SubstituteRemovesMarker(j, k, rest, BeginLabel); }
      Substitute(EndLabel + run, BeginLabel);
      == { SubstituteSkipsNoHyphenPrefix(EndLabel, run, BeginLabel); }
      EndLabel + Substitute(run + [], BeginLabel);
      == { SubstituteKeepsHyphenRun(l, [], BeginLabel); }
      rest;
    }
    calc {
      Substitute(rest, EndLabel);
      == { SubstituteSkipsNoHyphenPrefix(EndLabel, run, EndLabel); }
      EndLabel + Substitute(run + [], EndLabel);
      == { SubstituteKeepsHyphenRun(l, [], EndLabel); }
      rest;
    }
    RemoveWhitespaceAppend(EndLabel, run);
    HyphensNoWhitespace(l);
  }

  /** The END pass runs over the output of the BEGIN pass: an END marker
      whose label is cut in two by a BEGIN marker only comes together once
      the BEGIN marker is gone, and is then removed as well, so nothing is
      left. */
  lemma FormatPassesInOrder(j: nat, e: string, i: nat, l: nat, t: string, k: nat)
    requires 1 <= j && 1 <= i && 1 <= l && 1 <= k
    requires e + t == EndLabel && e != [] && t != []
    ensures FormatCertificateText(Hyphens(j) + (e + (Hyphens(i) + BeginLabel + Hyphens(l) + (t + Hyphens(k))))) == []
  {
    LabelsValid();
    var run := Hyphens(k);
    var inner := Hyphens(i) + BeginLabel + Hyphens(l) + (t + run);
    assert NoHyphen(e) && NoHyphen(t) by {
      AppendParts(e, t);
    }
    assert !LabelThenHyphen(e + inner, BeginLabel) by {
      AppendCons(e, inner);
      assert e[0] == EndLabel[0];
    }
    assert !LabelThenHyphen([], BeginLabel);
    assert run + [] == run;
    calc {
      Substitute(Hyphens(j) + (e + inner), BeginLabel);
      == { SubstituteKeepsHyphenRun(j, e + inner, BeginLabel); }
      Hyphens(j) + Substitute(e + inner, BeginLabel);
      == { SubstituteSkipsNoHyphenPrefix(e, inner, BeginLabel); }
      Hyphens(j) + (e + Substitute(inner, BeginLabel));
      == { AppendCons(t, run); SubstituteRemovesMarker(i, l, t + run, BeginLabel); }
      Hyphens(j) + (e + Substitute(t + run, BeginLabel));
      == { SubstituteSkipsNoHyphenPrefix(t, run, BeginLabel); }
      Hyphens(j) + (e + (t + Substitute(run + [], BeginLabel)));
      == { SubstituteKeepsHyphenRun(k, [], BeginLabel); }
      Hyphens(j) + (e + (t + run));
      == { Reassociate(Hyphens(j), e, t, run); }
      Hyphens(j) + EndLabel + Hyphens(k) + [];
    }
    SubstituteRemovesMarker(j, k, [], EndLabel);
  }

  /** A character of the base64 alphabet, padding included. */
  predicate Base64Char(c: char)
  {
    ('A' <= c <= 'Z') || ('a' <= c <= 'z') || ('0' <= c <= '9') || c == '+' || c == '/' || c == '='
  }

  predicate Base64Line(line: string)
  {
    forall i :: 0 <= i < |line| ==> Base64Char(line[i])
  }

  /** A line of the base64 alphabet holds neither a hyphen nor whitespace,
      so the lines of a real PEM block meet the premise of `FormatPemFile`. */
  lemma Base64LinePlain(line: string)
    requires Base64Line(line)
    ensures NoHyphen(line) && NoWhitespace(line)
  {
  }

  /** Lines holding neither a hyphen nor whitespace, such as base64 lines. */
  predicate PlainLines(lines: seq<string>)
  {
    forall i :: 0 <= i < |lines| ==> NoHyphen(lines[i]) && NoWhitespace(lines[i])
  }

  /** The number of hyphens on each side of a PEM boundary line. */
  const Dashes: nat := 5

  /** The base64 lines of a PEM block, each ended by a line feed. */
  function PemBody(lines: seq<string>): string
  {
    if lines == [] then [] else lines[0] + "\n" + PemBody(lines[1..])
  }

  /** A PEM certificate file: the BEGIN line, the base64 lines, the END line
      and whatever whitespace follows it. */
  function PemFile(lines: seq<string>, trailer: string): string
  {
    Hyphens(Dashes) + BeginLabel + Hyphens(Dashes) + "\n" + PemBody(lines) + Hyphens(Dashes) + EndLabel + Hyphens(Dashes) + trailer
  }

  lemma {:induction false} PemBodyFacts(lines: seq<string>)
    requires PlainLines(lines)
    ensures NoHyphen(PemBody(lines))
    ensures RemoveWhitespace(PemBody(lines)) == Join(lines)
  {
    if lines != [] {
      var line := lines[0];
      PemBodyFacts(lines[1..]);
      NoHyphenAppend(line, "\n");
      NoHyphenAppend(line + "\n", PemBody(lines[1..]));
      RemoveWhitespaceAppend(line + "\n", PemBody(lines[1..]));
      RemoveWhitespaceAppend(line, "\n");
      RemoveWhitespaceIdentity(line);
    }
  }

  lemma PemFileShape(lines: seq<string>, trailer: string)
    ensures PemFile(lines, trailer) ==
      [] + (Hyphens(Dashes) + BeginLabel + Hyphens(Dashes) + (("\n" + PemBody(lines)) + (Hyphens(Dashes) + EndLabel + Hyphens(Dashes) + trailer)))
  {
  }

  lemma PemTextWhitespace(lines: seq<string>, trailer: string)
    requires PlainLines(lines)
    requires AllWhitespace(trailer)
    ensures NoHyphen("\n" + PemBody(lines)) && NoHyphen(trailer)
    ensures RemoveWhitespace([] + (("\n" + PemBody(lines)) + trailer)) == Join(lines)
  {
    var body := "\n" + PemBody(lines);
    PemBodyFacts(lines);
    NoHyphenAppend("\n", PemBody(lines));
    assert NoHyphen(trailer) by {
      assert forall i :: 0 <= i < |trailer| ==> IsWhitespace(trailer[i]);
    }
    assert [] + (body + trailer) == body + trailer;
    RemoveWhitespaceAppend(body, trailer);
    RemoveWhitespaceAppend("\n", PemBody(lines));
    RemoveWhitespaceIdentity(trailer);
  }

  /** A PEM certificate file formats to its base64 lines joined together:
      the markers, the line feeds and the trailing whitespace all go. */
  lemma FormatPemFile(lines: seq<string>, trailer: string)
    requires PlainLines(lines)
    requires AllWhitespace(trailer)
    ensures FormatCertificateText(PemFile(lines, trailer)) == Join(lines)
  {
    FormatPemText(PemFile(lines, trailer), lines, trailer);
  }

  lemma FormatPemText(s: string, lines: seq<string>, trailer: string)
    requires PlainLines(lines)
    requires AllWhitespace(trailer)
    requires s == PemFile(lines, trailer)
    ensures FormatCertificateText(s) == Join(lines)
  {
    PemTextWhitespace(lines, trailer);
    PemFileShape(lines, trailer);
    FormatFramedBody(s, [], Dashes, Dashes, "\n" + PemBody(lines), Dashes, Dashes, trailer);
  }
}
