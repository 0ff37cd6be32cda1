# PEM certificate formatter — a Dafny model

The repository's one piece of original logic is `format_certificate` in
`saml/cert_formatter.py`. It reads an X.509 certificate file and turns its
PEM text (the textual encoding of section 2 of RFC 7468, label
`CERTIFICATE` from section 5.1) into the one-line base64 string that the
SAML settings hold as `x509cert`. It makes three passes over the text:

1. `re.sub(r'-+BEGIN CERTIFICATE-+', '', s)` removes every BEGIN marker;
2. `re.sub(r'-+END CERTIFICATE-+', '', s)` removes every END marker from
   what the first pass left;
3. `''.join(s.split())` deletes all whitespace.

This project models those passes as pure functions over the file contents,
and proves what the function promises.

- `strings.dfy` (module `Strings`) holds hyphen runs and the subsequence
  relation ("obtained by deleting characters").
- `whitespace.dfy` (module `Whitespace`) models `str.split()` with no
  separator and `''.join`. They are proved equal to `RemoveWhitespace`, a
  reference definition that deletes every whitespace character.
- `markers.dfy` (module `Markers`) models the regular expression
  `-+LABEL-+` in three layers:
  - `IsMarker` says which strings match as a whole.
  - `MatchAt` is the anchored, greedy match at one position.
  - `Tokenize` is the left-to-right, leftmost, non-overlapping scan of
    `re.sub`.

  `Substitute` is the text that scan keeps. It is proved equal to the kept
  segments of `Tokenize`.
- `cert_formatter.dfy` (module `CertFormatter`) holds the two labels,
  `FormatCertificateText` (the three passes in the source's order) and the
  properties of the whole transformation. These include the result of
  formatting a well-formed PEM file.

The repository delegates all SAML protocol work to an external
library, so that work is not modelled here (see "Left out").

**Assumption: whitespace.** `Whitespace.IsWhitespace` is the set of
characters for which Python's `str.isspace()` holds, and so the set that
`str.split()` without a separator splits on:
- U+0009–U+000D;
- U+001C–U+001F;
- U+0020;
- U+0085;
- U+00A0;
- U+1680;
- U+2000–U+200A;
- U+2028, U+2029, U+202F, U+205F and U+3000.

This set is fixed by assumption. Nothing checks it against the Python
runtime.

Behaviour worth knowing, all of it proved:
- The passes run in sequence. An END marker whose label a BEGIN marker cuts
  in two is only formed once the first pass has removed the BEGIN marker,
  and the second pass then removes it too (`FormatPassesInOrder`).
- The BEGIN marker's trailing `-+` is greedy. With nothing between the two
  markers, it takes the END marker's leading hyphens as well, so
  `ENDCERTIFICATE` and the trailing hyphens survive (`FormatEmptyBody`).
  A PEM file always has a line break there, so this does not arise for
  well-formed input.
- Matching is exact and case-sensitive. For example,
  `-begin certificate-` and `-BEGIN  CERTIFICATE-` (two spaces) are
  instances of `FormatKeepsOtherWord` with a hyphen-free word that is
  neither label: only their whitespace goes.

## Model

| member | source | states |
|---|---|---|
| CertFormatter.FormatCertificateText | saml/cert_formatter.py:18-25 | the result contains no whitespace, and it equals the marker-stripped text with every whitespace character deleted |
| CertFormatter.FormatKeepsUnmatched | saml/cert_formatter.py:19-23 | `StripMarkers` (lines 19-20 applied in order) followed by whitespace deletion: the result is the characters both scans keep (everything outside a removed marker), in order, minus whitespace |
| CertFormatter.FormatDeletesOnly | saml/cert_formatter.py:19-23 | the result is a subsequence of the input, so it is no longer than the input |
| CertFormatter.FormatFixedPoints | saml/cert_formatter.py:19-25 | a text is returned unchanged if and only if it has no whitespace (markers always contain a space) |
| CertFormatter.FormatIdempotent | saml/cert_formatter.py:19-23 | formatting a formatted certificate changes nothing |
| CertFormatter.FormatNoHyphens | saml/cert_formatter.py:19-23 | text with no hyphen only loses its whitespace |
| CertFormatter.FormatDropsBeginMarker | saml/cert_formatter.py:19-23 | a BEGIN marker with hyphen runs of any lengths ≥ 1 between hyphen-free text vanishes whole, e.g. `---BEGIN CERTIFICATE-------` |
| CertFormatter.FormatDropsEndMarker | saml/cert_formatter.py:19-23 | an END marker with hyphen runs of any lengths ≥ 1 survives the first pass and is removed whole by the second |
| CertFormatter.FormatKeepsOtherWord | saml/cert_formatter.py:19-23 | hyphen runs around a hyphen-free word that is not exactly one of the labels are kept; only the word's whitespace goes |
| CertFormatter.FormatFramedBody | saml/cert_formatter.py:18-25 | text before, between and after a BEGIN and an END marker (non-empty body) remains, whitespace deleted |
| CertFormatter.FormatEmptyBody | saml/cert_formatter.py:19-20 | with nothing between BEGIN and END markers, the greedy trailing run leaves `ENDCERTIFICATE` and the trailing hyphens behind |
| CertFormatter.FormatPassesInOrder | saml/cert_formatter.py:19-20 | an END marker split by a BEGIN marker is removed once the first pass has joined it; nothing is left |
| CertFormatter.Base64LinePlain | config.py:35-54 | a line of the base64 alphabet holds neither a hyphen nor whitespace |
| CertFormatter.PemBodyFacts | config.py:35-54 | lines with no hyphen and no whitespace, each ended by a line feed, contain no hyphen and lose only the line feeds |
| CertFormatter.FormatPemFile | saml/cert_formatter.py:18-25 | a PEM file (BEGIN line, lines with no hyphen and no whitespace, END line, trailing whitespace) formats to its lines joined together |
| CertFormatter.LabelsValid | saml/cert_formatter.py:19-20 | both labels are non-empty, hyphen-free, contain a space and differ |
| Whitespace.RemoveWhitespace | saml/cert_formatter.py:23 | the reference deletion leaves no whitespace |
| Whitespace.RemoveWhitespaceMembers | saml/cert_formatter.py:23 | with `IsWhitespace` the `str.isspace` set: a character is in the result exactly when it is in the input and is not whitespace |
| Whitespace.RemoveWhitespaceIsSubsequence | saml/cert_formatter.py:23 | whitespace deletion only deletes characters |
| Whitespace.RemoveWhitespaceAppend | saml/cert_formatter.py:23 | whitespace deletion distributes over concatenation |
| Whitespace.RemoveWhitespaceIdentity | saml/cert_formatter.py:23 | text without whitespace is unchanged; all-whitespace text vanishes |
| Whitespace.LeadingWhitespace | saml/cert_formatter.py:23 | `split()` skips exactly the leading whitespace run |
| Whitespace.WordLength | saml/cert_formatter.py:23 | `split()` takes exactly the maximal run of non-whitespace as a word |
| Whitespace.RemoveWhitespaceFirstWord | saml/cert_formatter.py:23 | deleting whitespace yields the first word, then the deletion of the rest |
| Whitespace.Split | saml/cert_formatter.py:23 | `split()` yields non-empty, whitespace-free words whose `Join` (`''.join`) is the whitespace-free text |
| Markers.HyphenRun | saml/cert_formatter.py:19-20 | the greedy `-+`: the length of the maximal run of hyphens at the start |
| Markers.HasPrefix | saml/cert_formatter.py:19-20 | a text that starts with the label is at least as long as the label |
| Markers.HasPrefixIff | saml/cert_formatter.py:19-20 | the character-by-character label comparison is exactly "the text starts with the label" |
| Markers.MarkerPrefixShape | saml/cert_formatter.py:19-20 | any match at a position starts with the whole hyphen run there, then the label, and ends inside the next hyphen run |
| Markers.MatchAtNoneCorrect | saml/cert_formatter.py:19-20 | when the anchored match fails, no prefix of the text matches the pattern |
| Markers.MatchAtSomeCorrect | saml/cert_formatter.py:19-20 | when the anchored match succeeds, it is the longest prefix matching the pattern |
| Markers.MatchAt | saml/cert_formatter.py:19-20 | a successful anchored match is non-empty and ends within the text |
| Markers.MatchAtCorrect | saml/cert_formatter.py:19-20 | against `IsMarker`, the set of whole strings `-+LABEL-+` matches: `MatchAt` fails if and only if no match starts here; otherwise it returns the longest one |
| Markers.KeptTextIsSubsequence | saml/cert_formatter.py:19-20 | the kept segments of a scan are a subsequence of the scanned text |
| Markers.Tokenize | saml/cert_formatter.py:19-20 | the scan covers the text exactly; each kept character is where no match starts; each removed segment is the longest match there |
| Markers.SubstituteIsSubsequence | saml/cert_formatter.py:19-20 | a substitution only deletes characters |
| Markers.SubstituteKeepsUnmatched | saml/cert_formatter.py:19-20 | `Substitute`, one `re.sub` call, returns exactly the characters that the scan specified by `Tokenize` keeps |
| Markers.SubstituteSkipsNoHyphenPrefix | saml/cert_formatter.py:19-20 | a hyphen-free prefix passes through unchanged |
| Markers.SubstituteNoHyphen | saml/cert_formatter.py:19-20 | text without hyphens is unchanged |
| Markers.SubstituteNoWhitespace | saml/cert_formatter.py:19-20 | for a label containing whitespace, text without whitespace is unchanged |
| Markers.MatchAtHyphenRun | saml/cert_formatter.py:19-20 | at a whole hyphen run, the pattern matches if and only if the label and another hyphen follow, and then up to the end of the next run |
| Markers.MatchAtFramedMarker | saml/cert_formatter.py:19-20 | a marker framed by hyphen runs is matched whole, both runs included |
| Markers.SubstituteRemovesMarker | saml/cert_formatter.py:19-20 | a framed marker is removed with both whole hyphen runs |
| Markers.SubstituteKeepsHyphenRun | saml/cert_formatter.py:19-20 | a hyphen run not followed by the label and a hyphen is kept at every position |
| Markers.OtherWordNotLabel | saml/cert_formatter.py:19-20 | a hyphen-free word other than the label, followed by a hyphen, does not start with the label and a hyphen |
| Markers.SubstituteKeepsFramedWord | saml/cert_formatter.py:19-20 | hyphen runs around a non-empty word other than the label are kept whole |
| Markers.SubstituteKeepsOtherWord | saml/cert_formatter.py:19-20 | hyphen runs around any hyphen-free word other than the label are kept (exact, case-sensitive matching) |
| Strings.SubsequenceLength | saml/cert_formatter.py:19-23 | a subsequence is never longer than the text |
| Strings.SubsequenceTransitive | saml/cert_formatter.py:19-23 | deletions compose: a subsequence of a subsequence is a subsequence |

## Left out

- Reading the file: `open`, `read` and the text decoding with newline translation at saml/cert_formatter.py:15-16. The model starts from the contents as a string of characters.
- The error paths at saml/cert_formatter.py:27-32 (`print`, `sys.exit(1)`) and the command-line entry point at saml/cert_formatter.py:34-42. These are I/O and process control.
- main.py, dependencies.py, saml/verify_cert.py and models.py. These are HTTP routing, request plumbing, calls into the external SAML library, and record declarations, with no logic of their own.
- config.py contributes only the shape of its embedded certificate, which `PemFile` and `PemBodyFacts` describe. Running the formatter on that literal certificate is not part of this model.
- SAML protocol validation, XML signature checks, binding encodings and a replay store. The repository does not implement these; they live in the external library.
- The formatter does not check that the remaining text is valid base64, and neither does the model. `Base64LinePlain` only shows that base64 lines meet the premise of the PEM-file lemma.
- Markers.Tokenize: the scan contract is stated for labels that are non-empty and contain no hyphen. Both labels the source uses are such labels (`CertFormatter.LabelsValid`).
- CertFormatter.FormatKeepsOtherWord: covers the two mismatched labels `-begin certificate-` and `-BEGIN  CERTIFICATE-` as instances of the general statement. It does not prove them as separate literal examples.
