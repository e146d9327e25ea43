/**
  Character and string operations the bot applies to chat text: Python's
  `str.strip`, `str.lower`, `str.upper`, `str.isalpha`, `str.startswith` and
  `str.replace`, restricted to the letters the game deals in (ASCII and the
  basic Cyrillic block U+0400..U+045F), plus the ё -> е normalisation.
*/
module Text {

  // Cyrillic letters written as code points, so that no Latin look-alike
  // can slip in.
  const CyrA: char := '\U{0430}'       // а
  const CyrYa: char := '\U{044F}'      // я
  const CyrIe: char := '\U{0435}'      // е
  const CyrIo: char := '\U{0451}'      // ё
  const CyrCapIe: char := '\U{0415}'   // Е
  const CyrCapIo: char := '\U{0401}'   // Ё

  /** Python's `str.isspace` for one character. */
  predicate IsSpace(c: char) {
    || c == ' ' || c == '\t' || c == '\n' || c == '\r'
    || c == '\U{000B}' || c == '\U{000C}'
    || ('\U{001C}' <= c <= '\U{001F}')
    || c == '\U{0085}' || c == '\U{00A0}' || c == '\U{1680}'
    || ('\U{2000}' <= c <= '\U{200A}')
    || c == '\U{2028}' || c == '\U{2029}' || c == '\U{202F}'
    || c == '\U{205F}' || c == '\U{3000}'
  }

  /** A letter as far as this model's `isalpha` is concerned. */
  predicate IsLetter(c: char) {
    ('A' <= c <= 'Z') || ('a' <= c <= 'z') || ('\U{0400}' <= c <= '\U{045F}')
  }

  /** A letter that lower-casing leaves alone. */
  predicate IsLowerLetter(c: char) {
    ('a' <= c <= 'z') || ('\U{0430}' <= c <= '\U{045F}')
  }

  /** Python's `str.isalpha`: non-empty and letters only. An alphabetic string
      holds no white space, and lower-casing turns each of its characters into
      a lower-case letter. */
  function IsAlpha(s: string): (b: bool)
    ensures b ==> |s| > 0
    ensures b ==> forall i :: 0 <= i < |s| ==> !IsSpace(s[i]) && IsLowerLetter(LowerChar(s[i]))
  {
    |s| > 0 && forall i :: 0 <= i < |s| ==> IsLetter(s[i])
  }

  function UpperChar(c: char): char {
    if 'a' <= c <= 'z' then (c as int - 32) as char
    else if '\U{0430}' <= c <= '\U{044F}' then (c as int - 0x20) as char
    else if '\U{0450}' <= c <= '\U{045F}' then (c as int - 0x50) as char
    else c
  }

  function LowerChar(c: char): char {
    if 'A' <= c <= 'Z' then (c as int + 32) as char
    else if '\U{0410}' <= c <= '\U{042F}' then (c as int + 0x20) as char
    else if '\U{0400}' <= c <= '\U{040F}' then (c as int + 0x50) as char
    else c
  }

  function Upper(s: string): (r: string)
    ensures |r| == |s|
    ensures forall i :: 0 <= i < |s| ==> r[i] == UpperChar(s[i])
  {
    seq(|s|, i requires 0 <= i < |s| => UpperChar(s[i]))
  }

  function Lower(s: string): (r: string)
    ensures |r| == |s|
    ensures forall i :: 0 <= i < |s| ==> r[i] == LowerChar(s[i])
  {
    seq(|s|, i requires 0 <= i < |s| => LowerChar(s[i]))
  }

  /** Upper-casing never merges two distinct lower-case letters. */
  lemma UpperInjective(a: char, b: char)
    requires IsLowerLetter(a) && IsLowerLetter(b)
    requires UpperChar(a) == UpperChar(b)
    ensures a == b
  {
  }

  /** No letter is white space. */
  lemma LetterNotSpace(c: char)
    requires IsLetter(c)
    ensures !IsSpace(c)
  {
  }

  /** Lower-casing leaves a lower-case letter alone. */
  lemma LowerFixesLower(c: char)
    requires IsLowerLetter(c)
    ensures LowerChar(c) == c
  {
  }

  /** Lower-casing neither makes nor unmakes an alphabetic string, so checking
      `isalpha` after `lower` is checking it on the text as typed. */
  lemma LowerKeepsAlpha(s: string)
    ensures IsAlpha(Lower(s)) <==> IsAlpha(s)
  {
    if IsAlpha(Lower(s)) {
      assert forall i :: 0 <= i < |s| ==> IsLetter(LowerChar(s[i]));
    }
  }

  /** Upper-casing a word of lower-case letters loses nothing: lower-casing
      the result gives the word back. */
  lemma UpperLowerRoundTrip(s: string)
    requires forall i :: 0 <= i < |s| ==> IsLowerLetter(s[i])
    ensures Lower(Upper(s)) == s
  {
    assert forall i :: 0 <= i < |s| ==> Lower(Upper(s))[i] == s[i];
  }

  /** Python's `s.replace(a, b)` for single characters. */
  function ReplaceChar(s: string, a: char, b: char): (r: string)
    ensures |r| == |s|
    ensures forall i :: 0 <= i < |s| ==> r[i] == (if s[i] == a then b else s[i])
    ensures a != b ==> a !in r
  {
    if s == [] then []
    else [if s[0] == a then b else s[0]] + ReplaceChar(s[1..], a, b)
  }

  function NormalizeChar(c: char): char {
    if c == CyrIo then CyrIe else if c == CyrCapIo then CyrCapIe else c
  }

  /** `s.replace('ё', 'е').replace('Ё', 'Е')`: both forms of ё collapse to е. */
  function Normalize(s: string): (r: string)
    ensures |r| == |s|
    ensures forall i :: 0 <= i < |s| ==> r[i] == NormalizeChar(s[i])
    ensures CyrIo !in r && CyrCapIo !in r
  {
    ReplaceChar(ReplaceChar(s, CyrIo, CyrIe), CyrCapIo, CyrCapIe)
  }

  /** `s.lstrip()`: drops the leading white space and nothing else. */
  function StripStart(s: string): (r: string)
    ensures |r| <= |s| && r == s[|s| - |r|..]
    ensures forall i :: 0 <= i < |s| - |r| ==> IsSpace(s[i])
    ensures r == [] || !IsSpace(r[0])
  {
    if s != [] && IsSpace(s[0]) then StripStart(s[1..]) else s
  }

  /** `s.rstrip()`: drops the trailing white space and nothing else. */
  function StripEnd(s: string): (r: string)
    ensures |r| <= |s| && r == s[..|r|]
    ensures forall i :: |r| <= i < |s| ==> IsSpace(s[i])
    ensures r == [] || !IsSpace(r[|r| - 1])
  {
    if s != [] && IsSpace(s[|s| - 1]) then StripEnd(s[..|s| - 1]) else s
  }

  /** `s.strip()`: the longest slice that neither starts nor ends with white space,
      obtained by removing white space only. */
  function Strip(s: string): (r: string)
    ensures |r| <= |s|
    ensures r == [] || (!IsSpace(r[0]) && !IsSpace(r[|r| - 1]))
    ensures exists a :: TrimmedAt(s, r, a)
  {
    var t := StripStart(s);
    var r := StripEnd(t);
    StripTrimmed(s, t, r);
    r
  }

  /** Stripping the start and then the end leaves a slice with only white
      space around it. */
  lemma StripTrimmed(s: string, t: string, r: string)
    requires |t| <= |s| && t == s[|s| - |t|..] && forall i :: 0 <= i < |s| - |t| ==> IsSpace(s[i])
    requires |r| <= |t| && r == t[..|r|] && forall i :: |r| <= i < |t| ==> IsSpace(t[i])
    ensures TrimmedAt(s, r, |s| - |t|)
  {
    var a := |s| - |t|;
    assert s[a..a + |r|] == t[..|r|];
    forall i | a + |r| <= i < |s|
      ensures IsSpace(s[i])
    {
      assert s[i] == t[i - a];
    }
  }

  /** `r` is the slice of `s` at offset `a`, and everything around it is white space. */
  ghost predicate TrimmedAt(s: string, r: string, a: int) {
    && 0 <= a <= |s| - |r|
    && r == s[a..a + |r|]
    && (forall i :: 0 <= i < a ==> IsSpace(s[i]))
    && (forall i :: a + |r| <= i < |s| ==> IsSpace(s[i]))
  }

  predicate StartsWith(s: string, prefix: string) {
    |prefix| <= |s| && s[..|prefix|] == prefix
  }

  ghost predicate OccursAt(s: string, pat: string, i: int) {
    0 <= i <= |s| - |pat| && s[i..i + |pat|] == pat
  }

  ghost predicate Contains(s: string, pat: string) {
    exists i :: OccursAt(s, pat, i)
  }

  /** Python's `s.replace(pat, '')`: scanning left to right, every
      non-overlapping occurrence of `pat` is cut out. */
  function RemoveAll(s: string, pat: string): (r: string)
    requires |pat| > 0
    ensures |r| <= |s|
    ensures !Contains(s, pat) ==> r == s
    ensures Contains(s, pat) ==> |r| <= |s| - |pat|
    decreases |s|
  {
    if |s| < |pat| then s
    else if s[..|pat|] == pat then
      assert OccursAt(s, pat, 0);
      RemoveAll(s[|pat|..], pat)
    else
      assert forall i :: OccursAt(s[1..], pat, i) ==> OccursAt(s, pat, i + 1);
      assert forall i :: OccursAt(s, pat, i) ==> i > 0 && OccursAt(s[1..], pat, i - 1);
      [s[0]] + RemoveAll(s[1..], pat)
  }

  /** Cutting a pattern off the front of a text that does not contain it gives
      back the text. */
  lemma RemoveAllPrefix(pat: string, t: string)
    requires |pat| > 0 && !Contains(t, pat)
    ensures RemoveAll(pat + t, pat) == t
  {
    assert (pat + t)[..|pat|] == pat;
    assert (pat + t)[|pat|..] == t;
  }
}
