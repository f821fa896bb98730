/** Java string primitives over `seq<char>`: the three different notions of
    "whitespace" the source relies on (`Character.isWhitespace` behind
    `isBlank`/`hasText`, `String.trim`'s "code point at most U+0020", and the
    regex class `\s`), trimming, ASCII lower-casing and substring search. */
module Text {

  /** `Character.isWhitespace`: the ASCII controls TAB..CR and FS..US, the
      Unicode space separators except the no-break spaces U+00A0, U+2007
      and U+202F, and the line and paragraph separators. */
  predicate IsWhitespace(c: char) {
    var k := c as int;
    || 9 <= k <= 13 || 28 <= k <= 32 || k == 0x1680
    || 0x2000 <= k <= 0x2006 || 0x2008 <= k <= 0x200A
    || k == 0x2028 || k == 0x2029 || k == 0x205F || k == 0x3000
  }

  /** Spring's `StringUtils.hasText` (and the negation of `String.isBlank`):
      non-empty with at least one non-whitespace character. A null string
      is modelled by the callers as an absent value. */
  predicate HasText(s: string) {
    exists i :: 0 <= i < |s| && !IsWhitespace(s[i])
  }

  /** The characters `String.trim` strips. */
  predicate IsTrimmable(c: char) {
    c as int <= 0x20
  }

  /** The regex class `\s`: space, TAB, LF, VT, FF, CR. */
  predicate IsRegexSpace(c: char) {
    c == ' ' || '\t' <= c <= '\r'
  }

  lemma RegexSpaceIsTrimmable(c: char)
    ensures IsRegexSpace(c) ==> IsTrimmable(c) && IsWhitespace(c)
  {
  }

  function TrimStart(s: string): (r: string)
    ensures |r| <= |s| && r == s[|s| - |r|..]
    ensures forall k :: 0 <= k < |s| - |r| ==> IsTrimmable(s[k])
    ensures r == [] || !IsTrimmable(r[0])
  {
    if s != [] && IsTrimmable(s[0]) then TrimStart(s[1..]) else s
  }

  function TrimEnd(s: string): (r: string)
    ensures |r| <= |s| && r == s[..|r|]
    ensures forall k :: |r| <= k < |s| ==> IsTrimmable(s[k])
    ensures r == [] || !IsTrimmable(r[|r| - 1])
  {
    if s != [] && IsTrimmable(s[|s| - 1]) then TrimEnd(s[..|s| - 1]) else s
  }

  /** `String.trim`: the longest middle slice that neither starts nor ends
      with a character at most U+0020; everything cut off is such a
      character. */
  function Trim(s: string): (r: string)
    ensures |r| <= |s|
    ensures r == [] || (!IsTrimmable(r[0]) && !IsTrimmable(r[|r| - 1]))
    ensures exists i :: CutFrom(s, r, i)
  {
    var a := TrimStart(s);
    var r := TrimEnd(a);
    TrimCut(s, a, r);
    r
  }

  /** Cutting a trimmable prefix and then a trimmable suffix leaves a
      middle slice of the original. */
  lemma TrimCut(s: string, a: string, r: string)
    requires |a| <= |s| && a == s[|s| - |a|..]
    requires forall k :: 0 <= k < |s| - |a| ==> IsTrimmable(s[k])
    requires |r| <= |a| && r == a[..|r|]
    requires forall k :: |r| <= k < |a| ==> IsTrimmable(a[k])
    ensures CutFrom(s, r, |s| - |a|)
  {
    var i := |s| - |a|;
    assert s[i..i + |r|] == a[..|r|];
    forall k | i + |r| <= k < |s| ensures IsTrimmable(s[k]) {
      assert s[k] == a[k - i];
    }
  }

  /** A text that neither starts nor ends with a trimmable character is
      its own trim. */
  lemma TrimNoop(s: string)
    requires s != [] && !IsTrimmable(s[0]) && !IsTrimmable(s[|s| - 1])
    ensures Trim(s) == s
  {
    assert TrimStart(s) == s;
    assert TrimEnd(s) == s;
  }

  /** `r` is the slice of `s` starting at `i`, and only trimmable characters
      lie outside it. */
  predicate CutFrom(s: string, r: string, i: int) {
    && 0 <= i <= |s| - |r| && s[i..i + |r|] == r
    && (forall k :: 0 <= k < i ==> IsTrimmable(s[k]))
    && (forall k :: i + |r| <= k < |s| ==> IsTrimmable(s[k]))
  }

  /** ASCII case folding; other characters are left as they are. */
  function LowerChar(c: char): char {
    if 'A' <= c <= 'Z' then (c as int + 32) as char else c
  }

  function Lower(s: string): (r: string)
    ensures |r| == |s|
    ensures forall i :: 0 <= i < |s| ==> r[i] == LowerChar(s[i])
  {
    seq(|s|, i requires 0 <= i < |s| => LowerChar(s[i]))
  }

  predicate StartsWith(s: string, prefix: string) {
    |prefix| <= |s| && s[..|prefix|] == prefix
  }

  /** `w` occurs in `s` at offset `i`. */
  predicate OccursAt(s: string, w: string, i: int) {
    0 <= i <= |s| - |w| && s[i..i + |w|] == w
  }

  /** `String.contains`: `w` occurs in `s` at some offset. */
  function Contains(s: string, w: string): (r: bool)
    ensures r <==> exists i :: OccursAt(s, w, i)
  {
    if StartsWith(s, w) then
      assert OccursAt(s, w, 0);
      true
    else if |s| <= |w| then
      assert forall i :: OccursAt(s, w, i) ==> i == 0;
      false
    else
      var r := Contains(s[1..], w);
      OccursShift(s, w);
      assert !OccursAt(s, w, 0);
      r
  }

  /** An occurrence in `s[1..]` is an occurrence in `s` one place later. */
  lemma OccursShift(s: string, w: string)
    requires |s| > 0
    ensures forall i :: 1 <= i ==> (OccursAt(s, w, i) <==> OccursAt(s[1..], w, i - 1))
    ensures forall j :: OccursAt(s[1..], w, j) ==> OccursAt(s, w, j + 1)
  {
    forall i | 1 <= i
      ensures OccursAt(s, w, i) <==> OccursAt(s[1..], w, i - 1)
    {
      if 1 <= i <= |s| - |w| {
        assert s[1..][i - 1..i - 1 + |w|] == s[i..i + |w|];
      }
    }
  }

  /** Two strings that differ at some index are different. */
  lemma DifferAt(a: string, b: string, i: nat)
    requires i < |a| && i < |b| && a[i] != b[i]
    ensures a != b
  {
  }

  /** `String.equalsIgnoreCase` with a word of lower-case ASCII letters on
      one side: a character matches a letter in either ASCII case, and also
      when Java's character case mapping carries it onto that letter --
      dotless i (U+0131) and dotted capital I (U+0130) for 'i', long s
      (U+017F) for 's', the Kelvin sign (U+212A) for 'k'. */
  predicate FoldsTo(c: char, letter: char)
    requires 'a' <= letter <= 'z'
  {
    || c == letter
    || c as int == letter as int - 32
    || (letter == 'i' && (c as int == 0x131 || c as int == 0x130))
    || (letter == 's' && c as int == 0x17F)
    || (letter == 'k' && c as int == 0x212A)
  }

  predicate LowerAsciiWord(word: string) {
    forall i :: 0 <= i < |word| ==> 'a' <= word[i] <= 'z'
  }

  predicate EqualsIgnoreCase(s: string, word: string)
    requires LowerAsciiWord(word)
  {
    |s| == |word| && forall i :: 0 <= i < |s| ==> FoldsTo(s[i], word[i])
  }

  /** Every spelling that equals a word ignoring case lower-cases (in ASCII)
      to the word itself, apart from the four non-ASCII foldings. */
  lemma EqualsIgnoreCaseAscii(s: string, word: string)
    requires LowerAsciiWord(word)
    requires forall i :: 0 <= i < |s| ==> s[i] as int < 128
    ensures EqualsIgnoreCase(s, word) <==> Lower(s) == word
  {
    if Lower(s) == word {
      assert forall i :: 0 <= i < |s| ==> LowerChar(s[i]) == word[i];
    }
    if EqualsIgnoreCase(s, word) {
      assert forall i :: 0 <= i < |s| ==> Lower(s)[i] == word[i];
    }
  }
}
