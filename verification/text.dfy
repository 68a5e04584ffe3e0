/**
 * Character classes and string normalisation shared by the game and the word catalogue:
 * lower-casing, the diacritic-stripping `normalize`, `trim`, the letter classes of the
 * guess filter, and the JavaScript `\s` whitespace class.
 */
module Text {

  // ----- character classes -----

  /** The JavaScript `\s` class (white space and line terminators); `trim` removes the same set. */
  predicate IsWhitespace(c: char)
  {
    c == '\t' || c == '\n' || c == '\U{000B}' || c == '\U{000C}' || c == '\r' || c == ' '
    || c == '\U{00A0}' || c == '\U{1680}' || ('\U{2000}' <= c <= '\U{200A}')
    || c == '\U{2028}' || c == '\U{2029}' || c == '\U{202F}' || c == '\U{205F}'
    || c == '\U{3000}' || c == '\U{FEFF}'
  }

  /** The lower-case Romanian letters with diacritics: ă â î ș ş ţ ț. */
  predicate IsRomanianSmall(c: char)
  {
    c == '\U{0103}' || c == '\U{00E2}' || c == '\U{00EE}' || c == '\U{0219}'
    || c == '\U{015F}' || c == '\U{0163}' || c == '\U{021B}'
  }

  /** The upper-case Romanian letters with diacritics: Ă Â Î Ș Ş Ţ Ț. */
  predicate IsRomanianCapital(c: char)
  {
    c == '\U{0102}' || c == '\U{00C2}' || c == '\U{00CE}' || c == '\U{0218}'
    || c == '\U{015E}' || c == '\U{0162}' || c == '\U{021A}'
  }

  /** The character class `[a-zăâîșşţț]` without the `i` flag: what a hint may reveal. */
  predicate IsHintLetter(c: char)
  {
    ('a' <= c <= 'z') || IsRomanianSmall(c)
  }

  /** The character class `[a-zăâîșşţț]` with the `i` flag: what counts as a letter guess. */
  predicate IsGuessLetter(c: char)
  {
    ('a' <= c <= 'z') || ('A' <= c <= 'Z') || IsRomanianSmall(c) || IsRomanianCapital(c)
  }

  /** The marks `normalize` strips: a few spacing accents and the fixed range of combining marks U+0300-U+036F. */
  predicate IsDiacritic(c: char)
  {
    c == '^' || c == '`' || c == '\U{00A8}' || c == '\U{00AF}' || c == '\U{00B4}'
    || c == '\U{00B7}' || c == '\U{00B8}' || ('\U{0300}' <= c <= '\U{036F}')
  }

  /** The capitals lower-casing changes: ASCII and Romanian. */
  predicate IsCapital(c: char)
  {
    ('A' <= c <= 'Z') || IsRomanianCapital(c)
  }

  /** The case pairs lower-casing maps along: an ASCII capital and the letter 32 code points on, and the seven Romanian pairs. */
  predicate CasePair(upper: char, lower: char)
  {
    ('A' <= upper <= 'Z' && lower as int == upper as int + 32)
    || (upper == '\U{0102}' && lower == '\U{0103}')  // Ă ă
    || (upper == '\U{00C2}' && lower == '\U{00E2}')  // Â â
    || (upper == '\U{00CE}' && lower == '\U{00EE}')  // Î î
    || (upper == '\U{0218}' && lower == '\U{0219}')  // Ș ș
    || (upper == '\U{015E}' && lower == '\U{015F}')  // Ş ş
    || (upper == '\U{0162}' && lower == '\U{0163}')  // Ţ ţ
    || (upper == '\U{021A}' && lower == '\U{021B}')  // Ț ț
  }

  lemma {:induction false} LetterClasses(c: char)
    ensures IsHintLetter(c) ==> IsGuessLetter(c)
    ensures IsGuessLetter(c) ==> !IsWhitespace(c) && !IsDiacritic(c)
    ensures IsGuessLetter(c) ==> c != '-' && c != ' ' && c != '\U{2022}'
  {
  }

  // ----- case and normalisation -----

  /** `toLowerCase` on one character, for ASCII and the Romanian capitals. */
  function LowerChar(c: char): (r: char)
    ensures !IsCapital(r)
    ensures IsCapital(c) ==> CasePair(c, r)
    ensures !IsCapital(c) ==> r == c
    ensures IsGuessLetter(c) <==> IsGuessLetter(r)
  {
    if 'A' <= c <= 'Z' then (c as int + 32) as char
    else if c == '\U{0102}' then '\U{0103}'
    else if c == '\U{00C2}' then '\U{00E2}'
    else if c == '\U{00CE}' then '\U{00EE}'
    else if c == '\U{0218}' then '\U{0219}'
    else if c == '\U{015E}' then '\U{015F}'
    else if c == '\U{0162}' then '\U{0163}'
    else if c == '\U{021A}' then '\U{021B}'
    else c
  }

  /** `s.toLowerCase()`. */
  function ToLower(s: string): (r: string)
    ensures |r| == |s|
    ensures forall i :: 0 <= i < |r| ==> !IsCapital(r[i])
    ensures forall i :: 0 <= i < |s| ==> IsCapital(s[i]) ==> CasePair(s[i], r[i])
    ensures forall i :: 0 <= i < |s| ==> !IsCapital(s[i]) ==> r[i] == s[i]
  {
    seq(|s|, i requires 0 <= i < |s| => LowerChar(s[i]))
  }

  /** The base letter left of a lower-case letter after canonical decomposition and diacritic stripping. */
  function BaseLetter(c: char): char
  {
    if c == '\U{0103}' || c == '\U{00E2}' then 'a'
    else if c == '\U{00EE}' then 'i'
    else if c == '\U{0219}' || c == '\U{015F}' then 's'
    else if c == '\U{0163}' || c == '\U{021B}' then 't'
    else c
  }

  /** What `normalize` makes of one character: nothing for a diacritic, otherwise its lower-case base letter. */
  function NormChar(c: char): (r: seq<char>)
    ensures |r| <= 1
    ensures forall i :: 0 <= i < |r| ==> Plain(r[i])
  {
    var l := LowerChar(c);
    if IsDiacritic(l) then [] else [BaseLetter(l)]
  }

  /**
   * `s.toLowerCase().normalize('NFD').replace(/\p{Diacritic}/gu, '')`: lower-case, decompose and
   * drop the diacritic marks, so that "Ștefan" and "stefan" compare equal.
   */
  function Normalize(s: string): (r: string)
    ensures |r| <= |s|
    ensures forall i :: 0 <= i < |r| ==> Plain(r[i])
  {
    if s == [] then []
    else
      var head, tail := NormChar(s[0]), Normalize(s[1..]);
      assert forall i :: |head| <= i < |head| + |tail| ==> (head + tail)[i] == tail[i - |head|];
      head + tail
  }

  /** What is left of a character after normalisation: no capital, no Romanian letter with a diacritic, no mark. */
  predicate Plain(c: char)
  {
    !IsCapital(c) && !IsRomanianSmall(c) && !IsDiacritic(c)
  }

  /** A string `normalize` leaves as it is: the form of every stored key and word. */
  predicate IsNormal(s: string)
  {
    Normalize(s) == s
  }

  lemma {:induction false} NormalizeAppend(a: string, b: string)
    ensures Normalize(a + b) == Normalize(a) + Normalize(b)
  {
    if a != [] {
      assert (a + b)[0] == a[0];
      assert (a + b)[1..] == a[1..] + b;
      NormalizeAppend(a[1..], b);
    } else {
      assert a + b == b;
    }
  }

  lemma NormCharFixed(c: char)
    ensures Normalize(NormChar(c)) == NormChar(c)
  {
    var l := LowerChar(c);
    if !IsDiacritic(l) {
      var d := BaseLetter(l);
      assert LowerChar(d) == d;
      assert Normalize([d]) == NormChar(d) + Normalize([]);
    }
  }

  /** A string of plain lower-case ASCII letters is its own normal form. */
  lemma {:induction false} PlainIsNormal(s: string)
    requires forall i :: 0 <= i < |s| ==> 'a' <= s[i] <= 'z'
    ensures IsNormal(s)
  {
    if s != [] {
      assert NormChar(s[0]) == [s[0]];
      PlainIsNormal(s[1..]);
      assert s == [s[0]] + s[1..];
    }
  }

  /** `normalize` is idempotent: normalising an already normalised string changes nothing. */
  lemma {:induction false} NormalizeIdempotent(s: string)
    ensures IsNormal(Normalize(s))
  {
    if s != [] {
      NormalizeAppend(NormChar(s[0]), Normalize(s[1..]));
      NormCharFixed(s[0]);
      NormalizeIdempotent(s[1..]);
    }
  }

  // ----- trimming -----

  /** How many white-space characters `s` starts with. */
  function LeadingSpace(s: string): (n: nat)
    ensures n <= |s|
    ensures forall i :: 0 <= i < n ==> IsWhitespace(s[i])
    ensures n < |s| ==> !IsWhitespace(s[n])
  {
    if s != [] && IsWhitespace(s[0]) then
      var n := 1 + LeadingSpace(s[1..]);
      assert forall i :: 1 <= i < n ==> s[i] == s[1..][i - 1];
      n
    else 0
  }

  /** How many white-space characters `s` ends with. */
  function TrailingSpace(s: string): (n: nat)
    ensures n <= |s|
    ensures forall i :: |s| - n <= i < |s| ==> IsWhitespace(s[i])
    ensures n < |s| ==> !IsWhitespace(s[|s| - 1 - n])
  {
    if s != [] && IsWhitespace(s[|s| - 1]) then
      var n := 1 + TrailingSpace(s[..|s| - 1]);
      assert forall i :: |s| - n <= i < |s| - 1 ==> s[i] == s[..|s| - 1][i];
      n
    else 0
  }

  /** `s.trim()`: the slice of `s` between its leading and its trailing white space. */
  function Trim(s: string): (r: string)
    ensures exists a, b :: TrimmedAt(s, r, a, b)
    ensures r == [] <==> forall i :: 0 <= i < |s| ==> IsWhitespace(s[i])
    ensures r != [] ==> !IsWhitespace(r[0]) && !IsWhitespace(r[|r| - 1])
  {
    var a := LeadingSpace(s);
    if a == |s| then
      assert TrimmedAt(s, [], a, a);
      []
    else
      var n := TrailingSpace(s);
      assert !IsWhitespace(s[a]);
      var b := |s| - n;
      assert TrimmedAt(s, s[a..b], a, b);
      s[a..b]
  }

  /** `r` is `s[a..b]`, and everything `s` has outside that slice is white space. */
  predicate TrimmedAt(s: string, r: string, a: int, b: int)
  {
    && 0 <= a <= b <= |s| && r == s[a..b]
    && (forall i :: 0 <= i < a ==> IsWhitespace(s[i]))
    && (forall i :: b <= i < |s| ==> IsWhitespace(s[i]))
  }

  // ----- the guess filter -----

  /** `/^[a-zăâîșşţț\s]+$/i.test(input) && input.length <= 32`. */
  function LooksLikeGuess(input: string): (ok: bool)
    ensures ok ==> input != [] && forall i :: 0 <= i < |input| ==>
      input[i] != '-' && input[i] != '\U{2022}' && !IsDiacritic(input[i])
  {
    0 < |input| <= 32 && forall i :: 0 <= i < |input| ==> IsGuessLetter(input[i]) || IsWhitespace(input[i])
  }
}
