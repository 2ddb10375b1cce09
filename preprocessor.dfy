/**
 * `clean_text`, the text normaliser shared by training and inference: lower
 * case, strip diacritics (NFKD, then drop everything that is not ASCII), turn
 * every character other than `a`-`z`, `0`-`9` and whitespace into a space,
 * collapse whitespace runs into one space and trim.
 */
module Preprocessor {
  import opened PyText

  /**
   * The ASCII characters left of `c` by `unicodedata.normalize('NFKD', ...)`
   * followed by `.encode('ASCII', 'ignore')`: the decomposition with every
   * non-ASCII part (combining marks above all) thrown away. Given for ASCII,
   * Latin-1 and a few compatibility characters; any other character has no
   * ASCII residue here.
   */
  function AsciiResidue(c: char): (r: string)
    ensures forall i :: 0 <= i < |r| ==> IsAscii(r[i])
    ensures IsAscii(c) ==> r == [c]
  {
    if IsAscii(c) then [c]
    // spaces and spacing accents whose compatibility decomposition starts with U+0020
    else if c == '\U{A0}' || c == '\U{A8}' || c == '\U{AF}' || c == '\U{B4}' || c == '\U{B8}'
         || '\U{2000}' <= c <= '\U{200A}' || c == '\U{202F}' || c == '\U{205F}' || c == '\U{3000}' then " "
    else if c == '\U{AA}' then "a"
    else if c == '\U{BA}' then "o"
    else if c == '\U{B2}' then "2"
    else if c == '\U{B3}' then "3"
    else if c == '\U{B9}' then "1"
    // vulgar fractions: digit, FRACTION SLASH (not ASCII), digit
    else if c == '\U{BC}' then "14"
    else if c == '\U{BD}' then "12"
    else if c == '\U{BE}' then "34"
    // Latin-1 letters with a diacritic
    else if '\U{C0}' <= c <= '\U{C5}' then "A"
    else if c == '\U{C7}' then "C"
    else if '\U{C8}' <= c <= '\U{CB}' then "E"
    else if '\U{CC}' <= c <= '\U{CF}' then "I"
    else if c == '\U{D1}' then "N"
    else if '\U{D2}' <= c <= '\U{D6}' then "O"
    else if '\U{D9}' <= c <= '\U{DC}' then "U"
    else if c == '\U{DD}' then "Y"
    else if '\U{E0}' <= c <= '\U{E5}' then "a"
    else if c == '\U{E7}' then "c"
    else if '\U{E8}' <= c <= '\U{EB}' then "e"
    else if '\U{EC}' <= c <= '\U{EF}' then "i"
    else if c == '\U{F1}' then "n"
    else if '\U{F2}' <= c <= '\U{F6}' then "o"
    else if '\U{F9}' <= c <= '\U{FC}' then "u"
    else if c == '\U{FD}' || c == '\U{FF}' then "y"
    // compatibility characters that decompose into several ASCII characters
    else if c == '\U{2026}' then "..."
    else if c == '\U{2121}' then "TEL"
    else if c == '\U{2122}' then "TM"
    else if c == '\U{FB01}' then "fi"
    else if c == '\U{FB02}' then "fl"
    else []
  }

  /** What one input character becomes after lower-casing and stripping diacritics. */
  function Fold(c: char): string {
    AsciiResidue(LowerChar(c))
  }

  /** The diacritic-stripping step: each character replaced by its ASCII residue. */
  function StripAccents(s: string): string {
    ConcatMap(s, AsciiResidue)
  }

  /** What is left after stripping diacritics is pure ASCII. */
  lemma {:induction false} StripAccentsIsAscii(s: string)
    ensures forall i :: 0 <= i < |StripAccents(s)| ==> IsAscii(StripAccents(s)[i])
    decreases |s|
  {
    if s != [] {
      StripAccentsIsAscii(s[1..]);
      var h, t := AsciiResidue(s[0]), StripAccents(s[1..]);
      forall i | 0 <= i < |h + t| ensures IsAscii((h + t)[i]) {
        if i >= |h| { assert (h + t)[i] == t[i - |h|]; }
      }
    }
  }

  /** Pure-ASCII text has no diacritics to strip. */
  lemma {:induction false} StripAccentsOfAscii(s: string)
    requires forall i :: 0 <= i < |s| ==> IsAscii(s[i])
    ensures StripAccents(s) == s
    decreases |s|
  {
    if s != [] {
      StripAccentsOfAscii(s[1..]);
      assert [s[0]] + s[1..] == s;
    }
  }

  /** Characters that `[^a-z0-9\s]` does not match. */
  predicate IsKept(c: char) {
    IsAsciiLower(c) || IsAsciiDigit(c) || IsSpace(c)
  }

  /** `re.sub(r"[^a-z0-9\s]", " ", s)`: a kept character stays, any other becomes a space. */
  function ReplaceDisallowed(s: string): string {
    seq(|s|, i requires 0 <= i < |s| => if IsKept(s[i]) then s[i] else ' ')
  }

  /** `re.sub(r"\s+", " ", s)`: every maximal run of whitespace becomes a single space. */
  function CollapseSpaces(s: string): (r: string)
    ensures |r| <= |s|
    decreases |s|
  {
    if s == [] then []
    else if IsSpace(s[0]) then [' '] + CollapseSpaces(StripLeft(s))
    else [s[0]] + CollapseSpaces(s[1..])
  }

  /**
   * The shape of a collapsed string: no whitespace but plain spaces, never
   * two spaces in a row, and it starts with a space exactly when `s` starts
   * with whitespace.
   */
  lemma {:induction false} CollapseSpacesShape(s: string)
    ensures forall i :: 0 <= i < |CollapseSpaces(s)| ==> CollapseSpaces(s)[i] == ' ' || !IsSpace(CollapseSpaces(s)[i])
    ensures forall i :: 0 <= i < |CollapseSpaces(s)| - 1 ==> !(CollapseSpaces(s)[i] == ' ' && CollapseSpaces(s)[i + 1] == ' ')
    ensures s != [] ==> CollapseSpaces(s) != [] && (IsSpace(s[0]) ==> CollapseSpaces(s)[0] == ' ') && (!IsSpace(s[0]) ==> CollapseSpaces(s)[0] == s[0])
    decreases |s|
  {
    if s != [] {
      var t := if IsSpace(s[0]) then StripLeft(s) else s[1..];
      CollapseSpacesShape(t);
      var c := CollapseSpaces(t);
      var r := CollapseSpaces(s);
      assert r == [if IsSpace(s[0]) then ' ' else s[0]] + c;
      assert t != [] && IsSpace(s[0]) ==> !IsSpace(t[0]);
      forall i | 0 <= i < |r| ensures r[i] == ' ' || !IsSpace(r[i]) {
        if i > 0 { assert r[i] == c[i - 1]; }
      }
      forall i | 0 <= i < |r| - 1 ensures !(r[i] == ' ' && r[i + 1] == ' ') {
        if i > 0 { assert r[i] == c[i - 1] && r[i + 1] == c[i]; }
      }
    }
  }

  /** Whatever class of non-space characters `s` is drawn from, the collapsed string is drawn from it too. */
  lemma {:induction false} CollapseKeepsCleanChars(s: string)
    requires forall i :: 0 <= i < |s| ==> IsCleanChar(s[i]) || IsSpace(s[i])
    ensures forall i :: 0 <= i < |CollapseSpaces(s)| ==> IsCleanChar(CollapseSpaces(s)[i])
    decreases |s|
  {
    if s != [] {
      var t := if IsSpace(s[0]) then StripLeft(s) else s[1..];
      assert forall i :: 0 <= i < |t| ==> t[i] == s[i + |s| - |t|];
      CollapseKeepsCleanChars(t);
      var c := CollapseSpaces(t);
      var r := CollapseSpaces(s);
      assert r == [if IsSpace(s[0]) then ' ' else s[0]] + c;
      forall i | 0 <= i < |r| ensures IsCleanChar(r[i]) {
        if i > 0 { assert r[i] == c[i - 1]; }
      }
    }
  }

  predicate IsCleanChar(c: char) {
    IsAsciiLower(c) || IsAsciiDigit(c) || c == ' '
  }

  /** The shape of every `clean_text` output. */
  predicate IsClean(s: string) {
    && (forall i :: 0 <= i < |s| ==> IsCleanChar(s[i]))
    && (forall i :: 0 <= i < |s| - 1 ==> !(s[i] == ' ' && s[i + 1] == ' '))
    && (s != [] ==> s[0] != ' ' && s[|s| - 1] != ' ')
  }

  /** The character-level stages of `clean_text`: lower case, diacritics stripped, disallowed characters turned into spaces. */
  function Replaced(text: string): string {
    ReplaceDisallowed(StripAccents(Lower(text)))
  }

  /** `clean_text`: the character-level stages, then whitespace runs collapsed into one space and the ends trimmed. */
  function CleanText(text: string): (r: string)
    ensures text == [] ==> r == []
    ensures r != [] ==> r[0] != ' ' && r[|r| - 1] != ' '
  {
    if text == [] then [] else var collapsed := CollapseSpaces(Replaced(text)); Strip(collapsed)
  }

  /** An empty input gives an empty output, and every output is made of `a`-`z`, `0`-`9` and single inner spaces only. */
  lemma CleanTextIsClean(text: string)
    ensures text == [] ==> CleanText(text) == []
    ensures IsClean(CleanText(text))
  {
    if text != [] {
      var replaced := Replaced(text);
      CollapseSpacesShape(replaced);
      CollapseKeepsCleanChars(replaced);
      StripOfCollapsedIsClean(CollapseSpaces(replaced));
    }
  }

  /** A window of a string of clean characters without double spaces is such a string too. */
  lemma CleanWindow(c: string, lo: nat, hi: nat)
    requires lo <= hi <= |c|
    requires forall i :: 0 <= i < |c| ==> IsCleanChar(c[i])
    requires forall i :: 0 <= i < |c| - 1 ==> !(c[i] == ' ' && c[i + 1] == ' ')
    ensures forall i :: 0 <= i < hi - lo ==> IsCleanChar(c[lo..hi][i])
    ensures forall i :: 0 <= i < hi - lo - 1 ==> !(c[lo..hi][i] == ' ' && c[lo..hi][i + 1] == ' ')
  {
    var w := c[lo..hi];
    forall i | 0 <= i < hi - lo ensures IsCleanChar(w[i]) {
      assert w[i] == c[lo + i];
    }
    forall i | 0 <= i < hi - lo - 1 ensures !(w[i] == ' ' && w[i + 1] == ' ') {
      assert w[i] == c[lo + i] && w[i + 1] == c[lo + i + 1];
    }
  }

  /** Trimming a collapsed string made of clean characters leaves a clean string. */
  lemma StripOfCollapsedIsClean(c: string)
    requires forall i :: 0 <= i < |c| ==> IsCleanChar(c[i])
    requires forall i :: 0 <= i < |c| - 1 ==> !(c[i] == ' ' && c[i + 1] == ' ')
    ensures IsClean(Strip(c))
  {
    var r := Strip(c);
    var lo := |c| - |StripLeft(c)|;
    StripIsWindow(c);
    CleanWindow(c, lo, lo + |r|);
  }

  // ---------------------------------------------------------------------
  // Idempotence

  /** Collapsing leaves alone a string whose only whitespace is single plain spaces. */
  lemma {:induction false} CollapseKeepsSingleSpaces(s: string)
    requires forall i :: 0 <= i < |s| ==> !IsSpace(s[i]) || s[i] == ' '
    requires forall i :: 0 <= i < |s| - 1 ==> !(s[i] == ' ' && s[i + 1] == ' ')
    ensures CollapseSpaces(s) == s
    decreases |s|
  {
    if s != [] {
      if IsSpace(s[0]) {
        assert StripLeft(s) == s[1..] by {
          assert StripLeft(s) == StripLeft(s[1..]);
          assert s[1..] != [] ==> !IsSpace(s[1..][0]);
        }
      }
      CollapseKeepsSingleSpaces(s[1..]);
    }
  }

  /** The character-level stages leave a clean string alone. */
  lemma ReplacedOfClean(y: string)
    requires forall i :: 0 <= i < |y| ==> IsCleanChar(y[i])
    ensures Replaced(y) == y
  {
    var lowered := Lower(y);
    forall i | 0 <= i < |y| ensures lowered[i] == y[i] {
      assert IsCleanChar(y[i]);
    }
    assert lowered == y;
    forall i | 0 <= i < |y| ensures IsAscii(y[i]) {
      assert IsCleanChar(y[i]);
    }
    StripAccentsOfAscii(y);
    var replaced := ReplaceDisallowed(y);
    forall i | 0 <= i < |y| ensures replaced[i] == y[i] {
      assert IsCleanChar(y[i]);
    }
    assert replaced == y;
  }

  /** A clean string is a fixed point of `CleanText`. */
  lemma CleanTextFixesCleanStrings(y: string)
    requires IsClean(y)
    ensures CleanText(y) == y
  {
    if y != [] {
      ReplacedOfClean(y);
      CollapseKeepsSingleSpaces(y);
    }
  }

  /** `clean_text(clean_text(x)) == clean_text(x)`. */
  lemma CleanTextIdempotent(text: string)
    ensures CleanText(CleanText(text)) == CleanText(text)
  {
    CleanTextIsClean(text);
    CleanTextFixesCleanStrings(CleanText(text));
  }

  /** On pure-ASCII input the output is never longer than the input. */
  lemma CleanTextOfAsciiIsNoLonger(text: string)
    requires forall i :: 0 <= i < |text| ==> IsAscii(text[i])
    ensures |CleanText(text)| <= |text|
  {
    var lowered := Lower(text);
    forall i | 0 <= i < |text| ensures IsAscii(lowered[i]) {
      assert IsAscii(text[i]);
    }
    StripAccentsOfAscii(lowered);
  }

  // ---------------------------------------------------------------------
  // Diacritics and separators

  /** A character that lower-cases and loses its diacritic to exactly one ASCII letter or digit. */
  predicate FoldsToAlnum(c: char) {
    |Fold(c)| == 1 && (IsAsciiLower(Fold(c)[0]) || IsAsciiDigit(Fold(c)[0]))
  }

  /** A word of such characters, each replaced by its base letter or digit. */
  function Folded(w: string): string
    requires forall i :: 0 <= i < |w| ==> FoldsToAlnum(w[i])
  {
    seq(|w|, i requires 0 <= i < |w| && FoldsToAlnum(w[i]) => Fold(w[i])[0])
  }

  /** A folded word has one ASCII letter or digit per character of the word. */
  lemma FoldedIsAlnum(w: string)
    requires forall i :: 0 <= i < |w| ==> FoldsToAlnum(w[i])
    ensures |Folded(w)| == |w|
    ensures forall i :: 0 <= i < |w| ==> IsAsciiLower(Folded(w)[i]) || IsAsciiDigit(Folded(w)[i])
  {
    var f := Folded(w);
    forall i | 0 <= i < |w| ensures IsAsciiLower(f[i]) || IsAsciiDigit(f[i]) {
      assert FoldsToAlnum(w[i]);
    }
  }

  /**
   * The base letter of an accented Latin-1 letter, read off the layout of
   * the Latin-1 block: the same row of capitals and small letters carries
   * the same base letter.
   */
  function LatinBase(c: char): char
    requires '\U{C0}' <= c <= '\U{FF}'
  {
    var u := if c >= '\U{E0}' then c as int - 0x20 else c as int;
    if u <= 0xC5 then 'a'
    else if u == 0xC7 then 'c'
    else if 0xC8 <= u <= 0xCB then 'e'
    else if 0xCC <= u <= 0xCF then 'i'
    else if u == 0xD1 then 'n'
    else if 0xD2 <= u <= 0xD6 then 'o'
    else if 0xD9 <= u <= 0xDC then 'u'
    else 'y'
  }

  /** Every accented Latin-1 letter, in either case, folds to its base letter in lower case. */
  lemma AccentedLettersFoldToBase(c: char)
    requires '\U{C0}' <= c <= '\U{FF}' && c !in "\U{C6}\U{D0}\U{D7}\U{D8}\U{DE}\U{DF}\U{E6}\U{F0}\U{F7}\U{F8}\U{FE}"
    ensures FoldsToAlnum(c) && IsAsciiLower(Fold(c)[0])
    ensures Fold(c) == [LatinBase(c)]
  {
    var l := LowerChar(c);
    assert '\U{E0}' <= l <= '\U{FF}' && l as int - 0x20 == (if c >= '\U{E0}' then c as int - 0x20 else c as int);
  }

  lemma StripAccentsAppend(a: string, b: string)
    ensures StripAccents(a + b) == StripAccents(a) + StripAccents(b)
  {
    ConcatMapAppend(a, b, AsciiResidue);
  }

  /** Replacing disallowed characters works character by character. */
  lemma ReplaceDisallowedAppend(x: string, y: string)
    ensures ReplaceDisallowed(x + y) == ReplaceDisallowed(x) + ReplaceDisallowed(y)
  {
  }

  /** The character-level stages work character by character. */
  lemma ReplacedAppend(a: string, b: string)
    ensures Replaced(a + b) == Replaced(a) + Replaced(b)
  {
    LowerAppend(a, b);
    StripAccentsAppend(Lower(a), Lower(b));
    ReplaceDisallowedAppend(StripAccents(Lower(a)), StripAccents(Lower(b)));
  }

  /** One character goes through the character-level stages as its folded residue. */
  lemma ReplacedChar(c: char)
    ensures Replaced([c]) == ReplaceDisallowed(Fold(c))
  {
    var l := LowerChar(c);
    assert Lower([c]) == [l];
    assert [l][1..] == [];
    assert StripAccents([l]) == AsciiResidue(l) + StripAccents([]);
  }

  lemma FoldedCons(w: string)
    requires w != [] && forall i :: 0 <= i < |w| ==> FoldsToAlnum(w[i])
    ensures Folded(w) == [Fold(w[0])[0]] + Folded(w[1..])
  {
    assert FoldsToAlnum(w[0]);
  }

  /** A word of foldable characters comes out of the character-level stages as its folded spelling. */
  lemma {:induction false} ReplacedFoldable(w: string)
    requires forall i :: 0 <= i < |w| ==> FoldsToAlnum(w[i])
    ensures Replaced(w) == Folded(w)
    decreases |w|
  {
    if w != [] {
      assert w == [w[0]] + w[1..];
      ReplacedAppend([w[0]], w[1..]);
      ReplacedChar(w[0]);
      assert FoldsToAlnum(w[0]);
      assert ReplaceDisallowed(Fold(w[0])) == [Fold(w[0])[0]];
      ReplacedFoldable(w[1..]);
      FoldedCons(w);
    }
  }

  predicate NoSpace(s: string) {
    forall i :: 0 <= i < |s| ==> !IsSpace(s[i])
  }

  /** Collapsing passes a whitespace-free prefix through untouched. */
  lemma {:induction false} CollapseAfterWord(a: string, b: string)
    requires NoSpace(a)
    ensures CollapseSpaces(a + b) == a + CollapseSpaces(b)
    decreases |a|
  {
    if a == [] {
      assert a + b == b;
    } else {
      var ab := a + b;
      assert ab[0] == a[0];
      assert ab[1..] == a[1..] + b;
      CollapseAfterWord(a[1..], b);
      CollapseWordHead(ab);
      assert [a[0]] + a[1..] == a;
    }
  }

  lemma CollapseWordHead(s: string)
    requires s != [] && !IsSpace(s[0])
    ensures CollapseSpaces(s) == [s[0]] + CollapseSpaces(s[1..])
  {
  }

  lemma {:induction false} StripLeftOfRun(sp: string, b: string)
    requires forall i :: 0 <= i < |sp| ==> IsSpace(sp[i])
    requires b == [] || !IsSpace(b[0])
    ensures StripLeft(sp + b) == b
    decreases |sp|
  {
    if sp != [] {
      assert (sp + b)[1..] == sp[1..] + b;
      StripLeftOfRun(sp[1..], b);
    } else {
      assert sp + b == b;
    }
  }

  /** A whole run of whitespace before a word becomes one space. */
  lemma CollapseRun(sp: string, b: string)
    requires sp != [] && forall i :: 0 <= i < |sp| ==> IsSpace(sp[i])
    requires b == [] || !IsSpace(b[0])
    ensures CollapseSpaces(sp + b) == [' '] + CollapseSpaces(b)
  {
    StripLeftOfRun(sp, b);
  }

  /** Two words with a run of whitespace between them collapse to the words and one space. */
  lemma CollapseJoin(a: string, sp: string, b: string)
    requires NoSpace(a) && NoSpace(b) && b != []
    requires sp != [] && forall i :: 0 <= i < |sp| ==> IsSpace(sp[i])
    ensures CollapseSpaces(a + sp + b) == a + " " + b
  {
    assert a + sp + b == a + (sp + b);
    CollapseAfterWord(a, sp + b);
    CollapseRun(sp, b);
    CollapseAfterWord(b, []);
    assert b + [] == b;
  }

  /** A character whose residue is non-empty and holds no ASCII letter or digit: ASCII punctuation, for one. */
  predicate IsSeparator(c: char) {
    Fold(c) != [] && forall i :: 0 <= i < |Fold(c)| ==> !IsAsciiLower(Fold(c)[i]) && !IsAsciiDigit(Fold(c)[i])
  }

  /** A separator becomes a non-empty run of spaces. */
  lemma SeparatorBecomesSpaces(c: char)
    requires IsSeparator(c)
    ensures Replaced([c]) != []
    ensures forall i :: 0 <= i < |Replaced([c])| ==> IsSpace(Replaced([c])[i])
  {
    ReplacedChar(c);
  }

  /** A folded word holds no whitespace. */
  lemma FoldedHasNoSpace(w: string)
    requires forall i :: 0 <= i < |w| ==> FoldsToAlnum(w[i])
    ensures NoSpace(Folded(w)) && |Folded(w)| == |w|
  {
    FoldedIsAlnum(w);
  }

  /** Punctuation between two words acts as a word separator: "a,b" becomes "a b". */
  lemma PunctuationSeparatesWords(u: string, p: char, v: string)
    requires u != [] && forall i :: 0 <= i < |u| ==> FoldsToAlnum(u[i])
    requires v != [] && forall i :: 0 <= i < |v| ==> FoldsToAlnum(v[i])
    requires IsSeparator(p)
    ensures CleanText(u + [p] + v) == Folded(u) + " " + Folded(v)
  {
    var fu, fv, sp := Folded(u), Folded(v), Replaced([p]);
    ReplacedAppend(u + [p], v);
    ReplacedAppend(u, [p]);
    ReplacedFoldable(u);
    ReplacedFoldable(v);
    FoldedHasNoSpace(u);
    FoldedHasNoSpace(v);
    SeparatorBecomesSpaces(p);
    CollapseJoin(fu, sp, fv);
    var out := fu + " " + fv;
    assert out[0] == fu[0] && out[|out| - 1] == fv[|fv| - 1];
  }

  /** Removing one trailing space from a word followed by a space. */
  lemma StripTrailingSpace(w: string)
    requires w != [] && NoSpace(w)
    ensures Strip(w + " ") == w
  {
    var s := w + " ";
    assert s[0] == w[0];
    assert StripLeft(s) == s;
    assert s[..|s| - 1] == w;
    assert StripRight(w) == w;
  }

  /** A word then a run of whitespace collapses to the word and one space. */
  lemma CollapseTrailingRun(a: string, sp: string)
    requires NoSpace(a)
    requires sp != [] && forall i :: 0 <= i < |sp| ==> IsSpace(sp[i])
    ensures CollapseSpaces(a + sp) == a + " "
  {
    CollapseAfterWord(a, sp);
    CollapseRun(sp, []);
    assert sp + [] == sp;
  }

  /** A foldable word then a separator: the folded word, then a run of whitespace. */
  lemma ReplacedWordThenSeparator(u: string, p: char)
    requires forall i :: 0 <= i < |u| ==> FoldsToAlnum(u[i])
    requires IsSeparator(p)
    ensures Replaced(u + [p]) == Folded(u) + Replaced([p])
  {
    ReplacedAppend(u, [p]);
    ReplacedFoldable(u);
  }

  /** Trailing punctuation disappears: "Suporte!" becomes "suporte". */
  lemma TrailingPunctuationVanishes(u: string, p: char)
    requires u != [] && forall i :: 0 <= i < |u| ==> FoldsToAlnum(u[i])
    requires IsSeparator(p)
    ensures CleanText(u + [p]) == Folded(u)
  {
    var fu := Folded(u);
    ReplacedWordThenSeparator(u, p);
    FoldedHasNoSpace(u);
    SeparatorBecomesSpaces(p);
    CollapseTrailingRun(fu, Replaced([p]));
    StripTrailingSpace(fu);
  }

  /** A character with no residue leaves the character-level stages as if it were absent. */
  lemma ReplacedDropsUnmapped(u: string, p: char, v: string)
    requires Fold(p) == []
    ensures Replaced(u + [p] + v) == Replaced(u + v)
  {
    ReplacedAppend(u + [p], v);
    ReplacedAppend(u, [p]);
    ReplacedAppend(u, v);
    ReplacedChar(p);
  }

  /**
   * A non-ASCII symbol with no ASCII residue (an em dash, a euro sign) is
   * dropped, not turned into a space: the text reads as if it were absent.
   */
  lemma UnmappedSymbolVanishes(u: string, p: char, v: string)
    requires Fold(p) == []
    ensures CleanText(u + [p] + v) == CleanText(u + v)
  {
    ReplacedDropsUnmapped(u, p, v);
    if u + v == [] {
      assert Replaced(u + v) == [];
    }
  }

  /** A word of letters and digits, accented or upper-case, comes out as its lower-case base spelling. */
  lemma CleanWordIsFolded(w: string)
    requires forall i :: 0 <= i < |w| ==> FoldsToAlnum(w[i])
    ensures CleanText(w) == Folded(w)
  {
    if w != [] {
      var f := Folded(w);
      ReplacedFoldable(w);
      FoldedHasNoSpace(w);
      CollapseAfterWord(f, []);
      assert f + [] == f;
    }
  }
}
