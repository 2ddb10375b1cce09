/**
 * The Python `str` operations the pipeline relies on, for strings taken as
 * sequences of Unicode scalar values: `isspace` (which is also what `\s`
 * matches in a `re` pattern), `\w` and `\d`, `lower`, `strip`, `startswith`
 * and the substring test `part in s`.
 */
module PyText {

  predicate IsAscii(c: char) { c < '\U{80}' }
  predicate IsAsciiDigit(c: char) { '0' <= c <= '9' }
  predicate IsAsciiLower(c: char) { 'a' <= c <= 'z' }
  predicate IsAsciiUpper(c: char) { 'A' <= c <= 'Z' }

  /** `str.isspace()`; `\s` in a `re` pattern over `str` matches the same characters. */
  predicate IsSpace(c: char) {
    || c == ' '
    || '\t' <= c <= '\r'
    || '\U{1C}' <= c <= '\U{1F}'
    || c == '\U{85}' || c == '\U{A0}' || c == '\U{1680}'
    || '\U{2000}' <= c <= '\U{200A}'
    || c == '\U{2028}' || c == '\U{2029}' || c == '\U{202F}' || c == '\U{205F}' || c == '\U{3000}'
  }

  /**
   * `\w` in a `re` pattern over `str`: letters, digits and numeric characters,
   * and the underscore. Given exactly for ASCII, Latin-1 and the Latin
   * Extended blocks (up to U+024F); every other character counts as a non-word
   * character.
   */
  predicate IsWordChar(c: char) {
    || IsAsciiLower(c) || IsAsciiUpper(c) || IsAsciiDigit(c) || c == '_'
    || c == '\U{AA}' || c == '\U{B2}' || c == '\U{B3}' || c == '\U{B5}'
    || c == '\U{B9}' || c == '\U{BA}' || '\U{BC}' <= c <= '\U{BE}'
    || ('\U{C0}' <= c <= '\U{24F}' && c != '\U{D7}' && c != '\U{F7}')
  }

  /** `\d` in a `re` pattern; only the ASCII decimal digits are modelled. */
  predicate IsDigit(c: char) { IsAsciiDigit(c) }

  /** `str.lower()` on one character, for ASCII and Latin-1; other characters are left as they are. */
  function LowerChar(c: char): (r: char)
    ensures IsAscii(c) <==> IsAscii(r)
    ensures IsAscii(c) ==> (r == c <==> !IsAsciiUpper(c))
    ensures IsAsciiUpper(c) ==> IsAsciiLower(r) && r as int == c as int + 32
  {
    if IsAsciiUpper(c) || ('\U{C0}' <= c <= '\U{DE}' && c != '\U{D7}') then (c as int + 32) as char else c
  }

  /** `str.lower()`, character by character. */
  function Lower(s: string): (r: string)
    ensures |r| == |s|
    ensures forall i :: 0 <= i < |r| ==> !IsAsciiUpper(r[i])
  {
    seq(|s|, i requires 0 <= i < |s| => LowerChar(s[i]))
  }

  /** Lower-casing works character by character. */
  lemma LowerAppend(a: string, b: string)
    ensures Lower(a + b) == Lower(a) + Lower(b)
  {
    var l, r := Lower(a + b), Lower(a) + Lower(b);
    forall i | 0 <= i < |l| ensures l[i] == r[i] {
      if i < |a| {
        assert (a + b)[i] == a[i];
      } else {
        assert (a + b)[i] == b[i - |a|];
      }
    }
  }

  /** `"".join(f(x) for x in s)`: the results of `f` on the elements of `s`, in order, joined. */
  function ConcatMap<T, U>(s: seq<T>, f: T -> seq<U>): seq<U>
    decreases |s|
  {
    if s == [] then [] else f(s[0]) + ConcatMap(s[1..], f)
  }

  /** Joining works element by element: the result for two sequences joined is the two results joined. */
  lemma {:induction false} ConcatMapAppend<T, U>(a: seq<T>, b: seq<T>, f: T -> seq<U>)
    ensures ConcatMap(a + b, f) == ConcatMap(a, f) + ConcatMap(b, f)
    decreases |a|
  {
    if a == [] {
      assert a + b == b;
    } else {
      assert (a + b)[0] == a[0];
      assert (a + b)[1..] == a[1..] + b;
      ConcatMapAppend(a[1..], b, f);
    }
  }

  /** A single element gives its own result. */
  lemma ConcatMapOne<T, U>(x: T, f: T -> seq<U>)
    ensures ConcatMap([x], f) == f(x)
  {
    assert [x][1..] == [];
  }

  /** One element more at the end adds its result at the end. */
  lemma ConcatMapSnoc<T, U>(s: seq<T>, x: T, f: T -> seq<U>)
    ensures ConcatMap(s + [x], f) == ConcatMap(s, f) + f(x)
  {
    ConcatMapAppend(s, [x], f);
    ConcatMapOne(x, f);
  }

  /** When every piece holds only elements satisfying `p`, so does the concatenation. */
  lemma {:induction false} ConcatMapAll<T, U>(s: seq<T>, f: T -> seq<U>, p: U -> bool)
    requires forall x, j :: x in s && 0 <= j < |f(x)| ==> p(f(x)[j])
    ensures forall j :: 0 <= j < |ConcatMap(s, f)| ==> p(ConcatMap(s, f)[j])
    decreases |s|
  {
    if s != [] {
      ConcatMapAll(s[1..], f, p);
      var h, t := f(s[0]), ConcatMap(s[1..], f);
      forall j | 0 <= j < |h + t| ensures p((h + t)[j]) {
        if j >= |h| {
          assert (h + t)[j] == t[j - |h|];
        }
      }
    }
  }

  /** `part` occurs in `s` starting at index `i`. */
  predicate OccursAt(s: string, part: string, i: int) {
    0 <= i && i + |part| <= |s| && s[i..i + |part|] == part
  }

  /** `str.lstrip()`: drops the leading run of whitespace. */
  function StripLeft(s: string): (r: string)
    ensures |r| <= |s| && r == s[|s| - |r|..]
    ensures r != [] ==> !IsSpace(r[0])
    ensures s != [] && IsSpace(s[0]) ==> |r| < |s|
  {
    if s != [] && IsSpace(s[0]) then StripLeft(s[1..]) else s
  }

  /** Everything `lstrip` drops is whitespace. */
  lemma {:induction false} StripLeftDropsSpaces(s: string)
    ensures forall i :: 0 <= i < |s| - |StripLeft(s)| ==> IsSpace(s[i])
    decreases |s|
  {
    if s != [] && IsSpace(s[0]) {
      StripLeftDropsSpaces(s[1..]);
      forall i | 1 <= i < |s| - |StripLeft(s)| ensures IsSpace(s[i]) {
        assert s[i] == s[1..][i - 1];
      }
    }
  }

  /** `str.rstrip()`: drops the trailing run of whitespace. */
  function StripRight(s: string): (r: string)
    ensures |r| <= |s| && r == s[..|r|]
    ensures r != [] ==> !IsSpace(r[|r| - 1])
  {
    if s != [] && IsSpace(s[|s| - 1]) then StripRight(s[..|s| - 1]) else s
  }

  /** Everything `rstrip` drops is whitespace. */
  lemma {:induction false} StripRightDropsSpaces(s: string)
    ensures forall i :: |StripRight(s)| <= i < |s| ==> IsSpace(s[i])
    decreases |s|
  {
    if s != [] && IsSpace(s[|s| - 1]) {
      StripRightDropsSpaces(s[..|s| - 1]);
      forall i | |StripRight(s)| <= i < |s| - 1 ensures IsSpace(s[i]) {
        assert s[i] == s[..|s| - 1][i];
      }
    }
  }

  /**
   * `str.strip()`. What is left starts and ends with a non-space character,
   * and a string that neither starts nor ends with whitespace is left as it
   * is; `StripIsWindow` and `StripEmptyIff` say what is cut off.
   */
  function Strip(s: string): (r: string)
    ensures |r| <= |s|
    ensures r != [] ==> !IsSpace(r[0]) && !IsSpace(r[|r| - 1])
    ensures s == [] || (!IsSpace(s[0]) && !IsSpace(s[|s| - 1])) ==> r == s
  {
    StripEdges(s);
    StripRight(StripLeft(s))
  }

  lemma StripEdges(s: string)
    ensures StripRight(StripLeft(s)) != [] ==> !IsSpace(StripRight(StripLeft(s))[0])
    ensures s == [] || (!IsSpace(s[0]) && !IsSpace(s[|s| - 1])) ==> StripRight(StripLeft(s)) == s
  {
    StripLeftDropsSpaces(s);
    StripRightDropsSpaces(StripLeft(s));
    StripWindow(s, StripLeft(s), StripRight(StripLeft(s)));
  }

  /** The stripped string is the window of `s` between a leading and a trailing run of whitespace. */
  lemma StripIsWindow(s: string)
    ensures OccursAt(s, Strip(s), |s| - |StripLeft(s)|)
    ensures forall i :: 0 <= i < |s| - |StripLeft(s)| ==> IsSpace(s[i])
    ensures forall i :: |s| - |StripLeft(s)| + |Strip(s)| <= i < |s| ==> IsSpace(s[i])
  {
    StripLeftDropsSpaces(s);
    StripRightDropsSpaces(StripLeft(s));
    StripWindow(s, StripLeft(s), StripRight(StripLeft(s)));
  }

  /** Stripping leaves nothing exactly when `s` is all whitespace. */
  lemma StripEmptyIff(s: string)
    ensures Strip(s) == [] <==> forall i :: 0 <= i < |s| ==> IsSpace(s[i])
  {
    StripLeftDropsSpaces(s);
    StripRightDropsSpaces(StripLeft(s));
    StripWindow(s, StripLeft(s), StripRight(StripLeft(s)));
  }

  /** How the two halves of `Strip` fit together: the result is a window of `s` cut out between two runs of whitespace. */
  lemma StripWindow(s: string, left: string, r: string)
    requires |left| <= |s| && left == s[|s| - |left|..] && forall i :: 0 <= i < |s| - |left| ==> IsSpace(s[i])
    requires left != [] ==> !IsSpace(left[0])
    requires |r| <= |left| && r == left[..|r|] && forall i :: |r| <= i < |left| ==> IsSpace(left[i])
    ensures OccursAt(s, r, |s| - |left|)
    ensures forall i :: |s| - |left| + |r| <= i < |s| ==> IsSpace(s[i])
    ensures r != [] ==> r[0] == left[0]
    ensures r == [] <==> forall i :: 0 <= i < |s| ==> IsSpace(s[i])
    ensures s == [] || (!IsSpace(s[0]) && !IsSpace(s[|s| - 1])) ==> r == s
  {
    var lo := |s| - |left|;
    forall i | lo + |r| <= i < |s| ensures IsSpace(s[i]) {
      assert s[i] == left[i - lo];
    }
    if r == [] {
      assert left == [];
    } else {
      assert r[0] == left[0] == s[lo];
    }
  }

  /** `s.startswith(prefix)`. */
  predicate StartsWith(s: string, prefix: string) {
    |prefix| <= |s| && s[..|prefix|] == prefix
  }

  /** `part in s`: `part` occurs somewhere in `s` as a contiguous substring. */
  predicate Contains(s: string, part: string)
    decreases |s|
  {
    StartsWith(s, part) || (s != [] && Contains(s[1..], part))
  }

  /** `Contains` agrees with the direct definition: some window of `s` equals `part`. */
  lemma {:induction false} ContainsIff(s: string, part: string)
    ensures Contains(s, part) <==> exists i :: OccursAt(s, part, i)
    decreases |s|
  {
    if Contains(s, part) {
      if !StartsWith(s, part) {
        ContainsIff(s[1..], part);
        var i :| OccursAt(s[1..], part, i);
        assert s[i + 1..i + 1 + |part|] == s[1..][i..i + |part|];
        assert OccursAt(s, part, i + 1);
      } else {
        assert OccursAt(s, part, 0);
      }
    }
    if exists i :: OccursAt(s, part, i) {
      var i :| OccursAt(s, part, i);
      if i > 0 {
        assert s[1..][i - 1..i - 1 + |part|] == s[i..i + |part|];
        assert OccursAt(s[1..], part, i - 1);
        ContainsIff(s[1..], part);
      } else {
        assert s[..|part|] == s[0..0 + |part|];
      }
    }
  }

  /** A window of `s` equal to `part` witnesses `part in s`. */
  lemma ContainsAt(s: string, part: string, i: nat)
    requires OccursAt(s, part, i)
    ensures Contains(s, part)
  {
    ContainsIff(s, part);
  }

  /** A string made of ASCII characters never contains a part holding a non-ASCII character. */
  lemma {:induction false} AsciiTextHasNoNonAsciiPart(s: string, part: string, j: nat)
    requires forall i :: 0 <= i < |s| ==> IsAscii(s[i])
    requires j < |part| && !IsAscii(part[j])
    ensures !Contains(s, part)
    decreases |s|
  {
    if s != [] {
      AsciiTextHasNoNonAsciiPart(s[1..], part, j);
    }
  }
}
