/**
 * `anonymize_text`: four `re.sub` passes, in order, that replace e-mail
 * addresses by "[EMAIL]", CPF numbers (formatted, then as eleven bare
 * digits) by "[CPF]" and any other run of six or more digits by "[NUMERO]".
 *
 * Each pattern is matched by hand at every position, with `\b` taken as the
 * boundary between a word and a non-word character, and `re.sub`'s
 * left-to-right scan is `Scan`, over the table of where a match starting
 * at each position ends: where a match starts the placeholder is
 * written and the scan resumes after the match, elsewhere one character is
 * copied.
 */
module Anonymizer {
  import opened Wrappers
  import opened PyText

  datatype Rule = EmailRule | CpfFormattedRule | CpfDigitsRule | LongNumberRule

  function Placeholder(r: Rule): string {
    match r
    case EmailRule => "[EMAIL]"
    case CpfFormattedRule => "[CPF]"
    case CpfDigitsRule => "[CPF]"
    case LongNumberRule => "[NUMERO]"
  }

  /** `\b` at position `k`: exactly one of the characters on either side is a word character. */
  predicate AtBoundary(s: string, k: nat)
    requires k <= |s|
  {
    (k > 0 && IsWordChar(s[k - 1])) != (k < |s| && IsWordChar(s[k]))
  }

  /** `[\w\.-]`, the class of the two halves of an e-mail address. */
  predicate IsEmailChar(c: char) {
    IsWordChar(c) || c == '.' || c == '-'
  }

  /** Where the maximal run of characters satisfying `p` that starts at `k` ends. */
  function RunEnd(s: string, k: nat, p: char -> bool): (e: nat)
    requires k <= |s|
    ensures k <= e <= |s|
    decreases |s| - k
  {
    if k < |s| && p(s[k]) then RunEnd(s, k + 1, p) else k
  }

  /** `n` digits start at `k`. */
  predicate DigitsAt(s: string, k: nat, n: nat) {
    k + n <= |s| && forall i :: k <= i < k + n ==> IsDigit(s[i])
  }

  /** `\d{3}\.\d{3}\.\d{3}-\d{2}` matches at `k`. */
  predicate FormattedCpfAt(s: string, k: nat) {
    && k + 14 <= |s|
    && DigitsAt(s, k, 3) && s[k + 3] == '.'
    && DigitsAt(s, k + 4, 3) && s[k + 7] == '.'
    && DigitsAt(s, k + 8, 3) && s[k + 11] == '-'
    && DigitsAt(s, k + 12, 2)
  }

  /**
   * The largest `d` with `lo <= d` and `d + 1 < hi` where a dot is followed
   * by a word character: the dot the backtracking of `[\w\.-]+\.\w+` settles
   * on, since the domain part is tried longest first.
   */
  function LastDot(s: string, lo: nat, hi: nat): (d: Option<nat>)
    requires hi <= |s|
    ensures d.Some? ==> lo <= d.value && d.value + 1 < hi && s[d.value] == '.' && IsWordChar(s[d.value + 1])
    decreases hi
  {
    if hi < lo + 2 then None
    else if s[hi - 2] == '.' && IsWordChar(s[hi - 1]) then Some(hi - 2)
    else LastDot(s, lo, hi - 1)
  }

  /**
   * Where `[\w\.-]+@[\w\.-]+\.\w+\b` matching at `k` ends, if it matches. The
   * local part is the whole class run from `k` (no shorter run can be
   * followed by the '@'), the domain part is cut at the last dot followed by
   * a word character, and the final `\w+` is the whole word run after that
   * dot, whose end is always a boundary.
   */
  function EmailEnd(s: string, k: nat): (m: Option<nat>)
    requires k <= |s|
    ensures m.Some? ==> k < m.value <= |s|
  {
    var at := RunEnd(s, k, IsEmailChar);
    if at == k || at == |s| || s[at] != '@' then None
    else
      var e := RunEnd(s, at + 1, IsEmailChar);
      match LastDot(s, at + 2, e)
      case None => None
      case Some(d) => Some(RunEnd(s, d + 1, IsWordChar))
  }

  /** Where the pattern of rule `r` matching at `k` ends, if it matches there. */
  function MatchEnd(r: Rule, s: string, k: nat): (m: Option<nat>)
    requires k <= |s|
    ensures m.Some? ==> k < m.value <= |s|
  {
    if !AtBoundary(s, k) then None
    else
      match r
      case EmailRule => EmailEnd(s, k)
      case CpfFormattedRule => if FormattedCpfAt(s, k) && AtBoundary(s, k + 14) then Some(k + 14) else None
      case CpfDigitsRule => if DigitsAt(s, k, 11) && AtBoundary(s, k + 11) then Some(k + 11) else None
      case LongNumberRule =>
        // `\d{6,}` is greedy, and a shorter run ends between two digits, never at a boundary
        var e := RunEnd(s, k, IsDigit);
        if e - k >= 6 && AtBoundary(s, e) then Some(e) else None
  }

  /** Where a match of rule `r` starting at each position of `s` ends, if one starts there. */
  function Matches(r: Rule, s: string): seq<Option<nat>> {
    seq(|s|, k requires 0 <= k < |s| => MatchEnd(r, s, k))
  }

  /** Every match in `t` ends after it starts and no later than `n`. */
  predicate Advancing(t: seq<Option<nat>>, n: nat) {
    |t| == n && forall k :: 0 <= k < n && t[k].Some? ==> k < t[k].value <= n
  }

  lemma MatchesAdvance(r: Rule, s: string)
    ensures Advancing(Matches(r, s), |s|)
  {
    var t := Matches(r, s);
    forall k | 0 <= k < |s| && t[k].Some? ensures k < t[k].value <= |s| {
      assert t[k] == MatchEnd(r, s, k);
    }
  }

  /**
   * `re.sub`'s scan of `s` from position `k`, given where a match starting
   * at each position ends: at a match the replacement is written and the
   * scan resumes where the match ends, elsewhere one character is copied.
   */
  function Scan(t: seq<Option<nat>>, rep: string, s: string, k: nat): string
    requires Advancing(t, |s|) && k <= |s|
    decreases |s| - k
  {
    if k == |s| then []
    else
      match t[k]
      case Some(e) => rep + Scan(t, rep, s, e)
      case None => [s[k]] + Scan(t, rep, s, k + 1)
  }

  /** `re.sub(pattern, placeholder, s)` for rule `r`. */
  function Sub(r: Rule, s: string): string {
    MatchesAdvance(r, s);
    Scan(Matches(r, s), Placeholder(r), s, 0)
  }

  /** `anonymize_text`. */
  function Anonymize(text: string): string {
    if text == [] then []
    else Sub(LongNumberRule, Sub(CpfDigitsRule, Sub(CpfFormattedRule, Sub(EmailRule, text))))
  }

  // ---------------------------------------------------------------------
  // Runs

  /** A run that covers `[k, j)` and stops at `j` ends at `j`. */
  lemma {:induction false} RunEndIs(s: string, k: nat, j: nat, p: char -> bool)
    requires k <= j <= |s|
    requires forall i :: k <= i < j ==> p(s[i])
    requires j == |s| || !p(s[j])
    ensures RunEnd(s, k, p) == j
    decreases j - k
  {
    if k < j {
      RunEndIs(s, k + 1, j, p);
    }
  }

  /** A run cannot get past a character outside its class. */
  lemma {:induction false} RunEndStopsAt(s: string, k: nat, j: nat, p: char -> bool)
    requires k <= j < |s| && !p(s[j])
    ensures RunEnd(s, k, p) <= j
    decreases j - k
  {
    if k < j && p(s[k]) {
      RunEndStopsAt(s, k + 1, j, p);
    }
  }

  /** Every character of the run is in the class, and the run is maximal. */
  lemma {:induction false} RunEndIsMaximal(s: string, k: nat, p: char -> bool)
    requires k <= |s|
    ensures forall i :: k <= i < RunEnd(s, k, p) ==> p(s[i])
    ensures RunEnd(s, k, p) < |s| ==> !p(s[RunEnd(s, k, p)])
    decreases |s| - k
  {
    if k < |s| && p(s[k]) {
      RunEndIsMaximal(s, k + 1, p);
    }
  }

  // ---------------------------------------------------------------------
  // The scan

  /** Where no match starts, the scan copies one character. */
  lemma ScanStep(t: seq<Option<nat>>, rep: string, s: string, i: nat)
    requires Advancing(t, |s|) && i < |s| && t[i] == None
    ensures Scan(t, rep, s, i) == [s[i]] + Scan(t, rep, s, i + 1)
  {
  }

  lemma SliceCons(s: string, i: nat, j: nat)
    requires i < j <= |s|
    ensures s[i..j] == [s[i]] + s[i + 1..j]
  {
  }

  /** Where no match starts in `[i, j)`, the scan copies that stretch as it is. */
  lemma {:induction false} ScanSkip(t: seq<Option<nat>>, rep: string, s: string, i: nat, j: nat)
    requires Advancing(t, |s|) && i <= j <= |s|
    requires forall k :: i <= k < j ==> t[k] == None
    ensures Scan(t, rep, s, i) == s[i..j] + Scan(t, rep, s, j)
    decreases j - i
  {
    if i < j {
      ScanStep(t, rep, s, i);
      ScanSkip(t, rep, s, i + 1, j);
      SliceCons(s, i, j);
    }
  }

  /** Where `w` occurs and no match starts inside it, the scan copies `w` and goes on after it. */
  lemma ScanCopiesWindow(t: seq<Option<nat>>, rep: string, s: string, w: string, k: nat)
    requires Advancing(t, |s|) && OccursAt(s, w, k)
    requires forall j :: k <= j < k + |w| ==> t[j] == None
    ensures Scan(t, rep, s, k) == w + Scan(t, rep, s, k + |w|)
  {
    ScanSkip(t, rep, s, k, k + |w|);
  }

  /** With no match from `i` on, the scan copies the rest of `s`. */
  lemma ScanRest(t: seq<Option<nat>>, rep: string, s: string, i: nat)
    requires Advancing(t, |s|) && i <= |s|
    requires forall k :: i <= k < |s| ==> t[k] == None
    ensures Scan(t, rep, s, i) == s[i..]
  {
    ScanSkip(t, rep, s, i, |s|);
    assert s[i..|s|] + [] == s[i..];
  }

  /** With one match, at `[lo, hi)`, and none before it or after it, the scan replaces exactly that stretch. */
  lemma ScanOneMatch(t: seq<Option<nat>>, rep: string, s: string, lo: nat, hi: nat)
    requires Advancing(t, |s|) && lo < hi <= |s| && t[lo] == Some(hi)
    requires forall k :: 0 <= k < lo ==> t[k] == None
    requires forall k :: hi <= k < |s| ==> t[k] == None
    ensures Scan(t, rep, s, 0) == s[..lo] + rep + s[hi..]
  {
    ScanRest(t, rep, s, hi);
    assert Scan(t, rep, s, lo) == rep + s[hi..];
    ScanSkip(t, rep, s, 0, lo);
    assert s[0..lo] == s[..lo];
  }

  /** With no match anywhere, the substitution changes nothing. */
  lemma SubWithoutMatch(r: Rule, s: string)
    requires forall k :: 0 <= k < |s| ==> MatchEnd(r, s, k) == None
    ensures Sub(r, s) == s
  {
    var t := Matches(r, s);
    MatchesAdvance(r, s);
    forall k | 0 <= k < |s| ensures t[k] == None {
    }
    ScanRest(t, Placeholder(r), s, 0);
  }

  /** With one match, at `[lo, hi)`, and none before it or after it, exactly that stretch is replaced. */
  lemma SubWithOneMatch(r: Rule, s: string, lo: nat, hi: nat)
    requires lo < hi <= |s| && MatchEnd(r, s, lo) == Some(hi)
    requires forall k :: 0 <= k < lo ==> MatchEnd(r, s, k) == None
    requires forall k :: hi <= k < |s| ==> MatchEnd(r, s, k) == None
    ensures Sub(r, s) == s[..lo] + Placeholder(r) + s[hi..]
  {
    var t := Matches(r, s);
    MatchesAdvance(r, s);
    forall k | 0 <= k < lo ensures t[k] == None {
    }
    forall k | hi <= k < |s| ensures t[k] == None {
    }
    assert t[lo] == Some(hi);
    ScanOneMatch(t, Placeholder(r), s, lo, hi);
  }

  // ---------------------------------------------------------------------
  // What each pattern needs

  /** The three digit patterns only match where a digit starts. */
  lemma DigitRuleStartsAtDigit(r: Rule, s: string, k: nat)
    requires r != EmailRule && k <= |s|
    ensures MatchEnd(r, s, k).Some? ==> k < |s| && IsDigit(s[k])
  {
  }

  /** The e-mail pattern only matches where the text holds an '@' after the start. */
  lemma EmailNeedsAt(s: string, k: nat)
    requires k <= |s|
    ensures MatchEnd(EmailRule, s, k).Some? ==> exists j :: k < j < |s| && s[j] == '@'
  {
    var at := RunEnd(s, k, IsEmailChar);
    if MatchEnd(EmailRule, s, k).Some? {
      assert k < at < |s| && s[at] == '@';
    }
  }

  /** Text without an '@' comes through the e-mail pass unchanged. */
  lemma NoAtIsUnchangedByEmailRule(s: string)
    requires forall j :: 0 <= j < |s| ==> s[j] != '@'
    ensures Sub(EmailRule, s) == s
  {
    forall k | 0 <= k < |s| ensures MatchEnd(EmailRule, s, k) == None {
      EmailNeedsAt(s, k);
    }
    SubWithoutMatch(EmailRule, s);
  }

  /** Text without digits and without '@': a placeholder, or the words around a redacted number. */
  predicate Plain(s: string) {
    forall i :: 0 <= i < |s| ==> !IsDigit(s[i]) && s[i] != '@'
  }

  /** The placeholders hold no digit and no '@', so no pattern can match inside one. */
  lemma PlaceholdersArePlain(r: Rule)
    ensures Plain(Placeholder(r))
  {
  }

  lemma PlainAppend(a: string, b: string)
    requires Plain(a) && Plain(b)
    ensures Plain(a + b)
  {
    forall i | 0 <= i < |a + b| ensures !IsDigit((a + b)[i]) && (a + b)[i] != '@' {
      if i >= |a| {
        assert (a + b)[i] == b[i - |a|];
      }
    }
  }

  /** Text without digits and '@' comes through every pass unchanged. */
  lemma PlainIsUnchanged(r: Rule, s: string)
    requires Plain(s)
    ensures Sub(r, s) == s
  {
    forall k | 0 <= k < |s| ensures MatchEnd(r, s, k) == None {
      if r == EmailRule {
        EmailNeedsAt(s, k);
      } else {
        DigitRuleStartsAtDigit(r, s, k);
      }
    }
    SubWithoutMatch(r, s);
  }

  /** A later digit pattern finds no match inside a placeholder written by an earlier pass. */
  lemma PlaceholderHasNoDigitMatch(r: Rule, q: Rule, s: string, k: nat)
    requires r != EmailRule && OccursAt(s, Placeholder(q), k)
    ensures forall j :: k <= j < k + |Placeholder(q)| ==> MatchEnd(r, s, j) == None
  {
    PlaceholdersArePlain(q);
    PlainWindow(s, Placeholder(q), k);
    NoDigitsNoDigitMatch(r, s, k, k + |Placeholder(q)|);
  }

  /** Every character of a formatted CPF is a digit, a '.' or a '-'. */
  lemma FormattedCpfChars(s: string, j: nat, m: nat)
    requires FormattedCpfAt(s, j) && j <= m < j + 14
    ensures IsDigit(s[m]) || s[m] == '.' || s[m] == '-'
  {
    if m < j + 3 {
    } else if m == j + 3 || m == j + 7 || m == j + 11 {
    } else if m < j + 7 {
    } else if m < j + 11 {
    } else {
    }
  }

  /**
   * A digit match that starts before a placeholder ends at the placeholder
   * at the latest: its opening '[' is neither a digit, a '.' nor a '-'.
   */
  lemma DigitMatchStopsBeforePlaceholder(r: Rule, q: Rule, s: string, k: nat, j: nat)
    requires r != EmailRule && OccursAt(s, Placeholder(q), k) && j < k && MatchEnd(r, s, j).Some?
    ensures MatchEnd(r, s, j).value <= k
  {
    assert s[k] == Placeholder(q)[0] == '[';
    match r
    case LongNumberRule =>
      RunEndStopsAt(s, j, k, IsDigit);
    case CpfDigitsRule =>
    case CpfFormattedRule =>
      if k < j + 14 {
        FormattedCpfChars(s, j, k);
      }
  }

  /**
   * When no match before `k` runs past `k`, the scan from `i` is the scan of
   * the text up to `k` followed by the scan from `k`.
   */
  lemma {:induction false} ScanSplits(t: seq<Option<nat>>, rep: string, s: string, i: nat, k: nat)
    requires Advancing(t, |s|) && i <= k <= |s|
    requires forall j :: 0 <= j < k && t[j].Some? ==> t[j].value <= k
    ensures Advancing(t[..k], k)
    ensures Scan(t, rep, s, i) == Scan(t[..k], rep, s[..k], i) + Scan(t, rep, s, k)
    decreases k - i
  {
    if i < k {
      assert t[..k][i] == t[i] && s[..k][i] == s[i];
      match t[i]
      case Some(e) =>
        ScanSplits(t, rep, s, e, k);
      case None =>
        ScanSplits(t, rep, s, i + 1, k);
    }
  }

  /**
   * In the table of a later digit pass, no match that starts before a
   * placeholder runs into it, and none starts inside it.
   */
  lemma PlaceholderInTable(r: Rule, q: Rule, s: string, k: nat)
    requires r != EmailRule && OccursAt(s, Placeholder(q), k)
    ensures forall j :: 0 <= j < k && Matches(r, s)[j].Some? ==> Matches(r, s)[j].value <= k
    ensures forall j :: k <= j < k + |Placeholder(q)| ==> Matches(r, s)[j] == None
  {
    var t := Matches(r, s);
    forall j | 0 <= j < k && t[j].Some? ensures t[j].value <= k {
      assert t[j] == MatchEnd(r, s, j);
      DigitMatchStopsBeforePlaceholder(r, q, s, k, j);
    }
    PlaceholderHasNoDigitMatch(r, q, s, k);
    forall j | k <= j < k + |Placeholder(q)| ensures t[j] == None {
      assert t[j] == MatchEnd(r, s, j);
    }
  }

  /**
   * Where `w` occurs at `k`, no match starts inside it and none before it
   * runs past its start, the scan is the scan of the text before `w`, then
   * `w`, then the scan of the text after it.
   */
  lemma ScanAroundWindow(t: seq<Option<nat>>, rep: string, s: string, w: string, k: nat)
    requires Advancing(t, |s|) && OccursAt(s, w, k)
    requires forall j :: 0 <= j < k && t[j].Some? ==> t[j].value <= k
    requires forall j :: k <= j < k + |w| ==> t[j] == None
    ensures Advancing(t[..k], k)
    ensures Scan(t, rep, s, 0) == Scan(t[..k], rep, s[..k], 0) + w + Scan(t, rep, s, k + |w|)
  {
    ScanSplits(t, rep, s, 0, k);
    ScanCopiesWindow(t, rep, s, w, k);
  }

  /**
   * A later digit pass keeps a placeholder written by an earlier pass: its
   * output is the pass over the text before the placeholder, the placeholder
   * itself, and the pass over the text after it. No match before the
   * placeholder runs into it, and none starts inside it.
   */
  lemma PlaceholderSurvivesDigitRules(r: Rule, q: Rule, s: string, k: nat)
    requires r != EmailRule && OccursAt(s, Placeholder(q), k)
    ensures Advancing(Matches(r, s), |s|) && Advancing(Matches(r, s)[..k], k)
      && Sub(r, s) == Scan(Matches(r, s)[..k], Placeholder(r), s[..k], 0) + Placeholder(q)
                      + Scan(Matches(r, s), Placeholder(r), s, k + |Placeholder(q)|)
  {
    MatchesAdvance(r, s);
    PlaceholderInTable(r, q, s, k);
    ScanAroundWindow(Matches(r, s), Placeholder(r), s, Placeholder(q), k);
  }

  /** The characters of a plain window of `s` are neither digits nor '@'. */
  lemma PlainWindow(s: string, w: string, k: nat)
    requires OccursAt(s, w, k) && Plain(w)
    ensures forall j :: k <= j < k + |w| ==> !IsDigit(s[j]) && s[j] != '@'
  {
    forall j | k <= j < k + |w| ensures !IsDigit(s[j]) && s[j] != '@' {
      assert s[j] == s[k..k + |w|][j - k];
    }
  }

  /** The digit patterns find no match in a stretch without digits. */
  lemma NoDigitsNoDigitMatch(r: Rule, s: string, i: nat, j: nat)
    requires r != EmailRule && i <= j <= |s|
    requires forall m :: i <= m < j ==> !IsDigit(s[m])
    ensures forall m :: i <= m < j ==> MatchEnd(r, s, m) == None
  {
    forall m | i <= m < j ensures MatchEnd(r, s, m) == None {
      DigitRuleStartsAtDigit(r, s, m);
    }
  }

  // ---------------------------------------------------------------------
  // A single run of digits

  /** The digits of `s` are exactly those in `[lo, hi)`. */
  predicate DigitsExactlyIn(s: string, lo: nat, hi: nat) {
    lo < hi <= |s| && forall i :: 0 <= i < |s| ==> (IsDigit(s[i]) <==> lo <= i < hi)
  }

  /** No formatted CPF can match where the digits form one unbroken run. */
  lemma FormattedCpfNeedsTwoRuns(s: string, lo: nat, hi: nat, k: nat)
    requires DigitsExactlyIn(s, lo, hi) && k <= |s|
    ensures MatchEnd(CpfFormattedRule, s, k) == None
  {
    if k + 14 <= |s| && IsDigit(s[k]) && IsDigit(s[k + 4]) {
      assert lo <= k && k + 4 < hi;
      assert IsDigit(s[k + 3]);
    }
  }

  /** Inside a run of digits there is no boundary, so the digit patterns can only match at its start. */
  lemma DigitRuleOnlyAtRunStart(r: Rule, s: string, lo: nat, hi: nat, k: nat)
    requires r != EmailRule && DigitsExactlyIn(s, lo, hi) && k <= |s| && k != lo
    ensures MatchEnd(r, s, k) == None
  {
    DigitRuleStartsAtDigit(r, s, k);
    if lo < k < hi {
      assert IsDigit(s[k - 1]) && IsDigit(s[k]);
    }
  }

  /** `\b\d{11}\b` matches the run exactly when it has eleven digits and stands alone. */
  lemma CpfDigitsAtRunStart(s: string, lo: nat, hi: nat)
    requires DigitsExactlyIn(s, lo, hi)
    ensures MatchEnd(CpfDigitsRule, s, lo) == if hi - lo == 11 && AtBoundary(s, lo) && AtBoundary(s, hi) then Some(hi) else None
  {
    if hi - lo < 11 {
      if lo + 11 <= |s| {
        assert !IsDigit(s[hi]);
      }
    } else if hi - lo > 11 {
      assert IsDigit(s[lo + 10]) && IsDigit(s[lo + 11]);
    }
  }

  /** `\b\d{6,}\b` matches the whole run exactly when it has six digits or more and stands alone. */
  lemma LongNumberAtRunStart(s: string, lo: nat, hi: nat)
    requires DigitsExactlyIn(s, lo, hi)
    ensures MatchEnd(LongNumberRule, s, lo) == if hi - lo >= 6 && AtBoundary(s, lo) && AtBoundary(s, hi) then Some(hi) else None
  {
    RunEndIs(s, lo, hi, IsDigit);
  }

  /** A digit pass over one run replaces the whole run when its pattern matches there, and changes nothing otherwise. */
  lemma DigitRuleOnRun(r: Rule, s: string, lo: nat, hi: nat)
    requires r == CpfDigitsRule || r == LongNumberRule
    requires DigitsExactlyIn(s, lo, hi)
    requires MatchEnd(r, s, lo) == None || MatchEnd(r, s, lo) == Some(hi)
    ensures MatchEnd(r, s, lo) == Some(hi) ==> Sub(r, s) == s[..lo] + Placeholder(r) + s[hi..]
    ensures MatchEnd(r, s, lo) == None ==> Sub(r, s) == s
  {
    forall k | 0 <= k < |s| && k != lo ensures MatchEnd(r, s, k) == None {
      DigitRuleOnlyAtRunStart(r, s, lo, hi, k);
    }
    if MatchEnd(r, s, lo) == Some(hi) {
      SubWithOneMatch(r, s, lo, hi);
    } else {
      SubWithoutMatch(r, s);
    }
  }

  /** Nothing before the run, or a non-word character: the run's start is a boundary. */
  predicate LeftOpen(p: string) {
    p == [] || !IsWordChar(p[|p| - 1])
  }

  /** Nothing after the run, or a non-word character: the run's end is a boundary. */
  predicate RightOpen(q: string) {
    q == [] || !IsWordChar(q[0])
  }

  lemma SingleRun(p: string, d: string, q: string)
    requires Plain(p) && Plain(q) && d != [] && forall i :: 0 <= i < |d| ==> IsDigit(d[i])
    ensures DigitsExactlyIn(p + d + q, |p|, |p| + |d|)
    ensures AtBoundary(p + d + q, |p|) <==> LeftOpen(p)
    ensures AtBoundary(p + d + q, |p| + |d|) <==> RightOpen(q)
    ensures (p + d + q)[..|p|] == p && (p + d + q)[|p| + |d|..] == q
  {
    var s := p + d + q;
    forall i | 0 <= i < |s| ensures IsDigit(s[i]) <==> |p| <= i < |p| + |d| {
      if i < |p| {
        assert s[i] == p[i];
      } else if i < |p| + |d| {
        assert s[i] == d[i - |p|];
      } else {
        assert s[i] == q[i - |p| - |d|];
      }
    }
    assert s[|p|] == d[0];
    assert s[|p| + |d| - 1] == d[|d| - 1];
    if p != [] {
      assert s[|p| - 1] == p[|p| - 1];
    }
    if q != [] {
      assert s[|p| + |d|] == q[0];
    }
  }

  /**
   * `anonymize_text` on a text whose only digits form one run `d`: an
   * eleven-digit run standing alone becomes "[CPF]" (its pass runs before
   * the long-number pass), any other run of six digits or more standing alone
   * becomes "[NUMERO]", and a shorter run, or one glued to a letter or an
   * underscore, is left as it is.
   */
  lemma AnonymizeDigitRun(p: string, d: string, q: string)
    requires Plain(p) && Plain(q) && d != [] && forall i :: 0 <= i < |d| ==> IsDigit(d[i])
    ensures Anonymize(p + d + q) ==
      if LeftOpen(p) && RightOpen(q) && |d| == 11 then p + "[CPF]" + q
      else if LeftOpen(p) && RightOpen(q) && |d| >= 6 then p + "[NUMERO]" + q
      else p + d + q
  {
    var s := p + d + q;
    var lo, hi := |p|, |p| + |d|;
    SingleRun(p, d, q);
    forall j | 0 <= j < |s| ensures s[j] != '@' {
      if j < lo {
        assert s[j] == p[j];
      } else if j >= hi {
        assert s[j] == q[j - hi];
      }
    }
    NoAtIsUnchangedByEmailRule(s);
    forall k | 0 <= k < |s| ensures MatchEnd(CpfFormattedRule, s, k) == None {
      FormattedCpfNeedsTwoRuns(s, lo, hi, k);
    }
    SubWithoutMatch(CpfFormattedRule, s);
    CpfDigitsAtRunStart(s, lo, hi);
    DigitRuleOnRun(CpfDigitsRule, s, lo, hi);
    if LeftOpen(p) && RightOpen(q) && |d| == 11 {
      var t := p + "[CPF]" + q;
      PlaceholdersArePlain(CpfDigitsRule);
      PlainAppend(p, "[CPF]");
      PlainAppend(p + "[CPF]", q);
      PlainIsUnchanged(LongNumberRule, t);
    } else {
      LongNumberAtRunStart(s, lo, hi);
      DigitRuleOnRun(LongNumberRule, s, lo, hi);
      if LeftOpen(p) && RightOpen(q) && |d| >= 6 {
        assert Sub(LongNumberRule, s) == p + "[NUMERO]" + q;
      }
    }
  }

  /** A formatted CPF standing alone among words is matched, from its first digit to its last. */
  lemma FormattedCpfMatches(p: string, f: string, q: string)
    requires LeftOpen(p) && RightOpen(q)
    requires |f| == 14 && FormattedCpfAt(f, 0)
    ensures MatchEnd(CpfFormattedRule, p + f + q, |p|) == Some(|p| + 14)
  {
    var s := p + f + q;
    var lo, hi := |p|, |p| + 14;
    forall i | 0 <= i < 14 ensures s[lo + i] == f[i] {
    }
    assert FormattedCpfAt(s, lo);
    assert AtBoundary(s, lo) by {
      if p != [] { assert s[lo - 1] == p[|p| - 1]; }
    }
    assert AtBoundary(s, hi) by {
      assert s[hi - 1] == f[13];
      if q != [] { assert s[hi] == q[0]; }
    }
  }

  /** The formatted-CPF pass replaces a formatted CPF standing alone among words, and nothing else. */
  lemma FormattedCpfPass(p: string, f: string, q: string)
    requires Plain(p) && Plain(q) && LeftOpen(p) && RightOpen(q)
    requires |f| == 14 && FormattedCpfAt(f, 0)
    ensures Sub(CpfFormattedRule, p + f + q) == p + "[CPF]" + q
  {
    var s := p + f + q;
    var lo, hi := |p|, |p| + 14;
    FormattedCpfMatches(p, f, q);
    forall k | 0 <= k < lo ensures MatchEnd(CpfFormattedRule, s, k) == None {
      assert s[k] == p[k];
      DigitRuleStartsAtDigit(CpfFormattedRule, s, k);
    }
    forall k | hi <= k < |s| ensures MatchEnd(CpfFormattedRule, s, k) == None {
      assert s[k] == q[k - hi];
      DigitRuleStartsAtDigit(CpfFormattedRule, s, k);
    }
    SubWithOneMatch(CpfFormattedRule, s, lo, hi);
    assert s[..lo] == p && s[hi..] == q;
  }

  /** A formatted CPF standing alone among words becomes "[CPF]". */
  lemma AnonymizeFormattedCpf(p: string, f: string, q: string)
    requires Plain(p) && Plain(q) && LeftOpen(p) && RightOpen(q)
    requires |f| == 14 && FormattedCpfAt(f, 0)
    ensures Anonymize(p + f + q) == p + "[CPF]" + q
  {
    var s := p + f + q;
    forall j | 0 <= j < |s| ensures s[j] != '@' {
      if j < |p| {
        assert s[j] == p[j];
      } else if j >= |p| + 14 {
        assert s[j] == q[j - |p| - 14];
      } else {
        assert s[j] == f[j - |p|];
      }
    }
    NoAtIsUnchangedByEmailRule(s);
    FormattedCpfPass(p, f, q);
    var t := p + "[CPF]" + q;
    PlaceholdersArePlain(CpfFormattedRule);
    PlainAppend(p, "[CPF]");
    PlainAppend(p + "[CPF]", q);
    PlainIsUnchanged(CpfDigitsRule, t);
    PlainIsUnchanged(LongNumberRule, t);
  }

  // ---------------------------------------------------------------------
  // An e-mail address

  /** A non-empty run of word characters. */
  predicate IsWord(w: string) {
    w != [] && forall i :: 0 <= i < |w| ==> IsWordChar(w[i])
  }

  /** A non-empty run of e-mail characters: letters, digits, '_', '.' and '-'. */
  predicate IsEmailRun(w: string) {
    w != [] && forall i :: 0 <= i < |w| ==> IsEmailChar(w[i])
  }

  /** A local part the pattern can start on: a run of e-mail characters that opens with a word character. */
  predicate IsLocalPart(w: string) {
    IsEmailRun(w) && IsWordChar(w[0])
  }

  /**
   * What may follow an address: the e-mail characters it starts with, if
   * any, are dots and dashes only (a sentence-final '.', say), so that they
   * neither lengthen the address nor hold a later dot to cut the domain at.
   */
  predicate ClosesAddress(q: string) {
    forall i :: 0 <= i < RunEnd(q, 0, IsEmailChar) ==> !IsWordChar(q[i])
  }

  /**
   * The search for the last usable dot stops at a dot followed by a word
   * character when no later dot is followed by one.
   */
  lemma {:induction false} LastDotIs(s: string, lo: nat, hi: nat, d: nat)
    requires lo <= d && d + 1 < hi <= |s|
    requires s[d] == '.' && IsWordChar(s[d + 1])
    requires forall j :: d < j && j + 1 < hi ==> s[j] != '.' || !IsWordChar(s[j + 1])
    ensures LastDot(s, lo, hi) == Some(d)
    decreases hi
  {
    if hi - 2 != d {
      LastDotIs(s, lo, hi - 1, d);
    }
  }

  /** The address `local@domain.tld`, written out. */
  function Address(local: string, domain: string, tld: string): string {
    local + "@" + domain + "." + tld
  }

  /** The characters of a word slice are word characters. */
  lemma WordCharsOf(s: string, a: nat, b: nat)
    requires a <= b <= |s| && IsWord(s[a..b])
    ensures forall i :: a <= i < b ==> IsWordChar(s[i])
  {
    forall i | a <= i < b ensures IsWordChar(s[i]) {
      assert s[i] == s[a..b][i - a];
    }
  }

  /** The characters of an e-mail-run slice are e-mail characters. */
  lemma EmailCharsOf(s: string, a: nat, b: nat)
    requires a <= b <= |s| && IsEmailRun(s[a..b])
    ensures forall i :: a <= i < b ==> IsEmailChar(s[i])
  {
    forall i | a <= i < b ensures IsEmailChar(s[i]) {
      assert s[i] == s[a..b][i - a];
    }
  }

  /** A run that covers `[k, j)` goes on as the run from `j`. */
  lemma {:induction false} RunEndSkips(s: string, k: nat, j: nat, p: char -> bool)
    requires k <= j <= |s|
    requires forall i :: k <= i < j ==> p(s[i])
    ensures RunEnd(s, k, p) == RunEnd(s, j, p)
    decreases j - k
  {
    if k < j {
      RunEndSkips(s, k + 1, j, p);
    }
  }

  /** A run measured in a suffix of `s` is the same run measured in `s`. */
  lemma {:induction false} RunEndOfSuffix(s: string, h: nat, k: nat, p: char -> bool)
    requires h <= k <= |s|
    ensures RunEnd(s[h..], k - h, p) + h == RunEnd(s, k, p)
    decreases |s| - k
  {
    if k < |s| {
      assert s[h..][k - h] == s[k];
      if p(s[k]) {
        RunEndOfSuffix(s, h, k + 1, p);
      }
    }
  }

  /** The e-mail characters that close an address are no word characters. */
  lemma ClosingRun(s: string, hi: nat)
    requires hi <= |s| && ClosesAddress(s[hi..])
    ensures hi <= RunEnd(s, hi, IsEmailChar)
    ensures forall j :: hi <= j < RunEnd(s, hi, IsEmailChar) ==> !IsWordChar(s[j])
    ensures hi < |s| ==> !IsWordChar(s[hi])
  {
    RunEndOfSuffix(s, hi, hi, IsEmailChar);
    var e := RunEnd(s, hi, IsEmailChar);
    forall j | hi <= j < e ensures !IsWordChar(s[j]) {
      assert s[j] == s[hi..][j - hi];
    }
    if hi < |s| && IsEmailChar(s[hi]) {
      assert hi < e;
    }
  }

  /** The run of e-mail characters after the '@' covers the domain, the dot and the top-level part, and goes on as the run after it. */
  lemma DomainRun(s: string, at: nat, dot: nat, hi: nat)
    requires at < dot < hi <= |s| && s[dot] == '.'
    requires forall i :: at < i < dot ==> IsEmailChar(s[i])
    requires forall i :: dot < i < hi ==> IsWordChar(s[i])
    ensures RunEnd(s, at + 1, IsEmailChar) == RunEnd(s, hi, IsEmailChar)
  {
    forall i | at + 1 <= i < hi ensures IsEmailChar(s[i]) {
    }
    RunEndSkips(s, at + 1, hi, IsEmailChar);
  }

  /**
   * `s` holds, from `lo` to `hi`, a local part, '@' at `at`, a domain run,
   * '.' at `dot` and a word, with no e-mail character before it and only
   * dots and dashes among the e-mail characters after it.
   */
  predicate EmailLayout(s: string, lo: nat, at: nat, dot: nat, hi: nat) {
    && lo < at && at + 1 < dot && dot + 1 < hi <= |s|
    && IsLocalPart(s[lo..at]) && IsEmailRun(s[at + 1..dot]) && IsWord(s[dot + 1..hi])
    && s[at] == '@' && s[dot] == '.'
    && (lo > 0 ==> !IsEmailChar(s[lo - 1]))
    && ClosesAddress(s[hi..])
  }

  /** The e-mail search from `lo` in terms of the runs it measures. */
  lemma EmailEndIs(s: string, lo: nat, at: nat, dot: nat, hi: nat, e: nat)
    requires lo < at < |s| && e <= |s| && s[at] == '@'
    requires RunEnd(s, lo, IsEmailChar) == at
    requires RunEnd(s, at + 1, IsEmailChar) == e
    requires LastDot(s, at + 2, e) == Some(dot)
    requires RunEnd(s, dot + 1, IsWordChar) == hi
    ensures EmailEnd(s, lo) == Some(hi)
  {
  }

  /** The run of e-mail characters from the start of a local part stops at the '@'. */
  lemma LocalRun(s: string, lo: nat, at: nat)
    requires lo < at < |s| && IsEmailRun(s[lo..at]) && s[at] == '@'
    ensures RunEnd(s, lo, IsEmailChar) == at
  {
    EmailCharsOf(s, lo, at);
    RunEndIs(s, lo, at, IsEmailChar);
  }

  /** The run of word characters after the dot is the top-level part. */
  lemma TopLevelRun(s: string, dot: nat, hi: nat)
    requires dot < hi <= |s| && IsWord(s[dot + 1..hi])
    requires hi < |s| ==> !IsWordChar(s[hi])
    ensures RunEnd(s, dot + 1, IsWordChar) == hi
  {
    WordCharsOf(s, dot + 1, hi);
    RunEndIs(s, dot + 1, hi, IsWordChar);
  }

  /** The dot before the top-level part is the last dot followed by a word character in the run after the '@'. */
  lemma TopLevelDot(s: string, at: nat, dot: nat, hi: nat)
    requires at + 1 < dot < hi <= |s| && s[dot] == '.' && IsWord(s[dot + 1..hi]) && ClosesAddress(s[hi..])
    ensures hi <= RunEnd(s, hi, IsEmailChar)
    ensures LastDot(s, at + 2, RunEnd(s, hi, IsEmailChar)) == Some(dot)
  {
    var e := RunEnd(s, hi, IsEmailChar);
    WordCharsOf(s, dot + 1, hi);
    ClosingRun(s, hi);
    forall j | dot < j && j + 1 < e ensures s[j] != '.' || !IsWordChar(s[j + 1]) {
      if j >= hi - 1 {
        assert hi <= j + 1 < e;
      }
    }
    LastDotIs(s, at + 2, e, dot);
  }

  /** The runs the e-mail search measures over an e-mail layout. */
  lemma EmailLayoutRuns(s: string, lo: nat, at: nat, dot: nat, hi: nat)
    requires EmailLayout(s, lo, at, dot, hi)
    ensures RunEnd(s, lo, IsEmailChar) == at
    ensures RunEnd(s, at + 1, IsEmailChar) == RunEnd(s, hi, IsEmailChar)
    ensures LastDot(s, at + 2, RunEnd(s, hi, IsEmailChar)) == Some(dot)
    ensures RunEnd(s, dot + 1, IsWordChar) == hi
  {
    LocalRun(s, lo, at);
    EmailCharsOf(s, at + 1, dot);
    WordCharsOf(s, dot + 1, hi);
    DomainRun(s, at, dot, hi);
    TopLevelDot(s, at, dot, hi);
    ClosingRun(s, hi);
    TopLevelRun(s, dot, hi);
  }

  /** The e-mail pattern matches such a layout from `lo` to `hi`. */
  lemma EmailMatchFromParts(s: string, lo: nat, at: nat, dot: nat, hi: nat)
    requires EmailLayout(s, lo, at, dot, hi)
    ensures MatchEnd(EmailRule, s, lo) == Some(hi)
  {
    EmailLayoutRuns(s, lo, at, dot, hi);
    EmailEndIs(s, lo, at, dot, hi, RunEnd(s, hi, IsEmailChar));
    assert IsWordChar(s[lo]) by {
      assert s[lo] == s[lo..at][0];
    }
  }

  /** The pieces of an address with text around it, found again by position. */
  lemma AddressSlices(p: string, local: string, domain: string, tld: string, q: string)
    ensures var s := p + Address(local, domain, tld) + q;
      var at := |p| + |local|;
      var dot := at + 1 + |domain|;
      var hi := dot + 1 + |tld|;
      && hi + |q| == |s|
      && s[..|p|] == p && s[|p|..at] == local && s[at] == '@'
      && s[at + 1..dot] == domain && s[dot] == '.' && s[dot + 1..hi] == tld && s[hi..] == q
  {
    var s := p + (local + ['@'] + domain + ['.'] + tld) + q;
    assert s == p + local + ['@'] + domain + ['.'] + tld + q;
  }

  /** Where the parts of an address sit in a text that holds it between two stretches without e-mail characters at the seams. */
  lemma AddressLayout(p: string, local: string, domain: string, tld: string, q: string)
    requires IsLocalPart(local) && IsEmailRun(domain) && IsWord(tld)
    requires p == [] || !IsEmailChar(p[|p| - 1])
    requires ClosesAddress(q)
    ensures var s := p + Address(local, domain, tld) + q;
      var at := |p| + |local|;
      && |p| <= |s| - |q| && s[..|p|] == p && s[|s| - |q|..] == q
      && EmailLayout(s, |p|, at, at + 1 + |domain|, |s| - |q|)
  {
    AddressSlices(p, local, domain, tld, q);
    var s := p + Address(local, domain, tld) + q;
    assert |p| > 0 ==> s[|p| - 1] == s[..|p|][|p| - 1];
  }

  /** No e-mail match starts inside the plain words around an address. */
  lemma NoEmailMatchAround(s: string, lo: nat, hi: nat, k: nat)
    requires lo <= hi <= |s| && k <= |s| && (k < lo || hi <= k)
    requires forall j :: 0 <= j < lo ==> s[j] != '@'
    requires forall j :: hi <= j < |s| ==> s[j] != '@'
    requires lo > 0 ==> !IsEmailChar(s[lo - 1])
    ensures MatchEnd(EmailRule, s, k) == None
  {
    var at := RunEnd(s, k, IsEmailChar);
    if k < lo {
      RunEndStopsAt(s, k, lo - 1, IsEmailChar);
    }
  }

  /** Around a stretch `[lo, hi)`, plain text with no e-mail character at the left seam holds no e-mail match. */
  lemma EmailOnlyInside(s: string, lo: nat, hi: nat)
    requires lo <= hi <= |s| && Plain(s[..lo]) && Plain(s[hi..])
    requires lo > 0 ==> !IsEmailChar(s[lo - 1])
    ensures forall k :: 0 <= k < |s| && (k < lo || hi <= k) ==> MatchEnd(EmailRule, s, k) == None
  {
    forall j | 0 <= j < lo ensures s[j] != '@' {
      assert s[j] == s[..lo][j];
    }
    forall j | hi <= j < |s| ensures s[j] != '@' {
      assert s[j] == s[hi..][j - hi];
    }
    forall k | 0 <= k < |s| && (k < lo || hi <= k) ensures MatchEnd(EmailRule, s, k) == None {
      NoEmailMatchAround(s, lo, hi, k);
    }
  }

  /** Over an e-mail layout with plain text around it, the e-mail pass replaces the address and nothing else. */
  lemma EmailPassAt(s: string, lo: nat, at: nat, dot: nat, hi: nat)
    requires EmailLayout(s, lo, at, dot, hi) && Plain(s[..lo]) && Plain(s[hi..])
    ensures Sub(EmailRule, s) == s[..lo] + "[EMAIL]" + s[hi..]
  {
    EmailMatchFromParts(s, lo, at, dot, hi);
    EmailOnlyInside(s, lo, hi);
    SubWithOneMatch(EmailRule, s, lo, hi);
  }

  /** The e-mail pass replaces an address standing alone among plain words, and nothing else. */
  lemma EmailPass(p: string, local: string, domain: string, tld: string, q: string)
    requires IsLocalPart(local) && IsEmailRun(domain) && IsWord(tld)
    requires Plain(p) && Plain(q)
    requires p == [] || !IsEmailChar(p[|p| - 1])
    requires ClosesAddress(q)
    ensures Sub(EmailRule, p + Address(local, domain, tld) + q) == p + "[EMAIL]" + q
  {
    var s := p + Address(local, domain, tld) + q;
    AddressLayout(p, local, domain, tld, q);
    var at := |p| + |local|;
    EmailPassAt(s, |p|, at, at + 1 + |domain|, |s| - |q|);
  }

  /** An e-mail address standing alone among words without digits becomes "[EMAIL]", digits in the address included. */
  lemma AnonymizeEmail(p: string, local: string, domain: string, tld: string, q: string)
    requires IsLocalPart(local) && IsEmailRun(domain) && IsWord(tld)
    requires Plain(p) && Plain(q)
    requires p == [] || !IsEmailChar(p[|p| - 1])
    requires ClosesAddress(q)
    ensures Anonymize(p + Address(local, domain, tld) + q) == p + "[EMAIL]" + q
  {
    EmailPass(p, local, domain, tld, q);
    var t := p + "[EMAIL]" + q;
    PlaceholdersArePlain(EmailRule);
    PlainAppend(p, "[EMAIL]");
    PlainAppend(p + "[EMAIL]", q);
    PlainIsUnchanged(CpfFormattedRule, t);
    PlainIsUnchanged(CpfDigitsRule, t);
    PlainIsUnchanged(LongNumberRule, t);
  }

  /** An empty text stays empty. */
  lemma AnonymizeEmpty()
    ensures Anonymize("") == ""
  {
  }
}
