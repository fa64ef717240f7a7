/** The two regular expressions of the résumé parser, each stated as a
    predicate "the slice s[i..j] is a match", and the first-match search
    `re.search` performs with them. Character classes are ASCII: `\d` is
    0-9, `\s` is `Text.IsSpace`, and a word character for `\b` is an ASCII
    letter, digit or underscore. */
module Patterns {
  import opened Optional
  import opened Text

  predicate IsDigit(c: char) {
    '0' <= c <= '9'
  }

  predicate IsLetter(c: char) {
    'a' <= c <= 'z' || 'A' <= c <= 'Z'
  }

  /** `\w`, which decides where `\b` stands. */
  predicate IsWordChar(c: char) {
    IsLetter(c) || IsDigit(c) || c == '_'
  }

  /** `[a-zA-Z0-9._%+-]`, the class of the part before `@`. */
  predicate IsLocalChar(c: char) {
    IsLetter(c) || IsDigit(c) || c == '.' || c == '_' || c == '%' || c == '+' || c == '-'
  }

  /** `[a-zA-Z0-9.-]`, the class of the part after `@`. */
  predicate IsDomainChar(c: char) {
    IsLetter(c) || IsDigit(c) || c == '.' || c == '-'
  }

  /** `[-.\s]`, the optional separator between phone digit groups. */
  predicate IsSeparator(c: char) {
    c == '-' || c == '.' || IsSpace(c)
  }

  /** Every character of w is in the class P. */
  predicate All(w: string, P: char -> bool) {
    forall k :: 0 <= k < |w| ==> P(w[k])
  }

  /** All of a slice, stated by positions in the whole string. */
  lemma AllSlice(s: string, x: nat, y: nat, P: char -> bool)
    requires x <= y <= |s|
    ensures All(s[x..y], P) <==> forall t :: x <= t < y ==> P(s[t])
  {
    if forall t :: x <= t < y ==> P(s[t]) {
      forall k | 0 <= k < y - x ensures P(s[x..y][k]) {
        assert s[x..y][k] == s[x + k];
      }
    }
  }

  // ---------------------------------------------------------------------
  // The e-mail pattern  [a-zA-Z0-9._%+-]+@[a-zA-Z0-9.-]+\.[a-zA-Z]{2,}
  // ---------------------------------------------------------------------

  /** `w` matches the pattern with its `@` at `a` and its last dot at `d`:
      local part w[..a], domain w[a+1..d], top-level part w[d+1..]. */
  predicate EmailParts(w: string, a: int, d: int) {
    && 0 < a && a + 1 < d && d + 3 <= |w|
    && w[a] == '@' && w[d] == '.'
    && All(w[..a], IsLocalChar) && All(w[a + 1..d], IsDomainChar) && All(w[d + 1..], IsLetter)
  }

  /** The whole of `w` matches the e-mail pattern. */
  predicate IsEmail(w: string) {
    exists a, d :: 0 < a < d < |w| && EmailParts(w, a, d)
  }

  /** The slice s[i..j] is an e-mail match (the pattern has no anchors). */
  predicate EmailAt(s: string, i: int, j: int) {
    0 <= i <= j <= |s| && IsEmail(s[i..j])
  }

  // ---------------------------------------------------------------------
  // The phone pattern  \b\d{3}[-.\s]?\d{3}[-.\s]?\d{4}\b
  // ---------------------------------------------------------------------

  /** `\b` at position p of s: exactly one of the characters on either side is
      a word character (outside the string counts as a non-word character). */
  predicate WordBoundary(s: string, p: int) {
    0 <= p <= |s| && ((0 < p && IsWordChar(s[p - 1])) != (p < |s| && IsWordChar(s[p])))
  }

  /** `\d{4}` matching all of w. */
  predicate IsLastGroup(w: string) {
    |w| == 4 && All(w, IsDigit)
  }

  /** `\d{3}[-.\s]?\d{4}` matching all of w. */
  predicate IsMiddleAndLast(w: string) {
    && |w| >= 3 && All(w[..3], IsDigit)
    && (IsLastGroup(w[3..]) || (|w| > 3 && IsSeparator(w[3]) && IsLastGroup(w[4..])))
  }

  /** `\d{3}[-.\s]?\d{3}[-.\s]?\d{4}` matching all of w. */
  predicate IsPhone(w: string) {
    && |w| >= 3 && All(w[..3], IsDigit)
    && (IsMiddleAndLast(w[3..]) || (|w| > 3 && IsSeparator(w[3]) && IsMiddleAndLast(w[4..])))
  }

  /** The slice s[i..j] is a phone match, word boundaries included. */
  predicate PhoneAt(s: string, i: int, j: int) {
    0 <= i <= j <= |s| && WordBoundary(s, i) && WordBoundary(s, j) && IsPhone(s[i..j])
  }

  function CountDigits(w: string): nat {
    if w == [] then 0 else (if IsDigit(w[0]) then 1 else 0) + CountDigits(w[1..])
  }

  lemma {:induction false} CountDigitsAppend(a: string, b: string)
    ensures CountDigits(a + b) == CountDigits(a) + CountDigits(b)
  {
    if a != [] {
      assert (a + b)[0] == a[0] && (a + b)[1..] == a[1..] + b;
      CountDigitsAppend(a[1..], b);
    } else {
      assert a + b == b;
    }
  }

  lemma {:induction false} CountDigitsAll(w: string)
    requires All(w, IsDigit)
    ensures CountDigits(w) == |w|
  {
    if w != [] {
      CountDigitsAll(w[1..]);
    }
  }

  /** Counting the digits of `w` by its first three characters and the rest. */
  lemma CountDigitsGroup(w: string, n: nat)
    requires n <= |w| && All(w[..n], IsDigit)
    ensures CountDigits(w) == n + CountDigits(w[n..])
  {
    assert w == w[..n] + w[n..];
    CountDigitsAppend(w[..n], w[n..]);
    CountDigitsAll(w[..n]);
  }

  /** Dropping an optional separator leaves the digit count unchanged. */
  lemma CountDigitsSkipSeparator(w: string)
    requires |w| > 0 && IsSeparator(w[0])
    ensures CountDigits(w) == CountDigits(w[1..])
  {
  }

  lemma MiddleAndLastDigits(w: string)
    requires IsMiddleAndLast(w)
    ensures 7 <= |w| <= 8 && CountDigits(w) == 7
  {
    CountDigitsGroup(w, 3);
    var r := w[3..];
    if IsLastGroup(r) {
      CountDigitsAll(r);
    } else {
      CountDigitsSkipSeparator(r);
      assert r[1..] == w[4..];
      CountDigitsAll(w[4..]);
    }
  }

  /** A phone match is 10 to 12 characters long and holds exactly ten digits. */
  lemma PhoneDigits(w: string)
    requires IsPhone(w)
    ensures 10 <= |w| <= 12 && CountDigits(w) == 10
  {
    CountDigitsGroup(w, 3);
    var r := w[3..];
    if IsMiddleAndLast(r) {
      MiddleAndLastDigits(r);
    } else {
      CountDigitsSkipSeparator(r);
      assert r[1..] == w[4..];
      MiddleAndLastDigits(w[4..]);
    }
  }

  // ---------------------------------------------------------------------
  // Leftmost search, as `re.search` reports it
  // ---------------------------------------------------------------------

  /** The largest end j' <= j such that s[i..j'] matches `m`, if any. */
  function LongestEnd(s: string, m: (string, int, int) -> bool, i: nat, j: nat): (r: Option<nat>)
    requires i <= j <= |s|
    ensures r.Some? ==> i <= r.value <= j && m(s, i, r.value)
    ensures r.Some? ==> forall j' :: r.value < j' <= j ==> !m(s, i, j')
    ensures r.None? ==> forall j' :: i <= j' <= j ==> !m(s, i, j')
    decreases j - i
  {
    if m(s, i, j) then Some(j)
    else if j == i then None
    else LongestEnd(s, m, i, j - 1)
  }

  /** The first start at or after `i` where `m` matches, with the longest match
      there: no match starts between `i` and it, none at it reaches further. */
  function LeftmostFrom(s: string, m: (string, int, int) -> bool, i: nat): (r: Option<(nat, nat)>)
    requires i <= |s|
    ensures r.Some? ==> i <= r.value.0 <= r.value.1 <= |s| && m(s, r.value.0, r.value.1)
    ensures r.Some? ==> forall i', j' :: i <= i' < r.value.0 && i' <= j' <= |s| ==> !m(s, i', j')
    ensures r.Some? ==> forall j' :: r.value.1 < j' <= |s| ==> !m(s, r.value.0, j')
    ensures r.None? ==> forall i', j' :: i <= i' <= j' <= |s| ==> !m(s, i', j')
    decreases |s| - i
  {
    match LongestEnd(s, m, i, |s|)
    case Some(j) => Some((i, j))
    case None => if i == |s| then None else LeftmostFrom(s, m, i + 1)
  }

  /** `SearchFrom(s, engine, i)`: try each start from `i` on, as `re.search`
      does, and report the first start where `engine` finds an end. */
  function SearchFrom(s: string, engine: (string, nat) -> Option<nat>, i: nat): Option<(nat, nat)>
    requires i <= |s|
    decreases |s| - i
  {
    match engine(s, i)
    case Some(j) => Some((i, j))
    case None => if i == |s| then None else SearchFrom(s, engine, i + 1)
  }

  /** An engine that finds the longest match at every start makes the search
      report the leftmost-longest match. */
  lemma {:induction false} SearchIsLeftmost(s: string, engine: (string, nat) -> Option<nat>,
                                            m: (string, int, int) -> bool, i: nat)
    requires i <= |s|
    requires forall k :: i <= k <= |s| ==> engine(s, k) == LongestEnd(s, m, k, |s|)
    ensures SearchFrom(s, engine, i) == LeftmostFrom(s, m, i)
    decreases |s| - i
  {
    if engine(s, i).None? && i < |s| {
      SearchIsLeftmost(s, engine, m, i + 1);
    }
  }

  // ---------------------------------------------------------------------
  // The engine's own order of trying, for both patterns
  // ---------------------------------------------------------------------

  /** End of the longest run of `P`-characters starting at k: where a greedy
      repetition of a character class first stops. */
  function RunEnd(s: string, k: nat, P: char -> bool): (e: nat)
    requires k <= |s|
    ensures k <= e <= |s|
    ensures forall t :: k <= t < e ==> P(s[t])
    ensures e == |s| || !P(s[e])
    decreases |s| - k
  {
    if k < |s| && P(s[k]) then RunEnd(s, k + 1, P) else k
  }

  /** `\.[a-zA-Z]{2,}` tried at d: the greedy letter run must reach two. */
  function TopLevelAt(s: string, d: nat): Option<nat> {
    if d < |s| && s[d] == '.' then
      var f := RunEnd(s, d + 1, IsLetter);
      if f >= d + 3 then Some(f) else None
    else None
  }

  /** Backtracking the greedy domain `[a-zA-Z0-9.-]+`: the dot is tried at d,
      then at d - 1, down to lo. */
  function DomainBacktrack(s: string, lo: nat, d: int): Option<nat>
    decreases d - lo + 1
  {
    if d < lo then None
    else match TopLevelAt(s, d)
      case Some(f) => Some(f)
      case None => DomainBacktrack(s, lo, d - 1)
  }

  /** Everything after an `@` at k: the domain run taken greedily, then given
      back one character at a time (the domain keeps at least one). */
  function AfterAt(s: string, k: nat): Option<nat>
    requires k < |s|
  {
    DomainBacktrack(s, k + 2, RunEnd(s, k + 1, IsDomainChar))
  }

  /** Backtracking the greedy local part s[i..k]: the `@` is tried at k, then
      at k - 1, down to i + 1. */
  function LocalBacktrack(s: string, i: nat, k: int): Option<nat>
    requires k <= |s|
    decreases k - i
  {
    if k <= i then None
    else
      var here := if k < |s| && s[k] == '@' then AfterAt(s, k) else None;
      if here.Some? then here else LocalBacktrack(s, i, k - 1)
  }

  /** The ending the engine finds for the e-mail pattern started at i. */
  function EmailEngine(s: string, i: nat): Option<nat> {
    if i > |s| then None else LocalBacktrack(s, i, RunEnd(s, i, IsLocalChar))
  }

  /** A run of three digits starting at p. */
  predicate Digits3At(s: string, p: nat) {
    p + 3 <= |s| && IsDigit(s[p]) && IsDigit(s[p + 1]) && IsDigit(s[p + 2])
  }

  /** `\d{4}\b` tried at q. */
  function LastGroupEngine(s: string, q: nat): Option<nat> {
    if q + 4 <= |s| && Digits3At(s, q) && IsDigit(s[q + 3]) && WordBoundary(s, q + 4)
    then Some(q + 4) else None
  }

  /** `\d{3}[-.\s]?\d{4}\b` tried at p; the optional separator is tried
      present first, as the greedy `?` does. */
  function MiddleEngine(s: string, p: nat): Option<nat> {
    if !Digits3At(s, p) then None
    else
      var q := p + 3;
      var taken := if q < |s| && IsSeparator(s[q]) then LastGroupEngine(s, q + 1) else None;
      if taken.Some? then taken else LastGroupEngine(s, q)
  }

  /** The ending the engine finds for the phone pattern started at i. */
  function PhoneEngine(s: string, i: nat): Option<nat> {
    if !(i <= |s| && WordBoundary(s, i) && Digits3At(s, i)) then None
    else
      var p := i + 3;
      var taken := if p < |s| && IsSeparator(s[p]) then MiddleEngine(s, p + 1) else None;
      if taken.Some? then taken else MiddleEngine(s, p)
  }

  // ---------------------------------------------------------------------
  // The phone engine finds exactly the declared matches
  // ---------------------------------------------------------------------

  lemma LastGroupSound(s: string, q: nat)
    requires LastGroupEngine(s, q).Some?
    ensures var e := LastGroupEngine(s, q).value;
            e == q + 4 && IsLastGroup(s[q..e]) && WordBoundary(s, e)
  {
  }

  lemma LastGroupComplete(s: string, q: nat, j: nat)
    requires q <= j <= |s| && IsLastGroup(s[q..j]) && WordBoundary(s, j)
    ensures LastGroupEngine(s, q) == Some(j)
  {
    assert s[q..j][0] == s[q] && s[q..j][1] == s[q + 1] && s[q..j][2] == s[q + 2] && s[q..j][3] == s[q + 3];
  }

  lemma MiddleSound(s: string, p: nat)
    requires MiddleEngine(s, p).Some?
    ensures var e := MiddleEngine(s, p).value;
            p <= e <= |s| && IsMiddleAndLast(s[p..e]) && WordBoundary(s, e)
  {
    var e := MiddleEngine(s, p).value;
    var q := p + 3;
    var taken := if q < |s| && IsSeparator(s[q]) then LastGroupEngine(s, q + 1) else None;
    var w := s[p..e];
    if taken.Some? {
      LastGroupSound(s, q + 1);
      assert w[..3] == s[p..q] && w[3] == s[q] && w[4..] == s[q + 1..e];
    } else {
      LastGroupSound(s, q);
      assert w[..3] == s[p..q] && w[3..] == s[q..e];
    }
  }

  lemma MiddleComplete(s: string, p: nat, j: nat)
    requires p <= j <= |s| && IsMiddleAndLast(s[p..j]) && WordBoundary(s, j)
    ensures MiddleEngine(s, p) == Some(j)
  {
    var w := s[p..j];
    var q := p + 3;
    assert w[..3] == s[p..q];
    assert w[0] == s[p] && w[1] == s[p + 1] && w[2] == s[p + 2];
    if IsLastGroup(w[3..]) {
      assert w[3..] == s[q..j];
      assert IsDigit(w[3..][0]) && w[3..][0] == s[q];
      LastGroupComplete(s, q, j);
    } else {
      assert w[3] == s[q] && w[4..] == s[q + 1..j];
      LastGroupComplete(s, q + 1, j);
    }
  }

  lemma PhoneSound(s: string, i: nat)
    requires PhoneEngine(s, i).Some?
    ensures var e := PhoneEngine(s, i).value;
            i <= e <= |s| && PhoneAt(s, i, e)
  {
    var e := PhoneEngine(s, i).value;
    var p := i + 3;
    var taken := if p < |s| && IsSeparator(s[p]) then MiddleEngine(s, p + 1) else None;
    var w := s[i..e];
    if taken.Some? {
      MiddleSound(s, p + 1);
      assert w[..3] == s[i..p] && w[3] == s[p] && w[4..] == s[p + 1..e];
    } else {
      MiddleSound(s, p);
      assert w[..3] == s[i..p] && w[3..] == s[p..e];
    }
  }

  lemma PhoneComplete(s: string, i: nat, j: nat)
    requires PhoneAt(s, i, j)
    ensures PhoneEngine(s, i) == Some(j)
  {
    var w := s[i..j];
    var p := i + 3;
    assert w[..3] == s[i..p];
    assert w[0] == s[i] && w[1] == s[i + 1] && w[2] == s[i + 2];
    if IsMiddleAndLast(w[3..]) {
      assert w[3..] == s[p..j];
      assert IsDigit(w[3..][..3][0]) && w[3..][..3][0] == s[p];
      MiddleComplete(s, p, j);
    } else {
      assert w[3] == s[p] && w[4..] == s[p + 1..j];
      MiddleComplete(s, p + 1, j);
    }
  }

  /** The phone engine's ending at a start is the longest phone match there
      (in fact the only one), and it has none where nothing matches. */
  lemma PhoneEngineLongest(s: string, i: nat)
    requires i <= |s|
    ensures PhoneEngine(s, i) == LongestEnd(s, PhoneAt, i, |s|)
  {
    var l := LongestEnd(s, PhoneAt, i, |s|);
    if l.Some? {
      PhoneComplete(s, i, l.value);
    } else if PhoneEngine(s, i).Some? {
      PhoneSound(s, i);
    }
  }

  // ---------------------------------------------------------------------
  // The e-mail engine finds the longest declared match
  // ---------------------------------------------------------------------

  lemma RunEndExact(s: string, k: nat, P: char -> bool, e: nat)
    requires k <= e <= |s|
    requires forall t :: k <= t < e ==> P(s[t])
    requires e == |s| || !P(s[e])
    ensures RunEnd(s, k, P) == e
  {
  }

  lemma RunEndAtLeast(s: string, k: nat, P: char -> bool, e: nat)
    requires k <= e <= |s|
    requires forall t :: k <= t < e ==> P(s[t])
    ensures RunEnd(s, k, P) >= e
  {
  }

  lemma TopLevelSound(s: string, d: nat)
    requires TopLevelAt(s, d).Some?
    ensures var f := TopLevelAt(s, d).value;
            d < |s| && s[d] == '.' && d + 3 <= f <= |s|
            && (forall t :: d < t < f ==> IsLetter(s[t])) && (f == |s| || !IsLetter(s[f]))
  {
  }

  /** Backtracking over the dot stops at some position in [lo, d] where the
      top-level part matches. */
  lemma {:induction false} DomainBacktrackSound(s: string, lo: nat, d: int)
    requires DomainBacktrack(s, lo, d).Some?
    ensures exists p :: lo <= p <= d && TopLevelAt(s, p) == DomainBacktrack(s, lo, d)
    decreases d - lo + 1
  {
    if TopLevelAt(s, d).None? {
      DomainBacktrackSound(s, lo, d - 1);
    } else {
      assert TopLevelAt(s, d) == DomainBacktrack(s, lo, d);
    }
  }

  /** If the top-level part matches at p in [lo, d], backtracking from d stops
      at p or at a dot to its right. */
  lemma {:induction false} DomainBacktrackFinds(s: string, lo: nat, d: int, p: nat)
    requires lo <= p <= d && TopLevelAt(s, p).Some?
    ensures DomainBacktrack(s, lo, d).Some?
    ensures exists p' :: p <= p' <= d && TopLevelAt(s, p') == DomainBacktrack(s, lo, d)
    decreases d - lo + 1
  {
    if TopLevelAt(s, d).None? {
      DomainBacktrackFinds(s, lo, d - 1, p);
    } else {
      assert TopLevelAt(s, d) == DomainBacktrack(s, lo, d);
    }
  }

  /** Backtracking over the `@`, started at k inside a run of local characters,
      stops at an `@` at a in (i, k] after which the rest matches. */
  lemma {:induction false} LocalBacktrackSound(s: string, i: nat, k: int)
    requires k <= |s|
    requires LocalBacktrack(s, i, k).Some?
    ensures exists a :: i < a <= k && a < |s| && s[a] == '@' && AfterAt(s, a) == LocalBacktrack(s, i, k)
    decreases k - i
  {
    var here := if k < |s| && s[k] == '@' then AfterAt(s, k) else None;
    if here.None? {
      LocalBacktrackSound(s, i, k - 1);
    }
  }

  /** EmailParts of the slice s[i..j], stated by positions in s. */
  predicate EmailPartsIn(s: string, i: nat, j: nat, a: nat, d: nat) {
    && i < a && a + 1 < d && d + 3 <= j <= |s|
    && s[a] == '@' && s[d] == '.'
    && (forall t :: i <= t < a ==> IsLocalChar(s[t]))
    && (forall t :: a < t < d ==> IsDomainChar(s[t]))
    && (forall t :: d < t < j ==> IsLetter(s[t]))
  }

  lemma EmailPartsInSlice(s: string, i: nat, j: nat, a: nat, d: nat)
    requires i < a && a + 1 < d && d + 3 <= j <= |s|
    ensures EmailParts(s[i..j], a - i, d - i) <==> EmailPartsIn(s, i, j, a, d)
  {
    var w := s[i..j];
    assert w[..a - i] == s[i..a];
    var mid, dom := w[a - i + 1..d - i], s[a + 1..d];
    forall k | 0 <= k < |mid| ensures mid[k] == dom[k] {
      assert mid[k] == w[a - i + 1 + k] == s[a + 1 + k];
    }
    assert mid == dom;
    assert w[d - i + 1..] == s[d + 1..j];
    assert w[a - i] == s[a] && w[d - i] == s[d];
    AllSlice(s, i, a, IsLocalChar);
    AllSlice(s, a + 1, d, IsDomainChar);
    AllSlice(s, d + 1, j, IsLetter);
  }

  lemma EmailSound(s: string, i: nat)
    requires EmailEngine(s, i).Some?
    ensures var f := EmailEngine(s, i).value;
            i <= f <= |s| && EmailAt(s, i, f)
  {
    var f := EmailEngine(s, i).value;
    var run := RunEnd(s, i, IsLocalChar);
    LocalBacktrackSound(s, i, run);
    var a :| i < a <= run && a < |s| && s[a] == '@' && AfterAt(s, a) == Some(f);
    var e := RunEnd(s, a + 1, IsDomainChar);
    DomainBacktrackSound(s, a + 2, e);
    var d :| a + 2 <= d <= e && TopLevelAt(s, d) == Some(f);
    TopLevelSound(s, d);
    assert EmailPartsIn(s, i, f, a, d);
    EmailPartsInSlice(s, i, f, a, d);
    assert EmailParts(s[i..f], a - i, d - i);
  }

  /** After an `@` at a, with a domain that reaches a dot at d and letters
      from d + 1 to j, the engine's domain and top-level part end at j or
      later. */
  lemma AfterAtReaches(s: string, a: nat, d: nat, j: nat)
    requires a + 1 < d && d + 3 <= j <= |s| && s[d] == '.'
    requires forall t :: a < t < d ==> IsDomainChar(s[t])
    requires forall t :: d < t < j ==> IsLetter(s[t])
    ensures AfterAt(s, a).Some? && AfterAt(s, a).value >= j
  {
    assert forall t :: a + 1 <= t < j ==> IsDomainChar(s[t]);
    var e := RunEnd(s, a + 1, IsDomainChar);
    RunEndAtLeast(s, a + 1, IsDomainChar, j);
    RunEndAtLeast(s, d + 1, IsLetter, j);
    assert TopLevelAt(s, d).Some?;
    DomainBacktrackFinds(s, a + 2, e, d);
    var p :| d <= p <= e && TopLevelAt(s, p) == DomainBacktrack(s, a + 2, e);
    TopLevelSound(s, p);
    assert !IsLetter(s[p]);
  }

  lemma EmailComplete(s: string, i: nat, j: nat)
    requires EmailAt(s, i, j)
    ensures EmailEngine(s, i).Some? && EmailEngine(s, i).value >= j
  {
    var w := s[i..j];
    var a', d' :| 0 < a' < d' < |w| && EmailParts(w, a', d');
    var a, d := i + a', i + d';
    EmailPartsInSlice(s, i, j, a, d);
    assert EmailPartsIn(s, i, j, a, d);
    RunEndExact(s, i, IsLocalChar, a);
    AfterAtReaches(s, a, d, j);
    assert LocalBacktrack(s, i, a) == AfterAt(s, a);
  }

  /** The e-mail engine's ending at a start is the longest e-mail match there,
      and it has none where nothing matches. */
  lemma EmailEngineLongest(s: string, i: nat)
    requires i <= |s|
    ensures EmailEngine(s, i) == LongestEnd(s, EmailAt, i, |s|)
  {
    var l := LongestEnd(s, EmailAt, i, |s|);
    if l.Some? {
      EmailComplete(s, i, l.value);
      EmailSound(s, i);
    } else if EmailEngine(s, i).Some? {
      EmailSound(s, i);
    }
  }

  // ---------------------------------------------------------------------
  // What `re.search` reports for each pattern
  // ---------------------------------------------------------------------

  /** s[i..j] is the match `re.search` reports: it matches, no match starts to
      its left, and none starting at i reaches further. */
  predicate FirstMatch(s: string, m: (string, int, int) -> bool, i: int, j: int) {
    && 0 <= i <= j <= |s| && m(s, i, j)
    && (forall i', j' :: 0 <= i' < i && i' <= j' <= |s| ==> !m(s, i', j'))
    && (forall j' :: j < j' <= |s| ==> !m(s, i, j'))
  }

  /** No slice of s matches. */
  predicate NoMatch(s: string, m: (string, int, int) -> bool) {
    forall i, j :: 0 <= i <= j <= |s| ==> !m(s, i, j)
  }

  /** The search over every start is the leftmost-longest e-mail match. */
  lemma EmailSearch(s: string)
    ensures SearchFrom(s, EmailEngine, 0) == LeftmostFrom(s, EmailAt, 0)
  {
    forall k | 0 <= k <= |s| ensures EmailEngine(s, k) == LongestEnd(s, EmailAt, k, |s|) {
      EmailEngineLongest(s, k);
    }
    SearchIsLeftmost(s, EmailEngine, EmailAt, 0);
  }

  /** The search over every start is the leftmost phone match. */
  lemma PhoneSearch(s: string)
    ensures SearchFrom(s, PhoneEngine, 0) == LeftmostFrom(s, PhoneAt, 0)
  {
    forall k | 0 <= k <= |s| ensures PhoneEngine(s, k) == LongestEnd(s, PhoneAt, k, |s|) {
      PhoneEngineLongest(s, k);
    }
    SearchIsLeftmost(s, PhoneEngine, PhoneAt, 0);
  }
}
