/** The court case-number patterns searched for by the browser extension:
    `[CD]-\d+-[A-Z]{2}-\d{2}-\d{6}` and the same with `\d{5,6}` at the end
    (JavaScript regular expressions without the `u` flag, so `\d` is `[0-9]`).
    `s.match(re)` yields the leftmost match; at that position the greedy
    quantifiers make it the longest one. */
module CasePattern {
  import opened Options
  import opened Text

  /** The final digit group: exactly six, or five or six. */
  datatype Tail = SixDigits | FiveOrSixDigits

  predicate IsUpperAscii(c: char) {
    'A' <= c <= 'Z'
  }

  /** w is `[CD]-` + d digits + `-` + two capitals + `-` + two digits + `-`
      + a final digit group of a length the tail allows. */
  predicate Shape(w: string, d: nat, tail: Tail) {
    1 <= d && 9 + d <= |w| &&
    (|w| - 9 - d == 6 || (tail == FiveOrSixDigits && |w| - 9 - d == 5)) &&
    (w[0] == 'C' || w[0] == 'D') && w[1] == '-' &&
    AllDigits(w[2..2 + d]) && w[2 + d] == '-' &&
    IsUpperAscii(w[3 + d]) && IsUpperAscii(w[4 + d]) && w[5 + d] == '-' &&
    IsDigit(w[6 + d]) && IsDigit(w[7 + d]) && w[8 + d] == '-' &&
    AllDigits(w[9 + d..])
  }

  /** The whole of w matches the pattern. */
  ghost predicate Matches(w: string, tail: Tail) {
    exists d :: Shape(w, d, tail)
  }

  /** The window of s of length n at position i matches the pattern. */
  ghost predicate MatchesAt(s: string, i: nat, n: nat, tail: Tail) {
    i + n <= |s| && Matches(s[i..i + n], tail)
  }

  /** Number of consecutive digits from position i on. */
  function DigitRun(s: string, i: nat): (n: nat)
    requires i <= |s|
    ensures i + n <= |s|
    ensures forall j :: i <= j < i + n ==> IsDigit(s[j])
    ensures i + n == |s| || !IsDigit(s[i + n])
    decreases |s| - i
  {
    if i < |s| && IsDigit(s[i]) then 1 + DigitRun(s, i + 1) else 0
  }

  /** Length of the match the regular expression engine reports when it
      starts at position i, if any. `\d+` is followed by `-`, so it takes the
      whole run of digits; `\d{5,6}` takes six digits when there are six. */
  function MatchLength(s: string, i: nat, tail: Tail): Option<nat>
    requires i <= |s|
  {
    if i + 2 > |s| || !(s[i] == 'C' || s[i] == 'D') || s[i + 1] != '-' then None
    else
      var d := DigitRun(s, i + 2);
      var p := i + 2 + d;
      if d == 0 || p + 7 > |s| || s[p] != '-' || !IsUpperAscii(s[p + 1]) || !IsUpperAscii(s[p + 2]) ||
         s[p + 3] != '-' || !IsDigit(s[p + 4]) || !IsDigit(s[p + 5]) || s[p + 6] != '-'
      then None
      else
        var t := DigitRun(s, p + 7);
        if t >= 6 then Some(15 + d)
        else if t == 5 && tail == FiveOrSixDigits then Some(14 + d)
        else None
  }

  lemma DigitRunExact(s: string, i: nat, d: nat)
    requires i + d <= |s|
    requires forall j :: i <= j < i + d ==> IsDigit(s[j])
    requires i + d == |s| || !IsDigit(s[i + d])
    ensures DigitRun(s, i) == d
    decreases d
  {
    if d > 0 {
      DigitRunExact(s, i + 1, d - 1);
    }
  }

  lemma DigitRunAtLeast(s: string, i: nat, d: nat)
    requires i + d <= |s|
    requires forall j :: i <= j < i + d ==> IsDigit(s[j])
    ensures DigitRun(s, i) >= d
    decreases d
  {
    if d > 0 {
      DigitRunAtLeast(s, i + 1, d - 1);
    }
  }

  lemma SubSlice(s: string, i: nat, j: nat, a: nat, b: nat)
    requires i <= j <= |s| && a <= b <= j - i
    ensures s[i..j][a..b] == s[i + a..i + b]
  {
    forall k | 0 <= k < b - a ensures s[i..j][a..b][k] == s[i + a..i + b][k] {
      assert s[i..j][a..b][k] == s[i + a + k];
    }
  }

  /** A run of digits in s, seen as a slice. */
  lemma DigitsSlice(s: string, lo: nat, hi: nat)
    requires lo <= hi <= |s|
    requires forall j :: lo <= j < hi ==> IsDigit(s[j])
    ensures AllDigits(s[lo..hi])
  {
    forall k | 0 <= k < hi - lo ensures IsDigit(s[lo..hi][k]) {
      assert s[lo..hi][k] == s[lo + k];
    }
  }

  /** A slice of digits, seen as positions of s. */
  lemma SliceDigits(s: string, lo: nat, hi: nat)
    requires lo <= hi <= |s|
    requires AllDigits(s[lo..hi])
    ensures forall j :: lo <= j < hi ==> IsDigit(s[j])
  {
    forall j | lo <= j < hi ensures IsDigit(s[j]) {
      assert s[lo..hi][j - lo] == s[j];
    }
  }

  /** What the scanner reports at position i really matches the pattern. */
  lemma MatchLengthSound(s: string, i: nat, tail: Tail)
    requires i <= |s| && MatchLength(s, i, tail).Some?
    ensures MatchesAt(s, i, MatchLength(s, i, tail).value, tail)
  {
    var n := MatchLength(s, i, tail).value;
    assert i + 2 <= |s| && (s[i] == 'C' || s[i] == 'D') && s[i + 1] == '-';
    var d := DigitRun(s, i + 2);
    var p := i + 2 + d;
    assert d != 0 && p + 7 <= |s|;
    var t := DigitRun(s, p + 7);
    assert (t >= 6 && n == 15 + d) || (t == 5 && tail == FiveOrSixDigits && n == 14 + d);
    var w := s[i..i + n];
    SubSlice(s, i, i + n, 2, 2 + d);
    DigitsSlice(s, i + 2, i + 2 + d);
    SubSlice(s, i, i + n, 9 + d, n);
    DigitsSlice(s, i + 9 + d, i + n);
    assert w[2 + d] == s[i + 2 + d] && w[5 + d] == s[i + 5 + d] && w[8 + d] == s[i + 8 + d];
    assert Shape(w, d, tail);
  }

  /** A window of s that has the pattern's shape, read back as positions
      of s. */
  lemma ShapeAt(s: string, i: nat, n: nat, d: nat, tail: Tail)
    requires i + n <= |s| && Shape(s[i..i + n], d, tail)
    ensures 1 <= d && (n == 15 + d || (tail == FiveOrSixDigits && n == 14 + d))
    ensures (s[i] == 'C' || s[i] == 'D') && s[i + 1] == '-'
    ensures forall j :: i + 2 <= j < i + 2 + d ==> IsDigit(s[j])
    ensures s[i + 2 + d] == '-' && IsUpperAscii(s[i + 3 + d]) && IsUpperAscii(s[i + 4 + d])
    ensures s[i + 5 + d] == '-' && IsDigit(s[i + 6 + d]) && IsDigit(s[i + 7 + d]) && s[i + 8 + d] == '-'
    ensures forall j :: i + 9 + d <= j < i + n ==> IsDigit(s[j])
  {
    var w := s[i..i + n];
    SubSlice(s, i, i + n, 2, 2 + d);
    SliceDigits(s, i + 2, i + 2 + d);
    SubSlice(s, i, i + n, 9 + d, n);
    SliceDigits(s, i + 9 + d, i + n);
    assert s[i] == w[0] && s[i + 1] == w[1] && s[i + 2 + d] == w[2 + d];
    assert s[i + 3 + d] == w[3 + d] && s[i + 4 + d] == w[4 + d] && s[i + 5 + d] == w[5 + d];
    assert s[i + 6 + d] == w[6 + d] && s[i + 7 + d] == w[7 + d] && s[i + 8 + d] == w[8 + d];
  }

  /** Every match that starts at position i is found there, and the one
      reported is the longest: the regular expression's greedy choice. */
  lemma MatchLengthComplete(s: string, i: nat, n: nat, tail: Tail)
    requires MatchesAt(s, i, n, tail)
    ensures MatchLength(s, i, tail).Some? && n <= MatchLength(s, i, tail).value
  {
    var d: nat :| Shape(s[i..i + n], d, tail);
    ShapeAt(s, i, n, d, tail);
    DigitRunExact(s, i + 2, d);
    DigitRunAtLeast(s, i + 9 + d, n - 9 - d);
  }

  /** Leftmost start at or after `from` where the pattern matches. */
  function FindFrom(s: string, tail: Tail, from: nat): (r: Option<nat>)
    requires from <= |s|
    ensures r.Some? ==> from <= r.value <= |s| && MatchLength(s, r.value, tail).Some?
    ensures forall j :: from <= j <= |s| && (r.None? || j < r.value) ==> MatchLength(s, j, tail).None?
    decreases |s| - from
  {
    if MatchLength(s, from, tail).Some? then Some(from)
    else if from == |s| then None
    else FindFrom(s, tail, from + 1)
  }

  /** `s.match(re)[0]`, or None when `s.match(re)` is null. */
  function FirstMatch(s: string, tail: Tail): Option<string> {
    match FindFrom(s, tail, 0)
    case None => None
    case Some(i) => Some(s[i..i + MatchLength(s, i, tail).value])
  }

  /** A reported match is a window of s that matches the pattern, no match
      starts further left, and none that starts at the same place is longer. */
  lemma FirstMatchIsLeftmostLongest(s: string, tail: Tail)
    requires FirstMatch(s, tail).Some?
    ensures var w := FirstMatch(s, tail).value;
      exists i: nat :: MatchesAt(s, i, |w|, tail) && s[i..i + |w|] == w &&
        (forall j: nat, n: nat :: j < i ==> !MatchesAt(s, j, n, tail)) &&
        (forall n: nat :: |w| < n ==> !MatchesAt(s, i, n, tail))
  {
    var i := FindFrom(s, tail, 0).value;
    var w := FirstMatch(s, tail).value;
    MatchLengthSound(s, i, tail);
    forall j: nat, n: nat | j < i ensures !MatchesAt(s, j, n, tail) {
      if MatchesAt(s, j, n, tail) {
        MatchLengthComplete(s, j, n, tail);
      }
    }
    forall n: nat | |w| < n ensures !MatchesAt(s, i, n, tail) {
      if MatchesAt(s, i, n, tail) {
        MatchLengthComplete(s, i, n, tail);
      }
    }
  }

  /** No match is reported exactly when no window of s matches. */
  lemma FirstMatchNone(s: string, tail: Tail)
    ensures FirstMatch(s, tail).None? <==> forall i: nat, n: nat :: !MatchesAt(s, i, n, tail)
  {
    if FirstMatch(s, tail).None? {
      forall i: nat, n: nat ensures !MatchesAt(s, i, n, tail) {
        if MatchesAt(s, i, n, tail) {
          MatchLengthComplete(s, i, n, tail);
        }
      }
    } else {
      var i := FindFrom(s, tail, 0).value;
      MatchLengthSound(s, i, tail);
    }
  }

  /** A six-digit case number is also a five-or-six-digit one, found at the
      same place: the wider pattern never misses what the narrower finds. */
  lemma SixDigitsWidens(s: string)
    requires FirstMatch(s, SixDigits).Some?
    ensures FirstMatch(s, FiveOrSixDigits).Some?
  {
    var i := FindFrom(s, SixDigits, 0).value;
    assert MatchLength(s, i, FiveOrSixDigits).Some?;
  }

  /** When only the wider pattern matches, its match ends in exactly five
      digits: it is not a six-digit case number. */
  lemma FallbackHasFiveDigits(s: string)
    requires FirstMatch(s, SixDigits).None? && FirstMatch(s, FiveOrSixDigits).Some?
    ensures Matches(FirstMatch(s, FiveOrSixDigits).value, FiveOrSixDigits)
    ensures !Matches(FirstMatch(s, FiveOrSixDigits).value, SixDigits)
  {
    var i := FindFrom(s, FiveOrSixDigits, 0).value;
    var w := FirstMatch(s, FiveOrSixDigits).value;
    MatchLengthSound(s, i, FiveOrSixDigits);
    if Matches(w, SixDigits) {
      assert MatchesAt(s, i, |w|, SixDigits);
      MatchLengthComplete(s, i, |w|, SixDigits);
    }
  }
}
