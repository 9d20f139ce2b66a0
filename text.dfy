/** The few Foundation string operations the to-do list relies on:
    trimming whitespace and newlines, case-insensitive containment, and the
    ordering `<` that `sorted()` uses on strings. */
module Text {

  /** Membership in the Unicode White_Space set, which is what
      `CharacterSet.whitespacesAndNewlines` holds. */
  predicate IsWhitespace(c: char) {
    || c == ' ' || c == '\t' || c == '\n' || c == '\U{000B}' || c == '\U{000C}' || c == '\r'
    || c == '\U{0085}' || c == '\U{00A0}' || c == '\U{1680}'
    || ('\U{2000}' <= c <= '\U{200A}')
    || c == '\U{2028}' || c == '\U{2029}' || c == '\U{202F}' || c == '\U{205F}' || c == '\U{3000}'
  }

  predicate AllWhitespace(s: string) {
    forall i :: 0 <= i < |s| ==> IsWhitespace(s[i])
  }

  /** A string with no whitespace at either end. */
  predicate IsTrimmed(s: string) {
    s == [] || (!IsWhitespace(s[0]) && !IsWhitespace(s[|s| - 1]))
  }

  /** `s[lo..hi]` is what trimming leaves of `s`: only whitespace lies
      outside it and it has no whitespace at either end. */
  predicate TrimmedSlice(s: string, lo: int, hi: int) {
    && 0 <= lo <= hi <= |s|
    && AllWhitespace(s[..lo]) && AllWhitespace(s[hi..])
    && IsTrimmed(s[lo..hi])
  }

  /** `trimmingCharacters(in: .whitespacesAndNewlines)`: whitespace is cut
      from both ends; what is left has none at either end, and is empty
      exactly when the input is all whitespace. */
  function Trim(s: string): (r: string)
    ensures |r| <= |s| && IsTrimmed(r)
    ensures r == [] <==> AllWhitespace(s)
    decreases |s|
  {
    if s == [] then []
    else if IsWhitespace(s[0]) then
      assert AllWhitespace(s) <==> AllWhitespace(s[1..]) by {
        if AllWhitespace(s[1..]) {
          forall i | 0 < i < |s| ensures IsWhitespace(s[i]) { assert s[i] == s[1..][i - 1]; }
        }
      }
      Trim(s[1..])
    else if IsWhitespace(s[|s| - 1]) then
      assert s[..|s| - 1][0] == s[0];
      Trim(s[..|s| - 1])
    else s
  }

  /** Leading whitespace widens the part cut off in front. */
  lemma TrimmedSliceAfterWhitespace(s: string, lo: int, hi: int)
    requires s != [] && IsWhitespace(s[0]) && TrimmedSlice(s[1..], lo, hi)
    ensures TrimmedSlice(s, lo + 1, hi + 1) && s[lo + 1..hi + 1] == s[1..][lo..hi]
  {
    var t := s[1..];
    assert s[lo + 1..hi + 1] == t[lo..hi];
    assert s[hi + 1..] == t[hi..];
    var front := s[..lo + 1];
    forall i | 0 <= i < |front| ensures IsWhitespace(front[i]) {
      if i > 0 { assert front[i] == t[..lo][i - 1]; }
    }
  }

  /** Trailing whitespace widens the part cut off behind. */
  lemma TrimmedSliceBeforeWhitespace(s: string, lo: int, hi: int)
    requires s != [] && IsWhitespace(s[|s| - 1]) && TrimmedSlice(s[..|s| - 1], lo, hi)
    ensures TrimmedSlice(s, lo, hi) && s[lo..hi] == s[..|s| - 1][lo..hi]
  {
    var t := s[..|s| - 1];
    assert 0 <= lo <= hi <= |t|;
    assert s[lo..hi] == t[lo..hi] by {
      forall i | 0 <= i < hi - lo ensures s[lo..hi][i] == t[lo..hi][i] { }
    }
    assert s[..lo] == t[..lo];
    var back := s[hi..];
    forall i | 0 <= i < |back| ensures IsWhitespace(back[i]) {
      if i < |t| - hi { assert back[i] == t[hi..][i]; }
    }
  }

  /** The trimmed string is the slice of the input between its leading and
      its trailing whitespace. */
  lemma {:induction false} TrimIsMiddleSlice(s: string)
    ensures exists lo, hi :: TrimmedSlice(s, lo, hi) && Trim(s) == s[lo..hi]
    decreases |s|
  {
    if s == [] {
      assert TrimmedSlice(s, 0, 0);
    } else if IsWhitespace(s[0]) {
      TrimIsMiddleSlice(s[1..]);
      var lo, hi :| TrimmedSlice(s[1..], lo, hi) && Trim(s[1..]) == s[1..][lo..hi];
      TrimmedSliceAfterWhitespace(s, lo, hi);
    } else if IsWhitespace(s[|s| - 1]) {
      TrimIsMiddleSlice(s[..|s| - 1]);
      var lo, hi :| TrimmedSlice(s[..|s| - 1], lo, hi) && Trim(s[..|s| - 1]) == s[..|s| - 1][lo..hi];
      TrimmedSliceBeforeWhitespace(s, lo, hi);
    } else {
      assert s[0..|s|] == s;
      assert TrimmedSlice(s, 0, |s|);
    }
  }

  /** A non-empty trimmed slice starts and ends on non-whitespace, and
      everything outside it is whitespace. */
  lemma TrimmedSliceEnds(s: string, lo: int, hi: int)
    requires TrimmedSlice(s, lo, hi) && lo < hi
    ensures !IsWhitespace(s[lo]) && !IsWhitespace(s[hi - 1])
    ensures forall k | 0 <= k < lo :: IsWhitespace(s[k])
    ensures forall k | hi <= k < |s| :: IsWhitespace(s[k])
  {
    assert s[lo..hi][0] == s[lo] && s[lo..hi][hi - 1 - lo] == s[hi - 1];
    forall k | 0 <= k < lo ensures IsWhitespace(s[k]) { assert s[..lo][k] == s[k]; }
    forall k | hi <= k < |s| ensures IsWhitespace(s[k]) { assert s[hi..][k - hi] == s[k]; }
  }

  /** A string that is not all whitespace has only one trimmed slice, so
      the slice `Trim` returns is determined by the definition above. */
  lemma TrimmedSliceUnique(s: string, lo: int, hi: int, lo': int, hi': int)
    requires TrimmedSlice(s, lo, hi) && TrimmedSlice(s, lo', hi')
    requires lo < hi && lo' < hi'
    ensures lo == lo' && hi == hi'
  {
    TrimmedSliceEnds(s, lo, hi);
    TrimmedSliceEnds(s, lo', hi');
  }

  /** Trimming an already trimmed string changes nothing. */
  lemma TrimOfTrimmed(s: string)
    requires IsTrimmed(s)
    ensures Trim(s) == s
  {
  }

  /** Trimming twice is trimming once. */
  lemma TrimIdempotent(s: string)
    ensures Trim(Trim(s)) == Trim(s)
  {
    TrimOfTrimmed(Trim(s));
  }

  /** `a` and `b` are the same letter up to case: equal, or an upper-case
      ASCII letter and its lower-case partner, in either order. */
  predicate CasePair(a: char, b: char) {
    || a == b
    || ('A' <= a <= 'Z' && b as int == a as int + 32)
    || ('A' <= b <= 'Z' && a as int == b as int + 32)
  }

  /** Case folding of a single character (ASCII letters only): an upper-case
      letter becomes its lower-case partner, anything else stays. */
  function Lower(c: char): (d: char)
    ensures 'A' <= c <= 'Z' ==> 'a' <= d <= 'z'
    ensures !('A' <= c <= 'Z') ==> d == c
    ensures CasePair(c, d)
  {
    if 'A' <= c <= 'Z' then (c as int - 'A' as int + 'a' as int) as char else c
  }

  /** Case folding of a string: same length, no upper-case letter left,
      and every other character kept where it was. */
  function Lowered(s: string): (r: string)
    ensures |r| == |s|
    ensures forall i :: 0 <= i < |r| ==> !('A' <= r[i] <= 'Z')
    ensures forall i :: 0 <= i < |s| && !('A' <= s[i] <= 'Z') ==> r[i] == s[i]
    ensures forall i :: 0 <= i < |s| ==> CasePair(s[i], r[i])
  {
    seq(|s|, i requires 0 <= i < |s| => Lower(s[i]))
  }

  /** Two characters fold to the same character exactly when they are the
      same letter up to case. */
  lemma SameFoldIffCasePair(a: char, b: char)
    ensures Lower(a) == Lower(b) <==> CasePair(a, b)
  {
  }

  /** Folding an already folded string changes nothing. */
  lemma LoweredIdempotent(s: string)
    ensures Lowered(Lowered(s)) == Lowered(s)
  {
  }

  /** `sub` occurs in `s` starting at position `k`. */
  predicate OccursAt(s: string, sub: string, k: int) {
    0 <= k <= |s| - |sub| && s[k..k + |sub|] == sub
  }

  /** `sub` occurs in `s` as a contiguous substring. */
  predicate Contains(s: string, sub: string)
    decreases |s|
  {
    sub <= s || (s != [] && Contains(s[1..], sub))
  }

  /** An occurrence past the first character is an occurrence in the rest. */
  lemma OccursInTail(s: string, sub: string, k: int)
    requires s != [] && 0 < k
    ensures OccursAt(s, sub, k) <==> OccursAt(s[1..], sub, k - 1)
  {
    if 0 < k <= |s| - |sub| {
      assert s[1..][k - 1..k - 1 + |sub|] == s[k..k + |sub|];
    }
  }

  /** `Contains` holds exactly when `sub` occurs at some position of `s`. */
  lemma {:induction false} ContainsAt(s: string, sub: string)
    ensures Contains(s, sub) <==> exists k :: OccursAt(s, sub, k)
    decreases |s|
  {
    if sub <= s {
      assert OccursAt(s, sub, 0);
    } else if s == [] {
    } else {
      ContainsAt(s[1..], sub);
      if exists k :: OccursAt(s, sub, k) {
        var k :| OccursAt(s, sub, k);
        OccursInTail(s, sub, k);
      }
      if Contains(s[1..], sub) {
        var k :| OccursAt(s[1..], sub, k);
        OccursInTail(s, sub, k + 1);
      }
    }
  }

  /** `localizedCaseInsensitiveContains`, with ASCII case folding. */
  predicate ContainsIgnoringCase(s: string, sub: string) {
    Contains(Lowered(s), Lowered(sub))
  }

  /** Containment is insensitive to the case of either argument. */
  lemma ContainsIgnoringCaseOfLowered(s: string, sub: string)
    ensures ContainsIgnoringCase(s, sub) <==> ContainsIgnoringCase(Lowered(s), Lowered(sub))
  {
    LoweredIdempotent(s);
    LoweredIdempotent(sub);
  }

  /** Swift's `<` on strings: lexicographic on characters, a proper prefix first. */
  predicate Less(a: string, b: string)
    decreases |a|
  {
    if a == [] then b != []
    else if b == [] then false
    else if a[0] != b[0] then a[0] < b[0]
    else Less(a[1..], b[1..])
  }

  lemma {:induction false} LessIrreflexive(a: string)
    ensures !Less(a, a)
    decreases |a|
  {
    if a != [] { LessIrreflexive(a[1..]); }
  }

  lemma {:induction false} LessTransitive(a: string, b: string, c: string)
    requires Less(a, b) && Less(b, c)
    ensures Less(a, c)
    decreases |a|
  {
    if a != [] && a[0] == b[0] && b[0] == c[0] {
      LessTransitive(a[1..], b[1..], c[1..]);
    }
  }

  lemma {:induction false} LessTotal(a: string, b: string)
    requires a != b
    ensures Less(a, b) || Less(b, a)
    decreases |a|
  {
    if a != [] && b != [] && a[0] == b[0] {
      assert a == [a[0]] + a[1..] && b == [b[0]] + b[1..];
      LessTotal(a[1..], b[1..]);
    }
  }

  predicate StrictlyIncreasing(s: seq<string>) {
    forall i, j :: 0 <= i < j < |s| ==> Less(s[i], s[j])
  }

  /** A strictly increasing list holds no string twice. */
  lemma StrictlyIncreasingIsDistinct(s: seq<string>)
    requires StrictlyIncreasing(s)
    ensures forall i, j :: 0 <= i < j < |s| ==> s[i] != s[j]
  {
    forall i, j | 0 <= i < j < |s| ensures s[i] != s[j] {
      LessIrreflexive(s[i]);
    }
  }

  lemma LessThanAll(x: string, s: seq<string>)
    requires StrictlyIncreasing(s) && s != [] && Less(x, s[0])
    ensures forall j :: 0 <= j < |s| ==> Less(x, s[j])
  {
    forall j | 0 < j < |s| ensures Less(x, s[j]) {
      LessTransitive(x, s[0], s[j]);
    }
  }

  /** Adds `x` to an increasing list unless it is already there. */
  function InsertUnique(x: string, s: seq<string>): (r: seq<string>)
    requires StrictlyIncreasing(s)
    ensures StrictlyIncreasing(r)
    ensures forall y :: y in r <==> y in s || y == x
    decreases |s|
  {
    if s == [] then [x]
    else if x == s[0] then s
    else if Less(x, s[0]) then
      LessThanAll(x, s);
      [x] + s
    else
      LessTotal(x, s[0]);
      var rest := InsertUnique(x, s[1..]);
      assert forall y :: y in rest ==> Less(s[0], y);
      [s[0]] + rest
  }

  /** `Array(Set(xs)).sorted()`: every string of `xs` exactly once, ascending. */
  function SortedDistinct(xs: seq<string>): (r: seq<string>)
    ensures StrictlyIncreasing(r)
    ensures forall y :: y in r <==> y in xs
  {
    if xs == [] then []
    else
      var r := InsertUnique(xs[|xs| - 1], SortedDistinct(xs[..|xs| - 1]));
      assert xs == xs[..|xs| - 1] + [xs[|xs| - 1]];
      r
  }
}
