/** The Python string built-ins that radpress/models.py relies on:
    `str.split(sep, 1)`, `str.strip()` and `str.replace(old, new)`,
    over strings as sequences of characters. */
module PyStr {

  /** Option, for a search that may find nothing. */
  datatype Option<+T> = None | Some(value: T)

  // ---------------------------------------------------------------------------
  // Occurrences of a pattern
  // ---------------------------------------------------------------------------

  /** `pat` occurs in `s` starting at index `i`. */
  predicate OccursAt(s: string, pat: string, i: int)
  {
    0 <= i && i + |pat| <= |s| && s[i..i + |pat|] == pat
  }

  /** `pat` occurs somewhere in `s` (Python's `pat in s`). */
  ghost predicate Contains(s: string, pat: string)
  {
    exists i :: OccursAt(s, pat, i)
  }

  /** `i` is the leftmost occurrence of `pat` in `s`. */
  ghost predicate FirstOccurrence(s: string, pat: string, i: int)
  {
    OccursAt(s, pat, i) && forall j :: 0 <= j < i ==> !OccursAt(s, pat, j)
  }

  /** Leftmost occurrence of `pat` in `s` at or after `k`, scanning left to right
      as Python's `str.find(pat, k)` does. */
  function FindFrom(s: string, pat: string, k: nat): (r: Option<nat>)
    requires |pat| > 0 && k <= |s|
    decreases |s| - k
    ensures r.Some? ==> k <= r.value && OccursAt(s, pat, r.value)
    ensures r.Some? ==> forall j :: k <= j < r.value ==> !OccursAt(s, pat, j)
    ensures r.None? ==> forall j :: k <= j ==> !OccursAt(s, pat, j)
  {
    if k + |pat| > |s| then None
    else if s[k..k + |pat|] == pat then Some(k)
    else FindFrom(s, pat, k + 1)
  }

  /** The first occurrence, when there is one, is what `FindFrom(s, pat, 0)` returns. */
  lemma FindFirstIsFirstOccurrence(s: string, pat: string)
    requires |pat| > 0
    ensures FindFrom(s, pat, 0).None? <==> !Contains(s, pat)
    ensures forall i :: FirstOccurrence(s, pat, i) <==> FindFrom(s, pat, 0) == Some(i)
  {
    var r := FindFrom(s, pat, 0);
    if r.Some? {
      assert OccursAt(s, pat, r.value);
    }
    forall i | FirstOccurrence(s, pat, i)
      ensures r == Some(i)
    {
      assert OccursAt(s, pat, i);
    }
  }

  /** A string with no occurrence of `pat` has none in any slice of it either. */
  lemma NoOccurrenceInSlice(s: string, pat: string, lo: nat, hi: nat)
    requires lo <= hi <= |s| && !Contains(s, pat)
    ensures !Contains(s[lo..hi], pat)
  {
    forall j | 0 <= j && j + |pat| <= hi - lo
      ensures !OccursAt(s[lo..hi], pat, j)
    {
      var inSlice, inWhole := s[lo..hi][j..j + |pat|], s[lo + j..lo + j + |pat|];
      forall k | 0 <= k < |pat| ensures inSlice[k] == inWhole[k] {
        assert s[lo..hi][j + k] == s[lo + j + k];
      }
      assert inSlice == inWhole;
      assert !OccursAt(s, pat, lo + j);
    }
  }

  /** Before the first occurrence there is none: the prefix is free of `pat`. */
  lemma PrefixBeforeFirstIsFree(s: string, pat: string, i: nat)
    requires |pat| > 0 && FirstOccurrence(s, pat, i)
    ensures !Contains(s[..i], pat)
  {
    forall j | 0 <= j && j + |pat| <= i
      ensures !OccursAt(s[..i], pat, j)
    {
      assert s[..i][j..j + |pat|] == s[j..j + |pat|];
      assert !OccursAt(s, pat, j);
    }
  }

  // ---------------------------------------------------------------------------
  // str.split(sep, 1)
  // ---------------------------------------------------------------------------

  /** Python's `s.split(sep, 1)`: one piece when `sep` does not occur, otherwise
      the text before the leftmost occurrence and the text after it.
      Python raises ValueError on an empty separator; that case is excluded. */
  function SplitOnce(s: string, sep: string): (parts: seq<string>)
    requires |sep| > 0
    ensures |parts| == 1 || |parts| == 2
    ensures |parts| == 1 <==> !Contains(s, sep)
    ensures |parts| == 1 ==> parts[0] == s
    ensures |parts| == 2 ==> s == parts[0] + sep + parts[1]
    ensures |parts| == 2 ==> FirstOccurrence(s, sep, |parts[0]|)
  {
    match FindFrom(s, sep, 0)
    case None =>
      assert forall i :: !OccursAt(s, sep, i);
      [s]
    case Some(i) =>
      assert OccursAt(s, sep, i);
      assert s == s[..i] + s[i..i + |sep|] + s[i + |sep|..];
      [s[..i], s[i + |sep|..]]
  }

  // ---------------------------------------------------------------------------
  // str.strip()
  // ---------------------------------------------------------------------------

  /** The characters `unicode.strip()` removes: those `unicode.isspace()` accepts in
      Python 2.7 (Unicode 5.2 data): the ASCII controls 0x09-0x0D and 0x1C-0x1F,
      the space, NEL, NBSP, and the Unicode space separators and line/paragraph
      separators. */
  predicate IsSpace(c: char)
  {
    ('\U{0009}' <= c <= '\U{000D}') || ('\U{001C}' <= c <= '\U{0020}')
    || c == '\U{0085}' || c == '\U{00A0}' || c == '\U{1680}' || c == '\U{180E}'
    || ('\U{2000}' <= c <= '\U{200A}') || c == '\U{2028}' || c == '\U{2029}'
    || c == '\U{202F}' || c == '\U{205F}' || c == '\U{3000}'
  }

  /** The blanks that surround markup are whitespace, and no printable ASCII
      character is: strip() never eats into a tag such as `</div>` or `<p>`. */
  lemma IsSpaceSparesMarkup(c: char)
    ensures c == ' ' || c == '\t' || c == '\n' || c == '\r' ==> IsSpace(c)
    ensures IsSpace(c) ==> !('!' <= c <= '~')
  { }

  /** Index of the first non-space character at or after `i` (|s| if none). */
  function SkipSpaces(s: string, i: nat): (k: nat)
    requires i <= |s|
    decreases |s| - i
    ensures i <= k <= |s|
    ensures forall j :: i <= j < k ==> IsSpace(s[j])
    ensures k == |s| || !IsSpace(s[k])
  {
    if i < |s| && IsSpace(s[i]) then SkipSpaces(s, i + 1) else i
  }

  /** Scanning back from `j` but not below `lo`: the end of the last non-space
      character (`lo` if all of s[lo..j] is space). */
  function SkipSpacesBack(s: string, lo: nat, j: nat): (k: nat)
    requires lo <= j <= |s|
    decreases j
    ensures lo <= k <= j
    ensures forall x :: k <= x < j ==> IsSpace(s[x])
    ensures k == lo || !IsSpace(s[k - 1])
  {
    if lo < j && IsSpace(s[j - 1]) then SkipSpacesBack(s, lo, j - 1) else j
  }

  /** Number of leading characters `strip()` removes. */
  function LeadingSpaceCount(s: string): (n: nat)
    ensures n <= |s|
  {
    SkipSpaces(s, 0)
  }

  /** Python's `s.strip()`: drops leading and trailing whitespace. The result is
      the slice of `s` between two runs of whitespace and itself neither starts
      nor ends with whitespace. */
  function Strip(s: string): (r: string)
    ensures LeadingSpaceCount(s) + |r| <= |s|
    ensures r == s[LeadingSpaceCount(s)..LeadingSpaceCount(s) + |r|]
    ensures forall j :: 0 <= j < LeadingSpaceCount(s) ==> IsSpace(s[j])
    ensures forall j :: LeadingSpaceCount(s) + |r| <= j < |s| ==> IsSpace(s[j])
    ensures r == [] || (!IsSpace(r[0]) && !IsSpace(r[|r| - 1]))
  {
    var lo := SkipSpaces(s, 0);
    var hi := SkipSpacesBack(s, lo, |s|);
    s[lo..hi]
  }

  predicate AllSpace(w: string)
  {
    forall j :: 0 <= j < |w| ==> IsSpace(w[j])
  }

  /** Strip is determined by its result's shape: whatever lies between two runs of
      whitespace, and has no whitespace at either end, is what strip() returns. */
  lemma StripCharacterized(w1: string, t: string, w2: string)
    requires AllSpace(w1) && AllSpace(w2)
    requires t == [] || (!IsSpace(t[0]) && !IsSpace(t[|t| - 1]))
    ensures Strip(w1 + t + w2) == t
  {
    var s := w1 + t + w2;
    if t == [] {
      forall j | 0 <= j < |s| ensures IsSpace(s[j]) {
        if j < |w1| { assert s[j] == w1[j]; } else { assert s[j] == w2[j - |w1|]; }
      }
      SkipSpacesStopsAt(s, |s|);
    } else {
      var lo, hi := |w1|, |w1| + |t|;
      forall j | 0 <= j < lo ensures IsSpace(s[j]) {
        assert s[j] == w1[j];
      }
      assert s[lo] == t[0];
      SkipSpacesStopsAt(s, lo);
      forall x | hi <= x < |s| ensures IsSpace(s[x]) {
        assert s[x] == w2[x - hi];
      }
      assert s[hi - 1] == t[|t| - 1];
      SkipSpacesBackStopsAt(s, lo, hi);
      assert s[lo..hi] == t;
    }
  }

  /** The forward scan stops exactly at the first non-space character. */
  lemma SkipSpacesStopsAt(s: string, n: nat)
    requires n <= |s|
    requires forall j :: 0 <= j < n ==> IsSpace(s[j])
    requires n == |s| || !IsSpace(s[n])
    ensures SkipSpaces(s, 0) == n
  { }

  /** The backward scan stops exactly after the last non-space character. */
  lemma SkipSpacesBackStopsAt(s: string, lo: nat, n: nat)
    requires lo <= n <= |s|
    requires forall x :: n <= x < |s| ==> IsSpace(s[x])
    requires n == lo || !IsSpace(s[n - 1])
    ensures SkipSpacesBack(s, lo, |s|) == n
  { }

  /** Stripping twice is stripping once. */
  lemma StripIdempotent(s: string)
    ensures Strip(Strip(s)) == Strip(s)
  {
    var r := Strip(s);
    StripCharacterized([], r, []);
    assert [] + r + [] == r;
  }

  // ---------------------------------------------------------------------------
  // str.replace(old, new)
  // ---------------------------------------------------------------------------

  /** Python's `s.replace(target, repl)` for a non-empty `target`: find the leftmost
      occurrence, copy what precedes it and `repl`, and continue after the
      occurrence, so occurrences are replaced left to right without overlap. */
  function Replace(s: string, target: string, repl: string): (r: string)
    requires |target| > 0
    decreases |s|
    ensures !Contains(s, target) ==> r == s
    ensures |repl| == |target| ==> |r| == |s|
  {
    match FindFrom(s, target, 0)
    case None => s
    case Some(i) => s[..i] + repl + Replace(s[i + |target|..], target, repl)
  }

  /** Reference definition of the same substitution, one position at a time: at
      each position either `target` starts there, and is replaced as a whole, or
      the character is kept. */
  function ReplaceScan(s: string, target: string, repl: string): (r: string)
    requires |target| > 0
    decreases |s|
    ensures |repl| == |target| ==> |r| == |s|
  {
    if |s| < |target| then s
    else if s[..|target|] == target then repl + ReplaceScan(s[|target|..], target, repl)
    else [s[0]] + ReplaceScan(s[1..], target, repl)
  }

  /** Occurrences in a suffix are occurrences in the whole, shifted. */
  lemma OccursAtShift(s: string, pat: string, d: nat, j: int)
    requires d <= |s|
    ensures OccursAt(s[d..], pat, j) <==> (0 <= j && OccursAt(s, pat, d + j))
  {
    if 0 <= j && d + j + |pat| <= |s| {
      assert s[d..][j..j + |pat|] == s[d + j..d + j + |pat|];
    }
  }

  /** The scan keeps, unchanged, every character before the first place
      `target` can start. */
  lemma {:induction false} ScanSkipsFree(s: string, target: string, repl: string, i: nat)
    requires |target| > 0 && i <= |s|
    requires forall j :: 0 <= j < i ==> !OccursAt(s, target, j)
    ensures ReplaceScan(s, target, repl) == s[..i] + ReplaceScan(s[i..], target, repl)
    decreases i
  {
    if i == 0 {
      assert s[..0] + ReplaceScan(s[0..], target, repl) == ReplaceScan(s, target, repl);
    } else if |s| < |target| {
      assert ReplaceScan(s[i..], target, repl) == s[i..];
      assert s[..i] + s[i..] == s;
    } else {
      assert !OccursAt(s, target, 0);
      assert ReplaceScan(s, target, repl) == [s[0]] + ReplaceScan(s[1..], target, repl);
      forall j | 0 <= j < i - 1 ensures !OccursAt(s[1..], target, j) {
        OccursAtShift(s, target, 1, j);
      }
      ScanSkipsFree(s[1..], target, repl, i - 1);
      assert s[1..][i - 1..] == s[i..];
      assert [s[0]] + s[1..][..i - 1] == s[..i];
    }
  }

  /** Python's left-to-right replace agrees with the position-by-position
      reference definition on every input. */
  lemma {:induction false} ReplaceMatchesScan(s: string, target: string, repl: string)
    requires |target| > 0
    ensures Replace(s, target, repl) == ReplaceScan(s, target, repl)
    decreases |s|
  {
    match FindFrom(s, target, 0)
    case None =>
      ScanWithoutOccurrence(s, target, repl);
    case Some(i) =>
      assert FirstOccurrence(s, target, i);
      ScanAtFirstOccurrence(s, target, repl, i);
      ReplaceMatchesScan(s[i + |target|..], target, repl);
  }

  /** Without an occurrence the scan keeps its input. */
  lemma ScanWithoutOccurrence(s: string, target: string, repl: string)
    requires |target| > 0 && FindFrom(s, target, 0).None?
    ensures ReplaceScan(s, target, repl) == s
  {
    ScanSkipsFree(s, target, repl, |s|);
    assert ReplaceScan(s[|s|..], target, repl) == [];
    assert s[..|s|] == s;
  }

  /** At the first occurrence the scan copies what precedes it, emits `repl`
      and resumes after it, just as Python's replace does. */
  lemma ScanAtFirstOccurrence(s: string, target: string, repl: string, i: nat)
    requires |target| > 0 && FirstOccurrence(s, target, i)
    ensures ReplaceScan(s, target, repl) == s[..i] + repl + ReplaceScan(s[i + |target|..], target, repl)
  {
    var after := s[i + |target|..];
    var rest := ReplaceScan(after, target, repl);
    assert ReplaceScan(s, target, repl) == s[..i] + ReplaceScan(s[i..], target, repl) by {
      ScanSkipsFree(s, target, repl, i);
    }
    assert ReplaceScan(s[i..], target, repl) == repl + rest by {
      assert OccursAt(s[i..], target, 0) by {
        OccursAtShift(s, target, i, 0);
      }
      ScanAtOccurrence(s[i..], target, repl);
      assert s[i..][|target|..] == after;
    }
    ConcatAssoc(s[..i], repl, rest);
  }

  lemma ConcatAssoc(a: string, b: string, c: string)
    ensures a + (b + c) == a + b + c
  {
  }

  /** Where `target` starts, the scan emits `repl` and skips the occurrence. */
  lemma ScanAtOccurrence(s: string, target: string, repl: string)
    requires |target| > 0 && OccursAt(s, target, 0)
    ensures ReplaceScan(s, target, repl) == repl + ReplaceScan(s[|target|..], target, repl)
  {
    assert s[..|target|] == s[0..|target|];
  }

  /** Replacing `target` by itself changes nothing. */
  lemma {:induction false} ReplaceWithItself(s: string, target: string)
    requires |target| > 0
    ensures Replace(s, target, target) == s
    decreases |s|
  {
    match FindFrom(s, target, 0)
    case None =>
    case Some(i) =>
      ReplaceWithItself(s[i + |target|..], target);
      assert s[..i] + s[i..i + |target|] + s[i + |target|..] == s;
  }

  /** A leading occurrence is replaced, and a remainder free of `target` is kept:
      the rewrite of a path under a root into a path under another root. */
  lemma ReplaceLeading(target: string, repl: string, rest: string)
    requires |target| > 0
    requires !Contains(rest, target)
    ensures Replace(target + rest, target, repl) == repl + rest
  {
    var s := target + rest;
    assert s[0..|target|] == target;
    assert FirstOccurrence(s, target, 0);
    FindFirstIsFirstOccurrence(s, target);
    assert s[|target|..] == rest;
  }
}
