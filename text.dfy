/**
 * String helpers the core relies on: Python's `str.strip()`,
 * `str.startswith()`, and the "first n characters plus an ellipsis"
 * truncation that the admin previews and the new-action message share.
 */
module Text {

  /** Python's `str.isspace()` for a single character: the ASCII
      whitespace and separator controls plus the Unicode space separators. */
  predicate IsSpace(c: char) {
    || ('\U{9}' <= c <= '\U{D}')
    || ('\U{1C}' <= c <= '\U{20}')
    || c == '\U{85}' || c == '\U{A0}' || c == '\U{1680}'
    || ('\U{2000}' <= c <= '\U{200A}')
    || c == '\U{2028}' || c == '\U{2029}' || c == '\U{202F}'
    || c == '\U{205F}' || c == '\U{3000}'
  }

  predicate AllSpace(s: string) {
    forall k :: 0 <= k < |s| ==> IsSpace(s[k])
  }

  /** Every character of `s` outside the n positions from i is whitespace. */
  predicate SpaceOutside(s: string, i: nat, n: nat) {
    && i + n <= |s|
    && (forall k :: 0 <= k < i ==> IsSpace(s[k]))
    && (forall k :: i + n <= k < |s| ==> IsSpace(s[k]))
  }

  /** The first position at or after `i` that does not hold whitespace
      (`|s|` when there is none): where `s.lstrip()` starts. */
  function FirstNonSpace(s: string, i: nat): (r: nat)
    requires i <= |s|
    ensures i <= r <= |s|
    ensures forall k :: i <= k < r ==> IsSpace(s[k])
    ensures r == |s| || !IsSpace(s[r])
    decreases |s| - i
  {
    if i < |s| && IsSpace(s[i]) then FirstNonSpace(s, i + 1) else i
  }

  /** The position just past the last character before `j`, and not before
      `lo`, that does not hold whitespace: where `s.rstrip()` ends. */
  function EndOfText(s: string, lo: nat, j: nat): (r: nat)
    requires lo <= j <= |s|
    ensures lo <= r <= j
    ensures forall k :: r <= k < j ==> IsSpace(s[k])
    ensures r == lo || !IsSpace(s[r - 1])
    decreases j - lo
  {
    if lo < j && IsSpace(s[j - 1]) then EndOfText(s, lo, j - 1) else j
  }

  /** `s.strip()`: a slice of `s` that neither starts nor ends with
      whitespace, obtained by cutting whitespace only. */
  function Strip(s: string): (r: string)
    ensures |r| <= |s|
    ensures r == [] || (!IsSpace(r[0]) && !IsSpace(r[|r| - 1]))
    ensures exists i: nat :: SpaceOutside(s, i, |r|) && r == s[i..i + |r|]
  {
    var i := FirstNonSpace(s, 0);
    var j := EndOfText(s, i, |s|);
    var r := s[i..j];
    assert SpaceOutside(s, i, |r|) && r == s[i..i + |r|];
    assert r != [] ==> r[0] == s[i] && r[|r| - 1] == s[j - 1];
    r
  }

  /** Stripping leaves nothing exactly when the text is all whitespace,
      which is when the views treat a submitted comment as missing. */
  lemma StripEmptyIffBlank(s: string)
    ensures Strip(s) == [] <==> AllSpace(s)
  {
    var r := Strip(s);
    if r == [] {
      var i: nat :| SpaceOutside(s, i, |r|) && r == s[i..i + |r|];
      forall k | 0 <= k < |s| ensures IsSpace(s[k]) {
        if k < i { } else { }
      }
    }
  }

  /** Stripping twice is stripping once. */
  lemma StripIdempotent(s: string)
    ensures Strip(Strip(s)) == Strip(s)
  {
    var r := Strip(s);
    assert FirstNonSpace(r, 0) == 0;
    assert EndOfText(r, 0, |r|) == |r|;
    assert r[0..|r|] == r;
  }

  /** `s.startswith(prefix)`. */
  predicate StartsWith(s: string, prefix: string) {
    |prefix| <= |s| && s[..|prefix|] == prefix
  }

  /** `s.endswith(suffix)`. */
  predicate EndsWith(s: string, suffix: string) {
    |suffix| <= |s| && s[|s| - |suffix|..] == suffix
  }

  /** `part` occurs in `s` at position `i`. */
  predicate OccursAt(s: string, part: string, i: nat) {
    i + |part| <= |s| && s[i..i + |part|] == part
  }

  /** The second half of a concatenation occurs where the first ends. */
  lemma OccursAtJoin(x: string, y: string)
    ensures OccursAt(x + y, y, |x|) && EndsWith(x + y, y)
  {
    assert (x + y)[|x|..|x| + |y|] == y;
  }

  /** An occurrence survives appending more text. */
  lemma OccursAtExtend(x: string, y: string, part: string, i: nat)
    requires OccursAt(x, part, i)
    ensures OccursAt(x + y, part, i)
  {
    assert (x + y)[i..i + |part|] == x[i..i + |part|];
  }

  /** `part in s`. */
  predicate Contains(s: string, part: string) {
    exists i: nat :: i <= |s| && OccursAt(s, part, i)
  }

  const ELLIPSIS := "..."

  /** `s[:n] + '...' if len(s) > n else s`. */
  function Preview(s: string, n: nat): (r: string)
    ensures |r| <= n + |ELLIPSIS|
    ensures |s| <= n ==> r == s
    ensures |s| > n ==> |r| == n + 3 && StartsWith(s, r[..n]) && r[n..] == ELLIPSIS
  {
    if |s| > n then s[..n] + ELLIPSIS else s
  }

  /** A preview never loses the first n characters of its text. */
  lemma PreviewKeepsHead(s: string, n: nat)
    ensures StartsWith(Preview(s, n), if |s| <= n then s else s[..n])
  {
  }

  /** Decimal digits of a natural number, standing in for a formatted date. */
  function Decimal(n: nat): (r: string)
    ensures r != []
    ensures forall k :: 0 <= k < |r| ==> '0' <= r[k] <= '9'
  {
    var d := [(('0' as int) + n % 10) as char];
    if n < 10 then d else Decimal(n / 10) + d
  }
}
