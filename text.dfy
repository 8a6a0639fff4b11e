/** The two string primitives the add handler relies on, as JavaScript
    defines them: `String.prototype.trim` and `String.prototype.startsWith`. */
module Text {

  /** The characters `trim` removes: ECMAScript's WhiteSpace (tab, vertical tab,
      form feed, space, no-break space, the byte-order mark and the Unicode
      space separators) and LineTerminator (LF, CR, U+2028, U+2029). */
  predicate IsWhitespace(c: char) {
    var n := c as int;
    n == 0x09 || n == 0x0A || n == 0x0B || n == 0x0C || n == 0x0D || n == 0x20 ||
    n == 0xA0 || n == 0x1680 || (0x2000 <= n <= 0x200A) || n == 0x2028 || n == 0x2029 ||
    n == 0x202F || n == 0x205F || n == 0x3000 || n == 0xFEFF
  }

  predicate AllWhitespace(s: string) {
    forall i :: 0 <= i < |s| ==> IsWhitespace(s[i])
  }

  /** Every character of `s` from `lo` up to (excluding) `hi` is whitespace. */
  predicate WhitespaceBetween(s: string, lo: int, hi: int) {
    forall i :: lo <= i < hi && 0 <= i < |s| ==> IsWhitespace(s[i])
  }

  /** The index of the first character at or after `start` that is not
      whitespace (`|s|` if there is none). */
  function SkipLeading(s: string, start: nat): (n: nat)
    requires start <= |s|
    ensures start <= n <= |s| && WhitespaceBetween(s, start, n)
    ensures n == |s| || !IsWhitespace(s[n])
    decreases |s| - start
  {
    if start < |s| && IsWhitespace(s[start]) then SkipLeading(s, start + 1) else start
  }

  /** The index just after the last character before `end` that is not
      whitespace, looking no further back than `lo` (`lo` if there is none). */
  function SkipTrailing(s: string, lo: nat, end: nat): (m: nat)
    requires lo <= end <= |s|
    ensures lo <= m <= end && WhitespaceBetween(s, m, end)
    ensures m == lo || !IsWhitespace(s[m - 1])
    decreases end
  {
    if lo < end && IsWhitespace(s[end - 1]) then SkipTrailing(s, lo, end - 1) else end
  }

  /** `s.trim()`: an infix of `s` with only whitespace before and after it,
      that neither starts nor ends with whitespace. */
  function Trim(s: string): (r: string)
    ensures exists n, m ::
              && 0 <= n <= m <= |s| && r == s[n..m]
              && WhitespaceBetween(s, 0, n) && WhitespaceBetween(s, m, |s|)
    ensures r == [] || (!IsWhitespace(r[0]) && !IsWhitespace(r[|r| - 1]))
  {
    var n := SkipLeading(s, 0);
    var m := SkipTrailing(s, n, |s|);
    assert m > n ==> s[n..m][0] == s[n] && s[n..m][m - n - 1] == s[m - 1];
    s[n..m]
  }

  /** `s.startsWith(p)`. */
  predicate StartsWith(s: string, p: string)
    ensures StartsWith(s, p) <==> |p| <= |s| && s[..|p|] == p
  {
    p <= s
  }

  /** A string trims to the empty string exactly when it is all whitespace:
      this is what the falsy test on the trimmed URL rejects. */
  lemma TrimEmptyIffBlank(s: string)
    ensures Trim(s) == [] <==> AllWhitespace(s)
  {
    var r := Trim(s);
    var n, m :| 0 <= n <= m <= |s| && r == s[n..m]
      && WhitespaceBetween(s, 0, n) && WhitespaceBetween(s, m, |s|);
    if r == [] {
      assert n == m;
    } else {
      assert r[0] == s[n];
    }
  }

  /** A string with no whitespace at either end is its own trim. */
  lemma TrimOfTrimmed(s: string)
    requires s == [] || (!IsWhitespace(s[0]) && !IsWhitespace(s[|s| - 1]))
    ensures Trim(s) == s
  {
    assert SkipLeading(s, 0) == 0;
    assert SkipTrailing(s, 0, |s|) == |s|;
    assert s[0..|s|] == s;
  }

  /** Trimming twice is trimming once. */
  lemma TrimIdempotent(s: string)
    ensures Trim(Trim(s)) == Trim(s)
  {
    TrimOfTrimmed(Trim(s));
  }
}
