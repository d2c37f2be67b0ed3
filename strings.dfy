/** The string helpers the downloader takes from lodash and from JavaScript's
    String.prototype: `_.trim`, `_.startsWith`, `_.endsWith` and `slice`.
    A string is a sequence of characters. */
module JsStrings {

  /** JavaScript's whitespace class `\s`, which `_.trim` strips: the
      WhiteSpace and LineTerminator characters of ECMAScript. */
  const WhitespaceChars: string :=
    " \t\n\r\U{000B}\U{000C}\U{00A0}\U{1680}"
    + "\U{2000}\U{2001}\U{2002}\U{2003}\U{2004}\U{2005}\U{2006}\U{2007}\U{2008}\U{2009}\U{200A}"
    + "\U{2028}\U{2029}\U{202F}\U{205F}\U{3000}\U{FEFF}"

  predicate IsWhitespace(c: char) {
    c in WhitespaceChars
  }

  predicate AllWhitespace(s: string) {
    forall k :: 0 <= k < |s| ==> IsWhitespace(s[k])
  }

  /** `_.startsWith(s, prefix)` at position 0. */
  predicate StartsWith(s: string, prefix: string) {
    |prefix| <= |s| && s[..|prefix|] == prefix
  }

  /** `_.endsWith(s, suffix)` at the default position, the end of `s`. */
  predicate EndsWith(s: string, suffix: string) {
    |suffix| <= |s| && s[|s| - |suffix|..] == suffix
  }

  lemma StartsWithIff(s: string, prefix: string)
    ensures StartsWith(s, prefix) <==> exists rest :: s == prefix + rest
  {
    if StartsWith(s, prefix) {
      assert s == prefix + s[|prefix|..];
    }
    if exists rest :: s == prefix + rest {
      var rest :| s == prefix + rest;
      assert s[..|prefix|] == prefix;
    }
  }

  lemma EndsWithIff(s: string, suffix: string)
    ensures EndsWith(s, suffix) <==> exists front :: s == front + suffix
  {
    if EndsWith(s, suffix) {
      assert s == s[..|s| - |suffix|] + suffix;
    }
    if exists front :: s == front + suffix {
      var front :| s == front + suffix;
      assert s[|s| - |suffix|..] == suffix;
    }
  }

  /** Resolves one argument of `String.prototype.slice`: a negative index
      counts from the end, and the result is clamped to `[0, len]`. */
  function SliceIndex(i: int, len: nat): (k: nat)
    ensures k <= len
    ensures 0 <= i <= len ==> k == i
    ensures -(len as int) <= i < 0 ==> k as int == len as int + i
    ensures i > len ==> k == len
    ensures i < -(len as int) ==> k == 0
  {
    if i < 0 then (if len + i < 0 then 0 else len + i)
    else if i > len then len
    else i
  }

  /** `s.slice(start, end)` for integer arguments. */
  function Slice(s: string, start: int, end: int): string {
    var from, to := SliceIndex(start, |s|), SliceIndex(end, |s|);
    if from < to then s[from..to] else []
  }

  /** `s.slice(1, -1)` drops exactly one character from each end, and
      nothing is left of a string shorter than two characters. */
  lemma SliceDropsOneEachEnd(s: string)
    ensures |s| < 2 ==> Slice(s, 1, -1) == []
    ensures |s| >= 2 ==> Slice(s, 1, -1) == s[1..|s| - 1]
  {
  }

  /** Slicing is the inverse of wrapping in one character on each side. */
  lemma SliceUnwraps(open: char, inner: string, close: char)
    ensures Slice([open] + inner + [close], 1, -1) == inner
  {
    var s := [open] + inner + [close];
    assert s[1..|s| - 1] == inner;
  }

  /** Scanning down from `n`, the index where the trailing whitespace of
      `s[..n]` begins (lodash's `trimmedEndIndex`, plus one). */
  function TrimmedEnd(s: string, n: nat): (e: nat)
    requires n <= |s|
    ensures e <= n
    ensures forall k :: e <= k < n ==> IsWhitespace(s[k])
    ensures e == 0 || !IsWhitespace(s[e - 1])
  {
    if n > 0 && IsWhitespace(s[n - 1]) then TrimmedEnd(s, n - 1) else n
  }

  /** Scanning up from `i`, the first index before `e` that is not
      whitespace, or `e` itself. */
  function TrimmedStart(s: string, i: nat, e: nat): (b: nat)
    requires i <= e <= |s|
    ensures i <= b <= e
    ensures forall k :: i <= k < b ==> IsWhitespace(s[k])
    ensures b == e || !IsWhitespace(s[b])
    decreases e - i
  {
    if i < e && IsWhitespace(s[i]) then TrimmedStart(s, i + 1, e) else i
  }

  /** `r` is `s` without its leading and trailing whitespace: `s` is `r`
      padded on both sides with whitespace, and `r` neither starts nor ends
      with whitespace. */
  ghost predicate TrimmedForm(s: string, r: string) {
    && (r == [] || (!IsWhitespace(r[0]) && !IsWhitespace(r[|r| - 1])))
    && exists a, b :: 0 <= a <= b <= |s| && s[a..b] == r && WhitespaceOutside(s, a, b)
  }

  /** Every character of `s` outside `[a, b)` is whitespace. */
  ghost predicate WhitespaceOutside(s: string, a: nat, b: nat)
    requires a <= b <= |s|
  {
    forall k :: 0 <= k < |s| && !(a <= k < b) ==> IsWhitespace(s[k])
  }

  /** `_.trim(s)`: the trailing whitespace is cut first, then the leading
      whitespace of what is left. */
  function Trim(s: string): (r: string)
    ensures TrimmedForm(s, r)
  {
    var e := TrimmedEnd(s, |s|);
    var b := TrimmedStart(s, 0, e);
    assert WhitespaceOutside(s, b, e);
    assert b < e ==> s[b..e][0] == s[b] && s[b..e][e - b - 1] == s[e - 1];
    s[b..e]
  }

  lemma {:induction false} TrimmedEndAt(s: string, n: nat, e: nat)
    requires e <= n <= |s|
    requires forall k :: e <= k < n ==> IsWhitespace(s[k])
    requires e == 0 || !IsWhitespace(s[e - 1])
    ensures TrimmedEnd(s, n) == e
    decreases n
  {
    if n > e {
      TrimmedEndAt(s, n - 1, e);
    }
  }

  lemma {:induction false} TrimmedStartAt(s: string, i: nat, b: nat, e: nat)
    requires i <= b <= e <= |s|
    requires forall k :: i <= k < b ==> IsWhitespace(s[k])
    requires b == e || !IsWhitespace(s[b])
    ensures TrimmedStart(s, i, e) == b
    decreases b - i
  {
    if i < b {
      TrimmedStartAt(s, i + 1, b, e);
    }
  }

  /** The trimmed form is unique: whatever `r` satisfies `TrimmedForm(s, r)`
      is what `_.trim` returns. */
  lemma TrimUnique(s: string, r: string)
    requires TrimmedForm(s, r)
    ensures Trim(s) == r
  {
    var a, b :| 0 <= a <= b <= |s| && s[a..b] == r && WhitespaceOutside(s, a, b);
    if r == [] {
      TrimmedEndAt(s, |s|, 0);
      TrimmedStartAt(s, 0, 0, 0);
    } else {
      assert s[b - 1] == r[|r| - 1] && s[a] == r[0];
      TrimmedEndAt(s, |s|, b);
      TrimmedStartAt(s, 0, a, b);
    }
  }

  /** Trimming a string padded with whitespace on both sides gives back the
      string when it neither starts nor ends with whitespace. */
  lemma TrimPadded(before: string, core: string, after: string)
    requires AllWhitespace(before) && AllWhitespace(after)
    requires core == [] || (!IsWhitespace(core[0]) && !IsWhitespace(core[|core| - 1]))
    ensures Trim(before + core + after) == core
  {
    var s := before + core + after;
    var a, b := |before|, |before| + |core|;
    assert s[a..b] == core;
    assert forall k :: 0 <= k < a ==> s[k] == before[k];
    assert forall k :: b <= k < |s| ==> s[k] == after[k - b];
    assert WhitespaceOutside(s, a, b);
    TrimUnique(s, core);
  }

  /** Trimming removes whitespace only: every other character of `s`
      survives in `_.trim(s)`. */
  lemma TrimKeepsNonWhitespace(s: string, k: nat)
    requires k < |s| && !IsWhitespace(s[k])
    ensures s[k] in Trim(s)
  {
    var r := Trim(s);
    var a, b :| 0 <= a <= b <= |s| && s[a..b] == r && WhitespaceOutside(s, a, b);
    assert a <= k < b;
    assert r[k - a] == s[k];
  }
}
