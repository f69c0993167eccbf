/** The few Python `str` operations the two filters rely on: `isspace`/`strip`, slicing with
    clamped bounds, `startswith`, `replace`, `splitlines` and decimal formatting of integers. */
module PyStr {

  /** `c.isspace()`: the characters of Unicode bidirectional class WS, B or S or category Zs. */
  predicate IsSpace(c: char)
  {
    var n := c as int;
    (0x09 <= n <= 0x0D) || (0x1C <= n <= 0x20) || n == 0x85 || n == 0xA0 || n == 0x1680 ||
    (0x2000 <= n <= 0x200A) || n == 0x2028 || n == 0x2029 || n == 0x202F || n == 0x205F ||
    n == 0x3000
  }

  /** A string that `strip()` leaves alone. */
  predicate NoOuterSpace(s: string)
  {
    s == [] || (!IsSpace(s[0]) && !IsSpace(s[|s| - 1]))
  }

  predicate AllSpace(s: string)
  {
    forall k :: 0 <= k < |s| ==> IsSpace(s[k])
  }

  /** Length of the leading run of whitespace. */
  function LeadingSpace(s: string): (i: nat)
    ensures i <= |s| && AllSpace(s[..i])
    ensures i < |s| ==> !IsSpace(s[i])
  {
    if s == [] || !IsSpace(s[0]) then 0
    else
      var i := 1 + LeadingSpace(s[1..]);
      assert s[..i] == [s[0]] + s[1..][..i - 1];
      i
  }

  /** Index where the trailing run of whitespace starts. */
  function TrailingSpace(s: string): (j: nat)
    ensures j <= |s| && AllSpace(s[j..])
    ensures j > 0 ==> !IsSpace(s[j - 1])
  {
    if s == [] || !IsSpace(s[|s| - 1]) then |s|
    else
      var j := TrailingSpace(s[..|s| - 1]);
      assert s[j..] == s[..|s| - 1][j..] + [s[|s| - 1]];
      j
  }

  /** `s.strip()`: the part of `s` between its leading and its trailing whitespace. */
  function Strip(s: string): (r: string)
    ensures NoOuterSpace(r)
  {
    var i := LeadingSpace(s);
    if i == |s| then [] else s[i..TrailingSpace(s)]
  }

  /** `strip()` removes exactly the leading and the trailing whitespace: what it returns is a
      piece of `s` with only whitespace before and after it, empty exactly when `s` is blank. */
  lemma StripSpec(s: string)
    ensures var r, i := Strip(s), LeadingSpace(s);
      (r == [] <==> AllSpace(s)) &&
      i + |r| <= |s| && r == s[i..i + |r|] && AllSpace(s[..i]) && AllSpace(s[i + |r|..])
  {
    var i := LeadingSpace(s);
    if i == |s| {
      assert s[..i] == s;
    } else {
      var j := TrailingSpace(s);
      assert i < j;
      assert Strip(s) == s[i..j];
      assert s[i + (j - i)..] == s[j..];
      assert !AllSpace(s) by {
        assert !IsSpace(s[i]);
      }
    }
  }

  function Min(a: int, b: int): int
  {
    if a <= b then a else b
  }

  /** `s[a:b]` for non-negative bounds: both are clamped to `len(s)`, an empty result when the
      clamped start is not before the clamped end. */
  function Slice(s: string, a: nat, b: nat): (r: string)
    ensures var lo, hi := Min(a, |s|), Min(b, |s|);
      |r| == (if lo < hi then hi - lo else 0) &&
      forall k :: 0 <= k < |r| ==> r[k] == s[lo + k]
  {
    var lo, hi := Min(a, |s|), Min(b, |s|);
    if lo < hi then s[lo..hi] else []
  }

  /** Slicing at `b` and at `c` splits the slice `s[a:c]` into `s[a:b] + s[b:c]`. */
  lemma SliceConcat(s: string, a: nat, b: nat, c: nat)
    requires a <= b <= c
    ensures Slice(s, a, b) + Slice(s, b, c) == Slice(s, a, c)
  {
    var l, r, w := Slice(s, a, b), Slice(s, b, c), Slice(s, a, c);
    assert |l + r| == |w|;
    forall k | 0 <= k < |w| ensures (l + r)[k] == w[k] {
      if k < |l| {
        assert (l + r)[k] == l[k];
      } else {
        assert (l + r)[k] == r[k - |l|];
      }
    }
  }

  /** `s.startswith(p)`. */
  predicate StartsWith(s: string, p: string)
  {
    |p| <= |s| && s[..|p|] == p
  }

  /** `p in s`: `p` occurs in `s` as a contiguous piece. */
  predicate Contains(s: string, p: string)
    decreases |s|
  {
    StartsWith(s, p) || (s != [] && Contains(s[1..], p))
  }

  /** `s.replace(pat, rep)`: every non-overlapping occurrence of `pat`, scanning from the left,
      is replaced by `rep`; an empty `pat` matches before every character and at the end. */
  function Replace(s: string, pat: string, rep: string): string
  {
    if pat == [] then InsertEverywhere(s, rep) else ReplaceScan(s, pat, rep)
  }

  function InsertEverywhere(s: string, rep: string): (r: string)
    ensures |r| == |s| + (|s| + 1) * |rep|
  {
    if s == [] then rep else rep + [s[0]] + InsertEverywhere(s[1..], rep)
  }

  /** `s.replace('', rep)`: a copy of `rep` before each character of `s`, which keep their
      order, and one more copy at the end. */
  lemma {:induction false} InsertEverywhereAt(s: string, rep: string, k: nat)
    requires k < |s|
    ensures var r, w := InsertEverywhere(s, rep), |rep| + 1;
      k * w + w <= |r| && r[k * w .. k * w + |rep|] == rep && r[k * w + |rep|] == s[k]
  {
    var r, w := InsertEverywhere(s, rep), |rep| + 1;
    var t := InsertEverywhere(s[1..], rep);
    assert r == (rep + [s[0]]) + t;
    if k > 0 {
      InsertEverywhereAt(s[1..], rep, k - 1);
      assert k * w == w + (k - 1) * w;
      assert r[k * w .. k * w + |rep|] == t[(k - 1) * w .. (k - 1) * w + |rep|];
    }
  }

  lemma {:induction false} InsertEverywhereEnd(s: string, rep: string)
    ensures var r := InsertEverywhere(s, rep);
      |rep| <= |r| && r[|r| - |rep|..] == rep
  {
    if s != [] {
      var r, t := InsertEverywhere(s, rep), InsertEverywhere(s[1..], rep);
      InsertEverywhereEnd(s[1..], rep);
      assert r == (rep + [s[0]]) + t;
      assert r[|r| - |rep|..] == t[|t| - |rep|..];
    }
  }

  /** `s.replace('', '')` is `s`. */
  lemma {:induction false} InsertEverywhereEmpty(s: string)
    ensures InsertEverywhere(s, []) == s
  {
    if s != [] {
      InsertEverywhereEmpty(s[1..]);
      assert [s[0]] + s[1..] == s;
    }
  }

  function ReplaceScan(s: string, pat: string, rep: string): string
    requires pat != []
    decreases |s|
  {
    if |s| < |pat| then s
    else if s[..|pat|] == pat then rep + ReplaceScan(s[|pat|..], pat, rep)
    else [s[0]] + ReplaceScan(s[1..], pat, rep)
  }

  /** A string in which `pat` does not occur is left as it is. */
  lemma {:induction false} ReplaceAbsent(s: string, pat: string, rep: string)
    requires pat != [] && !Contains(s, pat)
    ensures Replace(s, pat, rep) == s
  {
    if |s| >= |pat| {
      assert s[..|pat|] != pat;
      ReplaceAbsent(s[1..], pat, rep);
      assert [s[0]] + s[1..] == s;
    }
  }

  /** An occurrence at the front is replaced and scanning resumes after it. */
  lemma ReplaceFront(pat: string, t: string, rep: string)
    requires pat != []
    ensures Replace(pat + t, pat, rep) == rep + Replace(t, pat, rep)
  {
    assert (pat + t)[..|pat|] == pat;
    assert (pat + t)[|pat|..] == t;
  }

  /** Replacing occurrences of a string by itself changes nothing. */
  lemma {:induction false} ReplaceSelf(s: string, pat: string)
    ensures Replace(s, pat, pat) == s
    decreases |s|
  {
    if pat == [] {
      InsertEverywhereEmpty(s);
    } else if |s| >= |pat| {
      if s[..|pat|] == pat {
        ReplaceSelf(s[|pat|..], pat);
        assert s[..|pat|] + s[|pat|..] == s;
      } else {
        ReplaceSelf(s[1..], pat);
        assert [s[0]] + s[1..] == s;
      }
    }
  }

  /** The line boundaries of `str.splitlines()`; `\r\n` counts as one boundary. */
  predicate IsLineBreak(c: char)
  {
    var n := c as int;
    (0x0A <= n <= 0x0D) || (0x1C <= n <= 0x1E) || n == 0x85 || n == 0x2028 || n == 0x2029
  }

  predicate NoLineBreak(s: string)
  {
    forall k :: 0 <= k < |s| ==> !IsLineBreak(s[k])
  }

  function FirstBreak(s: string): (i: nat)
    ensures i <= |s| && NoLineBreak(s[..i])
    ensures i < |s| ==> IsLineBreak(s[i])
  {
    if s == [] || IsLineBreak(s[0]) then 0
    else
      var i := 1 + FirstBreak(s[1..]);
      assert s[..i] == [s[0]] + s[1..][..i - 1];
      i
  }

  /** The first line boundary is where the first line-break character is. */
  lemma {:induction false} FirstBreakAt(s: string, i: nat)
    requires i < |s| && NoLineBreak(s[..i]) && IsLineBreak(s[i])
    ensures FirstBreak(s) == i
  {
    if i > 0 {
      assert s[..i][0] == s[0];
      assert s[1..][..i - 1] == s[..i][1..];
      FirstBreakAt(s[1..], i - 1);
    }
  }

  /** `s.splitlines()`: the lines of `s` without their terminators; a final terminator does not
      start another line. */
  function SplitLines(s: string): (lines: seq<string>)
    ensures forall i :: 0 <= i < |lines| ==> NoLineBreak(lines[i])
    decreases |s|
  {
    if s == [] then []
    else
      var i := FirstBreak(s);
      if i == |s| then [s]
      else
        var next := if s[i] == '\r' && i + 1 < |s| && s[i + 1] == '\n' then i + 2 else i + 1;
        [s[..i]] + SplitLines(s[next..])
  }

  /** Each line followed by `\n`. */
  function JoinLines(lines: seq<string>): string
  {
    if lines == [] then [] else lines[0] + "\n" + JoinLines(lines[1..])
  }

  /** Splitting `\n`-terminated lines gives those lines back. */
  lemma {:induction false} SplitJoinLines(lines: seq<string>)
    requires forall i :: 0 <= i < |lines| ==> NoLineBreak(lines[i])
    ensures SplitLines(JoinLines(lines)) == lines
  {
    if lines != [] {
      var l, rest := lines[0], JoinLines(lines[1..]);
      var s := l + "\n" + rest;
      assert s[|l|] == '\n';
      assert s[..|l|] == l;
      FirstBreakAt(s, |l|);
      assert s[|l| + 1..] == rest;
      assert SplitLines(s) == [l] + SplitLines(rest);
      SplitJoinLines(lines[1..]);
      assert lines == [l] + lines[1..];
    }
  }

  function DigitChar(d: nat): char
    requires d < 10
  {
    "0123456789"[d]
  }

  predicate IsDigit(c: char)
  {
    '0' <= c <= '9'
  }

  function DigitValue(c: char): nat
    requires IsDigit(c)
  {
    (c as int - '0' as int) as nat
  }

  /** Decimal digits of `n` without leading zeros, as `str(n)` prints them. */
  function NatToString(n: nat): (s: string)
    ensures |s| > 0 && forall k :: 0 <= k < |s| ==> IsDigit(s[k])
    ensures s[0] == '0' ==> n == 0 && s == "0"
  {
    if n < 10 then [DigitChar(n)] else NatToString(n / 10) + [DigitChar(n % 10)]
  }

  /** The number a string of decimal digits denotes. */
  function DecimalValue(s: string): nat
    requires forall k :: 0 <= k < |s| ==> IsDigit(s[k])
  {
    if s == [] then 0 else 10 * DecimalValue(s[..|s| - 1]) + DigitValue(s[|s| - 1])
  }

  /** Reading back the digits of `n` gives `n`. */
  lemma {:induction false} NatToStringValue(n: nat)
    ensures DecimalValue(NatToString(n)) == n
  {
    var s := NatToString(n);
    if n >= 10 {
      NatToStringValue(n / 10);
      assert s[..|s| - 1] == NatToString(n / 10);
    }
  }

  /** `str(i)` (or `'{0}'.format(i)`) for an integer. */
  function IntToString(i: int): (s: string)
    ensures i >= 0 ==> s == NatToString(i)
    ensures i < 0 ==> s == "-" + NatToString(-i)
  {
    if i < 0 then "-" + NatToString(-i) else NatToString(i)
  }

  /** Different integers print differently. */
  lemma IntToStringInjective(a: int, b: int)
    requires IntToString(a) == IntToString(b)
    ensures a == b
  {
    IntToStringSign(a);
    IntToStringSign(b);
    if a >= 0 {
      NatToStringInjective(a, b);
    } else {
      var x, y := NatToString(-a), NatToString(-b);
      assert ("-" + x)[1..] == x && ("-" + y)[1..] == y;
      NatToStringInjective(-a, -b);
    }
  }

  lemma NatToStringInjective(m: nat, n: nat)
    requires NatToString(m) == NatToString(n)
    ensures m == n
  {
    NatToStringValue(m);
    NatToStringValue(n);
  }

  /** A printed integer starts with `-` exactly when it is negative. */
  lemma IntToStringSign(i: int)
    ensures i < 0 <==> IntToString(i)[0] == '-'
  {
    var s := IntToString(i);
    if i >= 0 {
      assert IsDigit(NatToString(i)[0]);
    } else {
      assert s == "-" + NatToString(-i);
    }
  }

  /** A printed integer holds no comma. */
  lemma IntToStringNoComma(i: int)
    ensures ',' !in IntToString(i)
  {
    var s := IntToString(i);
    var n := NatToString(if i < 0 then -i else i);
    assert forall k :: 0 <= k < |n| ==> n[k] != ',';
    if i < 0 {
      assert forall k :: 1 <= k < |s| ==> s[k] == n[k - 1];
    }
  }

  lemma CancelPrefix(p: string, x: string, y: string)
    requires p + x == p + y
    ensures x == y
  {
    assert x == (p + x)[|p|..] && y == (p + y)[|p|..];
  }

  /** In `a + q + b` with a separator `q` that starts with a character `a` lacks, `a` ends
      where the first such character is, so `a` and `b` can be read back. */
  lemma SplitAtSeparator(a: string, b: string, a2: string, b2: string, q: string)
    requires q != [] && q[0] !in a && q[0] !in a2
    requires a + q + b == a2 + q + b2
    ensures a == a2 && b == b2
  {
    var s, s2 := a + q + b, a2 + q + b2;
    assert forall k :: 0 <= k < |a| ==> s[k] == a[k] && s[k] != q[0];
    assert forall k :: 0 <= k < |a2| ==> s2[k] == a2[k] && s2[k] != q[0];
    assert s[|a|] == q[0] && s2[|a2|] == q[0];
    assert |a| == |a2|;
    assert a == s[..|a|] == s2[..|a|] == a2;
    assert b == s[|a| + |q|..] == s2[|a| + |q|..] == b2;
  }
}
