/** String primitives with ECMAScript semantics: the white-space class used
    by `String.prototype.trim` and by the regular-expression class `\s`, the
    line terminators that `.` does not match, `split` on one character and on
    `/\r?\n/`, and `Array.prototype.join`. */
module Strings {

  /** WhiteSpace and LineTerminator code points of ECMAScript: the set removed
      by `trim()` and matched by `\s`. */
  predicate IsSpace(c: char)
  {
    c == '\t' || c == '\n' || c == '\U{000B}' || c == '\U{000C}' || c == '\r' || c == ' '
    || c == '\U{00A0}' || c == '\U{1680}' || ('\U{2000}' <= c <= '\U{200A}')
    || c == '\U{2028}' || c == '\U{2029}' || c == '\U{202F}' || c == '\U{205F}'
    || c == '\U{3000}' || c == '\U{FEFF}'
  }

  /** The characters that the regular-expression atom `.` does not match. */
  predicate IsLineTerminator(c: char)
  {
    c == '\n' || c == '\r' || c == '\U{2028}' || c == '\U{2029}'
  }

  lemma LineTerminatorIsSpace(c: char)
    requires IsLineTerminator(c)
    ensures IsSpace(c)
  {
  }

  predicate AllSpace(s: string)
  {
    forall i :: 0 <= i < |s| ==> IsSpace(s[i])
  }

  /** No character of `s` is a line terminator: `s` matches `.*`. */
  predicate SingleLine(s: string)
  {
    forall i :: 0 <= i < |s| ==> !IsLineTerminator(s[i])
  }

  /** s[j..k] holds no line terminator, stated on indices. */
  predicate LineFree(s: string, j: nat, k: nat)
    requires j <= k <= |s|
  {
    forall i :: j <= i < k ==> !IsLineTerminator(s[i])
  }

  predicate IsPrefix(p: string, s: string)
  {
    |p| <= |s| && s[..|p|] == p
  }

  /** The first index at or after `i` that does not hold white space. */
  function SpaceEnd(s: string, i: nat): (r: nat)
    requires i <= |s|
    ensures i <= r <= |s|
    ensures forall k :: i <= k < r ==> IsSpace(s[k])
    ensures r < |s| ==> !IsSpace(s[r])
    decreases |s| - i
  {
    if i < |s| && IsSpace(s[i]) then SpaceEnd(s, i + 1) else i
  }

  /** The smallest index above `lo`, at or below `j`, such that only white
      space lies from it up to `j`. */
  function SpaceStart(s: string, lo: nat, j: nat): (r: nat)
    requires lo <= j <= |s|
    ensures lo <= r <= j
    ensures forall k :: r <= k < j ==> IsSpace(s[k])
    ensures r > lo ==> !IsSpace(s[r - 1])
    decreases j
  {
    if j > lo && IsSpace(s[j - 1]) then SpaceStart(s, lo, j - 1) else j
  }

  /** Where the trimmed text of `s` starts. */
  function TrimFrom(s: string): nat
  {
    SpaceEnd(s, 0)
  }

  /** Where the trimmed text of `s` ends. */
  function TrimTo(s: string): nat
  {
    SpaceStart(s, TrimFrom(s), |s|)
  }

  /** `String.prototype.trim`: white space removed from both ends. */
  function Trim(s: string): (r: string)
  {
    s[TrimFrom(s)..TrimTo(s)]
  }

  /** The trimmed string is the middle `s[a..b]` of `s` with only white space
      cut from either end, and it neither starts nor ends with white space. */
  lemma TrimShape(s: string) returns (a: nat, b: nat)
    ensures a <= b <= |s| && Trim(s) == s[a..b]
    ensures forall k :: 0 <= k < a ==> IsSpace(s[k])
    ensures forall k :: b <= k < |s| ==> IsSpace(s[k])
    ensures a < b ==> !IsSpace(s[a]) && !IsSpace(s[b - 1])
  {
    a := TrimFrom(s);
    b := TrimTo(s);
  }

  /** A string trims to itself exactly when it has no white space at either end. */
  lemma TrimIdentity(s: string)
    ensures Trim(s) == s <==> (s == [] || (!IsSpace(s[0]) && !IsSpace(s[|s| - 1])))
  {
    var a, b := TrimShape(s);
    if Trim(s) == s {
      assert |s[a..b]| == |s|;
    }
  }

  lemma TrimIdempotent(s: string)
    ensures Trim(Trim(s)) == Trim(s)
  {
    var a, b := TrimShape(s);
    if a < b {
      assert Trim(s)[0] == s[a] && Trim(s)[|Trim(s)| - 1] == s[b - 1];
    }
    TrimIdentity(Trim(s));
  }

  /** Trimming adds no character. */
  lemma TrimChars(s: string)
    ensures forall c :: c in Trim(s) ==> c in s
  {
    var a, b := TrimShape(s);
    forall c | c in Trim(s) ensures c in s {
      var i :| 0 <= i < |Trim(s)| && Trim(s)[i] == c;
      assert s[a + i] == c;
    }
  }

  /** `trim()` yields the empty string exactly for all-white-space input. */
  lemma TrimEmpty(s: string)
    ensures Trim(s) == [] <==> AllSpace(s)
  {
    var a, b := TrimShape(s);
  }

  /** `s.split(c)` for a one-character separator. */
  function SplitOn(s: string, c: char): (r: seq<string>)
    ensures |r| >= 1
    ensures forall k :: 0 <= k < |r| ==> c !in r[k]
  {
    if |s| == 0 then [""]
    else if s[0] == c then [""] + SplitOn(s[1..], c)
    else
      var rest := SplitOn(s[1..], c);
      [[s[0]] + rest[0]] + rest[1..]
  }

  /** `parts.join(sep)`; the empty array joins to the empty string. */
  function Join(parts: seq<string>, sep: string): (r: string)
  {
    if |parts| == 0 then ""
    else if |parts| == 1 then parts[0]
    else parts[0] + sep + Join(parts[1..], sep)
  }

  lemma {:induction false} JoinSplit(s: string, c: char)
    ensures Join(SplitOn(s, c), [c]) == s
  {
    if |s| == 0 {
    } else if s[0] == c {
      JoinSplit(s[1..], c);
      var rest := SplitOn(s[1..], c);
      if |rest| == 1 {
        assert Join([""] + rest, [c]) == "" + [c] + rest[0];
      } else {
        assert ([""] + rest)[1..] == rest;
      }
    } else {
      JoinSplit(s[1..], c);
      var rest := SplitOn(s[1..], c);
      if |rest| > 1 {
        assert ([[s[0]] + rest[0]] + rest[1..])[1..] == rest[1..];
        assert Join(rest, [c]) == rest[0] + [c] + Join(rest[1..], [c]);
      }
    }
  }

  /** Splitting a joined sequence gives the parts back when no part holds the separator. */
  lemma {:induction false} SplitJoin(parts: seq<string>, c: char)
    requires |parts| >= 1
    requires forall k :: 0 <= k < |parts| ==> c !in parts[k]
    ensures SplitOn(Join(parts, [c]), c) == parts
  {
    if |parts| == 1 {
      SplitNoSep(parts[0], c);
    } else {
      SplitJoin(parts[1..], c);
      SplitPrefix(parts[0], Join(parts[1..], [c]), c);
      assert [parts[0]] + parts[1..] == parts;
    }
  }

  lemma {:induction false} SplitNoSep(s: string, c: char)
    requires c !in s
    ensures SplitOn(s, c) == [s]
  {
    if |s| > 0 {
      SplitNoSep(s[1..], c);
      assert [s[0]] + s[1..] == s;
    }
  }

  lemma {:induction false} SplitPrefix(a: string, b: string, c: char)
    requires c !in a
    ensures SplitOn(a + [c] + b, c) == [a] + SplitOn(b, c)
  {
    if |a| == 0 {
      assert (a + [c] + b)[1..] == b;
    } else {
      SplitPrefix(a[1..], b, c);
      assert (a + [c] + b)[1..] == a[1..] + [c] + b;
      assert [a[0]] + a[1..] == a;
    }
  }

  /** Drops one carriage return from the end of `s`, if there is one. */
  function DropCR(s: string): string
  {
    if |s| > 0 && s[|s| - 1] == '\r' then s[..|s| - 1] else s
  }

  /** `s.split(/\r?\n/)`: split at every `\n`, taking with it a `\r` right before it. */
  function SplitLines(s: string): (r: seq<string>)
    ensures |r| >= 1
    ensures forall k :: 0 <= k < |r| ==> '\n' !in r[k]
  {
    var parts := SplitOn(s, '\n');
    seq(|parts|, k requires 0 <= k < |parts| => if k < |parts| - 1 then DropCR(parts[k]) else parts[k])
  }

  /** Lines without breaks, none ending in a carriage return, come back
      from the line reader. */
  lemma SplitLinesJoin(lines: seq<string>)
    requires |lines| > 0
    requires forall k :: 0 <= k < |lines| ==> '\n' !in lines[k] && DropCR(lines[k]) == lines[k]
    ensures SplitLines(Join(lines, "\n")) == lines
  {
    SplitJoin(lines, '\n');
  }

  /** A string with no line break splits into itself. */
  lemma SplitLinesSingle(s: string)
    requires '\n' !in s
    ensures SplitLines(s) == [s]
  {
    SplitNoSep(s, '\n');
  }

  /** Every character of a part of `s.split(c)` is a character of `s`. */
  lemma {:induction false} SplitOnChars(s: string, c: char)
    ensures forall k, x :: 0 <= k < |SplitOn(s, c)| && x in SplitOn(s, c)[k] ==> x in s
  {
    if |s| > 0 {
      SplitOnChars(s[1..], c);
      var parts := SplitOn(s, c);
      var rest := SplitOn(s[1..], c);
      forall k, x | 0 <= k < |parts| && x in parts[k] ensures x in s {
        if s[0] == c {
          if k > 0 {
            assert parts[k] == rest[k - 1];
            assert x in s[1..];
          }
        } else if k == 0 {
          assert parts[0] == [s[0]] + rest[0];
          if x != s[0] {
            assert x in s[1..];
          }
        } else {
          assert parts[k] == rest[k];
          assert x in s[1..];
        }
      }
    }
  }

  /** Every character of a line of `s.split(/\r?\n/)` is a character of `s`. */
  lemma SplitLinesChars(s: string)
    ensures forall k, x :: 0 <= k < |SplitLines(s)| && x in SplitLines(s)[k] ==> x in s
  {
    SplitOnChars(s, '\n');
    var parts := SplitOn(s, '\n');
    forall k, x | 0 <= k < |SplitLines(s)| && x in SplitLines(s)[k] ensures x in s {
      assert x in parts[k];
    }
  }

  /** Decimal digits of a natural number, most significant first (`String(n)`). */
  function NatToString(n: nat): (r: string)
    ensures |r| >= 1
    ensures forall i :: 0 <= i < |r| ==> '0' <= r[i] <= '9'
    decreases n
  {
    if n < 10 then [DigitChar(n)] else NatToString(n / 10) + [DigitChar(n % 10)]
  }

  function DigitChar(d: nat): (c: char)
    requires d < 10
    ensures '0' <= c <= '9' && (c as int) - ('0' as int) == d
  {
    (('0' as int) + d) as char
  }

  function DigitValue(c: char): (d: nat)
    requires '0' <= c <= '9'
    ensures d < 10
  {
    (c as int) - ('0' as int)
  }

  predicate AllDigits(s: string)
  {
    forall i :: 0 <= i < |s| ==> '0' <= s[i] <= '9'
  }

  /** The value of a string of decimal digits. */
  function DigitsValue(s: string): (n: nat)
    requires AllDigits(s)
  {
    PrefixValue(s, |s|)
  }

  /** The value of the first `k` digits of `s`. */
  function PrefixValue(s: string, k: nat): (n: nat)
    requires AllDigits(s) && k <= |s|
  {
    if k == 0 then 0 else PrefixValue(s, k - 1) * 10 + DigitValue(s[k - 1])
  }

  /** The first `k` digits of a prefix of `s` are the first `k` digits of `s`. */
  lemma {:induction false} PrefixValueTake(s: string, n: nat, k: nat)
    requires AllDigits(s) && k <= n <= |s|
    ensures AllDigits(s[..n]) && PrefixValue(s[..n], k) == PrefixValue(s, k)
  {
    if k > 0 {
      PrefixValueTake(s, n, k - 1);
      assert s[..n][k - 1] == s[k - 1];
    }
  }

  /** The value of all digits but the last, times ten, plus the last. */
  lemma DigitsValueLast(s: string)
    requires AllDigits(s) && |s| > 0
    ensures AllDigits(s[..|s| - 1])
    ensures DigitsValue(s) == DigitsValue(s[..|s| - 1]) * 10 + DigitValue(s[|s| - 1])
  {
    PrefixValueTake(s, |s| - 1, |s| - 1);
  }

  /** Reading back the digits of `n` gives `n`. */
  lemma {:induction false} NatToStringValue(n: nat)
    ensures DigitsValue(NatToString(n)) == n
    decreases n
  {
    var r := NatToString(n);
    if n >= 10 {
      NatToStringValue(n / 10);
      assert r[..|r| - 1] == NatToString(n / 10);
      DigitsValueLast(r);
    } else {
      assert PrefixValue(r, 0) == 0;
    }
  }

  /** Different numbers print differently. */
  lemma NatToStringInjective(m: nat, n: nat)
    requires NatToString(m) == NatToString(n)
    ensures m == n
  {
    NatToStringValue(m);
    NatToStringValue(n);
  }
}
