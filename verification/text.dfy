/**
 * The pieces of java.lang.String, java.util.regex and Commons Lang that
 * FormattingUtils leans on, written out as functions on `seq<char>`:
 * decimal rendering of integers, `trim`, literal `replace`, an anchored
 * `replacePattern` and the word-boundary replacement `^1 x|\b1 x`.
 */
module Text {

  predicate IsDigit(c: char) { '0' <= c <= '9' }

  predicate AllDigits(s: string) { forall i :: 0 <= i < |s| ==> IsDigit(s[i]) }

  /** A regex word character (`\w`): ASCII letter, digit or underscore. */
  predicate IsWordChar(c: char) {
    ('a' <= c <= 'z') || ('A' <= c <= 'Z') || IsDigit(c) || c == '_'
  }

  /** `p` is a prefix of `s` (String.startsWith). */
  predicate IsPrefix(p: string, s: string) { |p| <= |s| && s[..|p|] == p }

  function DigitChar(d: nat): (c: char)
    requires d < 10
    ensures IsDigit(c)
  {
    ('0' as int + d) as char
  }

  function DigitValue(c: char): (d: nat)
    requires IsDigit(c)
    ensures d < 10
  {
    c as int - '0' as int
  }

  /** Long.toString of a non-negative value: decimal digits, no leading zero. */
  function NatToString(n: nat): (s: string)
    ensures |s| > 0 && AllDigits(s)
    ensures s[0] == '0' <==> n == 0
    decreases n
  {
    if n < 10 then [DigitChar(n)] else NatToString(n / 10) + [DigitChar(n % 10)]
  }

  /** Reads a string of decimal digits back as a number (the inverse of NatToString). */
  function ParseNat(s: string): nat
    requires AllDigits(s)
    decreases |s|
  {
    if s == [] then 0 else ParseNat(s[..|s| - 1]) * 10 + DigitValue(s[|s| - 1])
  }

  lemma {:induction false} ParseNatToString(n: nat)
    ensures ParseNat(NatToString(n)) == n
    decreases n
  {
    if n >= 10 {
      var s := NatToString(n);
      assert s[..|s| - 1] == NatToString(n / 10);
      ParseNatToString(n / 10);
    }
  }

  lemma NatToStringInjective(a: nat, b: nat)
    ensures NatToString(a) == NatToString(b) <==> a == b
  {
    ParseNatToString(a);
    ParseNatToString(b);
  }

  /** Long.toString, or `"" + n` in Java: a minus sign for negatives. */
  function IntToString(i: int): (s: string)
    ensures |s| > 0
    ensures s[0] == '-' <==> i < 0
  {
    if i < 0 then "-" + NatToString(-i) else NatToString(i)
  }

  /** Reads back what IntToString writes. */
  function ParseInt(s: string): int
    requires |s| > 0
    requires s[0] == '-' ==> AllDigits(s[1..])
    requires s[0] != '-' ==> AllDigits(s)
  {
    if s[0] == '-' then -(ParseNat(s[1..]) as int) else ParseNat(s)
  }

  lemma IntToStringRoundTrip(i: int)
    ensures ParseInt(IntToString(i)) == i
  {
    if i < 0 {
      var s := IntToString(i);
      assert s[1..] == NatToString(-i);
      ParseNatToString(-i);
    } else {
      ParseNatToString(i);
    }
  }

  /** Character.toLowerCase restricted to ASCII letters. */
  function ToLowerAscii(s: string): (r: string)
    ensures |r| == |s|
    ensures forall i :: 0 <= i < |s| ==> ('A' <= s[i] <= 'Z' ==> r[i] as int == s[i] as int + 32)
    ensures forall i :: 0 <= i < |s| ==> (!('A' <= s[i] <= 'Z') ==> r[i] == s[i])
    decreases |s|
  {
    if s == [] then []
    else
      var c := s[0];
      var lc := if 'A' <= c <= 'Z' then (c as int + 32) as char else c;
      [lc] + ToLowerAscii(s[1..])
  }

  /** Drops leading characters up to U+0020, as String.trim does at the front. */
  function TrimStart(s: string): (r: string)
    ensures |r| <= |s| && r == s[|s| - |r|..]
    ensures |r| > 0 ==> r[0] > ' '
    ensures forall k :: 0 <= k < |s| - |r| ==> s[k] <= ' '
    decreases |s|
  {
    if |s| > 0 && s[0] <= ' ' then TrimStart(s[1..]) else s
  }

  /** Drops trailing characters up to U+0020, as String.trim does at the back. */
  function TrimEnd(s: string): (r: string)
    ensures |r| <= |s| && r == s[..|r|]
    ensures |r| > 0 ==> r[|r| - 1] > ' '
    ensures forall k :: |r| <= k < |s| ==> s[k] <= ' '
    decreases |s|
  {
    if |s| > 0 && s[|s| - 1] <= ' ' then TrimEnd(s[..|s| - 1]) else s
  }

  /** String.trim: no character up to U+0020 is left at either end, and only such characters are dropped. */
  function Trim(s: string): (r: string)
    ensures |r| <= |s|
    ensures |r| > 0 ==> r[0] > ' ' && r[|r| - 1] > ' '
    ensures |s| > 0 && s[0] > ' ' && s[|s| - 1] > ' ' ==> r == s
    ensures TrimmedSlice(s, r, |s| - |TrimStart(s)|)
  {
    TrimIsSlice(s);
    TrimEnd(TrimStart(s))
  }

  /** `r` is `s[a..a + |r|]` and every character of `s` outside that slice is at most U+0020. */
  predicate TrimmedSlice(s: string, r: string, a: int)
  {
    && 0 <= a && a + |r| <= |s| && r == s[a..a + |r|]
    && (forall k :: 0 <= k < a ==> s[k] <= ' ')
    && (forall k :: a + |r| <= k < |s| ==> s[k] <= ' ')
  }

  lemma TrimIsSlice(s: string)
    ensures TrimmedSlice(s, TrimEnd(TrimStart(s)), |s| - |TrimStart(s)|)
  {
    var t := TrimStart(s);
    var u := TrimEnd(t);
    var a := |s| - |t|;
    forall i | 0 <= i < |u|
      ensures u[i] == s[a + i]
    {
      assert u[i] == t[i];
    }
    assert u == s[a..a + |u|];
    forall k | a + |u| <= k < |s|
      ensures s[k] <= ' '
    {
      assert s[k] == t[k - a];
    }
    assert TrimmedSlice(s, u, a);
  }

  /**
   * String.replace(target, replacement): every occurrence of `target`,
   * found left to right without overlap, is replaced.
   */
  function ReplaceAll(s: string, target: string, replacement: string): string
    requires |target| > 0
    decreases |s|
  {
    if |s| < |target| then s
    else if s[..|target|] == target then replacement + ReplaceAll(s[|target|..], target, replacement)
    else [s[0]] + ReplaceAll(s[1..], target, replacement)
  }

  /** A text in which the first character of `target` never occurs passes through untouched. */
  lemma {:induction false} ReplaceAllSkips(x: string, b: string, target: string, replacement: string)
    requires |target| > 0
    requires forall i :: 0 <= i < |x| ==> x[i] != target[0]
    ensures ReplaceAll(x + b, target, replacement) == x + ReplaceAll(b, target, replacement)
    decreases |x|
  {
    if |x| == 0 {
      assert x + b == b;
    } else {
      var s := x + b;
      assert s[0] == x[0];
      ReplaceAllStep(s, target, replacement);
      assert s[1..] == x[1..] + b;
      ReplaceAllSkips(x[1..], b, target, replacement);
      assert x == [x[0]] + x[1..];
    }
  }

  /** Where no occurrence starts, one character is copied and the scan moves on. */
  lemma ReplaceAllStep(s: string, target: string, replacement: string)
    requires |target| > 0 && |s| > 0
    requires !IsPrefix(target, s)
    ensures ReplaceAll(s, target, replacement) == [s[0]] + ReplaceAll(s[1..], target, replacement)
  {
    if |s| < |target| {
      assert s == [s[0]] + s[1..];
    }
  }

  /**
   * Matcher.replaceAll for the regex `^p|\bp` where `p` is a literal whose
   * first character is a word character: an occurrence of `p` is replaced
   * when it starts the input or follows a non-word character of the input.
   * `afterWordChar` says whether the character before `s` is a word character.
   */
  function ReplaceAtBoundary(s: string, pattern: string, replacement: string, afterWordChar: bool): string
    requires |pattern| > 0
    decreases |s|
  {
    if |s| < |pattern| then s
    else if !afterWordChar && s[..|pattern|] == pattern then
      replacement + ReplaceAtBoundary(s[|pattern|..], pattern, replacement, IsWordChar(pattern[|pattern| - 1]))
    else [s[0]] + ReplaceAtBoundary(s[1..], pattern, replacement, IsWordChar(s[0]))
  }

  /** A text in which the first character of `pattern` never occurs passes through untouched. */
  lemma {:induction false} BoundarySkips(x: string, b: string, pattern: string, replacement: string, after: bool)
    requires |pattern| > 0
    requires forall i :: 0 <= i < |x| ==> x[i] != pattern[0]
    ensures ReplaceAtBoundary(x + b, pattern, replacement, after)
         == x + ReplaceAtBoundary(b, pattern, replacement, if |x| == 0 then after else IsWordChar(x[|x| - 1]))
    decreases |x|
  {
    if |x| == 0 {
      assert x + b == b;
    } else {
      var s := x + b;
      var tail := x[1..];
      var last := IsWordChar(x[|x| - 1]);
      SkipHead(x, b, pattern);
      calc {
        ReplaceAtBoundary(s, pattern, replacement, after);
        == { BoundaryStep(s, pattern, replacement, after); }
        [x[0]] + ReplaceAtBoundary(tail + b, pattern, replacement, IsWordChar(x[0]));
        == { BoundarySkips(tail, b, pattern, replacement, IsWordChar(x[0])); }
        [x[0]] + (tail + ReplaceAtBoundary(b, pattern, replacement, last));
        ==
        x + ReplaceAtBoundary(b, pattern, replacement, last);
      }
    }
  }

  /** The first character of `x + b` is copied: it cannot start `pattern`. */
  lemma SkipHead(x: string, b: string, pattern: string)
    requires |pattern| > 0 && |x| > 0 && x[0] != pattern[0]
    ensures (x + b)[0] == x[0] && (x + b)[1..] == x[1..] + b && x == [x[0]] + x[1..]
    ensures !IsPrefix(pattern, x + b)
    ensures (if |x| == 1 then IsWordChar(x[0]) else IsWordChar(x[1..][|x| - 2])) == IsWordChar(x[|x| - 1])
  {
    var s := x + b;
    if |pattern| <= |s| {
      assert s[..|pattern|][0] == x[0];
    }
  }

  /**
   * After a run of digits `d` a pattern `c␣…` can only match when `d` is the
   * single character `c` standing at a boundary: a longer numeral ending in
   * `c` is preceded by a digit, which is a word character.
   */
  lemma {:induction false} BoundaryAfterNumeral(d: string, rest: string, pattern: string, replacement: string, after: bool)
    requires |pattern| >= 2 && pattern[1] == ' '
    requires |d| > 0 && AllDigits(d)
    ensures ReplaceAtBoundary(d + rest, pattern, replacement, after)
         == if !after && d == pattern[..1] && IsPrefix(pattern[1..], rest)
            then replacement + ReplaceAtBoundary(rest[|pattern| - 1..], pattern, replacement, IsWordChar(pattern[|pattern| - 1]))
            else d + ReplaceAtBoundary(rest, pattern, replacement, IsWordChar(d[|d| - 1]))
    decreases |d|
  {
    if |d| == 1 {
      BoundaryAfterDigit(d, rest, pattern, replacement, after);
    } else {
      var s := d + rest;
      var last := IsWordChar(d[|d| - 1]);
      NumeralHead(d, rest, pattern);
      calc {
        ReplaceAtBoundary(s, pattern, replacement, after);
        == { BoundaryStep(s, pattern, replacement, after); }
        [d[0]] + ReplaceAtBoundary(d[1..] + rest, pattern, replacement, true);
        == { BoundaryAfterNumeral(d[1..], rest, pattern, replacement, true); }
        [d[0]] + (d[1..] + ReplaceAtBoundary(rest, pattern, replacement, last));
        ==
        d + ReplaceAtBoundary(rest, pattern, replacement, last);
      }
    }
  }

  /** The first digit of a numeral of two or more digits is copied, and the scan goes on after a word character. */
  lemma NumeralHead(d: string, rest: string, pattern: string)
    requires |pattern| >= 2 && pattern[1] == ' '
    requires |d| > 1 && AllDigits(d)
    ensures (d + rest)[0] == d[0] && (d + rest)[1..] == d[1..] + rest && d == [d[0]] + d[1..]
    ensures !IsPrefix(pattern, d + rest) && d != pattern[..1]
    ensures IsWordChar(d[0]) && AllDigits(d[1..]) && d[1..][|d| - 2] == d[|d| - 1]
  {
    var s := d + rest;
    assert IsDigit(d[1]);
    if |pattern| <= |s| {
      assert s[..|pattern|][1] == d[1];
    }
  }

  /** Where no match starts, one character is copied and the scan moves on. */
  lemma BoundaryStep(s: string, pattern: string, replacement: string, after: bool)
    requires |pattern| > 0 && |s| > 0
    requires after || !IsPrefix(pattern, s)
    ensures ReplaceAtBoundary(s, pattern, replacement, after)
         == [s[0]] + ReplaceAtBoundary(s[1..], pattern, replacement, IsWordChar(s[0]))
  {
    if |s| < |pattern| {
      assert s == [s[0]] + s[1..];
    }
  }

  lemma BoundaryAfterDigit(d: string, rest: string, pattern: string, replacement: string, after: bool)
    requires |pattern| >= 2
    requires |d| == 1
    ensures ReplaceAtBoundary(d + rest, pattern, replacement, after)
         == if !after && d == pattern[..1] && IsPrefix(pattern[1..], rest)
            then replacement + ReplaceAtBoundary(rest[|pattern| - 1..], pattern, replacement, IsWordChar(pattern[|pattern| - 1]))
            else d + ReplaceAtBoundary(rest, pattern, replacement, IsWordChar(d[0]))
  {
    var s := d + rest;
    var n := |pattern|;
    PrefixOfConcat(d, rest, pattern);
    if d == pattern[..1] && IsPrefix(pattern[1..], rest) {
      assert s[n..] == rest[n - 1..];
    } else {
      assert s[1..] == rest;
    }
  }

  /** `d + rest` starts with `pattern` exactly when `d` and `rest` supply its two parts. */
  lemma PrefixOfConcat(d: string, rest: string, pattern: string)
    requires 1 <= |d| <= |pattern|
    ensures IsPrefix(pattern, d + rest) <==> d == pattern[..|d|] && IsPrefix(pattern[|d|..], rest)
  {
    var s := d + rest;
    if IsPrefix(pattern, s) {
      assert d == s[..|d|];
      assert rest[..|pattern| - |d|] == s[|d|..|pattern|];
    }
    if d == pattern[..|d|] && IsPrefix(pattern[|d|..], rest) {
      assert s[..|pattern|] == d + rest[..|pattern| - |d|];
    }
  }

  /** StringUtils.replacePattern(s, "^literal", ""): drops `prefix` once, at the start only. */
  function StripPrefix(s: string, prefix: string): (r: string)
    ensures IsPrefix(prefix, s) ==> s == prefix + r
    ensures !IsPrefix(prefix, s) ==> r == s
  {
    if IsPrefix(prefix, s) then s[|prefix|..] else s
  }
}
