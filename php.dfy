/**
 * The PHP built-ins the number speller relies on, over `string` (a sequence of
 * single-byte characters): truthiness and `?:`, `preg_replace('/\D/', ...)`,
 * `str_pad`, `str_split`, `(int)` of a digit string, `array_reverse`,
 * `implode`, `str_replace`, `strtolower`, `strtoupper` and `trim`.
 */
module Php {

  /** PHP's `null` next to a value. */
  datatype Option<T> = None | Some(value: T)

  /** A string is truthy in PHP unless it is empty or exactly "0". */
  predicate Truthy(s: string) {
    s != "" && s != "0"
  }

  /** PHP's `s ?: fallback`. */
  function Or(s: string, fallback: string): (r: string)
    ensures Truthy(s) ==> r == s
    ensures !Truthy(s) ==> r == fallback
  {
    if Truthy(s) then s else fallback
  }

  predicate IsDigit(c: char) {
    48 <= c as int <= 57
  }

  predicate AllDigits(s: string) {
    forall i :: 0 <= i < |s| ==> IsDigit(s[i])
  }

  /** `preg_replace('/\D/', null, s)`: keeps the decimal digits, in order. */
  function DigitsOnly(s: string): (r: string)
    ensures AllDigits(r)
    ensures |r| <= |s|
  {
    if s == [] then [] else (if IsDigit(s[0]) then [s[0]] else []) + DigitsOnly(s[1..])
  }

  lemma {:induction false} DigitsOnlyOfDigits(s: string)
    requires AllDigits(s)
    ensures DigitsOnly(s) == s
  {
    if s != [] {
      DigitsOnlyOfDigits(s[1..]);
    }
  }

  /** `n` zero characters. */
  function Zeros(n: nat): (r: string)
    ensures |r| == n && forall i :: 0 <= i < n ==> r[i] == '0'
  {
    if n == 0 then "" else "0" + Zeros(n - 1)
  }

  /** `str_pad(s, width, '0', STR_PAD_LEFT)`. */
  function PadLeft(s: string, width: nat): (r: string)
    ensures |s| <= width ==> r == Zeros(width - |s|) + s
    ensures width < |s| ==> r == s
  {
    if width <= |s| then s else Zeros(width - |s|) + s
  }

  /** `str_pad(s, width, '0', STR_PAD_RIGHT)`. */
  function PadRight(s: string, width: nat): (r: string)
    ensures |s| <= width ==> r == s + Zeros(width - |s|)
    ensures width < |s| ==> r == s
  {
    if width <= |s| then s else s + Zeros(width - |s|)
  }

  /**
   * `str_split(s, 3)` as PHP before 8.2 has it: pieces of three characters,
   * the last one shorter, and `[""]` for the empty string.
   */
  function Chunks3(s: string): (r: seq<string>)
    ensures |r| >= 1
    ensures forall i :: 0 <= i < |r| ==> |r[i]| <= 3
    decreases |s|
  {
    if |s| <= 3 then [s] else [s[..3]] + Chunks3(s[3..])
  }

  lemma {:induction false} Chunks3Exact(s: string)
    requires |s| % 3 == 0 && s != ""
    ensures |Chunks3(s)| == |s| / 3
    ensures forall i :: 0 <= i < |Chunks3(s)| ==> Chunks3(s)[i] == s[3 * i..3 * i + 3]
  {
    if |s| > 3 {
      Chunks3Exact(s[3..]);
      var r := Chunks3(s);
      forall i | 0 <= i < |r|
        ensures r[i] == s[3 * i..3 * i + 3]
      {
        if i > 0 {
          assert r[i] == Chunks3(s[3..])[i - 1];
        }
      }
    }
  }

  /** The value of a digit character; the other characters, which are never read, count as zero. */
  function DigitOf(c: char): (r: nat)
    ensures r <= 9
  {
    if IsDigit(c) then (c as int - 48) as nat else 0
  }

  /** The value of a decimal digit string; `(int) ltrim(s, '0')` for the source's chunks. */
  function DigitsValue(s: string): nat
  {
    if s == [] then 0 else DigitsValue(s[..|s| - 1]) * 10 + DigitOf(s[|s| - 1])
  }

  function Pow(base: nat, e: nat): nat {
    if e == 0 then 1 else base * Pow(base, e - 1)
  }

  lemma {:induction false} PowAdd(base: nat, a: nat, b: nat)
    ensures Pow(base, a + b) == Pow(base, a) * Pow(base, b)
  {
    if a > 0 {
      PowAdd(base, a - 1, b);
      var p, q := Pow(base, a - 1), Pow(base, b);
      assert Pow(base, a + b) == base * (p * q);
      assert base * (p * q) == (base * p) * q;
    }
  }

  /** Three decimal places are one place in base one thousand. */
  lemma {:induction false} PowThousand(k: nat)
    ensures Pow(10, 3 * k) == Pow(1000, k)
  {
    if k > 0 {
      PowThousand(k - 1);
      PowAdd(10, 3, 3 * (k - 1));
      assert Pow(10, 3) == 1000;
    }
  }

  lemma {:induction false} DigitsValueBound(s: string)
    ensures DigitsValue(s) < Pow(10, |s|)
  {
    if s != [] {
      DigitsValueBound(s[..|s| - 1]);
    }
  }

  /** Reading `a + b` is reading `a`, shifted by the width of `b`, plus `b`. */
  lemma ShiftDigit(x: int, p: int, y: int, d: int)
    ensures (x * p + y) * 10 + d == x * (p * 10) + (y * 10 + d)
  {
    assert (x * p) * 10 == x * (p * 10);
  }

  lemma {:induction false} DigitsValueAppend(a: string, b: string)
    ensures DigitsValue(a + b) == DigitsValue(a) * Pow(10, |b|) + DigitsValue(b)
  {
    if b != [] {
      var b', d := b[..|b| - 1], DigitOf(b[|b| - 1]);
      assert (a + b)[..|a + b| - 1] == a + b';
      assert (a + b)[|a + b| - 1] == b[|b| - 1];
      DigitsValueAppend(a, b');
      ShiftDigit(DigitsValue(a), Pow(10, |b'|), DigitsValue(b'), d);
    } else {
      assert a + b == a;
    }
  }

  lemma {:induction false} DigitsValueZeros(n: nat)
    ensures DigitsValue(Zeros(n)) == 0
  {
    if n > 0 {
      assert Zeros(n)[..n - 1] == Zeros(n - 1);
      DigitsValueZeros(n - 1);
    }
  }

  /** Left padding with zeros never changes the value of a digit string. */
  lemma PadLeftValue(s: string, width: nat)
    ensures DigitsValue(PadLeft(s, width)) == DigitsValue(s)
  {
    if |s| < width {
      DigitsValueZeros(width - |s|);
      DigitsValueAppend(Zeros(width - |s|), s);
    }
  }

  /** Right padding with `k` zeros multiplies the value by ten to the `k`. */
  lemma PadRightValue(s: string, width: nat)
    requires |s| <= width
    ensures DigitsValue(PadRight(s, width)) == DigitsValue(s) * Pow(10, width - |s|)
  {
    DigitsValueZeros(width - |s|);
    DigitsValueAppend(s, Zeros(width - |s|));
  }

  /** `array_reverse` of a list. */
  function Reverse<T>(s: seq<T>): (r: seq<T>)
    ensures |r| == |s|
    ensures forall i :: 0 <= i < |s| ==> r[i] == s[|s| - 1 - i]
  {
    if s == [] then [] else [s[|s| - 1]] + Reverse(s[..|s| - 1])
  }

  /** Reversing a list that starts with `a` ends it with `a`. */
  lemma ReverseCons<T>(a: T, rest: seq<T>)
    ensures Reverse([a] + rest) == Reverse(rest) + [a]
  {
    var l, r := Reverse([a] + rest), Reverse(rest) + [a];
    assert |l| == |r|;
    forall i | 0 <= i < |l|
      ensures l[i] == r[i]
    {
      if i < |rest| {
        assert ([a] + rest)[|rest| - i] == rest[|rest| - 1 - i];
      }
    }
  }

  /** `implode(sep, parts)`. */
  function Implode(sep: string, parts: seq<string>): string {
    if parts == [] then ""
    else if |parts| == 1 then parts[0]
    else parts[0] + sep + Implode(sep, parts[1..])
  }

  /**
   * `str_replace(pattern, replacement, s)`: every occurrence of `pattern`,
   * found left to right without overlap, is replaced.
   */
  function ReplaceAll(s: string, pattern: string, replacement: string): string
    requires pattern != ""
    decreases |s|
  {
    if |s| < |pattern| then s
    else if s[..|pattern|] == pattern then replacement + ReplaceAll(s[|pattern|..], pattern, replacement)
    else [s[0]] + ReplaceAll(s[1..], pattern, replacement)
  }

  predicate OccursAt(s: string, pattern: string, i: nat) {
    i + |pattern| <= |s| && s[i..i + |pattern|] == pattern
  }

  /** `pattern` occurs somewhere in `s`. */
  ghost predicate Occurs(s: string, pattern: string) {
    exists i: nat :: OccursAt(s, pattern, i)
  }

  /** Where the pattern does not occur, `str_replace` changes nothing. */
  lemma {:induction false} ReplaceAbsent(s: string, pattern: string, replacement: string)
    requires pattern != "" && !Occurs(s, pattern)
    ensures ReplaceAll(s, pattern, replacement) == s
  {
    if |s| >= |pattern| {
      assert !OccursAt(s, pattern, 0);
      assert s[0..|pattern|] == s[..|pattern|];
      forall i: nat
        ensures OccursAt(s[1..], pattern, i) <==> OccursAt(s, pattern, i + 1)
      {
        if i + |pattern| <= |s[1..]| {
          assert s[1..][i..i + |pattern|] == s[i + 1..i + 1 + |pattern|];
        }
      }
      ReplaceAbsent(s[1..], pattern, replacement);
    }
  }

  /** A string that starts with the pattern and has no other occurrence has it replaced once. */
  lemma ReplaceLeading(s: string, pattern: string, replacement: string)
    requires pattern != "" && !Occurs(s, pattern)
    ensures ReplaceAll(pattern + s, pattern, replacement) == replacement + s
  {
    assert (pattern + s)[..|pattern|] == pattern;
    assert (pattern + s)[|pattern|..] == s;
    ReplaceAbsent(s, pattern, replacement);
  }

  predicate IsAlnum(c: char) {
    IsDigit(c) || 65 <= c as int <= 90 || 97 <= c as int <= 122
  }

  /** `strtolower` (ASCII letters only, as PHP 8.2 has it). */
  function Lower(s: string): (r: string)
    ensures |r| == |s|
  {
    if s == [] then ""
    else (if 65 <= s[0] as int <= 90 then [(s[0] as int + 32) as char] else [s[0]]) + Lower(s[1..])
  }

  /** `strtoupper` (ASCII letters only). */
  function Upper(s: string): (r: string)
    ensures |r| == |s|
  {
    if s == [] then ""
    else (if 97 <= s[0] as int <= 122 then [(s[0] as int - 32) as char] else [s[0]]) + Upper(s[1..])
  }

  /** The characters PHP's `trim` strips by default: " \t\n\r\0\x0B". */
  predicate IsTrimmed(c: char) {
    c == ' ' || c == '\t' || c == '\n' || c == '\r' || c == '\0' || c as int == 11
  }

  function TrimLeft(s: string): (r: string)
    ensures |r| <= |s|
  {
    if s != [] && IsTrimmed(s[0]) then TrimLeft(s[1..]) else s
  }

  function TrimRight(s: string): (r: string)
    ensures |r| <= |s|
  {
    if s != [] && IsTrimmed(s[|s| - 1]) then TrimRight(s[..|s| - 1]) else s
  }

  /** `trim(s)`. */
  function Trim(s: string): (r: string)
    ensures |r| <= |s|
  {
    TrimRight(TrimLeft(s))
  }
}
