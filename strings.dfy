/**
 * The few pieces of Python's string library the row normaliser relies on:
 * `str.split`, `str.join`, `re.match('\d{n}$', ...)`, `int(...)` on a string
 * and the `'{0:05d}'` format.
 */
module Strings {
  import opened Wrappers

  /** `\d` in a byte-string pattern: an ASCII decimal digit. */
  predicate IsDigit(c: char) {
    '0' <= c <= '9'
  }

  predicate AllDigits(s: string) {
    forall i :: 0 <= i < |s| ==> IsDigit(s[i])
  }

  /**
   * `re.match('\d{n}$', s)`: the match is anchored at the start, and `$`
   * matches at the very end or just before a final newline, so exactly
   * `n` digits, optionally followed by one `'\n'`.
   */
  predicate MatchesDigits(s: string, n: nat) {
    (|s| == n || (|s| == n + 1 && s[n] == '\n')) && AllDigits(s[..n])
  }

  /** Python slicing `s[:n]` and `s[n:]`, which never fail. */
  function Take(s: string, n: nat): string {
    if n <= |s| then s[..n] else s
  }

  function Drop(s: string, n: nat): string {
    if n <= |s| then s[n..] else ""
  }

  /** `s.split(sep)` for a one-character separator. */
  function Split(s: string, sep: char): (parts: seq<string>)
    ensures |parts| >= 1
  {
    if s == [] then [""]
    else
      var rest := Split(s[1..], sep);
      if s[0] == sep then [""] + rest else [[s[0]] + rest[0]] + rest[1..]
  }

  /** `sep.join(parts)`. */
  function Join(parts: seq<string>, sep: string): string {
    if |parts| == 0 then ""
    else if |parts| == 1 then parts[0]
    else parts[0] + sep + Join(parts[1..], sep)
  }

  /** `s` with every occurrence of `c` removed. */
  function Without(s: string, c: char): (r: string)
    ensures c !in r
  {
    if s == [] then ""
    else if s[0] == c then Without(s[1..], c)
    else [s[0]] + Without(s[1..], c)
  }

  /** Joining the pieces of a split with the separator gives back the line. */
  lemma {:induction false} SplitJoin(s: string, sep: char)
    ensures Join(Split(s, sep), [sep]) == s
  {
    if s != [] {
      var rest := Split(s[1..], sep);
      SplitJoin(s[1..], sep);
      if s[0] != sep && |rest| > 1 {
        assert Join(rest, [sep]) == rest[0] + [sep] + Join(rest[1..], [sep]);
      }
    }
  }

  /** No piece of a split holds the separator. */
  lemma {:induction false} SplitPiecesFree(s: string, sep: char)
    ensures forall j :: 0 <= j < |Split(s, sep)| ==> sep !in Split(s, sep)[j]
  {
    if s != [] {
      SplitPiecesFree(s[1..], sep);
    }
  }

  /** `''.join(line.split(sep))` is the line with its separators removed. */
  lemma {:induction false} JoinSplitRemoves(s: string, sep: char)
    ensures Join(Split(s, sep), "") == Without(s, sep)
  {
    if s != [] {
      var rest := Split(s[1..], sep);
      JoinSplitRemoves(s[1..], sep);
      if s[0] != sep {
        var parts := [[s[0]] + rest[0]] + rest[1..];
        assert Split(s, sep) == parts;
        if |rest| > 1 {
          assert Join(rest, "") == rest[0] + Join(rest[1..], "");
          assert parts[1..] == rest[1..];
          assert Join(parts, "") == [s[0]] + rest[0] + Join(rest[1..], "");
        }
      }
    }
  }

  /** A string without the separator splits into itself alone. */
  lemma {:induction false} SplitFree(a: string, sep: char)
    requires sep !in a
    ensures Split(a, sep) == [a]
  {
    if a != [] {
      assert a[0] in a && [a[0]] + a[1..] == a;
      SplitFree(a[1..], sep);
    }
  }

  /** Splitting at the first separator: the piece before it, then the split of the rest. */
  lemma {:induction false} SplitAfter(a: string, sep: char, b: string)
    requires sep !in a
    ensures Split(a + [sep] + b, sep) == [a] + Split(b, sep)
  {
    if a != [] {
      assert a[0] in a && [a[0]] + a[1..] == a;
      assert (a + [sep] + b)[0] == a[0];
      assert (a + [sep] + b)[1..] == a[1..] + [sep] + b;
      SplitAfter(a[1..], sep, b);
    } else {
      assert (a + [sep] + b)[1..] == b;
    }
  }

  /** A join of at least two pieces: the first piece, the separator, then the join of the rest. */
  lemma JoinCons(a: string, rest: seq<string>, sep: string)
    requires rest != []
    ensures Join([a] + rest, sep) == a + (sep + Join(rest, sep))
  {
    assert ([a] + rest)[1..] == rest;
  }

  /** Splitting a join of pieces that hold no separator gives the pieces back. */
  lemma {:induction false} JoinSplitRoundTrip(parts: seq<string>, sep: char)
    requires |parts| >= 1 && forall j :: 0 <= j < |parts| ==> sep !in parts[j]
    ensures Split(Join(parts, [sep]), sep) == parts
    decreases |parts|
  {
    if |parts| == 1 {
      SplitFree(parts[0], sep);
    } else {
      assert forall j :: 0 <= j < |parts[1..]| ==> parts[1..][j] == parts[j + 1];
      JoinSplitRoundTrip(parts[1..], sep);
      assert sep !in parts[0];
      SplitAfter(parts[0], sep, Join(parts[1..], [sep]));
    }
  }

  // ---------------------------------------------------------------------
  // Decimal numerals

  function DigitChar(d: nat): (c: char)
    requires d < 10
    ensures IsDigit(c)
  {
    (48 + d) as char
  }

  function DigitValue(c: char): nat
    requires IsDigit(c)
  {
    c as int - 48
  }

  /** `str(n)` for a non-negative integer: no leading zeros. */
  function Decimal(n: nat): (s: string)
    ensures |s| >= 1 && AllDigits(s)
  {
    if n < 10 then [DigitChar(n)] else Decimal(n / 10) + [DigitChar(n % 10)]
  }

  /** The value of a string of decimal digits (leading zeros allowed). */
  function DigitsValue(s: string): nat
    requires AllDigits(s)
  {
    if s == [] then 0 else DigitsValue(s[..|s| - 1]) * 10 + DigitValue(s[|s| - 1])
  }

  function Zeros(k: nat): (z: string)
    ensures |z| == k && AllDigits(z)
  {
    if k == 0 then "" else "0" + Zeros(k - 1)
  }

  lemma {:induction false} DecimalValue(n: nat)
    ensures DigitsValue(Decimal(n)) == n
  {
    if n >= 10 {
      var s := Decimal(n);
      DecimalValue(n / 10);
      assert s[..|s| - 1] == Decimal(n / 10);
    }
  }

  lemma {:induction false} ZerosValue(k: nat)
    ensures DigitsValue(Zeros(k)) == 0
  {
    if k > 0 {
      var z := Zeros(k);
      assert z[..k - 1] == Zeros(k - 1) by {
        if k > 1 {
          ZerosSnoc(k - 1);
        }
      }
      ZerosValue(k - 1);
    }
  }

  lemma {:induction false} ZerosSnoc(k: nat)
    ensures Zeros(k + 1) == Zeros(k) + "0"
  {
    if k > 0 {
      ZerosSnoc(k - 1);
    }
  }

  /** Leading zeros do not change the value of a numeral. */
  lemma {:induction false} LeadingZerosValue(k: nat, s: string)
    requires AllDigits(s)
    ensures AllDigits(Zeros(k) + s) && DigitsValue(Zeros(k) + s) == DigitsValue(s)
  {
    var t := Zeros(k) + s;
    assert AllDigits(t) by {
      forall i | 0 <= i < |t| ensures IsDigit(t[i]) {
        if i >= k {
          assert t[i] == s[i - k];
        }
      }
    }
    if s == [] {
      assert t == Zeros(k);
      ZerosValue(k);
    } else {
      assert t[..|t| - 1] == Zeros(k) + s[..|s| - 1];
      LeadingZerosValue(k, s[..|s| - 1]);
    }
  }

  function Pow10(k: nat): nat {
    if k == 0 then 1 else 10 * Pow10(k - 1)
  }

  /** A number below `10^k` has at most `k` digits. */
  lemma {:induction false} DecimalLength(n: nat, k: nat)
    requires k >= 1 && n < Pow10(k)
    ensures |Decimal(n)| <= k
  {
    if n >= 10 {
      assert k >= 2;
      DecimalLength(n / 10, k - 1);
    }
  }

  // ---------------------------------------------------------------------
  // Python's int(str) and '{0:0<w>d}'.format(int)

  /** The whitespace `int()` strips around its argument. */
  predicate IsSpace(c: char) {
    c == ' ' || '\t' <= c <= '\r'
  }

  function StripLeft(s: string): (r: string)
    ensures |r| <= |s|
  {
    if s != [] && IsSpace(s[0]) then StripLeft(s[1..]) else s
  }

  function StripRight(s: string): (r: string)
    ensures |r| <= |s|
  {
    if s != [] && IsSpace(s[|s| - 1]) then StripRight(s[..|s| - 1]) else s
  }

  function Strip(s: string): string {
    StripRight(StripLeft(s))
  }

  predicate IsSign(c: char) {
    c == '+' || c == '-'
  }

  /**
   * `int(s)`: surrounding whitespace, an optional sign and at least one
   * digit; anything else raises `ValueError`, here `None`.
   */
  function ParseInt(s: string): Option<int> {
    var t := Strip(s);
    if |t| > 0 && IsSign(t[0]) then
      var d := t[1..];
      if |d| > 0 && AllDigits(d) then
        Some(if t[0] == '-' then 0 - DigitsValue(d) as int else DigitsValue(d))
      else None
    else if |t| > 0 && AllDigits(t) then Some(DigitsValue(t))
    else None
  }

  /** `s` left-padded with `'0'` to at least `width` characters. */
  function PadZeros(s: string, width: nat): (r: string)
    ensures |r| == if |s| >= width then |s| else width
  {
    if |s| >= width then s else Zeros(width - |s|) + s
  }

  /**
   * `'{0:05d}'.format(n)`: the sign, if any, counts towards the width and
   * the zeros go between the sign and the digits.
   */
  function FormatPadded(n: int): string {
    if n < 0 then "-" + PadZeros(Decimal(-n), 4) else PadZeros(Decimal(n), 5)
  }

  /**
   * The padded form has at least five characters; for a non-negative value
   * it is all digits, has exactly `max(5, |str(n)|)` of them and denotes `n`.
   */
  lemma PaddedShape(n: int)
    ensures |FormatPadded(n)| >= 5
    ensures n >= 0 ==>
              && AllDigits(FormatPadded(n))
              && |FormatPadded(n)| == (if |Decimal(n)| >= 5 then |Decimal(n)| else 5)
              && DigitsValue(FormatPadded(n)) == n
    ensures n < 0 ==>
              && FormatPadded(n)[0] == '-'
              && AllDigits(FormatPadded(n)[1..])
              && DigitsValue(FormatPadded(n)[1..]) == -n
  {
    var m := if n < 0 then -n else n;
    var w := if n < 0 then 4 else 5;
    DecimalValue(m);
    if |Decimal(m)| < w {
      LeadingZerosValue(w - |Decimal(m)|, Decimal(m));
    }
    if n < 0 {
      assert FormatPadded(n)[1..] == PadZeros(Decimal(m), 4);
    }
  }

  /** Below 100000 the padded form is exactly five digits (`^\d{5}$`). */
  lemma PaddedFiveDigits(n: int)
    requires 0 <= n < 100000
    ensures |FormatPadded(n)| == 5 && AllDigits(FormatPadded(n))
  {
    DecimalLength(n, 5);
    PaddedShape(n);
  }

  lemma StripNoSpace(s: string)
    requires s != [] && !IsSpace(s[0]) && !IsSpace(s[|s| - 1])
    ensures Strip(s) == s
  {
  }

  /** Reading the padded form back with `int()` gives the number again. */
  lemma PaddedRoundTrip(n: int)
    ensures ParseInt(FormatPadded(n)) == Some(n)
  {
    var s := FormatPadded(n);
    PaddedShape(n);
    assert IsDigit(s[|s| - 1]);
    StripNoSpace(s);
  }
}
