/**
 * Character-level facts the string handling of the modelled programs relies on.
 * Strings are sequences of Unicode scalar values; Rust's `str` stores them as
 * UTF-8, so its `len()` counts bytes.
 */
module Text {

  /** An ASCII character: code point below 0x80. */
  predicate IsAscii(c: char)
  {
    c as int < 0x80
  }

  predicate AllAscii(s: string)
  {
    forall i :: 0 <= i < |s| ==> IsAscii(s[i])
  }

  /** Number of bytes in the UTF-8 encoding of `c`. */
  function Utf8Width(c: char): (n: nat)
    ensures 1 <= n <= 4
    ensures n == 1 <==> IsAscii(c)
  {
    if c as int < 0x80 then 1
    else if c as int < 0x800 then 2
    else if c as int < 0x1_0000 then 3
    else 4
  }

  /** `str::len`: the number of bytes of the UTF-8 encoding of `s`. */
  function Utf8Len(s: string): (n: nat)
    ensures n >= |s|
    ensures n == |s| <==> AllAscii(s)
    decreases |s|
  {
    if s == [] then 0
    else
      var rest := Utf8Len(s[1..]);
      assert AllAscii(s) <==> IsAscii(s[0]) && AllAscii(s[1..]) by {
        if IsAscii(s[0]) && AllAscii(s[1..]) {
          forall i | 0 <= i < |s| ensures IsAscii(s[i]) {
            if i > 0 { assert s[i] == s[1..][i - 1]; }
          }
        }
      }
      Utf8Width(s[0]) + rest
  }

  /** A single character takes its own width. */
  lemma Utf8LenOne(c: char)
    ensures Utf8Len([c]) == Utf8Width(c)
  {
    assert [c][1..] == [];
  }

  /** The byte length of a concatenation is the sum of the byte lengths. */
  lemma {:induction false} Utf8LenAppend(a: string, b: string)
    ensures Utf8Len(a + b) == Utf8Len(a) + Utf8Len(b)
    decreases |a|
  {
    if a == [] {
      assert a + b == b;
    } else {
      assert (a + b)[0] == a[0] && (a + b)[1..] == a[1..] + b;
      Utf8LenAppend(a[1..], b);
    }
  }

  predicate IsAsciiUpper(c: char)
  {
    'A' <= c <= 'Z'
  }

  predicate IsAsciiLower(c: char)
  {
    'a' <= c <= 'z'
  }

  predicate IsAsciiLetter(c: char)
  {
    IsAsciiUpper(c) || IsAsciiLower(c)
  }

  /** `char::to_ascii_uppercase`: lowercase ASCII letters move 32 code points down, everything else is unchanged. */
  function ToAsciiUpper(c: char): (r: char)
    ensures IsAsciiLower(c) ==> IsAsciiUpper(r) && r as int == c as int - 32
    ensures !IsAsciiLower(c) ==> r == c
    ensures IsAsciiLetter(r) <==> IsAsciiLetter(c)
  {
    if IsAsciiLower(c) then (c as int - 32) as char else c
  }

  /** `char::to_ascii_lowercase`: uppercase ASCII letters move 32 code points up, everything else is unchanged. */
  function ToAsciiLower(c: char): char
  {
    if IsAsciiUpper(c) then (c as int + 32) as char else c
  }

  /** `str::to_ascii_lowercase`: every character lowered on its own. */
  function LowerAscii(s: string): string
  {
    seq(|s|, i requires 0 <= i < |s| => ToAsciiLower(s[i]))
  }

  /** The character of decimal digit `d`. */
  function DigitChar(d: nat): (c: char)
    requires d < 10
    ensures '0' <= c <= '9'
    ensures c as int - '0' as int == d
  {
    ('0' as int + d) as char
  }

  /** Decimal text of `n`, without leading zeros (`"0"` for zero), as Rust's `Display` writes it. */
  function NatToDecimal(n: nat): (s: string)
    ensures |s| >= 1
    ensures forall i :: 0 <= i < |s| ==> '0' <= s[i] <= '9'
    ensures DecimalValue(s) == n
    ensures |s| > 1 ==> s[0] != '0'
    decreases n
  {
    if n < 10 then [DigitChar(n)]
    else
      var prefix := NatToDecimal(n / 10);
      DecimalValueAppend(prefix, DigitChar(n % 10));
      prefix + [DigitChar(n % 10)]
  }

  /** The number a string of decimal digits denotes. */
  function DecimalValue(s: string): nat
    requires forall i :: 0 <= i < |s| ==> '0' <= s[i] <= '9'
    decreases |s|
  {
    if s == [] then 0
    else 10 * DecimalValue(s[..|s| - 1]) + (s[|s| - 1] as int - '0' as int)
  }

  lemma DecimalValueAppend(s: string, c: char)
    requires forall i :: 0 <= i < |s| ==> '0' <= s[i] <= '9'
    requires '0' <= c <= '9'
    ensures forall i :: 0 <= i < |s + [c]| ==> '0' <= (s + [c])[i] <= '9'
    ensures DecimalValue(s + [c]) == 10 * DecimalValue(s) + (c as int - '0' as int)
  {
    assert (s + [c])[..|s|] == s;
  }

  /** Text of an optional `-` followed by decimal digits. */
  predicate IsIntText(s: string)
  {
    && |s| >= 1
    && (s[0] == '-' ==> |s| >= 2 && forall i :: 1 <= i < |s| ==> '0' <= s[i] <= '9')
    && (s[0] != '-' ==> forall i :: 0 <= i < |s| ==> '0' <= s[i] <= '9')
  }

  /** The integer such a text denotes. */
  function IntValue(s: string): int
    requires IsIntText(s)
  {
    if s[0] == '-' then -(DecimalValue(s[1..]) as int) else DecimalValue(s)
  }

  /** Decimal text of an integer, with a leading `-` for negative values, as Rust's `{}` formats it.
      It reads back as the integer, so different integers give different texts. */
  function IntToDecimal(n: int): (s: string)
    ensures IsIntText(s) && IntValue(s) == n
    ensures forall i | 0 <= i < |s| :: '0' <= s[i] <= '9' || s[i] == '-'
  {
    if n >= 0 then NatToDecimal(n)
    else
      var d := NatToDecimal((-n) as nat);
      assert ("-" + d)[1..] == d;
      "-" + d
  }
}
