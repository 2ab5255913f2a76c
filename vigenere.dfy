/**
 * vigenere-cipher/src/main.rs: `vigenere_cipher_encrypt` and
 * `vigenere_cipher_decrypt`. The key becomes a list of shifts (its ASCII
 * letters after uppercasing, A = 0 .. Z = 25). Then each ASCII letter of the
 * text is shifted by the next key shift in turn, and every other character is
 * copied. The two transforms are methods with the source's `key_index`
 * counter; each is proved equal to a position-wise specification.
 *
 * The lowercase branch of encryption subtracts 'A' where decryption subtracts
 * 'a', so a lowercase letter comes back 6 places further on
 * (`LowercaseComesBackAdvanced`). The methods keep that behaviour.
 */
module Vigenere {
  import Text

  // ---------------------------------------------------------------- key

  /**
   * The ASCII letters of `c.to_uppercase()`. An ASCII letter becomes its
   * uppercase form. Only seventeen other characters have an uppercase form
   * containing ASCII letters: the German sharp s, dotless i, long s, some
   * letters with no precomposed capital, and the Latin ligatures. Every other
   * character uppercases to non-ASCII characters only, which the key filter
   * then drops.
   */
  function UpperLetters(c: char): (r: string)
    ensures forall i :: 0 <= i < |r| ==> Text.IsAsciiUpper(r[i])
    ensures Text.IsAsciiLetter(c) ==> r == [Text.ToAsciiUpper(c)]
    ensures Text.IsAscii(c) && !Text.IsAsciiLetter(c) ==> r == []
  {
    if Text.IsAsciiLetter(c) then [Text.ToAsciiUpper(c)]
    else
      var n := c as int;
      if n == 0x00DF then "SS"        // sharp s
      else if n == 0x0131 then "I"    // dotless i
      else if n == 0x017F then "S"    // long s
      else if n == 0x0149 then "N"    // n preceded by apostrophe
      else if n == 0x01F0 then "J"    // j with caron
      else if n == 0x1E96 then "H"    // h with line below
      else if n == 0x1E97 then "T"    // t with diaeresis
      else if n == 0x1E98 then "W"    // w with ring above
      else if n == 0x1E99 then "Y"    // y with ring above
      else if n == 0x1E9A then "A"    // a with right half ring
      else if n == 0xFB00 then "FF"
      else if n == 0xFB01 then "FI"
      else if n == 0xFB02 then "FL"
      else if n == 0xFB03 then "FFI"
      else if n == 0xFB04 then "FFL"
      else if n == 0xFB05 then "ST"
      else if n == 0xFB06 then "ST"
      else []
  }

  /** `key.to_uppercase().chars().filter(is_ascii_alphabetic)`: uppercasing works character by character. */
  function KeyLetters(key: string): (r: string)
    ensures forall i :: 0 <= i < |r| ==> Text.IsAsciiUpper(r[i])
    decreases |key|
  {
    if key == [] then [] else UpperLetters(key[0]) + KeyLetters(key[1..])
  }

  /** `key_bytes`: each key letter minus 'A'. */
  function Shifts(key: string): (r: seq<int>)
    ensures |r| == |KeyLetters(key)|
    ensures forall i :: 0 <= i < |r| ==> 0 <= r[i] < 26
  {
    var letters := KeyLetters(key);
    seq(|letters|, i requires 0 <= i < |letters| => letters[i] as int - 'A' as int)
  }

  /** An ASCII key contributes exactly its letters, uppercased, in order: the letter at position `i`
      of the key is key letter number `LetterCount(key[..i])`. */
  lemma {:induction false} AsciiKeyLetters(key: string)
    requires Text.AllAscii(key)
    ensures |KeyLetters(key)| == LetterCount(key)
    ensures forall i :: 0 <= i < |key| && Text.IsAsciiLetter(key[i]) ==>
      LetterCount(key[..i]) < |KeyLetters(key)| && KeyLetters(key)[LetterCount(key[..i])] == Text.ToAsciiUpper(key[i])
    decreases |key|
  {
    if key != [] {
      var front := key[..|key| - 1];
      var c := key[|key| - 1];
      assert key == front + [c];
      KeyLettersAppend(front, [c]);
      assert KeyLetters([c]) == UpperLetters(c) by {
        assert [c][1..] == [];
      }
      assert Text.AllAscii(front) by {
        forall i | 0 <= i < |front| ensures Text.IsAscii(front[i]) {
          assert front[i] == key[i];
        }
      }
      AsciiKeyLetters(front);
      forall i | 0 <= i < |key| && Text.IsAsciiLetter(key[i])
        ensures LetterCount(key[..i]) < |KeyLetters(key)| && KeyLetters(key)[LetterCount(key[..i])] == Text.ToAsciiUpper(key[i])
      {
        if i < |front| {
          assert key[..i] == front[..i];
          assert key[i] == front[i];
        } else {
          assert key[..i] == front;
        }
      }
    }
  }

  lemma KeyLettersAppend(a: string, b: string)
    ensures KeyLetters(a + b) == KeyLetters(a) + KeyLetters(b)
    decreases |a|
  {
    if a == [] {
      assert a + b == b;
    } else {
      assert (a + b)[1..] == a[1..] + b;
      KeyLettersAppend(a[1..], b);
    }
  }

  // ---------------------------------------------------------------- letters of the text

  /** The number of ASCII letters in `s`: the value `key_index` has after reading `s`. */
  function LetterCount(s: string): nat
    decreases |s|
  {
    if s == [] then 0
    else LetterCount(s[..|s| - 1]) + (if Text.IsAsciiLetter(s[|s| - 1]) then 1 else 0)
  }

  /** The key shift used at position `i` of `text`: the one for the number of letters before it. */
  function ShiftAt(text: string, shifts: seq<int>, i: nat): int
    requires |shifts| > 0 && i <= |text|
  {
    shifts[LetterCount(text[..i]) % |shifts|]
  }

  // ---------------------------------------------------------------- one character

  /** The encryption closure on a character and the current shift: uppercase through 'A', lowercase
      through 'A' as well (sic), anything else copied. */
  function EncryptChar(c: char, shift: int): char
    requires 0 <= shift < 26
  {
    if Text.IsAsciiUpper(c) then (((c as int - 'A' as int + shift) % 26) + 'A' as int) as char
    else if Text.IsAsciiLower(c) then (((c as int - 'A' as int + shift) % 26) + 'a' as int) as char
    else c
  }

  /** The decryption closure: uppercase through 'A', lowercase through 'a', anything else copied. */
  function DecryptChar(c: char, shift: int): char
    requires 0 <= shift < 26
  {
    if Text.IsAsciiUpper(c) then (((c as int - 'A' as int + 26 - shift) % 26) + 'A' as int) as char
    else if Text.IsAsciiLower(c) then (((c as int - 'a' as int + 26 - shift) % 26) + 'a' as int) as char
    else c
  }

  /** Both closures keep the case of a letter and copy everything that is not an ASCII letter. */
  lemma CharCaseKept(c: char, shift: int)
    requires 0 <= shift < 26
    ensures Text.IsAsciiUpper(EncryptChar(c, shift)) <==> Text.IsAsciiUpper(c)
    ensures Text.IsAsciiLower(EncryptChar(c, shift)) <==> Text.IsAsciiLower(c)
    ensures Text.IsAsciiUpper(DecryptChar(c, shift)) <==> Text.IsAsciiUpper(c)
    ensures Text.IsAsciiLower(DecryptChar(c, shift)) <==> Text.IsAsciiLower(c)
    ensures !Text.IsAsciiLetter(c) ==> EncryptChar(c, shift) == c && DecryptChar(c, shift) == c
  {
  }

  /** An uppercase letter moves `shift` places round the alphabet, and decryption moves it back. */
  lemma UppercaseRoundTrip(c: char, shift: int)
    requires 0 <= shift < 26 && Text.IsAsciiUpper(c)
    ensures EncryptChar(c, shift) as int - 'A' as int == (c as int - 'A' as int + shift) % 26
    ensures DecryptChar(EncryptChar(c, shift), shift) == c
  {
  }

  /** The lowercase quirk: `c - 'A'` is `c - 'a' + 32`, so a lowercase letter comes back
      32 mod 26 = 6 places further on. */
  lemma LowercaseComesBackAdvanced(c: char, shift: int)
    requires 0 <= shift < 26 && Text.IsAsciiLower(c)
    ensures DecryptChar(EncryptChar(c, shift), shift) == Advance6(c)
    ensures DecryptChar(EncryptChar(c, shift), shift) != c
  {
  }

  /** A lowercase letter moved 6 places round the alphabet. */
  function Advance6(c: char): char
    requires Text.IsAsciiLower(c)
  {
    (((c as int - 'a' as int + 6) % 26) + 'a' as int) as char
  }

  lemma Advance6Moves(c: char)
    requires Text.IsAsciiLower(c)
    ensures Text.IsAsciiLower(Advance6(c)) && Advance6(c) != c
  {
  }

  /** What a round trip gives for one character: lowercase letters advanced by 6, everything else itself. */
  function RoundTripChar(c: char): char
  {
    if Text.IsAsciiLower(c) then Advance6(c) else c
  }

  /** The lowercase encryption the decryption inverts: through 'a' instead of 'A'. */
  function EncryptCharIntended(c: char, shift: int): char
    requires 0 <= shift < 26
  {
    if Text.IsAsciiLower(c) then (((c as int - 'a' as int + shift) % 26) + 'a' as int) as char
    else EncryptChar(c, shift)
  }

  /** With the intended lowercase branch every character survives the round trip. */
  lemma IntendedRoundTrip(c: char, shift: int)
    requires 0 <= shift < 26
    ensures DecryptChar(EncryptCharIntended(c, shift), shift) == c
  {
    if Text.IsAsciiLower(c) {
      ShiftBack(c as int - 'a' as int, shift);
    } else if Text.IsAsciiUpper(c) {
      UppercaseRoundTrip(c, shift);
    }
  }

  /** Moving forward by `s` and back by `s` round a 26-letter alphabet is the identity. */
  lemma ShiftBack(x: int, s: int)
    requires 0 <= x < 26 && 0 <= s < 26
    ensures ((x + s) % 26 + 26 - s) % 26 == x
  {
    if x + s < 26 {
      assert (x + s) % 26 == x + s;
    } else {
      assert (x + s) % 26 == x + s - 26;
    }
  }

  // ---------------------------------------------------------------- whole texts

  /** `vigenere_cipher_encrypt(text, key)`, position by position. */
  function EncryptSpec(text: string, shifts: seq<int>): (r: string)
    requires forall i :: 0 <= i < |shifts| ==> 0 <= shifts[i] < 26
    ensures |r| == |text|
  {
    if shifts == [] then text
    else seq(|text|, i requires 0 <= i < |text| => EncryptChar(text[i], ShiftAt(text, shifts, i)))
  }

  /** `vigenere_cipher_decrypt(text, key)`, position by position. */
  function DecryptSpec(text: string, shifts: seq<int>): (r: string)
    requires forall i :: 0 <= i < |shifts| ==> 0 <= shifts[i] < 26
    ensures |r| == |text|
  {
    if shifts == [] then text
    else seq(|text|, i requires 0 <= i < |text| => DecryptChar(text[i], ShiftAt(text, shifts, i)))
  }

  lemma LetterCountStep(s: string, i: nat)
    requires i < |s|
    ensures LetterCount(s[..i + 1]) == LetterCount(s[..i]) + (if Text.IsAsciiLetter(s[i]) then 1 else 0)
  {
    assert s[..i + 1][..i] == s[..i];
  }

  lemma EncryptSpecStep(text: string, shifts: seq<int>, i: nat)
    requires forall k :: 0 <= k < |shifts| ==> 0 <= shifts[k] < 26
    requires |shifts| > 0 && i < |text|
    ensures EncryptSpec(text, shifts)[..i + 1] == EncryptSpec(text, shifts)[..i] + [EncryptChar(text[i], ShiftAt(text, shifts, i))]
  {
    var r := EncryptSpec(text, shifts);
    assert r[i] == EncryptChar(text[i], ShiftAt(text, shifts, i));
    assert r[..i + 1] == r[..i] + [r[i]];
  }

  lemma DecryptSpecStep(text: string, shifts: seq<int>, i: nat)
    requires forall k :: 0 <= k < |shifts| ==> 0 <= shifts[k] < 26
    requires |shifts| > 0 && i < |text|
    ensures DecryptSpec(text, shifts)[..i + 1] == DecryptSpec(text, shifts)[..i] + [DecryptChar(text[i], ShiftAt(text, shifts, i))]
  {
    var r := DecryptSpec(text, shifts);
    assert r[i] == DecryptChar(text[i], ShiftAt(text, shifts, i));
    assert r[..i + 1] == r[..i] + [r[i]];
  }

  /** `vigenere_cipher_encrypt`: the key shifts, then one pass over the text with `key_index`. */
  method VigenereEncrypt(text: string, key: string) returns (out: string)
    ensures out == EncryptSpec(text, Shifts(key))
  {
    var keyBytes := Shifts(key);
    if |keyBytes| == 0 {
      return text;
    }
    var keyIndex := 0;
    out := [];
    for i := 0 to |text|
      invariant |out| == i
      invariant keyIndex == LetterCount(text[..i])
      invariant out == EncryptSpec(text, keyBytes)[..i]
    {
      var c := text[i];
      LetterCountStep(text, i);
      EncryptSpecStep(text, keyBytes, i);
      if Text.IsAsciiLetter(c) {
        var shift := keyBytes[keyIndex % |keyBytes|];
        keyIndex := keyIndex + 1;
        out := out + [EncryptChar(c, shift)];
      } else {
        CharCaseKept(c, ShiftAt(text, keyBytes, i));
        out := out + [c];
      }
    }
  }

  /** `vigenere_cipher_decrypt`: the same pass with the shift subtracted. */
  method VigenereDecrypt(text: string, key: string) returns (out: string)
    ensures out == DecryptSpec(text, Shifts(key))
  {
    var keyBytes := Shifts(key);
    if |keyBytes| == 0 {
      return text;
    }
    var keyIndex := 0;
    out := [];
    for i := 0 to |text|
      invariant |out| == i
      invariant keyIndex == LetterCount(text[..i])
      invariant out == DecryptSpec(text, keyBytes)[..i]
    {
      var c := text[i];
      LetterCountStep(text, i);
      DecryptSpecStep(text, keyBytes, i);
      if Text.IsAsciiLetter(c) {
        var shift := keyBytes[keyIndex % |keyBytes|];
        keyIndex := keyIndex + 1;
        out := out + [DecryptChar(c, shift)];
      } else {
        CharCaseKept(c, ShiftAt(text, keyBytes, i));
        out := out + [c];
      }
    }
  }

  /** A key without ASCII letters leaves the text unchanged in both directions. */
  lemma NoKeyLettersIsIdentity(text: string, key: string)
    requires KeyLetters(key) == []
    ensures EncryptSpec(text, Shifts(key)) == text
    ensures DecryptSpec(text, Shifts(key)) == text
  {
  }

  /** The `i`-th letter of the text, counting from 0, uses key shift `i mod |key_bytes|`; every other
      character is copied. This holds by the definition of `EncryptSpec` and is stated for the
      reader; the work that ties it to the source is the `keyIndex == LetterCount(text[..i])`
      invariant of `VigenereEncrypt`. */
  lemma EncryptUsesShiftsInTurn(text: string, shifts: seq<int>, p: nat)
    requires forall i :: 0 <= i < |shifts| ==> 0 <= shifts[i] < 26
    requires |shifts| > 0 && p < |text|
    ensures Text.IsAsciiLetter(text[p]) ==>
      EncryptSpec(text, shifts)[p] == EncryptChar(text[p], shifts[LetterCount(text[..p]) % |shifts|])
    ensures !Text.IsAsciiLetter(text[p]) ==> EncryptSpec(text, shifts)[p] == text[p]
  {
  }

  /** Encryption keeps the letter positions, so both directions count the same letters before
      every position. */
  lemma {:induction false} EncryptKeepsLetterCount(text: string, shifts: seq<int>, i: nat)
    requires forall k :: 0 <= k < |shifts| ==> 0 <= shifts[k] < 26
    requires i <= |text|
    ensures LetterCount(EncryptSpec(text, shifts)[..i]) == LetterCount(text[..i])
  {
    if i > 0 && shifts != [] {
      var e := EncryptSpec(text, shifts);
      EncryptKeepsLetterCount(text, shifts, i - 1);
      LetterCountStep(e, i - 1);
      LetterCountStep(text, i - 1);
      CharCaseKept(text[i - 1], ShiftAt(text, shifts, i - 1));
    }
  }

  /** `decrypt(encrypt(t, k), k)` for a key with letters: every character but a lowercase letter comes
      back, and a lowercase letter comes back advanced by 6. */
  lemma DecryptEncrypt(text: string, key: string)
    requires KeyLetters(key) != []
    ensures DecryptSpec(EncryptSpec(text, Shifts(key)), Shifts(key)) == seq(|text|, i requires 0 <= i < |text| => RoundTripChar(text[i]))
  {
    var shifts := Shifts(key);
    var e := EncryptSpec(text, shifts);
    var d := DecryptSpec(e, shifts);
    forall i | 0 <= i < |text| ensures d[i] == RoundTripChar(text[i]) {
      EncryptKeepsLetterCount(text, shifts, i);
      var s := ShiftAt(text, shifts, i);
      assert ShiftAt(e, shifts, i) == s;
      if Text.IsAsciiUpper(text[i]) {
        UppercaseRoundTrip(text[i], s);
      } else if Text.IsAsciiLower(text[i]) {
        LowercaseComesBackAdvanced(text[i], s);
      } else {
        CharCaseKept(text[i], s);
      }
    }
  }

  /** So a text without lowercase ASCII letters survives the round trip, and one with a lowercase
      letter does not when the key has letters. */
  lemma DecryptEncryptExactly(text: string, key: string)
    ensures DecryptSpec(EncryptSpec(text, Shifts(key)), Shifts(key)) == text <==>
      (KeyLetters(key) == [] || forall i :: 0 <= i < |text| ==> !Text.IsAsciiLower(text[i]))
  {
    if KeyLetters(key) != [] {
      DecryptEncrypt(text, key);
      var d := DecryptSpec(EncryptSpec(text, Shifts(key)), Shifts(key));
      if forall i :: 0 <= i < |text| ==> !Text.IsAsciiLower(text[i]) {
        assert forall i :: 0 <= i < |text| ==> d[i] == text[i];
        assert d == text;
      } else {
        var i :| 0 <= i < |text| && Text.IsAsciiLower(text[i]);
        assert d[i] == Advance6(text[i]);
        Advance6Moves(text[i]);
        assert d[i] != text[i];
      }
    } else {
      NoKeyLettersIsIdentity(text, key);
      NoKeyLettersIsIdentity(EncryptSpec(text, Shifts(key)), key);
    }
  }
}
