/** `caesar_cipher(text, shift, mode)`: rotate ASCII letters by `shift`
    within their case, leave every other character alone.
 */
module Caesar {

  predicate IsUpper(c: char)
  {
    'A' <= c <= 'Z'
  }

  predicate IsLower(c: char)
  {
    'a' <= c <= 'z'
  }

  predicate IsAlpha(c: char)
  {
    IsUpper(c) || IsLower(c)
  }

  /** Mode `'decrypt'` negates the shift; any other mode encrypts. */
  function EffectiveShift(shift: int, mode: string): int
  {
    if mode == "decrypt" then -shift else shift
  }

  /** One character of the output. Python's `%` with divisor 26 is never
      negative, like Dafny's, so negative shifts rotate backwards. */
  function ShiftChar(c: char, shift: int): (r: char)
    ensures IsUpper(c) ==> IsUpper(r)
    ensures IsLower(c) ==> IsLower(r)
  {
    if IsAlpha(c) then
      if IsUpper(c) then ((c as int - 65 + shift) % 26 + 65) as char
      else ((c as int - 97 + shift) % 26 + 97) as char
    else c
  }

  /** The string `caesar_cipher(text, shift, mode)` returns. */
  function Cipher(text: string, shift: int, mode: string := "encrypt"): (out: string)
    ensures |out| == |text|
  {
    seq(|text|, i requires 0 <= i < |text| => ShiftChar(text[i], EffectiveShift(shift, mode)))
  }

  /** One output character per input character, in order; letters keep their
      case and everything else is copied unchanged. */
  lemma CipherPreservesStructure(text: string, shift: int, mode: string)
    ensures |Cipher(text, shift, mode)| == |text|
    ensures forall i :: 0 <= i < |text| ==>
              && (IsUpper(Cipher(text, shift, mode)[i]) <==> IsUpper(text[i]))
              && (IsLower(Cipher(text, shift, mode)[i]) <==> IsLower(text[i]))
              && (!IsAlpha(text[i]) ==> Cipher(text, shift, mode)[i] == text[i])
  {
  }

  /** Decrypting is encrypting with the negated shift; any mode other than
      `'decrypt'` encrypts. */
  lemma DecryptIsNegatedEncrypt(text: string, shift: int, mode: string)
    ensures Cipher(text, shift, "decrypt") == Cipher(text, -shift, "encrypt")
    ensures mode != "decrypt" ==> Cipher(text, shift, mode) == Cipher(text, shift, "encrypt")
  {
  }

  /** Rotating a letter index forward by `s` and back by `s` returns it. */
  lemma RotateBack(x: int, s: int)
    requires 0 <= x < 26
    ensures (((x + s) % 26) - s) % 26 == x
  {
    var q := (x + s) / 26;
    assert (x + s) % 26 == x + s - 26 * q;
    assert ((x + s) % 26) - s == x + 26 * (-q);
  }

  lemma ShiftCharRoundTrip(c: char, s: int)
    ensures ShiftChar(ShiftChar(c, s), -s) == c
  {
    if IsUpper(c) {
      RotateBack(c as int - 65, s);
    } else if IsLower(c) {
      RotateBack(c as int - 97, s);
    }
  }

  /** Decrypting with the shift that encrypted gives back the text, for any
      integer shift. */
  lemma CipherRoundTrip(text: string, shift: int)
    ensures Cipher(Cipher(text, shift, "encrypt"), shift, "decrypt") == text
  {
    forall i | 0 <= i < |text|
      ensures Cipher(Cipher(text, shift, "encrypt"), shift, "decrypt")[i] == text[i]
    {
      ShiftCharRoundTrip(text[i], shift);
    }
  }

  lemma RotateCongruent(x: int, s1: int, s2: int)
    requires s1 % 26 == s2 % 26
    ensures (x + s1) % 26 == (x + s2) % 26
  {
    var q1, q2 := s1 / 26, s2 / 26;
    assert s1 == s2 + 26 * (q1 - q2);
    assert x + s1 == (x + s2) + 26 * (q1 - q2);
  }

  lemma AddMultiple(a: int, d: int)
    ensures (a + 26 * d) % 26 == a % 26
  {
    var q, r := a / 26, a % 26;
    assert a + 26 * d == 26 * (q + d) + r;
  }

  lemma NegCongruent(s1: int, s2: int)
    requires s1 % 26 == s2 % 26
    ensures (-s1) % 26 == (-s2) % 26
  {
    var d := s1 / 26 - s2 / 26;
    assert s1 == s2 + 26 * d;
    AddMultiple(-s2, -d);
  }

  /** Shifts that agree modulo 26 give the same output; shift 0 is the identity. */
  lemma CongruentShifts(text: string, s1: int, s2: int, mode: string)
    requires s1 % 26 == s2 % 26
    ensures Cipher(text, s1, mode) == Cipher(text, s2, mode)
    ensures Cipher(text, 0, mode) == text
  {
    forall i | 0 <= i < |text| ensures Cipher(text, s1, mode)[i] == Cipher(text, s2, mode)[i] {
      var c := text[i];
      var e1, e2 := EffectiveShift(s1, mode), EffectiveShift(s2, mode);
      if mode == "decrypt" {
        NegCongruent(s1, s2);
      }
      if IsUpper(c) {
        RotateCongruent(c as int - 65, e1, e2);
      } else if IsLower(c) {
        RotateCongruent(c as int - 97, e1, e2);
      }
    }
  }

  /** One character as `caesar_cipher` computes it, where `alpha` and `upper`
      stand for Python's `str.isalpha` and `str.isupper`. Those accept letters
      from all of Unicode, and every letter that is not upper case takes the
      lower-case branch. */
  function ShiftCharAsWritten(alpha: char -> bool, upper: char -> bool, c: char, shift: int): (r: char)
    ensures alpha(c) && upper(c) ==> IsUpper(r)
    ensures alpha(c) && !upper(c) ==> IsLower(r)
    ensures !alpha(c) ==> r == c
  {
    if alpha(c) then
      if upper(c) then ((c as int - 65 + shift) % 26 + 65) as char
      else ((c as int - 97 + shift) % 26 + 97) as char
    else c
  }

  /** The string `caesar_cipher(text, shift, mode)` returns, with Python's own
      letter tests. */
  function CipherAsWritten(alpha: char -> bool, upper: char -> bool,
                           text: string, shift: int, mode: string := "encrypt"): (out: string)
    ensures |out| == |text|
  {
    seq(|text|, i requires 0 <= i < |text| => ShiftCharAsWritten(alpha, upper, text[i], EffectiveShift(shift, mode)))
  }

  /** Classifiers that answer like `IsAlpha` and `IsUpper` on ASCII, as
      Python's `isalpha` and `isupper` do. */
  ghost predicate AgreesOnAscii(alpha: char -> bool, upper: char -> bool)
  {
    forall c: char :: c as int < 128 ==> alpha(c) == IsAlpha(c) && upper(c) == IsUpper(c)
  }

  /** On ASCII text `caesar_cipher` computes exactly `Cipher`. */
  lemma AsWrittenAgreesOnAscii(alpha: char -> bool, upper: char -> bool, text: string, shift: int, mode: string)
    requires AgreesOnAscii(alpha, upper)
    requires forall i :: 0 <= i < |text| ==> text[i] as int < 128
    ensures CipherAsWritten(alpha, upper, text, shift, mode) == Cipher(text, shift, mode)
  {
    forall i | 0 <= i < |text|
      ensures CipherAsWritten(alpha, upper, text, shift, mode)[i] == Cipher(text, shift, mode)[i]
    {
      var c := text[i];
      assert c as int < 128;
      assert alpha(c) == IsAlpha(c) && upper(c) == IsUpper(c);
    }
  }

  /** `'é'` (U+00E9) is a lower-case letter to Python, so `caesar_cipher` maps it
      into `a..z`: shift 0 turns it into `'g'`, and with shift 3 encrypting gives
      `'j'` and decrypting gives `'g'`, not the original text. */
  lemma NonAsciiLetterCounterexample(alpha: char -> bool, upper: char -> bool)
    requires AgreesOnAscii(alpha, upper)
    requires alpha('\U{00E9}') && !upper('\U{00E9}')
    ensures CipherAsWritten(alpha, upper, "\U{00E9}", 0) == "g"
    ensures CipherAsWritten(alpha, upper, "\U{00E9}", 3) == "j"
    ensures CipherAsWritten(alpha, upper, CipherAsWritten(alpha, upper, "\U{00E9}", 3), 3, "decrypt") == "g"
  {
    assert alpha('j') && !upper('j');
    var enc := CipherAsWritten(alpha, upper, "\U{00E9}", 3);
    assert enc[0] == 'j';
    assert enc == "j";
    assert CipherAsWritten(alpha, upper, enc, 3, "decrypt")[0] == 'g';
  }

  /** `caesar_cipher(text, shift, mode)` */
  method CaesarCipher(text: string, shift: int, mode: string := "encrypt") returns (result: string)
    ensures result == Cipher(text, shift, mode)
  {
    result := "";
    var s := shift;
    if mode == "decrypt" {
      s := -shift;
    }
    for i := 0 to |text|
      invariant |result| == i
      invariant forall k :: 0 <= k < i ==> result[k] == ShiftChar(text[k], s)
    {
      var c := text[i];
      if IsAlpha(c) {
        if IsUpper(c) {
          result := result + [((c as int - 65 + s) % 26 + 65) as char];
        } else {
          result := result + [((c as int - 97 + s) % 26 + 97) as char];
        }
      } else {
        result := result + [c];
      }
    }
  }
}
