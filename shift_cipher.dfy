/** The shift cipher: `Encrypt` and `Decrypt` rotate the ordinal of every
    table letter by the key and copy every other character unchanged.
    Both are modelled for every key as an unbounded integer (32-bit
    wrap-around of the sum is not modelled), with C#'s truncating `%` and the
    '\0' that a failed value lookup yields; the lemmas then say for which keys
    the result is the intended rotation. */
module ShiftCipher {
  import opened Alphabet

  /** C#'s `a % 26` on `int`: the remainder of division truncated toward zero,
      which takes the sign of the dividend (Dafny's own `%` is Euclidean). */
  function CsRem(a: int): (r: int)
    ensures -26 < r < 26
    ensures (a - r) % 26 == 0
    ensures a >= 0 ==> r == a % 26
    ensures a <= 0 ==> r <= 0
  {
    if a >= 0 then a % 26 else -((-a) % 26)
  }

  /** One character of `Encrypt`: a table letter goes to the letter whose value
      is `(ordinal + key) % 26` in C#'s sense, anything else is copied. */
  function EncryptChar(c: char, key: int): char {
    if !InTable(c) then c
    else LetterOf(CsRem(Ordinal(c) + key))
  }

  /** One character of `Decrypt`: `ordinal - key`, raised by 26 once when
      negative, then reduced with C#'s `%`. */
  function DecryptChar(c: char, key: int): char {
    if !InTable(c) then c
    else
      var t := Ordinal(c) - key;
      LetterOf(CsRem(if t < 0 then t + NumberOfLetters else t))
  }

  /** The text `Encrypt(s, key)` returns. */
  function Encrypted(s: string, key: int): string {
    seq(|s|, i requires 0 <= i < |s| => EncryptChar(s[i], key))
  }

  /** The text `Decrypt(s, key)` returns. */
  function Decrypted(s: string, key: int): string {
    seq(|s|, i requires 0 <= i < |s| => DecryptChar(s[i], key))
  }

  /** `Encrypt`: builds the cipher text one character at a time. */
  method Encrypt(plainText: string, key: int) returns (text: string)
    ensures text == Encrypted(plainText, key)
  {
    text := "";
    for i := 0 to |plainText|
      invariant text == Encrypted(plainText[..i], key)
    {
      EncryptedAppend(plainText, i, key);
      if !InTable(plainText[i]) {
        text := text + [plainText[i]];
        continue;
      }
      var tempVal := CsRem(Ordinal(plainText[i]) + key);
      text := text + [LetterOf(tempVal)];
    }
    assert plainText[..|plainText|] == plainText;
  }

  /** Encrypting one more character of the plain text appends its encryption. */
  lemma EncryptedAppend(s: string, i: nat, key: int)
    requires i < |s|
    ensures Encrypted(s[..i + 1], key) == Encrypted(s[..i], key) + [EncryptChar(s[i], key)]
  {
  }

  /** `Decrypt`: builds the plain text one character at a time. */
  method Decrypt(cipherText: string, key: int) returns (text: string)
    ensures text == Decrypted(cipherText, key)
  {
    text := "";
    for i := 0 to |cipherText|
      invariant text == Decrypted(cipherText[..i], key)
    {
      DecryptedAppend(cipherText, i, key);
      if !InTable(cipherText[i]) {
        text := text + [cipherText[i]];
        continue;
      }
      var tempVal := Ordinal(cipherText[i]) - key;
      if tempVal < 0 {
        tempVal := tempVal + NumberOfLetters;
      }
      tempVal := CsRem(tempVal);
      text := text + [LetterOf(tempVal)];
    }
    assert cipherText[..|cipherText|] == cipherText;
  }

  /** Decrypting one more character of the cipher text appends its decryption. */
  lemma DecryptedAppend(s: string, i: nat, key: int)
    requires i < |s|
    ensures Decrypted(s[..i + 1], key) == Decrypted(s[..i], key) + [DecryptChar(s[i], key)]
  {
  }

  /** The offset of a lower-case letter from 'a'. */
  function Offset(c: char): int {
    c as int - 'a' as int
  }

  /** The Caesar rotation of one character by `k` places, for any integer `k`
      (Dafny's `%` is Euclidean, so the result is always a letter): the
      reference the two cipher directions are compared against. */
  function Rotate(c: char, k: int): char {
    if IsLower(c) then ('a' as int + (Offset(c) + k) % NumberOfLetters) as char else c
  }

  /** For a non-negative key, encryption is the rotation forward by `key`:
      a letter goes to the letter `(ordinal + key) mod 26`, anything else is
      copied. */
  lemma EncryptCharIsRotation(c: char, key: int)
    requires key >= 0
    ensures EncryptChar(c, key) == Rotate(c, key)
  {
    OrdinalOfLetter(c);
    if IsLower(c) {
      var r := CsRem(Ordinal(c) + key);
      assert r == (Offset(c) + key) % NumberOfLetters;
      assert EncryptChar(c, key) == LetterOf(r);
      assert LetterOf(r) as int == 'a' as int + r;
    }
  }

  /** For every key up to 26, decryption is the rotation backward by `key`. */
  lemma DecryptCharIsRotation(c: char, key: int)
    requires key <= NumberOfLetters
    ensures DecryptChar(c, key) == Rotate(c, -key)
  {
    OrdinalOfLetter(c);
    if IsLower(c) {
      var t := Ordinal(c) - key;
      var r := CsRem(if t < 0 then t + NumberOfLetters else t);
      assert r == (Offset(c) - key) % NumberOfLetters;
      assert DecryptChar(c, key) == LetterOf(r);
      assert LetterOf(r) as int == 'a' as int + r;
    }
  }

  /** A negative key that leaves ordinal + key at 0 or above still rotates:
      only a sum below 0 leaves the rotation. */
  lemma EncryptCharAtOrAboveZero(c: char, key: int)
    requires IsLower(c) && Offset(c) + key >= 0
    ensures EncryptChar(c, key) == Rotate(c, key)
  {
    OrdinalOfLetter(c);
    var r := CsRem(Ordinal(c) + key);
    assert r == (Offset(c) + key) % NumberOfLetters;
    assert EncryptChar(c, key) == LetterOf(r);
    assert LetterOf(r) as int == 'a' as int + r;
  }

  /** A key above 26 that leaves ordinal - key + 26 at 0 or above still
      rotates backward: only a difference below 0 after adding 26 once leaves
      the rotation. */
  lemma DecryptCharAtOrAboveZero(c: char, key: int)
    requires IsLower(c) && Offset(c) - key + NumberOfLetters >= 0
    ensures DecryptChar(c, key) == Rotate(c, -key)
  {
    OrdinalOfLetter(c);
    var t := Ordinal(c) - key;
    var r := CsRem(if t < 0 then t + NumberOfLetters else t);
    assert r == (Offset(c) - key) % NumberOfLetters;
    assert DecryptChar(c, key) == LetterOf(r);
    assert LetterOf(r) as int == 'a' as int + r;
  }

  /** For a negative key that takes a letter below ordinal 0, the truncating
      remainder is negative unless the sum is a multiple of 26, and the value
      lookup then finds no letter and yields '\0'. */
  lemma EncryptCharBelowZero(c: char, key: int)
    requires IsLower(c) && Offset(c) + key < 0
    ensures EncryptChar(c, key) ==
              if (Offset(c) + key) % NumberOfLetters == 0 then 'a' else '\0'
  {
    OrdinalOfLetter(c);
    var r := CsRem(Offset(c) + key);
    assert EncryptChar(c, key) == LetterOf(r);
    assert r == 0 <==> (Offset(c) + key) % NumberOfLetters == 0;
  }

  /** For a key above 26 that takes a letter below ordinal 0 even after adding
      26 once, the result is '\0' unless the difference is a multiple of 26. */
  lemma DecryptCharBelowZero(c: char, key: int)
    requires IsLower(c) && Offset(c) - key + NumberOfLetters < 0
    ensures DecryptChar(c, key) ==
              if (Offset(c) - key) % NumberOfLetters == 0 then 'a' else '\0'
  {
    OrdinalOfLetter(c);
    var r := CsRem(Offset(c) - key + NumberOfLetters);
    assert DecryptChar(c, key) == LetterOf(r);
    assert r == 0 <==> (Offset(c) - key) % NumberOfLetters == 0;
  }

  /** Rotation keeps letters inside 'a'..'z', copies everything else, and
      rotating by `k` and by `-k`, in either order, gives the character back. */
  lemma RotateInverse(c: char, k: int)
    ensures IsLower(c) <==> IsLower(Rotate(c, k))
    ensures !IsLower(c) ==> Rotate(c, k) == c
    ensures Rotate(Rotate(c, k), -k) == c
    ensures Rotate(Rotate(c, -k), k) == c
  {
    RotateBack(c, k, -k);
    RotateBack(c, -k, k);
  }

  /** Rotating by `k` and then by `j = -k` gives the character back. `j` is a
      separate parameter so that callers can pass `k` itself for `-(-k)`. */
  lemma RotateBack(c: char, k: int, j: int)
    requires j == -k
    ensures IsLower(c) <==> IsLower(Rotate(c, k))
    ensures Rotate(Rotate(c, k), j) == c
  {
    if IsLower(c) {
      var o := Offset(c);
      var e := (o + k) % NumberOfLetters;
      assert Offset(Rotate(c, k)) == e;
      assert (e + j) % NumberOfLetters == o % NumberOfLetters by {
        assert e + j == o - NumberOfLetters * ((o + k) / NumberOfLetters);
      }
    }
  }

  /** Rotation depends on `k` only modulo 26; rotating by 0 is the identity. */
  lemma RotatePeriodic(c: char, k: int)
    ensures Rotate(c, k + NumberOfLetters) == Rotate(c, k)
    ensures Rotate(c, 0) == c
  {
  }

  /** Both directions keep the length and copy every character outside
      'a'..'z' (digits, spaces, punctuation, upper case) to the same index,
      for every key. */
  lemma CipherKeepsNonLetters(s: string, key: int)
    ensures |Encrypted(s, key)| == |s| && |Decrypted(s, key)| == |s|
    ensures forall i :: 0 <= i < |s| && !IsLower(s[i]) ==>
              Encrypted(s, key)[i] == s[i] && Decrypted(s, key)[i] == s[i]
  {
    forall i | 0 <= i < |s| && !IsLower(s[i])
      ensures Encrypted(s, key)[i] == s[i] && Decrypted(s, key)[i] == s[i]
    {
      OrdinalOfLetter(s[i]);
    }
  }

  /** For a non-negative key every letter of the cipher text is the matching
      plain letter rotated forward by `key`, and so lies in 'a'..'z'. */
  lemma EncryptRotatesLetters(s: string, key: int)
    requires key >= 0
    ensures forall i :: 0 <= i < |s| ==> Encrypted(s, key)[i] == Rotate(s[i], key)
    ensures forall i :: 0 <= i < |s| && IsLower(s[i]) ==> IsLower(Encrypted(s, key)[i])
  {
    forall i | 0 <= i < |s|
      ensures Encrypted(s, key)[i] == Rotate(s[i], key)
      ensures IsLower(s[i]) ==> IsLower(Encrypted(s, key)[i])
    {
      EncryptCharIsRotation(s[i], key);
      RotateInverse(s[i], key);
    }
  }

  /** Encrypting with a key and with that key plus 26 agree, and keys 0 and
      26 leave the text unchanged. */
  lemma EncryptPeriodic(s: string, key: int)
    requires key >= 0
    ensures Encrypted(s, key + NumberOfLetters) == Encrypted(s, key)
    ensures Encrypted(s, 0) == s && Encrypted(s, NumberOfLetters) == s
  {
    forall i | 0 <= i < |s|
      ensures Encrypted(s, key + NumberOfLetters)[i] == Encrypted(s, key)[i]
      ensures Encrypted(s, 0)[i] == s[i] && Encrypted(s, NumberOfLetters)[i] == s[i]
    {
      EncryptCharIsRotation(s[i], key);
      EncryptCharIsRotation(s[i], key + NumberOfLetters);
      EncryptCharIsRotation(s[i], 0);
      EncryptCharIsRotation(s[i], NumberOfLetters);
      RotatePeriodic(s[i], key);
      RotatePeriodic(s[i], 0);
    }
  }

  /** For every key in 0..26 (the range the key selector offers) decryption
      undoes encryption and encryption undoes decryption. */
  lemma RoundTrip(s: string, key: int)
    requires 0 <= key <= NumberOfLetters
    ensures Decrypted(Encrypted(s, key), key) == s
    ensures Encrypted(Decrypted(s, key), key) == s
  {
    forall i | 0 <= i < |s|
      ensures Decrypted(Encrypted(s, key), key)[i] == s[i]
      ensures Encrypted(Decrypted(s, key), key)[i] == s[i]
    {
      DecryptUndoesEncryptChar(s[i], key);
      EncryptUndoesDecryptChar(s[i], key);
    }
  }

  /** One character: decryption undoes encryption. */
  lemma DecryptUndoesEncryptChar(c: char, key: int)
    requires 0 <= key <= NumberOfLetters
    ensures DecryptChar(EncryptChar(c, key), key) == c
  {
    EncryptCharIsRotation(c, key);
    var e := Rotate(c, key);
    DecryptCharIsRotation(e, key);
    RotateInverse(c, key);
  }

  /** One character: encryption undoes decryption. */
  lemma EncryptUndoesDecryptChar(c: char, key: int)
    requires 0 <= key <= NumberOfLetters
    ensures EncryptChar(DecryptChar(c, key), key) == c
  {
    DecryptCharIsRotation(c, key);
    var d := Rotate(c, -key);
    EncryptCharIsRotation(d, key);
    RotateInverse(c, key);
  }
}
