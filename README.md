# Caesar cipher engine

This project models `MyCaesarCipher`, the engine of a small Caesar-cipher tool, in Dafny. The engine has four parts:

- **Letter table.** `EnglishLetterDictionary` is a fixed table that pairs `'a'..'z'` with the values 0..25.
- **Shift cipher.**
  - `Encrypt` moves every table letter forward by the key.
  - `Decrypt` moves every table letter backward by the key.
  - Both copy every other character unchanged.
  - Both look a character up in the table by key and the shifted value up by value. A failed value lookup yields the default character `'\0'`.
- **Frequency profiler.** `GetMessageFrequency` returns 26 shares in `a..z` order. Each share is a letter's count divided by the length of the whole message.
- **Key detector.**
  - `DetectKey` scores the 26 left rotations of the cipher text's profile.
  - `ShiftOneStep` rotates the profile by one place.
  - `DetectKey` then picks the index of the score with the largest magnitude.
  - `AutoDecrypt` detects the key and decrypts with it.

The modules follow that structure:

- `Sequences` holds the linear search shared by the table lookups and `List.IndexOf`.
- `Alphabet` holds the table.
- `ShiftCipher` holds the cipher.
- `FrequencyProfile` holds the profiler.
- `KeyDetection` holds the detector and `AutoDecrypt`.

Where the source updates variables step by step, the model is imperative: `Encrypt`, `Decrypt`, `ShiftOneStep`, `GetMessageFrequency` and `DetectKey` are methods with loops.

- **Specification functions.** Each of those methods is proved equal to a function: `Encrypted`, `Decrypted`, `RotateLeft`, `Profile`, and `SelectKey` over `Scores`. The lemmas state what the source promises about those functions.
- **The score.** The correlation score is a parameter, `score: seq<real> -> real`. Everything about key selection holds for every such function.

The cipher is modelled for every key as an unbounded integer; 32-bit wrap-around near `int.MaxValue` and `int.MinValue` is not modelled (see "## Left out"). It uses C#'s truncating `%` (`CsRem`) and the `'\0'` that a failed value lookup gives. The lemmas then say for which keys the result is the intended rotation:

- for `Encrypt`, every key `>= 0`;
- for `Decrypt`, every key `<= 26`;
- for both directions together, the keys 0..26 that the tool's key selector offers.

For a letter and any other key the output is decided by one sum:

- `Encrypt` rotates the letter forward by the key whenever ordinal + key is at least 0 (`EncryptCharAtOrAboveZero`). When it is below 0, the output is `'\0'`, or `'a'` when the sum is a multiple of 26 (`EncryptCharBelowZero`).
- `Decrypt` rotates the letter backward by the key whenever ordinal - key + 26 is at least 0 (`DecryptCharAtOrAboveZero`). When it is below 0, the output is `'\0'`, or `'a'` when the difference is a multiple of 26 (`DecryptCharBelowZero`).

Where the comments in the source and the code differ, the model follows the code. The comment on `DetectKey` says the key is "the index of max Correlation Coefficient". The code first looks for `+m`, where `m` is the largest magnitude, and only then for `-m`. So a later `+m` wins over an earlier `-m`. `SelectKey` states the rule as written in its contract.

Outside the keys the tool offers, the code as written does not always rotate:

- `Encrypt` with a negative key can produce `'\0'` (`EncryptCharBelowZero`).
- `Decrypt` with a key above 26 can produce `'\0'` as well (`DecryptCharBelowZero`).

## Model

| member | source | states |
|---|---|---|
| Sequences.IndexOf | CaesarCipherTool/MyCaesarCipher.cs:135-137 | the result is -1 exactly when the element is absent; otherwise it is an index holding the element, and no earlier index holds it |
| Alphabet.LetterTable | CaesarCipherTool/MyCaesarCipher.cs:206-237 | the table has 26 entries |
| Alphabet.LettersAreAlphabet | CaesarCipherTool/MyCaesarCipher.cs:206-237 | the table, in value order, is exactly "abcdefghijklmnopqrstuvwxyz" |
| Alphabet.Ordinal | CaesarCipherTool/MyCaesarCipher.cs:43 | the value found for a key of the table is in 0..25, and the table maps it back to that key |
| Alphabet.LetterOf | CaesarCipherTool/MyCaesarCipher.cs:44 | looking up a value in 0..25 gives the lower-case letter that many places after 'a'; any other value gives the default '\0' |
| Alphabet.OrdinalOfLetter | CaesarCipherTool/MyCaesarCipher.cs:38 | a character is a key of the table if and only if it is in 'a'..'z', and its value is then its offset from 'a' |
| Alphabet.LetterOrdinalInverse | CaesarCipherTool/MyCaesarCipher.cs:206-237 | the table is a bijection: the letter found for a value in 0..25 is a key whose value is that value |
| ShiftCipher.CsRem | CaesarCipherTool/MyCaesarCipher.cs:43 | C#'s `% 26`: the result lies strictly between -26 and 26 and differs from the dividend by a multiple of 26; it equals the Euclidean remainder for a non-negative dividend and is never positive for a non-positive one |
| ShiftCipher.Encrypt | CaesarCipherTool/MyCaesarCipher.cs:29-52 | the loop builds exactly `Encrypted(plainText, key)`: each character is encrypted on its own, at its own index |
| ShiftCipher.Decrypt | CaesarCipherTool/MyCaesarCipher.cs:85-111 | the loop builds exactly `Decrypted(cipherText, key)`: each character is decrypted on its own, at its own index |
| ShiftCipher.EncryptCharIsRotation | CaesarCipherTool/MyCaesarCipher.cs:43-44 | for every key >= 0, encrypting a character is rotating it forward by the key modulo 26; non-letters are copied |
| ShiftCipher.DecryptCharIsRotation | CaesarCipherTool/MyCaesarCipher.cs:99-102 | for every key <= 26, decrypting a character is rotating it backward by the key modulo 26; non-letters are copied |
| ShiftCipher.EncryptCharAtOrAboveZero | CaesarCipherTool/MyCaesarCipher.cs:43-44 | for a letter and any key, negative ones included, with ordinal + key at least 0, encrypting is the forward rotation by the key |
| ShiftCipher.DecryptCharAtOrAboveZero | CaesarCipherTool/MyCaesarCipher.cs:99-102 | for a letter and any key, those above 26 included, with ordinal - key + 26 at least 0, decrypting is the backward rotation by the key |
| ShiftCipher.EncryptCharBelowZero | CaesarCipherTool/MyCaesarCipher.cs:43-44 | when ordinal + key is negative, the truncating remainder finds no letter: the result is '\0', or 'a' when the sum is a multiple of 26 |
| ShiftCipher.DecryptCharBelowZero | CaesarCipherTool/MyCaesarCipher.cs:99-102 | when ordinal - key + 26 is still negative, the result is '\0', or 'a' when the difference is a multiple of 26 |
| ShiftCipher.CipherKeepsNonLetters | CaesarCipherTool/MyCaesarCipher.cs:36-42 | for every key, both directions keep the length, and every character outside 'a'..'z' stays unchanged at its index |
| ShiftCipher.EncryptRotatesLetters | CaesarCipherTool/MyCaesarCipher.cs:43-44 | for key >= 0, every character of the cipher text is the plain character rotated forward by the key, and letters stay within 'a'..'z' |
| ShiftCipher.EncryptPeriodic | CaesarCipherTool/MyCaesarCipher.cs:43 | for key >= 0, keys `k` and `k + 26` encrypt alike, and keys 0 and 26 leave the text unchanged |
| ShiftCipher.RoundTrip | CaesarCipherTool/MyCaesarCipher.cs:99-102 | for every key in 0..26, decrypting an encryption gives the text back, and so does encrypting a decryption |
| ShiftCipher.DecryptUndoesEncryptChar | CaesarCipherTool/MyCaesarCipher.cs:99-102 | for a key in 0..26, decrypting the encryption of one character gives it back |
| ShiftCipher.EncryptUndoesDecryptChar | CaesarCipherTool/MyCaesarCipher.cs:43-44 | for a key in 0..26, encrypting the decryption of one character gives it back |
| FrequencyProfile.Count | CaesarCipherTool/MyCaesarCipher.cs:170 | the number of occurrences of a character is its multiplicity in the message and at most the message length |
| FrequencyProfile.GetMessageFrequency | CaesarCipherTool/MyCaesarCipher.cs:163-175 | the loop builds exactly the profile: entry `i` is the count of the letter with value `i` divided by the message length |
| FrequencyProfile.ProfileShares | CaesarCipherTool/MyCaesarCipher.cs:163-175 | the profile has 26 entries; each is a share between 0 and 1, and it is 0 exactly when its letter does not occur |
| FrequencyProfile.LetterTotalBound | CaesarCipherTool/MyCaesarCipher.cs:170 | the 26 letter counts add up to at most the message length, with equality exactly when every character is a lower-case letter |
| FrequencyProfile.ProfileSum | CaesarCipherTool/MyCaesarCipher.cs:163-175 | the shares add up to at most 1, with equality exactly when every character is a lower-case letter |
| KeyDetection.ShiftOneStep | CaesarCipherTool/MyCaesarCipher.cs:148-157 | on a non-empty list, the result has the same length, and entry `i` is entry `(i + 1) mod n` of the input |
| KeyDetection.ShiftedTimesIsRotation | CaesarCipherTool/MyCaesarCipher.cs:127-131 | `k` successive shifts rotate the list left by `k` places |
| KeyDetection.FullCycle | CaesarCipherTool/MyCaesarCipher.cs:148-157 | `n` shifts of a list of `n` entries give the list back |
| KeyDetection.MaxAbs | CaesarCipherTool/MyCaesarCipher.cs:134 | the result bounds the magnitude of every entry and is the magnitude of some entry |
| KeyDetection.MaxAbsAttained | CaesarCipherTool/MyCaesarCipher.cs:134-137 | the largest magnitude `m` occurs in the list as `+m` or as `-m` |
| KeyDetection.SelectKey | CaesarCipherTool/MyCaesarCipher.cs:134-137 | the selected key is a valid index whose score has the largest magnitude `m`; it is the first index holding `+m` when `+m` occurs, otherwise the first index holding `-m` |
| KeyDetection.FirstOfEitherSignRule | CaesarCipherTool/MyCaesarCipher.cs:135-137 | for any bound `m` on the magnitudes that occurs with one sign or the other, the conditional `IndexOf` finds a valid index holding `m` in magnitude: the first `+m` if there is one, else the first `-m` |
| KeyDetection.DetectKey | CaesarCipherTool/MyCaesarCipher.cs:122-142 | the key is the selection over the 26 scores of the profile's left rotations by 0..25; it lies in 0..25, and its score has the largest magnitude |
| KeyDetection.AutoDecrypt | CaesarCipherTool/MyCaesarCipher.cs:66-78 | the key is the detected key (0 for the empty text) and lies in 0..25; the plain text is the decryption with that key, and encrypting it with the key gives the cipher text back |
| KeyDetection.CountEncrypted | CaesarCipherTool/MyCaesarCipher.cs:170 | for key >= 0, a character occurs in the cipher text exactly as often as the character it encrypts occurs in the plain text |
| KeyDetection.RotatedProfileOfCipherText | CaesarCipherTool/MyCaesarCipher.cs:127-131 | the profile of a text encrypted with key `k` in 0..25, rotated left `k` times, is the plain text's profile |
| KeyDetection.ProfileEntryOfCipherText | CaesarCipherTool/MyCaesarCipher.cs:163-175 | entry `(j + k) mod 26` of the cipher text's profile is entry `j` of the plain text's |
| KeyDetection.ScoreAtTrueKey | CaesarCipherTool/MyCaesarCipher.cs:127-131 | the score recorded at index `k` for a text encrypted with key `k` is the score of the plain text's own profile |

## Left out

- `CalculateCorrelationCoeff` and `EnglishFrequencyDictionary`: the Pearson correlation is double arithmetic with `Math.Pow` and `Math.Sqrt`. It is replaced by the parameter `score`, so whether the detected key is the right one, which is a statistical question, is not modelled. The one fact taken from the frequency table is that it enumerates its keys in `a..z` order.
- Floating point in the profile: each share is an exact real `count / length`. Rounding in `double` division is not modelled.
- FrequencyProfile.GetMessageFrequency: requires a non-empty message. For the empty message the source divides 0 by 0 and returns 26 NaN entries, which reals cannot represent.
- FrequencyProfile.GetMessageFrequency: covers strings without surrogate pairs only. `message.Length` counts UTF-16 code units, so a character outside the Basic Multilingual Plane counts 2 there. The model's string is a sequence of Unicode scalar values, where it counts 1. For "a" followed by such a character the source gives 'a' a share of 1/3, and the model gives 1/2.
- KeyDetection.DetectKey: requires a non-empty cipher text, for the same NaN reason. `AutoDecrypt` handles the empty text directly with the outcome of the NaN path in .NET: `Max` gives NaN, and `List.IndexOf(NaN)` finds index 0. So the key is 0 and the plain text is empty.
- The `try`/`catch` blocks that return `"Error: --> "` plus the exception message: for non-null strings no statement in these methods throws, and null strings are not modelled.
- ShiftCipher.Encrypt: does not model 32-bit wrap-around of `Value + key`. For a key within 25 of `int.MaxValue` the source's sum wraps to a negative number and gives `'\0'` (or throws into the error string in a checked build). The model keeps the unbounded sum and rotates. Keys from the tool are 0..26.
- ShiftCipher.Decrypt: does not model 32-bit wrap-around of `Value - key`. For a key within 25 of `int.MinValue` the source's difference wraps. The model keeps the unbounded difference. `Decrypt` is only called with detected keys in 0..25.
- `Dictionary` enumeration order: both tables are taken to enumerate in insertion order, `a..z`.
- The WinForms front end (`Form1`): file dialogs, file reading and the `ToLower` calls on input are I/O and presentation. It also limits the key to 0..26, which is why the round trip is stated for that range.
