/** The letter table `EnglishLetterDictionary`: a fixed bijection between the
    lower-case letters 'a'..'z' and the ordinals 0..25. */
module Alphabet {
  import opened Sequences

  /** Number of English letters (`NumberOfLetters`). */
  const NumberOfLetters: nat := 26

  /** The table, indexed by ordinal: `Letters[o]` is the letter whose value is `o`. */
  const Letters: string := LetterTable()

  /** Entry `o` of the table is the letter `o` places after 'a'. */
  function LetterTable(): (t: string)
    ensures |t| == NumberOfLetters
  {
    seq(NumberOfLetters, o requires 0 <= o < NumberOfLetters => ('a' as int + o) as char)
  }

  predicate IsLower(c: char) {
    'a' <= c <= 'z'
  }

  /** `dic.Any(k => k.Key.Equals(c))`: is `c` a key of the table? */
  predicate InTable(c: char) {
    c in Letters
  }

  /** `dic.FirstOrDefault(k => k.Key.Equals(c)).Value`, for a key of the table. */
  function Ordinal(c: char): (o: nat)
    requires InTable(c)
    ensures o < NumberOfLetters && Letters[o] == c
  {
    IndexOf(Letters, c)
  }

  /** `dic.FirstOrDefault(v => v.Value == v).Key`: the letter whose value is `v`,
      or the default character '\0' when no entry has that value. */
  function LetterOf(v: int): (c: char)
    ensures 0 <= v < NumberOfLetters ==> IsLower(c) && c as int == 'a' as int + v
    ensures !(0 <= v < NumberOfLetters) ==> c == '\0'
  {
    if 0 <= v < |Letters| then Letters[v] else '\0'
  }

  /** The table holds the 26 lower-case letters in alphabetical order. */
  lemma LettersAreAlphabet()
    ensures Letters == "abcdefghijklmnopqrstuvwxyz"
  {
  }

  /** Entry `o` of the table is the letter `o` places after 'a'. */
  lemma LettersAreOffsets()
    ensures forall o :: 0 <= o < |Letters| ==> Letters[o] as int == 'a' as int + o
  {
  }

  /** Searching a table of consecutive letters starting at 'a' finds exactly
      the letters it holds, each at its offset from 'a'. */
  lemma IndexOfOffsetTable(s: string, c: char)
    requires forall o :: 0 <= o < |s| ==> s[o] as int == 'a' as int + o
    ensures IndexOf(s, c) >= 0 <==> 'a' as int <= c as int < 'a' as int + |s|
    ensures IndexOf(s, c) >= 0 ==> IndexOf(s, c) == c as int - 'a' as int
  {
    var r := IndexOf(s, c);
    if r >= 0 {
      assert s[r] as int == 'a' as int + r;
    }
    if 'a' as int <= c as int < 'a' as int + |s| {
      assert s[c as int - 'a' as int] == c;
    }
  }

  /** The keys of the table are exactly the lower-case letters, and the value of
      each letter is its offset from 'a'. */
  lemma OrdinalOfLetter(c: char)
    ensures InTable(c) <==> IsLower(c)
    ensures IsLower(c) ==> Ordinal(c) == c as int - 'a' as int
  {
    LettersAreOffsets();
    IndexOfOffsetTable(Letters, c);
  }

  /** The table is a bijection: looking up the letter of an ordinal gives it back. */
  lemma LetterOrdinalInverse(v: int)
    requires 0 <= v < NumberOfLetters
    ensures InTable(LetterOf(v)) && Ordinal(LetterOf(v)) == v
  {
    OrdinalOfLetter(LetterOf(v));
  }
}
