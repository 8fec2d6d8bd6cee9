/** The frequency profiler `GetMessageFrequency`: for each letter, in
    alphabetical order, its number of occurrences divided by the length of the
    whole message (letters and every other character). */
module FrequencyProfile {
  import opened Alphabet

  /** `message.Count(m => m == c)`: the number of occurrences of `c` in `s`. */
  function Count(s: string, c: char): (n: nat)
    ensures n <= |s|
    ensures n == multiset(s)[c]
  {
    if s == [] then 0
    else
      assert s == [s[0]] + s[1..];
      (if s[0] == c then 1 else 0) + Count(s[1..], c)
  }

  /** The profile `GetMessageFrequency` returns: entry `i` is the share of the
      letter with ordinal `i` among all characters of the message. */
  function Profile(message: string): seq<real>
    requires |message| > 0
  {
    seq(NumberOfLetters, i requires 0 <= i < NumberOfLetters =>
      Count(message, Letters[i]) as real / |message| as real)
  }

  /** `GetMessageFrequency`: appends one share per letter of the frequency
      table, whose keys are 'a'..'z' in that order. */
  method GetMessageFrequency(message: string) returns (messageFrequencyList: seq<real>)
    requires |message| > 0
    ensures messageFrequencyList == Profile(message)
  {
    var msgLength := |message| as real;
    messageFrequencyList := [];
    for i := 0 to NumberOfLetters
      invariant |messageFrequencyList| == i
      invariant forall j :: 0 <= j < i ==>
                  messageFrequencyList[j] == Count(message, Letters[j]) as real / msgLength
    {
      var avg := Count(message, Letters[i]) as real / msgLength;
      messageFrequencyList := messageFrequencyList + [avg];
    }
  }

  /** The profile has exactly 26 entries, in a..z order; each is a share
      between 0 and 1, and is 0 exactly when that letter does not occur. */
  lemma ProfileShares(message: string)
    requires |message| > 0
    ensures |Profile(message)| == NumberOfLetters
    ensures forall i :: 0 <= i < NumberOfLetters ==>
              0.0 <= Profile(message)[i] <= 1.0 &&
              (Profile(message)[i] == 0.0 <==> Letters[i] !in message)
  {
    forall i | 0 <= i < NumberOfLetters
      ensures 0.0 <= Profile(message)[i] <= 1.0
      ensures Profile(message)[i] == 0.0 <==> Letters[i] !in message
    {
      var k := Count(message, Letters[i]);
      Share(k as real, |message| as real);
      assert k == 0 <==> Letters[i] !in message;
    }
  }

  /** A count `k` out of `n > 0` characters is a share between 0 and 1 that
      is 0 only for `k = 0` and 1 only for `k = n`. */
  lemma Share(k: real, n: real)
    requires 0.0 <= k <= n && n > 0.0
    ensures 0.0 <= k / n <= 1.0
    ensures k / n == 0.0 <==> k == 0.0
    ensures k / n == 1.0 <==> k == n
  {
    assert (k / n) * n == k;
  }

  /** The sum of the counts of the first `k` letters of the table. */
  function LetterTotal(s: string, k: nat): nat
    requires k <= NumberOfLetters
  {
    if k == 0 then 0 else LetterTotal(s, k - 1) + Count(s, Letters[k - 1])
  }

  /** Removing the first character of `s` lowers the total of the first `k`
      letters by one exactly when that character is one of them. */
  lemma {:induction false} LetterTotalStep(s: string, k: nat)
    requires s != [] && k <= NumberOfLetters
    ensures LetterTotal(s, k) == LetterTotal(s[1..], k) + if s[0] in Letters[..k] then 1 else 0
  {
    if k > 0 {
      LetterTotalStep(s, k - 1);
      LettersAreOffsets();
      assert Letters[..k] == Letters[..k - 1] + [Letters[k - 1]];
      if s[0] == Letters[k - 1] {
        assert s[0] !in Letters[..k - 1];
      }
    }
  }

  /** No letter occurs in the empty text. */
  lemma {:induction false} LetterTotalOfEmpty(k: nat)
    requires k <= NumberOfLetters
    ensures LetterTotal([], k) == 0
  {
    if k > 0 {
      LetterTotalOfEmpty(k - 1);
    }
  }

  /** The 26 letter counts add up to at most the length of the message, with
      equality exactly when every character is a lower-case letter. */
  lemma {:induction false} LetterTotalBound(s: string)
    ensures LetterTotal(s, NumberOfLetters) <= |s|
    ensures LetterTotal(s, NumberOfLetters) == |s| <==> forall i :: 0 <= i < |s| ==> IsLower(s[i])
  {
    if s == [] {
      LetterTotalOfEmpty(NumberOfLetters);
    } else {
      LetterTotalStep(s, NumberOfLetters);
      LetterTotalBound(s[1..]);
      OrdinalOfLetter(s[0]);
      assert Letters[..NumberOfLetters] == Letters;
      assert s[0] in Letters <==> IsLower(s[0]);
      assert (forall i :: 0 <= i < |s| ==> IsLower(s[i])) <==>
             IsLower(s[0]) && forall i :: 0 <= i < |s[1..]| ==> IsLower(s[1..][i]);
    }
  }

  /** The sum of a sequence of reals, `Enumerable.Sum`. */
  function Sum(p: seq<real>): real {
    if p == [] then 0.0 else Sum(p[..|p| - 1]) + p[|p| - 1]
  }

  /** The first `k` shares add up to the total of the first `k` counts divided
      by the length of the message. */
  lemma {:induction false} ProfilePrefixSum(message: string, k: nat)
    requires |message| > 0 && k <= NumberOfLetters
    ensures Sum(Profile(message)[..k]) == LetterTotal(message, k) as real / |message| as real
  {
    var p := Profile(message);
    if k > 0 {
      ProfilePrefixSum(message, k - 1);
      assert p[..k][..k - 1] == p[..k - 1];
      assert Sum(p[..k]) == Sum(p[..k - 1]) + p[k - 1];
      var n := |message| as real;
      var a, b := LetterTotal(message, k - 1) as real, Count(message, Letters[k - 1]) as real;
      assert p[k - 1] == b / n;
      SharesAdd(a, b, n);
    }
  }

  /** Shares of the same whole add up. */
  lemma SharesAdd(a: real, b: real, n: real)
    requires n > 0.0
    ensures a / n + b / n == (a + b) / n
  {
  }

  /** The shares of the profile add up to at most 1, with equality exactly
      when every character of the message is a lower-case letter. */
  lemma ProfileSum(message: string)
    requires |message| > 0
    ensures Sum(Profile(message)) <= 1.0
    ensures Sum(Profile(message)) == 1.0 <==> forall i :: 0 <= i < |message| ==> IsLower(message[i])
  {
    ProfilePrefixSum(message, NumberOfLetters);
    assert Profile(message)[..NumberOfLetters] == Profile(message);
    LetterTotalBound(message);
    Share(LetterTotal(message, NumberOfLetters) as real, |message| as real);
  }
}
