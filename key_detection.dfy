/** The key detector `DetectKey` and the orchestrator `AutoDecrypt`.

    The Pearson correlation `CalculateCorrelationCoeff` is floating-point
    arithmetic with a square root; here it is the parameter `score`, an
    arbitrary real-valued function of a 26-entry profile, and everything is
    proved for every such function. */
module KeyDetection {
  import opened Sequences
  import opened Alphabet
  import opened ShiftCipher
  import opened FrequencyProfile

  /** `list` rotated left by `k` places: entry `i` is `list[(i + k) mod n]`. */
  function RotateLeft(list: seq<real>, k: nat): seq<real>
    requires |list| > 0
  {
    seq(|list|, i requires 0 <= i < |list| => list[(i + k) % |list|])
  }

  /** `ShiftOneStep`: moves every entry one place down and the first entry to
      the end. The source reads `list[0]` unconditionally, so the list must not
      be empty. */
  method ShiftOneStep(list: seq<real>) returns (returnList: seq<real>)
    requires |list| > 0
    ensures returnList == RotateLeft(list, 1)
  {
    returnList := [];
    for i := 1 to |list|
      invariant |returnList| == i - 1
      invariant forall j :: 0 <= j < i - 1 ==> returnList[j] == list[j + 1]
    {
      // returnList.Insert(i - 1, list[i]), on a list of i - 1 entries
      returnList := returnList[..i - 1] + [list[i]] + returnList[i - 1..];
    }
    returnList := returnList + [list[0]];
    RotateLeftOne(list);
  }

  /** The list after `k` successive calls of `ShiftOneStep`. */
  function ShiftedTimes(list: seq<real>, k: nat): (r: seq<real>)
    requires |list| > 0
    ensures |r| == |list|
  {
    if k == 0 then list else RotateLeft(ShiftedTimes(list, k - 1), 1)
  }

  /** A positive multiple of `n` is at least `n`. */
  lemma MulAtLeast(d: int, n: int)
    requires d >= 1 && n > 0
    ensures d * n >= n
  {
    assert d * n == (d - 1) * n + n;
  }

  /** Division with remainder is unique: `a = q * n + r` with `0 <= r < n`
      fixes `a % n` and `a / n`. */
  lemma DivModUnique(a: int, n: int, q: int, r: int)
    requires n > 0 && 0 <= r < n && a == q * n + r
    ensures a % n == r && a / n == q
  {
    var q', r' := a / n, a % n;
    assert a == q' * n + r';
    assert (q - q') * n == r' - r;
    if q > q' {
      MulAtLeast(q - q', n);
    } else if q < q' {
      MulAtLeast(q' - q, n);
    }
  }

  /** Index arithmetic behind one more rotation step. */
  lemma ModStep(i: nat, k: nat, n: nat)
    requires i < n
    ensures ((i + 1) % n + k) % n == (i + 1 + k) % n
  {
    if i + 1 < n {
      DivModUnique(i + 1, n, 0, i + 1);
    } else {
      DivModUnique(i + 1, n, 1, 0);
      DivModUnique(i + 1 + k, n, k / n + 1, k % n);
    }
  }

  /** One more step after a rotation by `k` is a rotation by `k + 1`. */
  lemma RotateLeftAgain(list: seq<real>, k: nat)
    requires |list| > 0
    ensures RotateLeft(RotateLeft(list, k), 1) == RotateLeft(list, k + 1)
  {
    var n := |list|;
    var r := RotateLeft(list, k);
    forall i | 0 <= i < n
      ensures RotateLeft(r, 1)[i] == RotateLeft(list, k + 1)[i]
    {
      var t := (i + 1) % n;
      assert RotateLeft(r, 1)[i] == r[t] == list[(t + k) % n];
      ModStep(i, k, n);
    }
  }

  /** Entry `j` of a rotation by `k`. */
  lemma RotateLeftAt(list: seq<real>, k: nat, j: nat)
    requires j < |list|
    ensures RotateLeft(list, k)[j] == list[(j + k) % |list|]
  {
  }

  /** A rotation by one is the list without its head, followed by the head. */
  lemma RotateLeftOne(list: seq<real>)
    requires |list| > 0
    ensures RotateLeft(list, 1) == list[1..] + [list[0]]
  {
    var n := |list|;
    forall i | 0 <= i < n
      ensures RotateLeft(list, 1)[i] == (list[1..] + [list[0]])[i]
    {
      if i + 1 < n {
        DivModUnique(i + 1, n, 0, i + 1);
      } else {
        DivModUnique(i + 1, n, 1, 0);
      }
    }
  }

  /** `k` calls of `ShiftOneStep` rotate the list left by `k`. */
  lemma {:induction false} ShiftedTimesIsRotation(list: seq<real>, k: nat)
    requires |list| > 0
    ensures ShiftedTimes(list, k) == RotateLeft(list, k)
  {
    if k == 0 {
      forall i | 0 <= i < |list| ensures RotateLeft(list, 0)[i] == list[i] {
        DivModUnique(i, |list|, 0, i);
      }
    } else {
      ShiftedTimesIsRotation(list, k - 1);
      RotateLeftAgain(list, k - 1);
    }
  }

  /** `n` calls of `ShiftOneStep` on a list of `n` entries give the list back. */
  lemma FullCycle(list: seq<real>)
    requires |list| > 0
    ensures ShiftedTimes(list, |list|) == list
  {
    ShiftedTimesIsRotation(list, |list|);
    forall i | 0 <= i < |list| ensures RotateLeft(list, |list|)[i] == list[i] {
      DivModUnique(i + |list|, |list|, 1, i);
    }
  }

  /** The 26 scores `DetectKey` records: score `i` is computed on the profile
      rotated left `i` times. */
  function Scores(profile: seq<real>, score: seq<real> -> real): seq<real>
    requires |profile| > 0
  {
    seq(NumberOfLetters, i requires 0 <= i < NumberOfLetters => score(RotateLeft(profile, i)))
  }

  /** `Math.Abs` on reals. */
  function Abs(x: real): real {
    if x < 0.0 then -x else x
  }

  /** `correlationList.Max(x => Math.Abs(x))`: the largest magnitude in the list. */
  function MaxAbs(s: seq<real>): (m: real)
    requires |s| > 0
    ensures forall i :: 0 <= i < |s| ==> Abs(s[i]) <= m
    ensures exists i :: 0 <= i < |s| && Abs(s[i]) == m
  {
    if |s| == 1 then Abs(s[0])
    else
      var m := MaxAbs(s[..|s| - 1]);
      if Abs(s[|s| - 1]) > m then Abs(s[|s| - 1]) else m
  }

  /** The largest magnitude occurs in the list with one sign or the other. */
  lemma MaxAbsAttained(s: seq<real>)
    requires |s| > 0
    ensures MaxAbs(s) in s || -MaxAbs(s) in s
  {
    var i :| 0 <= i < |s| && Abs(s[i]) == MaxAbs(s);
    assert s[i] == MaxAbs(s) || s[i] == -MaxAbs(s);
  }

  /** The index `DetectKey` picks. With `m` the largest magnitude, it is a
      valid index whose score has magnitude `m`; it is the first index holding
      `+m` when one exists (even if `-m` occurs earlier), and otherwise the
      first index holding `-m`. */
  function SelectKey(scores: seq<real>): (key: int)
    requires |scores| > 0
    ensures 0 <= key < |scores|
    ensures forall j :: 0 <= j < |scores| ==> Abs(scores[j]) <= Abs(scores[key])
    ensures MaxAbs(scores) in scores ==>
              scores[key] == MaxAbs(scores) && MaxAbs(scores) !in scores[..key]
    ensures MaxAbs(scores) !in scores ==>
              scores[key] == -MaxAbs(scores) && -MaxAbs(scores) !in scores[..key]
  {
    var m := MaxAbs(scores);
    MaxAbsAttained(scores);
    FirstOfEitherSignRule(scores, m);
    FirstOfEitherSign(scores, m)
  }

  /** `list.IndexOf(m) < 0 ? list.IndexOf(-m) : list.IndexOf(m)`. */
  function FirstOfEitherSign(s: seq<real>, m: real): int {
    if IndexOf(s, m) < 0 then IndexOf(s, -m) else IndexOf(s, m)
  }

  /** For any bound `m` on the magnitudes that occurs in the list with one sign
      or the other, the index found holds `+m` if that occurs, else `-m`, and
      is the first index holding it. */
  lemma FirstOfEitherSignRule(s: seq<real>, m: real)
    requires forall i :: 0 <= i < |s| ==> Abs(s[i]) <= m
    requires m in s || -m in s
    ensures 0 <= FirstOfEitherSign(s, m) < |s|
    ensures Abs(s[FirstOfEitherSign(s, m)]) == m
    ensures m in s ==> s[FirstOfEitherSign(s, m)] == m && m !in s[..FirstOfEitherSign(s, m)]
    ensures m !in s ==> s[FirstOfEitherSign(s, m)] == -m && -m !in s[..FirstOfEitherSign(s, m)]
  {
  }

  /** `DetectKey`: profiles the cipher text, scores the 26 rotations of the
      profile and selects the key among the scores. */
  method DetectKey(cipherText: string, score: seq<real> -> real) returns (key: int)
    requires |cipherText| > 0
    ensures key == SelectKey(Scores(Profile(cipherText), score))
    ensures 0 <= key < NumberOfLetters
    ensures forall j :: 0 <= j < NumberOfLetters ==>
              Abs(Scores(Profile(cipherText), score)[j]) <= Abs(Scores(Profile(cipherText), score)[key])
  {
    var correlationList: seq<real> := [];
    var msgfrqList := GetMessageFrequency(cipherText);
    ghost var scores := Scores(msgfrqList, score);
    ghost var profile := msgfrqList;
    for i := 0 to NumberOfLetters
      invariant |correlationList| == i
      invariant msgfrqList == RotateLeft(profile, i)
      invariant correlationList == scores[..i]
    {
      var r := score(msgfrqList);
      RotateLeftAgain(profile, i);
      msgfrqList := ShiftOneStep(msgfrqList);
      correlationList := correlationList + [r];
    }
    assert correlationList == scores;
    // correlationList.Max(x => Math.Abs(x)), then the index of +max, else of -max
    key := SelectKey(correlationList);
  }

  /** `AutoDecrypt`: detects the key and decrypts with it. For the empty text
      the source's profile is 26 NaN values; `Max` then yields NaN and
      `List.IndexOf(NaN)` finds it at index 0 (`Double.Equals` treats NaN as
      equal to itself), so the key is 0 and the plain text is empty. */
  method AutoDecrypt(cipherText: string, score: seq<real> -> real) returns (key: int, plainText: string)
    ensures |cipherText| > 0 ==> key == SelectKey(Scores(Profile(cipherText), score))
    ensures |cipherText| == 0 ==> key == 0
    ensures 0 <= key < NumberOfLetters
    ensures plainText == Decrypted(cipherText, key)
    ensures Encrypted(plainText, key) == cipherText
  {
    if |cipherText| == 0 {
      key := 0;
    } else {
      key := DetectKey(cipherText, score);
    }
    plainText := Decrypt(cipherText, key);
    RoundTrip(cipherText, key);
  }

  /** Rotation of characters is injective. */
  lemma RotateInjective(x: char, y: char, k: int)
    ensures Rotate(x, k) == Rotate(y, k) <==> x == y
  {
    RotateInverse(x, k);
    RotateInverse(y, k);
  }

  /** Encryption moves every occurrence of `c` to an occurrence of `c`
      rotated by the key, and creates no others. */
  lemma {:induction false} CountEncrypted(p: string, key: int, c: char)
    requires key >= 0
    ensures Count(Encrypted(p, key), Rotate(c, key)) == Count(p, c)
  {
    if p != [] {
      var e := Encrypted(p, key);
      assert e[1..] == Encrypted(p[1..], key);
      EncryptCharIsRotation(p[0], key);
      RotateInjective(p[0], c, key);
      CountEncrypted(p[1..], key, c);
    }
  }

  /** The profile of a cipher text made with key `k`, rotated left by `k`, is
      the profile of the plain text: the rotation `DetectKey` scores at index
      `k` is exactly the plain text's letter distribution. */
  lemma RotatedProfileOfCipherText(p: string, key: int)
    requires |p| > 0 && 0 <= key < NumberOfLetters
    ensures |Encrypted(p, key)| == |p|
    ensures RotateLeft(Profile(Encrypted(p, key)), key) == Profile(p)
  {
    var e := Encrypted(p, key);
    var q := Profile(e);
    assert |q| == NumberOfLetters;
    forall j | 0 <= j < NumberOfLetters
      ensures RotateLeft(q, key)[j] == Profile(p)[j]
    {
      ProfileEntryOfCipherText(p, key, j);
      RotateLeftAt(q, key, j);
    }
  }

  /** Entry `(j + key) mod 26` of the cipher text's profile is entry `j` of
      the plain text's. */
  lemma ProfileEntryOfCipherText(p: string, key: int, j: int)
    requires |p| > 0 && 0 <= key < NumberOfLetters && 0 <= j < NumberOfLetters
    ensures |Encrypted(p, key)| == |p|
    ensures Profile(Encrypted(p, key))[(j + key) % NumberOfLetters] == Profile(p)[j]
  {
    var e := Encrypted(p, key);
    var t := (j + key) % NumberOfLetters;
    RotateLetter(j, key);
    CountEncrypted(p, key, Letters[j]);
    assert Count(e, Letters[t]) == Count(p, Letters[j]);
  }

  /** Rotating the letter with ordinal `j` by `key` gives the letter with
      ordinal `(j + key) mod 26`. */
  lemma RotateLetter(j: int, key: int)
    requires 0 <= j < NumberOfLetters && key >= 0
    ensures Letters[(j + key) % NumberOfLetters] == Rotate(Letters[j], key)
  {
    LettersAreOffsets();
    var t := (j + key) % NumberOfLetters;
    assert Letters[t] as int == 'a' as int + t;
    assert Rotate(Letters[j], key) as int == 'a' as int + t;
  }

  /** Hence the score recorded at the true key is the score of the plain
      text's profile. */
  lemma ScoreAtTrueKey(p: string, key: int, score: seq<real> -> real)
    requires |p| > 0 && 0 <= key < NumberOfLetters
    ensures Scores(Profile(Encrypted(p, key)), score)[key] == score(Profile(p))
  {
    RotatedProfileOfCipherText(p, key);
  }
}
