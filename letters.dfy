/** The 52-letter alphabet and the bit-cache constants of the random string
    generator (utils.go, lines 191-196). Every byte the generator writes is an
    ASCII letter, so bytes are modelled as `char`s whose codes are below 128. */
module Letters {
  import opened Bits

  /** `letterBytes`: the 26 lower-case letters, then the 26 upper-case ones. */
  const LetterBytes: string := Lower + Upper

  const Lower: string := "abcdefghijklmnopqrstuvwxyz"
  const Upper: string := "ABCDEFGHIJKLMNOPQRSTUVWXYZ"

  /** `letterIdxBits`: 6 bits index the alphabet, since 2^6 = 64 >= 52. */
  const LetterIdxBits: nat := 6

  /** `letterIdxMask = 1<<letterIdxBits - 1`: six one-bits. */
  const LetterIdxMask: nat := Pow2(LetterIdxBits) - 1

  /** `letterIdxMax = 63 / letterIdxBits`: the six-bit groups that fit in one 63-bit draw. */
  const LetterIdxMax: nat := 63 / LetterIdxBits

  /** `len(letterBytes)`. */
  const LetterCount: nat := 52

  /** `letterBytes[g]`, computed from the letter codes. */
  function Letter(g: int): (c: char)
    requires 0 <= g < LetterCount
    ensures IsAsciiLetter(c)
  {
    if g < 26 then ('a' as int + g) as char else ('A' as int + (g - 26)) as char
  }

  /** An ASCII letter, upper or lower case. */
  predicate IsAsciiLetter(c: char) {
    ('a' <= c <= 'z') || ('A' <= c <= 'Z')
  }

  /** The constants have the values the source computes. */
  lemma ConstantValues()
    ensures LetterIdxMask == 63 && LetterIdxMask + 1 == 64
    ensures LetterIdxMax == 10
    ensures |LetterBytes| == LetterCount == 52
  {
    Pow2Six();
  }

  lemma LowerCodes(k: int)
    requires 0 <= k < 26
    ensures Lower[k] as int == 'a' as int + k
  {
  }

  lemma UpperCodes(k: int)
    requires 0 <= k < 26
    ensures Upper[k] as int == 'A' as int + k
  {
  }

  /** Index k of the alphabet holds the k-th lower-case letter for k < 26
      and the (k - 26)-th upper-case letter after. */
  lemma LetterCode(k: int)
    requires 0 <= k < |LetterBytes|
    ensures LetterBytes[k] as int == if k < 26 then 'a' as int + k else 'A' as int + (k - 26)
  {
    if k < 26 {
      LowerCodes(k);
    } else {
      UpperCodes(k - 26);
    }
  }

  /** The alphabet lists each ASCII letter exactly once: a bijection between
      the indices 0..51 and the 52 letters. */
  lemma LetterBytesAreTheLetters()
    ensures |LetterBytes| == 52
    ensures forall k :: 0 <= k < |LetterBytes| ==> IsAsciiLetter(LetterBytes[k])
    ensures forall j, k :: 0 <= j < k < |LetterBytes| ==> LetterBytes[j] != LetterBytes[k]
    ensures forall c :: IsAsciiLetter(c) ==> c in LetterBytes
  {
    forall k | 0 <= k < |LetterBytes| ensures IsAsciiLetter(LetterBytes[k]) {
      LetterCode(k);
    }
    forall j, k | 0 <= j < k < |LetterBytes| ensures LetterBytes[j] != LetterBytes[k] {
      LetterCode(j);
      LetterCode(k);
    }
    forall c | IsAsciiLetter(c) ensures c in LetterBytes {
      var k := if c <= 'Z' then 26 + (c as int - 'A' as int) else c as int - 'a' as int;
      LetterCode(k);
      assert LetterBytes[k] as int == c as int;
    }
  }

  /** `Letter` and `LetterCount` are the alphabet's entries and length. */
  lemma LetterIsLetterBytes(g: int)
    requires 0 <= g < LetterCount
    ensures |LetterBytes| == LetterCount
    ensures LetterBytes[g] == Letter(g)
  {
    LetterCode(g);
  }
}
