/** What the letters `RandStringBytesMaskImprSrc` returns are, stated about
    the specification functions of module `RandString` (utils.go, lines
    191-215). */
module RandStringFacts {
  import opened Bits
  import opened Letters
  import opened RandString

  // ---------------------------------------------------------------------------
  // Bit layout of a draw.
  // ---------------------------------------------------------------------------

  /** Group k of a value is its bits 6k .. 6k+5: the k-th iteration after a
      refill reads the cache shifted right k times by `letterIdxBits`, masked
      with `letterIdxMask`. */
  lemma {:induction false} GroupIsBits(c: int, m: nat, k: nat)
    requires k < m
    ensures LowGroups(c, m)[k] == c / Pow2(LetterIdxBits * k) % Pow2(LetterIdxBits)
    decreases m
  {
    Pow2Six();
    if k > 0 {
      GroupIsBits(c / 64, m - 1, k - 1);
      Pow2Add(6, 6 * (k - 1));
      DivDiv(c, 64, Pow2(6 * (k - 1)));
    }
  }

  /** The m groups of a value do not depend on its bits from 6m up. */
  lemma {:induction false} LowGroupsIgnoreHighBits(c: int, t: int, m: nat)
    ensures LowGroups(c + t * Pow2(LetterIdxBits * m), m) == LowGroups(c, m)
    decreases m
  {
    if m > 0 {
      var y := t * Pow2(6 * (m - 1));
      GroupShift(t, m);
      var c' := c + 64 * y;
      DivAddMultiple(c, 64, y);
      LowGroupsIgnoreHighBits(c / 64, t, m - 1);
      assert LowGroups(c', m) == [c' % 64] + LowGroups(c' / 64, m - 1);
    }
  }

  lemma GroupShift(t: int, m: nat)
    requires 0 < m
    ensures t * Pow2(LetterIdxBits * m) == 64 * (t * Pow2(LetterIdxBits * (m - 1)))
  {
    var p := Pow2(6 * (m - 1));
    assert LetterIdxBits * m == 6 + 6 * (m - 1);
    Pow2Six();
    Pow2Add(6, 6 * (m - 1));
    assert Pow2(LetterIdxBits * m) == 64 * p;
    MulSwap(t, 64, p);
  }

  /** A draw `src.Int63()` returns has 63 bits; above the sixty that ten
      groups cover, three remain. */
  lemma TopBitsCount(d: int)
    requires IsInt63(d)
    ensures 0 <= d / Pow2(60) < Pow2(3)
  {
    Pow2Values();
    Pow2Add(60, 3);
  }

  /** A draw is read for `letterIdxMax` = 10 groups, bits 0 .. 59: the bits
      from 60 up (the top three of a 63-bit draw) never reach a letter. */
  lemma TopBitsUnused(d: int)
    ensures DrawGroups(d) == DrawGroups(d % Pow2(60))
  {
    assert LetterIdxBits * LetterIdxMax == 60;
    var p := Pow2(60);
    assert d % p + d / p * p == d;
    LowGroupsIgnoreHighBits(d % p, d / p, LetterIdxMax);
  }

  // ---------------------------------------------------------------------------
  // Rejection: a group of 52 .. 63 is dropped, not reduced modulo 52.
  // ---------------------------------------------------------------------------

  /** A group is kept exactly when it indexes `letterBytes`. */
  lemma {:induction false} AcceptedMembers(gs: seq<int>, x: int)
    ensures x in Accepted(gs) <==> x in gs && x < LetterCount
    decreases |gs|
  {
    if |gs| > 0 {
      var g := gs[|gs| - 1];
      AcceptedMembers(gs[..|gs| - 1], x);
      assert gs == gs[..|gs| - 1] + [g];
    }
  }

  /** Groups that all index a letter are all kept, in order. */
  lemma {:induction false} AcceptedKeepsLetters(gs: seq<int>)
    requires forall k :: 0 <= k < |gs| ==> gs[k] < LetterCount
    ensures Accepted(gs) == gs
    decreases |gs|
  {
    if |gs| > 0 {
      var init := gs[..|gs| - 1];
      assert forall k :: 0 <= k < |init| ==> init[k] == gs[k];
      AcceptedKeepsLetters(init);
      assert gs == init + [gs[|gs| - 1]];
    }
  }

  /** Groups none of which indexes a letter produce nothing. */
  lemma {:induction false} AcceptedDropsRest(gs: seq<int>)
    requires forall k :: 0 <= k < |gs| ==> gs[k] >= LetterCount
    ensures Accepted(gs) == []
    decreases |gs|
  {
    if |gs| > 0 {
      var init := gs[..|gs| - 1];
      assert forall k :: 0 <= k < |init| ==> init[k] == gs[k];
      AcceptedDropsRest(init);
    }
  }

  /** The draw 116 = 52 + 1 * 64 has groups 52, 1, 0, ...: group 52 is
      skipped, so two letters are "ab" ('b' from group 1 in the last
      position, then 'a' from group 0 before it). Reducing 52 modulo 52 would
      have given "ba". */
  lemma RejectionNotModulo()
    ensures 2 <= |Accepted(Groups([116]))|
    ensures RandomLetters([116], 2) == "ab"
  {
    assert LetterIdxMax == 10;
    var rest := LowGroups(0, 7);
    var gs := [52, 1, 0] + rest;
    assert LowGroups(0, 8) == [0] + rest;
    assert LowGroups(1, 9) == [1] + LowGroups(0, 8);
    assert LowGroups(116, 10) == [52] + LowGroups(1, 9);
    assert DrawGroups(116) == gs;
    assert [116][..0] == [];
    assert Groups([116]) == gs;
    AcceptedAppend([52, 1, 0], rest);
    AcceptedSnoc([52, 1], 0);
    AcceptedSnoc([52], 1);
    AcceptedSnoc([], 52);
    assert [] + [52] == [52];
    assert Accepted([52, 1, 0]) == [1, 0];
  }

  // ---------------------------------------------------------------------------
  // The output string.
  // ---------------------------------------------------------------------------

  /** The string has exactly n bytes, each one of the 52 ASCII letters;
      n = 0 gives the empty string. */
  lemma RandomLettersAreLetters(draws: seq<int>, n: nat)
    requires n <= |Accepted(Groups(draws))|
    ensures |RandomLetters(draws, n)| == n
    ensures forall k :: 0 <= k < n ==>
      RandomLetters(draws, n)[k] in LetterBytes && IsAsciiLetter(RandomLetters(draws, n)[k])
    ensures n == 0 ==> RandomLetters(draws, n) == ""
  {
    LetterBytesAreTheLetters();
    forall k | 0 <= k < n
      ensures RandomLetters(draws, n)[k] in LetterBytes && IsAsciiLetter(RandomLetters(draws, n)[k])
    {
      var c := RandomLetters(draws, n)[k];
      RandomLettersAt(draws, n, k);
      var i :| 0 <= i < LetterCount && LetterBytes[i] == c;
    }
  }

  /** The string is determined by the first n accepted groups. */
  lemma SameAcceptedSameLetters(a: seq<int>, b: seq<int>, n: nat)
    requires n <= |Accepted(Groups(a))| && n <= |Accepted(Groups(b))|
    requires Accepted(Groups(a))[..n] == Accepted(Groups(b))[..n]
    ensures RandomLetters(a, n) == RandomLetters(b, n)
  {
    var accA, accB := Accepted(Groups(a)), Accepted(Groups(b));
    forall j | 0 <= j < n ensures NthLetter(a, j) == NthLetter(b, j) {
      assert accA[j] == accA[..n][j] == accB[..n][j] == accB[j];
    }
    RandomLettersAgree(a, b, n);
  }

  lemma {:induction false} RandomLettersAgree(a: seq<int>, b: seq<int>, n: nat)
    requires n <= |Accepted(Groups(a))| && n <= |Accepted(Groups(b))|
    requires forall j :: 0 <= j < n ==> NthLetter(a, j) == NthLetter(b, j)
    ensures RandomLetters(a, n) == RandomLetters(b, n)
    decreases n
  {
    if n > 0 {
      RandomLettersAgree(a, b, n - 1);
    }
  }

  /** Draws after the ones needed do not change the string. */
  lemma RandomLettersStable(draws: seq<int>, more: seq<int>, n: nat)
    requires n <= |Accepted(Groups(draws))|
    ensures n <= |Accepted(Groups(draws + more))|
    ensures RandomLetters(draws + more, n) == RandomLetters(draws, n)
  {
    GroupsAppend(draws, more);
    AcceptedAppend(Groups(draws), Groups(more));
    var acc := Accepted(Groups(draws));
    assert Accepted(Groups(draws + more)) == acc + Accepted(Groups(more));
    assert (acc + Accepted(Groups(more)))[..n] == acc[..n];
    SameAcceptedSameLetters(draws + more, draws, n);
  }

  /** Two sequences of draws that agree draw by draw on their groups agree on
      all groups. */
  lemma {:induction false} GroupsAgree(a: seq<int>, b: seq<int>)
    requires |a| == |b|
    requires forall k :: 0 <= k < |a| ==> DrawGroups(a[k]) == DrawGroups(b[k])
    ensures Groups(a) == Groups(b)
    decreases |a|
  {
    if |a| > 0 {
      GroupsAgree(a[..|a| - 1], b[..|b| - 1]);
    }
  }

  /** The string depends only on the low 60 bits of each draw. */
  lemma RandomLettersIgnoreTopBits(draws: seq<int>, low: seq<int>, n: nat)
    requires |low| == |draws| && forall k :: 0 <= k < |draws| ==> low[k] == draws[k] % Pow2(60)
    requires n <= |Accepted(Groups(draws))|
    ensures n <= |Accepted(Groups(low))|
    ensures RandomLetters(low, n) == RandomLetters(draws, n)
  {
    forall k | 0 <= k < |draws| ensures DrawGroups(draws[k]) == DrawGroups(low[k]) {
      TopBitsUnused(draws[k]);
    }
    GroupsAgree(draws, low);
    SameAcceptedSameLetters(low, draws, n);
  }
}
