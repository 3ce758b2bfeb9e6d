/** The bit-cache random string generator `RandStringBytesMaskImprSrc`
    (utils.go, lines 188-215).

    The package-level source `src` is replaced by the sequence of values its
    `Int63()` calls would return, in order; the generator reports how many of
    them it consumed, which is how far the shared source has advanced.

    The draws are integers; `cache & letterIdxMask` is written
    `cache % (LetterIdxMask + 1)` and `cache >>= letterIdxBits` is written
    `cache / Pow2(LetterIdxBits)`, that is `% 64` and `/ 64`, the forms the
    specification functions use (`Bits.MaskAndShift` states the
    correspondence on 64-bit words). */
module RandString {
  import opened Bits
  import opened Letters

  /** A value `src.Int63()` may return: a non-negative integer below 2^63. */
  predicate IsInt63(d: int) {
    0 <= d < 0x8000_0000_0000_0000
  }

  /** Every entry is a six-bit value, as `int(cache & letterIdxMask)` yields. */
  predicate AreGroups(gs: seq<int>) {
    forall k :: 0 <= k < |gs| ==> 0 <= gs[k] < 64
  }

  // ---------------------------------------------------------------------------
  // Specification: the groups a sequence of draws provides, and the letters
  // chosen from them.
  // ---------------------------------------------------------------------------

  /** The m lowest six-bit groups of c, lowest first. */
  function LowGroups(c: int, m: nat): (r: seq<int>)
    ensures |r| == m
    decreases m
  {
    if m == 0 then [] else [c % 64] + LowGroups(c / 64, m - 1)
  }

  /** The `letterIdxMax` groups one draw is cut into. */
  function DrawGroups(d: int): (r: seq<int>)
    ensures |r| == LetterIdxMax
  {
    LowGroups(d, LetterIdxMax)
  }

  /** All groups of a sequence of draws, draw after draw. */
  function Groups(draws: seq<int>): (r: seq<int>)
  {
    if |draws| == 0 then []
    else Groups(draws[..|draws| - 1]) + DrawGroups(draws[|draws| - 1])
  }

  /** The groups that index a letter (below `len(letterBytes)`), in order;
      the others are dropped, not reduced. */
  function Accepted(gs: seq<int>): (r: seq<int>)
    ensures |r| <= |gs|
  {
    if |gs| == 0 then []
    else Accepted(gs[..|gs| - 1]) + (if gs[|gs| - 1] < LetterCount then [gs[|gs| - 1]] else [])
  }

  /** The letter the j-th accepted group selects. */
  function NthLetter(draws: seq<int>, j: nat): (r: char)
    requires j < |Accepted(Groups(draws))|
    ensures IsAsciiLetter(r)
  {
    GroupsAreSixBit(draws);
    AcceptedIndexLetters(Groups(draws));
    Letter(Accepted(Groups(draws))[j])
  }

  /** The string the generator returns for n letters: the generator fills
      the buffer from the end, so the letter of the last of the n accepted
      groups it uses comes first. */
  function RandomLetters(draws: seq<int>, n: nat): (r: string)
    requires n <= |Accepted(Groups(draws))|
    ensures |r| == n
  {
    if n == 0 then [] else [NthLetter(draws, n - 1)] + RandomLetters(draws, n - 1)
  }

  /** Position k of the string holds the letter of accepted group n-1-k: the
      j-th accepted group lands at position n-1-j. */
  lemma {:induction false} RandomLettersAt(draws: seq<int>, n: nat, k: nat)
    requires n <= |Accepted(Groups(draws))| && k < n
    ensures RandomLetters(draws, n)[k] == NthLetter(draws, n - 1 - k)
    decreases n
  {
    if k > 0 {
      RandomLettersAt(draws, n - 1, k - 1);
    }
  }

  // ---------------------------------------------------------------------------
  // The generator.
  // ---------------------------------------------------------------------------

  /** `RandStringBytesMaskImprSrc(n)` with `src` yielding `draws`. Returns the
      string and the number of draws taken from the source. The source is never
      exhausted in Go; here the draws must hold n accepted groups (and one draw,
      which the loop's initialisation takes even when n = 0). */
  method RandStringBytesMaskImprSrc(draws: seq<int>, n: int) returns (s: string, used: nat)
    requires 0 <= n
    requires 1 <= |draws| && n <= |Accepted(Groups(draws))|
    ensures s == RandomLetters(draws, n)
    ensures 1 <= used <= |draws|
    ensures n <= |Accepted(Groups(draws[..used]))|
    ensures used == 1 || |Accepted(Groups(draws[..used - 1]))| < n
  {
    var b := new char[n](_ => 0 as char);
    var i, cache, remain := n - 1, draws[0], LetterIdxMax;
    var next := 1;
    ghost var seen: seq<int> := [];
    ghost var acc: seq<int> := [];
    InvStart(draws, n, b[..]);
    Pow2Six();
    while i >= 0
      invariant Inv(draws, n, i, next, remain, cache, seen, acc, b[..])
      decreases |draws| - next, remain
    {
      if remain == 0 {
        ghost var next0, remain0, cache0 := next, remain, cache;
        MoreDraws(draws, n, i, next, remain, cache, seen, acc, b[..]);
        cache, remain := draws[next], LetterIdxMax;
        next := next + 1;
        InvRefill(draws, n, i, next0, remain0, cache0, seen, acc, b[..], next, remain, cache);
      }
      ghost var i0, remain0, cache0, seen0, acc0, b0 := i, remain, cache, seen, acc, b[..];
      var idx := cache % (LetterIdxMask + 1);
      if idx < LetterCount {
        LetterIsLetterBytes(idx);
        b[i] := LetterBytes[idx];
        i := i - 1;
        acc := acc + [idx];
      }
      seen := seen + [idx];
      cache := cache / Pow2(LetterIdxBits);
      remain := remain - 1;
      InvAdvance(draws, n, next, i0, remain0, cache0, seen0, acc0, b0, i, remain, cache, seen, acc, b[..]);
    }
    s := b[..];
    used := next;
    InvEnd(draws, n, i, next, remain, cache, seen, acc, s);
  }

  // ---------------------------------------------------------------------------
  // The loop invariant, and one lemma per kind of step.
  // ---------------------------------------------------------------------------

  /** The state of the loop: `i` is the next position to write, `Cursor`
      relates `next`, `remain` and `cache` to the groups `seen` so far, `acc`
      holds the accepted ones, whose letters fill `bs` from the end, and no
      draw was taken that was not needed. */
  ghost predicate Inv(draws: seq<int>, n: int, i: int, next: int, remain: int, cache: int,
                      seen: seq<int>, acc: seq<int>, bs: seq<char>) {
    && n <= |Accepted(Groups(draws))|
    && Cursor(draws, next, remain, cache, seen)
    && acc == Accepted(seen)
    && Filled(bs, i, acc)
    && |bs| == n
    && (next == 1 || |Accepted(Groups(draws[..next - 1]))| < n)
  }

  lemma InvStart(draws: seq<int>, n: int, bs: seq<char>)
    requires 0 <= n && 1 <= |draws| && n <= |Accepted(Groups(draws))|
    requires |bs| == n && forall k :: 0 <= k < n ==> bs[k] == 0 as char
    ensures Inv(draws, n, n - 1, 1, LetterIdxMax, draws[0], [], [], bs)
  {
    CursorStart(draws);
  }

  /** When the cache is spent and a letter is still missing, the draws are
      not exhausted. */
  lemma MoreDraws(draws: seq<int>, n: int, i: int, next: int, remain: int, cache: int,
                  seen: seq<int>, acc: seq<int>, bs: seq<char>)
    requires Inv(draws, n, i, next, remain, cache, seen, acc, bs) && remain == 0 && 0 <= i
    ensures next < |draws|
  {
    GroupsSnoc(draws, next);
    assert DrawGroups(draws[next - 1])[..LetterIdxMax] == DrawGroups(draws[next - 1]);
    assert draws[..|draws|] == draws;
  }

  /** A fresh draw refills the cache; only a spent cache and a missing letter
      cause one. */
  lemma InvRefill(draws: seq<int>, n: int, i: int, next0: int, remain0: int, cache0: int,
                  seen: seq<int>, acc: seq<int>, bs: seq<char>, next: int, remain: int, cache: int)
    requires Inv(draws, n, i, next0, remain0, cache0, seen, acc, bs) && remain0 == 0 && 0 <= i
    requires next == next0 + 1 && next0 < |draws|
    requires remain == LetterIdxMax && cache == draws[next0]
    ensures Inv(draws, n, i, next, remain, cache, seen, acc, bs)
  {
    CursorRefill(draws, next0, remain0, cache0, seen, next, remain, cache);
  }

  /** One iteration consumes one group; an accepted group writes position i
      and moves i down, a rejected one writes nothing. */
  lemma InvAdvance(draws: seq<int>, n: int, next: int,
                   i0: int, remain0: int, cache0: int, seen0: seq<int>, acc0: seq<int>, bs0: seq<char>,
                   i: int, remain: int, cache: int, seen: seq<int>, acc: seq<int>, bs: seq<char>)
    requires Inv(draws, n, i0, next, remain0, cache0, seen0, acc0, bs0) && 0 < remain0 && 0 <= i0
    requires remain == remain0 - 1 && cache == cache0 / 64 && seen == seen0 + [cache0 % 64]
    requires cache0 % 64 < LetterCount ==>
      bs == bs0[i0 := Letter(cache0 % 64)] && i == i0 - 1 && acc == acc0 + [cache0 % 64]
    requires cache0 % 64 >= LetterCount ==> bs == bs0 && i == i0 && acc == acc0
    ensures Inv(draws, n, i, next, remain, cache, seen, acc, bs)
  {
    CursorAdvance(draws, next, remain0, cache0, seen0, remain, cache, seen);
    AcceptedSnoc(seen0, cache0 % 64);
    if cache0 % 64 < LetterCount {
      FilledStep(bs0, i0, acc0, cache0 % 64, bs, i, acc);
    }
  }

  /** When every position is written, the buffer is the specified string and
      the draws taken are the fewest that hold n accepted groups. */
  lemma InvEnd(draws: seq<int>, n: int, i: int, next: int, remain: int, cache: int,
               seen: seq<int>, acc: seq<int>, bs: seq<char>)
    requires Inv(draws, n, i, next, remain, cache, seen, acc, bs) && i < 0
    ensures bs == RandomLetters(draws, n)
    ensures 1 <= next <= |draws|
    ensures n <= |Accepted(Groups(draws[..next]))|
    ensures next == 1 || |Accepted(Groups(draws[..next - 1]))| < n
  {
    CursorEnd(draws, next, remain, cache, seen);
    AcceptedMonotone(seen, Groups(draws[..next]));
    AcceptedMonotone(seen, Groups(draws));
    FilledEnd(bs, acc, draws, n);
  }

  // ---------------------------------------------------------------------------
  // The output buffer while the loop runs.
  // ---------------------------------------------------------------------------

  /** Positions 0..i are still zero; position |bs|-1-j holds the letter of the
      j-th accepted group. */
  ghost predicate Filled(bs: seq<char>, i: int, acc: seq<int>) {
    && -1 <= i && |bs| == i + 1 + |acc|
    && (forall k :: 0 <= k <= i ==> bs[k] == 0 as char)
    && (forall j :: 0 <= j < |acc| ==> 0 <= acc[j] < LetterCount && bs[|bs| - 1 - j] == Letter(acc[j]))
  }

  /** An accepted group writes position i, moves i down by one, and changes
      nothing else. */
  lemma FilledStep(bs0: seq<char>, i0: int, acc0: seq<int>, g: int, bs: seq<char>, i: int, acc: seq<int>)
    requires Filled(bs0, i0, acc0) && 0 <= i0 && 0 <= g < LetterCount
    requires bs == bs0[i0 := Letter(g)] && i == i0 - 1 && acc == acc0 + [g]
    ensures Filled(bs, i, acc)
  {
  }

  /** A full buffer is the specified string. */
  lemma FilledEnd(bs: seq<char>, acc: seq<int>, draws: seq<int>, n: int)
    requires Filled(bs, -1, acc) && |acc| == n
    requires n <= |Accepted(Groups(draws))| && acc <= Accepted(Groups(draws))
    ensures bs == RandomLetters(draws, n)
  {
    var all := Accepted(Groups(draws));
    forall k | 0 <= k < n ensures bs[k] == RandomLetters(draws, n)[k] {
      var j := n - 1 - k;
      assert all[j] == acc[j];
      assert bs[n - 1 - j] == Letter(acc[j]);
      RandomLettersAt(draws, n, k);
      assert NthLetter(draws, j) == Letter(all[j]);
    }
  }

  // ---------------------------------------------------------------------------
  // The loop's cursor into the draws, and the lemmas that move it.
  // ---------------------------------------------------------------------------

  /** `next` draws have been taken; `seen` lists the groups consumed so far:
      all groups of the first next - 1 draws, then the groups of the current
      draw that `cache` has shifted out; `cache` holds the current draw's
      `remain` unread groups. */
  ghost predicate Cursor(draws: seq<int>, next: int, remain: int, cache: int, seen: seq<int>) {
    && 1 <= next <= |draws|
    && 0 <= remain <= LetterIdxMax
    && seen == Groups(draws[..next - 1]) + DrawGroups(draws[next - 1])[..LetterIdxMax - remain]
    && DrawGroups(draws[next - 1])[LetterIdxMax - remain..] == LowGroups(cache, remain)
  }

  lemma CursorStart(draws: seq<int>)
    requires 1 <= |draws|
    ensures Cursor(draws, 1, LetterIdxMax, draws[0], [])
  {
    assert draws[..0] == [];
  }

  /** A fresh draw refills the cache; the groups consumed so far are exactly
      those of the draws before it. */
  lemma CursorRefill(draws: seq<int>, next0: int, remain0: int, cache0: int, seen: seq<int>,
                     next: int, remain: int, cache: int)
    requires Cursor(draws, next0, remain0, cache0, seen) && remain0 == 0
    requires next == next0 + 1 && next0 < |draws|
    requires remain == LetterIdxMax && cache == draws[next0]
    ensures seen == Groups(draws[..next - 1])
    ensures Cursor(draws, next, remain, cache, seen)
  {
    GroupsSnoc(draws, next0);
    assert DrawGroups(draws[next0 - 1])[..LetterIdxMax] == DrawGroups(draws[next0 - 1]);
  }

  /** One iteration consumes exactly one group: the cache's low six bits. */
  lemma CursorAdvance(draws: seq<int>, next: int, remain0: int, cache0: int, seen0: seq<int>,
                      remain: int, cache: int, seen: seq<int>)
    requires Cursor(draws, next, remain0, cache0, seen0) && 0 < remain0
    requires remain == remain0 - 1 && cache == cache0 / 64 && seen == seen0 + [cache0 % 64]
    ensures Cursor(draws, next, remain, cache, seen)
  {
    var g := DrawGroups(draws[next - 1]);
    var k := LetterIdxMax - remain0;
    assert g[k..] == [cache0 % 64] + LowGroups(cache, remain);
    assert g[k] == cache0 % 64;
    assert g[..k + 1] == g[..k] + [cache0 % 64];
    assert g[k + 1..] == g[k..][1..];
  }

  /** The groups consumed are a prefix of the groups of the draws taken, and
      so of all the draws. */
  lemma CursorEnd(draws: seq<int>, next: int, remain: int, cache: int, seen: seq<int>)
    requires Cursor(draws, next, remain, cache, seen)
    ensures seen <= Groups(draws[..next]) && seen <= Groups(draws)
  {
    GroupsSnoc(draws, next);
    GroupsMonotone(draws[..next], draws);
  }

  /** Every group a draw yields is a six-bit value. */
  lemma {:induction false} LowGroupsAreSixBit(c: int, m: nat)
    ensures AreGroups(LowGroups(c, m))
    decreases m
  {
    if m > 0 {
      LowGroupsAreSixBit(c / 64, m - 1);
    }
  }

  /** The extracted index always lies in [0, 63]. */
  lemma {:induction false} GroupsAreSixBit(draws: seq<int>)
    ensures AreGroups(Groups(draws))
    decreases |draws|
  {
    if |draws| > 0 {
      GroupsAreSixBit(draws[..|draws| - 1]);
      LowGroupsAreSixBit(draws[|draws| - 1], LetterIdxMax);
    }
  }

  lemma GroupsSnoc(draws: seq<int>, m: nat)
    requires 1 <= m <= |draws|
    ensures Groups(draws[..m]) == Groups(draws[..m - 1]) + DrawGroups(draws[m - 1])
  {
    assert draws[..m][..m - 1] == draws[..m - 1];
  }

  lemma AcceptedSnoc(gs: seq<int>, g: int)
    ensures Accepted(gs + [g]) == Accepted(gs) + (if g < LetterCount then [g] else [])
  {
    assert (gs + [g])[..|gs|] == gs;
  }

  /** Accepted six-bit groups index `letterBytes`. */
  lemma {:induction false} AcceptedIndexLetters(gs: seq<int>)
    requires AreGroups(gs)
    ensures forall k :: 0 <= k < |Accepted(gs)| ==> 0 <= Accepted(gs)[k] < LetterCount
    decreases |gs|
  {
    if |gs| > 0 {
      var init := gs[..|gs| - 1];
      assert forall k :: 0 <= k < |init| ==> init[k] == gs[k];
      AcceptedIndexLetters(init);
    }
  }

  /** Filtering distributes over concatenation. */
  lemma {:induction false} AcceptedAppend(a: seq<int>, b: seq<int>)
    ensures Accepted(a + b) == Accepted(a) + Accepted(b)
    decreases |b|
  {
    if |b| == 0 {
      assert a + b == a;
    } else {
      var b' := b[..|b| - 1];
      assert a + b == (a + b') + [b[|b| - 1]];
      assert b == b' + [b[|b| - 1]];
      AcceptedSnoc(a + b', b[|b| - 1]);
      AcceptedSnoc(b', b[|b| - 1]);
      AcceptedAppend(a, b');
    }
  }

  /** A longer run of groups accepts everything a shorter one does, first. */
  lemma AcceptedMonotone(a: seq<int>, b: seq<int>)
    requires a <= b
    ensures Accepted(a) <= Accepted(b)
  {
    assert b == a + b[|a|..];
    AcceptedAppend(a, b[|a|..]);
  }

  /** The groups of consecutive runs of draws are consecutive. */
  lemma {:induction false} GroupsAppend(a: seq<int>, b: seq<int>)
    ensures Groups(a + b) == Groups(a) + Groups(b)
    decreases |b|
  {
    if |b| == 0 {
      assert a + b == a;
    } else {
      var b' := b[..|b| - 1];
      assert (a + b)[..|a + b| - 1] == a + b';
      GroupsAppend(a, b');
    }
  }

  lemma GroupsMonotone(a: seq<int>, b: seq<int>)
    requires a <= b
    ensures Groups(a) <= Groups(b)
  {
    assert b == a + b[|a|..];
    GroupsAppend(a, b[|a|..]);
  }
}
