# Random letter strings and slice membership, in Dafny

This project models two helper routines of a Go utility package (`utils.go`):

- **`RandStringBytesMaskImprSrc(n)`**, the bit-cache random string generator. One
  63-bit draw `src.Int63()` is used as a cache of ten 6-bit groups
  (`letterIdxMax = 63 / 6`). Each group below 52 picks a letter of
  `letterBytes` (26 lower-case, then 26 upper-case ASCII letters). That letter
  fills the output buffer from the last position down. A group of 52..63 is
  discarded, not reduced. A new draw is taken only when the cache is spent.
- **`stringInSlice(s, strings)`**, a linear scan that returns as soon as it
  finds an element equal to `s`.

The random source is a parameter: the sequence `draws` of the values its
`Int63()` calls would return, in order. The generator also returns `used`,
the number of draws it consumed, which is how far the shared source advances.
The generator is proved against a specification built in three steps:

- `Groups(draws)`: every draw cut into its ten groups, lowest bits first.
- `Accepted(gs)`: the groups that index a letter, in order.
- `RandomLetters(draws, n)`: the string whose position `n-1-j` holds the letter
  of the `j`-th accepted group.

Files:

- `bits.dfy` (module `Bits`): powers of two, and the integer facts behind shift
  and mask.
- `letters.dfy` (module `Letters`): the alphabet and the constants
  `letterIdxBits`, `letterIdxMask`, `letterIdxMax`.
- `randstring.dfy` (module `RandString`): the specification functions, the
  generator as an imperative method over a byte buffer (`array<char>`), and its
  loop invariant.
- `randstring_facts.dfy` (module `RandStringFacts`): properties of the
  specification: bit layout, rejection, and the output string.
- `slices.dfy` (module `Slices`): `stringInSlice`.

`make([]byte, n)` (utils.go, line 200) panics on a negative length, so
`RandStringBytesMaskImprSrc` requires `0 <= n`.

## Model

| member | source | states |
|---|---|---|
| RandString.RandStringBytesMaskImprSrc | utils.go:199-215 | The returned string is `RandomLetters(draws, n)`: n letters, where position n-1-j holds the letter of the j-th group below 52. It takes at least one draw (the loop's initialisation draws even for n = 0). The draws it takes hold n accepted groups, and one draw fewer would not: a new draw is taken only when the cache is spent and a letter is still missing. |
| RandString.InvAdvance | utils.go:206-211 | One iteration consumes exactly the low group of the cache. An accepted group (below `len(letterBytes)`) writes its letter at position i and decrements i. A rejected group writes nothing and leaves i unchanged. Either way the cache shifts right by six bits and `remain` decreases by one. |
| RandString.InvRefill | utils.go:203-205 | When `remain` is 0 a fresh draw becomes the cache and `remain` resets to `letterIdxMax`. Every group consumed so far is then a group of an earlier draw. |
| RandString.MoreDraws | utils.go:202-205 | If the cache is spent while a position is still unwritten, another draw exists. This holds because the draws taken so far hold fewer than n accepted groups. |
| RandString.InvEnd | utils.go:202-214 | When i drops below 0 the buffer is exactly `RandomLetters(draws, n)`, and the number of draws taken is the least that yields n accepted groups. |
| RandString.CursorAdvance | utils.go:206-211 | Shifting the cache right by six bits and decrementing `remain` moves the read position one group along the current draw. |
| RandString.FilledEnd | utils.go:200-214 | A buffer with every position written from the end by the first n accepted groups is `RandomLetters(draws, n)`. |
| RandString.RandomLettersAt | utils.go:202-208 | Positions fill from the last down: position k of the result holds the letter of accepted group n-1-k. |
| RandString.GroupsAreSixBit | utils.go:206 | Every extracted index `int(cache & letterIdxMask)` lies in [0, 63]. |
| RandString.AcceptedIndexLetters | utils.go:206-207 | Every accepted six-bit group is a valid index into `letterBytes` (0 to 51). |
| RandString.AcceptedAppend | utils.go:206-209 | Accepting groups distributes over concatenation. Later groups never change which earlier groups were kept, or their order. |
| RandString.AcceptedMonotone | utils.go:206-209 | The accepted groups of a prefix are a prefix of the accepted groups of the whole. |
| RandString.GroupsAppend | utils.go:202-205 | The groups of consecutive runs of draws are the concatenation of their groups. |
| RandString.GroupsMonotone | utils.go:202-205 | The groups of fewer draws are a prefix of the groups of more. |
| RandStringFacts.GroupIsBits | utils.go:206-210 | The k-th group of a draw is its bits 6k to 6k+5: the draw divided by 2^(6k), taken modulo 2^6. |
| RandStringFacts.LowGroupsIgnoreHighBits | utils.go:210-211 | The first m groups of a value do not change when any multiple of 2^(6m) is added. |
| RandStringFacts.TopBitsCount | utils.go:195-202 | A 63-bit draw has exactly three bits (values below 2^3) above the 60 bits that ten groups cover. |
| RandStringFacts.TopBitsUnused | utils.go:202-205 | A draw's groups equal those of its low 60 bits: bits 60 to 62 never reach a letter. |
| RandStringFacts.RandomLettersIgnoreTopBits | utils.go:202-205 | The output string does not change when every draw is replaced by its low 60 bits. |
| RandStringFacts.AcceptedMembers | utils.go:206 | A value is among the accepted groups if and only if it is among the groups and below `len(letterBytes)`. |
| RandStringFacts.AcceptedKeepsLetters | utils.go:206-208 | Groups that are all below 52 are all kept, unchanged and in order. |
| RandStringFacts.AcceptedDropsRest | utils.go:206-209 | Groups that are all 52 or more yield no letter. |
| RandStringFacts.RejectionNotModulo | utils.go:206-209 | For the draw 116 (groups 52, 1, 0, ...), two letters are "ab": group 52 is skipped. Reducing it modulo 52 would have given "ba". |
| RandStringFacts.RandomLettersAreLetters | utils.go:199-215 | The string has exactly n bytes, each an ASCII letter of `letterBytes`. n = 0 gives the empty string. |
| RandStringFacts.SameAcceptedSameLetters | utils.go:206-208 | The string depends only on the first n accepted groups. |
| RandStringFacts.RandomLettersStable | utils.go:202-205 | Draws beyond those needed do not change the string. |
| RandStringFacts.GroupsAgree | utils.go:202-205 | Draws that agree draw by draw on their groups agree on all groups. |
| Letters.ConstantValues | utils.go:191-196 | `letterIdxMask` is 63 (six one-bits), `letterIdxMax` is 10, and `len(letterBytes)` is 52. |
| Letters.LetterCode | utils.go:191 | Index k of `letterBytes` is the k-th lower-case letter for k < 26, and the (k-26)-th upper-case letter after that. |
| Letters.LetterBytesAreTheLetters | utils.go:191 | `letterBytes` has 52 entries, all distinct, each an ASCII letter, and every ASCII letter occurs in it. |
| Letters.LetterIsLetterBytes | utils.go:191 | The computed `Letter(g)` the specification uses is `letterBytes[g]`, and `LetterCount` is `len(letterBytes)`. |
| Bits.MaskAndShift | utils.go:206-210 | On a 64-bit word, `& 63` is the remainder by 64 and `>> 6` is division by 64. |
| Bits.DivDiv | utils.go:210 | Dividing by a, then by b, is dividing by a·b, so shifting right by six bits k times divides by 2^(6k). |
| Slices.StringInSlice | utils.go:96-103 | Returns true if and only if some element of the slice equals `s`, and false for an empty slice. |

## Left out

- RandStringBytesMaskImprSrc: the random source is a finite sequence of draws. The method requires the draws to hold at least n accepted groups; Go's source never runs out.
- RandStringBytesMaskImprSrc: draws are unbounded integers and need not be below 2^63. Every property holds for any integers. Only `TopBitsCount` assumes a draw is below 2^63.
- RandStringBytesMaskImprSrc: a negative `n` (a panic in `make`) is excluded by `requires 0 <= n`.
- RandStringBytesMaskImprSrc: bytes are modelled as `char`s. Every byte written is an ASCII letter, and `string(b)` is the buffer's contents.
- RandStringBytesMaskImprSrc: `cache & letterIdxMask` and `cache >>= letterIdxBits` are written as `cache % (LetterIdxMask + 1)` and `cache / Pow2(LetterIdxBits)` on integers (that is `% 64` and `/ 64`). `Bits.MaskAndShift` states the correspondence on 64-bit words.
- RandStringBytesMaskImprSrc: the accept test compares with `LetterCount` rather than `len(letterBytes)`. `Letters.LetterIsLetterBytes` proves the two equal, and the write still indexes `letterBytes`.
- Seeding `src` from the clock, and the uniform distribution of the letters: time and probability are outside the model.
- Unsynchronised use of the shared source by concurrent callers: concurrency is not modelled.
- `compressByte`, `decompressByte`, `compress` and `decompress`: they drive the `compress/flate` library, which is not part of this model.
- `getMD5Hash`: it calls the `crypto/md5` library.
- `GetLocalIP`: it enumerates network interfaces (I/O).
- `Init`, `init` and `timeTrack`: they set up logging handles and print timings (I/O and the clock).
- `average64`, `standardDeviation64` and `standardDeviation`: they compute in floating point.
