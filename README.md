# brutus in Dafny

`bruteforce(start, end, pool)` in `brutus.py` enumerates byte strings over a character
pool. It goes length by length, starting at `max(start, 1)`. For each length it takes
`itertools.product(pool, repeat=length)` and joins every tuple into a string. When
`start` is 0 the empty string comes first.

The helper `prepare` classifies each of `start` and `end` as one of three things:

- a **length bound**: `None`, a non-negative integer, or a positive numeral string (`''` and zero numerals are handled as described below);
- a **negative offset**: a negative integer or negative numeral;
- a **sentinel**: a string that `int()` refuses. Its length becomes the length bound.

The result is then cut down with `dropwhile` and `takewhile`:

- A negative start `-k` drops the first `k` values, counted over an `enumerate`.
- A sentinel start drops every value before the first one equal to it.
- A negative end `-m` keeps values while their `enumerate` index is at least `m`.
- A sentinel end keeps values while they sort bytewise below it.

The model has three modules:

- `Itertools` (`itertools.dfy`) holds finite models of `dropwhile`, `takewhile`,
  `enumerate` and the value `map`.
- `Product` (`product.dfy`) holds the raw enumeration:
  - `Words` is `product(pool, repeat=i)`;
  - `Blocks` runs over a range of lengths;
  - `Raw` is the whole stream. It adds the leading empty string when `start` is 0.
  - `RawAt` is the unbounded stream.
- `Brutus` (`brutus.dfy`) holds:
  - `Prepare`, the inner `prepare`;
  - `Normalise`, which applies `prepare` and `start or 0`. It also raises the `TypeError`
    that `count`/`range` raise when a bound is still a string.
  - the stages `SkipCount`, `SkipToSentinel`, `TakeFromIndex` and `TakeBelow`;
  - `Bruteforce`, the whole function.

A lazy stream is modelled as the finite sequence of values it yields. When there is no
end bound, `Bruteforce` takes a `horizon` and yields the values of all lengths below it.
`UnboundedPrefixes` shows that growing the horizon only extends the output.
`OffsetStartEndless` and `Product.RawAtAgrees` show that every position is eventually
reached and that its value does not depend on the horizon.

The code is Python 2, and the model follows its semantics:

- `str` is compared bytewise, and a proper prefix sorts first.
- A one-element tuple `(k,)` compared with an `(index, value)` pair is decided by `k`
  against the index alone. When the two are equal, `(k,)` is the smaller. So
  `(k,) > (i, v)` holds exactly when `k > i`, and `(m,) < (i, v)` exactly when `m <= i`.
- `value and int(value) or value` leaves `''` and zero numerals such as `"0"` as
  strings. As a start, `''` then becomes 0 through `start or 0`. Every other case of a
  string length bound makes `count`/`range` raise `TypeError`, which is
  `Err(LengthNotAnInteger)`.

The docstring (brutus.py:25) says every string is a sentinel, but brutus.py:33 passes
strings through `int()` first. The model follows the code: a non-zero numeral string acts
as the integer it spells (`NumeralStart`, `NumeralEnd`), and `''` as a start acts as 0
(`EmptyStart`).

The pool is not deduplicated (`RepeatedPoolByte`). Order within a length is the pool's
order (`WordsAt`), which is ascending for a strictly increasing pool (`WordsAscending`).

## Model

| member | source | states |
|---|---|---|
| Itertools.DropWhile | brutus.py:69 | `dropwhile`: the result is a suffix of the input; the predicate holds on everything dropped and fails on the first value kept |
| Itertools.TakeWhile | brutus.py:77 | `takewhile`: the result is a prefix of the input; the predicate holds on everything kept and fails on the first value left out |
| Itertools.Enumerate | brutus.py:72-74 | `enumerate`: same length, and position `i` pairs index `from + i` with the `i`-th value |
| Itertools.Values | brutus.py:60-67 | the `getseqval` map: same length, and each value is the second component of its pair |
| Itertools.DropWhileExtends | brutus.py:64 | a longer input stream only extends what `dropwhile` yields |
| Itertools.TakeWhileExtends | brutus.py:66 | a longer input stream only extends what `takewhile` yields |
| Product.Prepend | brutus.py:56 | prefixing one pool byte keeps the count and puts the byte in front of every word |
| Product.Extend | brutus.py:56 | one more tuple position, leftmost varying slowest; specified by `WordsAt` and `WordsMember` through `Words` |
| Product.Words | brutus.py:56 | `product(pool, repeat=i)` with every tuple joined; specified by `WordsCount` (how many), `WordsAt` (which word at each position), `WordsMember` (which strings occur), `WordsAscending` and `WordsDistinct` |
| Product.Digits | brutus.py:56 | the `j`-th tuple of the product read as `j` in base the pool size has length `i` and only pool bytes |
| Product.WordsCount | brutus.py:56 | `product(pool, repeat=i)` yields exactly the pool size to the power `i` tuples |
| Product.WordsAt | brutus.py:56 | product order: the `j`-th word of length `i` is `j` written in base the pool size, most significant digit first, each digit indexing the pool |
| Product.WordsMember | brutus.py:56 | a string appears among the words of length `i` if and only if it has length `i` and consists of pool bytes |
| Product.WordsShape | brutus.py:56 | every word of length `i` has length `i` and only pool bytes |
| Product.WordsAscending | brutus.py:56 | with a strictly increasing pool, each length is enumerated in strictly ascending bytewise order |
| Product.WordsDistinct | brutus.py:56 | with a pool without repeats, no word is enumerated twice |
| Product.RepeatedPoolByte | brutus.py:44 | the pool is not deduplicated: pool `"aa"` enumerates `"a"` twice |
| Product.DefaultPoolAscending | brutus.py:18 | the default pool `range(256)` holds every byte in strictly increasing order |
| Product.Less | brutus.py:77 | Python 2 `str` order; `LessOrder` and `LessTransitive` prove it a strict total order in which a proper prefix comes first |
| Product.LessOrder | brutus.py:77 | byte-string order is irreflexive, asymmetric and total, and a proper prefix sorts first |
| Product.LessTransitive | brutus.py:77 | byte-string order is transitive |
| Product.FirstLength | brutus.py:52-54 | is `max(start, 1)`: at least 1 and at least `start`, and equal to one of them |
| Product.Blocks | brutus.py:51-56 | the products for the lengths `lo` to `hi - 1`, chained; specified by `BlocksOfLength`, `BlocksLengthRange`, `BlocksLengths` and `BlocksPoolBytes` |
| Product.Raw | brutus.py:51-58 | the whole raw stream; specified by `RawShape`, `RawHead`, `RawFromZero`, `RawExtends` and `PoolAbExample` |
| Product.RawHead | brutus.py:51-58 | from length at most 1, the stream is the optional empty string, then the one-byte words (among them `[c]` for the given pool byte `c`, at the returned position), then the longer lengths |
| Product.BlocksLengthRange | brutus.py:51-56 | every value of the lengths `lo` to `hi - 1` has a length in that range |
| Product.BlocksLengths | brutus.py:51-56 | lengths never decrease along the stream |
| Product.BlocksOfLength | brutus.py:51-56 | for every length in range the stream holds exactly the product for that length, in product order, and no value of any other length |
| Product.BlocksPoolBytes | brutus.py:55-56 | every value consists of pool bytes |
| Product.RawShape | brutus.py:51-58 | the raw stream has ascending lengths, all below `end` except the empty string, only pool bytes, and the empty string, first, exactly when `start` is 0 |
| Product.RawFromZero | brutus.py:57-58 | with `start` 0 the first value is the empty string |
| Product.PoolAbExample | brutus.py:51-58 | for example, pool `"ab"`, start 0, end 3 enumerate `'', a, b, aa, ab, ba, bb` |
| Product.PoolAbWords | brutus.py:56 | over the pool `"ab"`, the words of length 1 are `a, b` and of length 2 are `aa, ab, ba, bb` |
| Product.RawAt | brutus.py:52 | the `n`-th value of the stream with no end bound; specified by `RawAtAgrees` |
| Product.RawLongEnough | brutus.py:51-52 | with a non-empty pool, a length bound `n` past the first length yields more than `n` values |
| Product.RawAtAgrees | brutus.py:51-52 | every finite cut of the unbounded stream agrees with it position by position, and every position is reached by a large enough bound |
| Product.RawExtends | brutus.py:51-56 | a larger length bound only extends the stream |
| Brutus.Prepare | brutus.py:31-41 | an offset is negative and carries no length; a sentinel is a non-numeral string whose length plus `bump` is the length; a string is handed back only when it is `''` or a zero numeral |
| Brutus.PrepareKinds | brutus.py:31-41 | `None` gives no bound; a non-negative integer is a length; a negative integer is an offset; a non-numeral string is a sentinel with length `len + bump` |
| Brutus.IntLiteral | brutus.py:33 | `int()` on a byte string: an optional sign and decimal digits, `None` where `int` raises `ValueError`; instances in `IntLiteralExamples`, used by `Prepare`'s contract |
| Brutus.IntLiteralExamples | brutus.py:33 | `"5"`, `"10"`, `"-3"`, `"+7"` and `"-0"` are numerals with their values; `"-"`, `"a"` and `"1a"` are not |
| Brutus.IntLiteralDecimal | brutus.py:33 | `int()` reads back every integer written in decimal, with or without a leading minus |
| Brutus.Normalise | brutus.py:45-47 | the error occurs exactly when a non-empty zero numeral start or an empty or zero numeral end is left as a string; a sentinel start sets the first length to its length; an offset start starts at length 0; a sentinel end bounds lengths by its length plus 1; an offset end leaves lengths unbounded |
| Brutus.NumeralStart | brutus.py:31-46 | a non-zero numeral string as `start` gives the same plan and the same output as the integer it spells, so `"5"` is length 5 and `"-2"` an offset |
| Brutus.NumeralEnd | brutus.py:31-47 | a non-zero numeral string as `end` gives the same plan and the same output as the integer it spells |
| Brutus.EmptyStart | brutus.py:33-46 | `''` as `start` gives the same plan and the same output as start 0 |
| Brutus.BeforeIndex | brutus.py:64 | `(k,) > (i, v)`, true exactly when `k > i`; its effect is specified by `SkipCountSpec` |
| Brutus.FromIndex | brutus.py:66 | `(m,) < (i, v)`, true exactly when `m <= i`; its effect is specified by `SkipCountSpec` and `TakeFromIndexEmpty` |
| Brutus.Unequal | brutus.py:69 | `partial(operator.ne, first)`: the value differs from the sentinel; its effect is specified by `SkipToSentinelSpec` |
| Brutus.Below | brutus.py:77 | `partial(operator.gt, last)`: the value sorts below the sentinel; its effect is specified by `SentinelEndAfterStart` and `SentinelEnd` |
| Brutus.LengthBound | brutus.py:51-54 | the exclusive length bound: `end` for `range`, or the horizon standing in for the endless `count`; its effect is specified by `UnboundedPrefixes` and `Product.RawAtAgrees` |
| Brutus.SkipCount | brutus.py:61-67 | the negative-start stage; specified by `SkipCountSpec` |
| Brutus.SkipToSentinel | brutus.py:68-69 | the sentinel-start stage; specified by `SkipToSentinelSpec` |
| Brutus.TakeFromIndex | brutus.py:70-74 | the negative-end stage after any other start; specified by `TakeFromIndexEmpty` |
| Brutus.TakeBelow | brutus.py:76-77 | the sentinel-end stage; specified by `SentinelEndAfterStart`, `SentinelEnd` and `ShortBelowBlocker` |
| Brutus.StartStage | brutus.py:61-69 | the start mark's stage; specified by `StartStageSuffix` and `StartStageExtends` |
| Brutus.EndStage | brutus.py:70-77 | the end mark's stage; specified by `EndStagePrefix` and `EndStageExtends` |
| Brutus.Pipeline | brutus.py:61-77 | both stages over the raw stream; specified by `PipelineSegment` and `PipelineValues` |
| Brutus.Bruteforce | brutus.py:18-78 | the whole function; specified by `BruteforceValues`, `LengthBounds`, `OffsetStart`, `SentinelStart`, `SentinelEndAfterStart`, `NegativeEndAfterOffset`, `NegativeEndOtherwise` and `UnboundedPrefixes` |
| Brutus.SkipCountSpec | brutus.py:61-67 | a negative start `-k` removes exactly the first `k` values; with a negative end `-m` beside it, the output is all that remains when `k >= m`, and nothing otherwise |
| Brutus.SkipToSentinelSpec | brutus.py:68-69 | a sentinel start drops exactly the values before its first occurrence, the output starts with it, and the output is empty exactly when it never occurs |
| Brutus.TakeFromIndexEmpty | brutus.py:70-74 | a negative end after any start but an offset keeps nothing, because the fresh `enumerate` starts below `m` |
| Brutus.StartStageSuffix | brutus.py:61-69 | the start stage yields a prefix of a suffix of the raw stream |
| Brutus.EndStagePrefix | brutus.py:70-77 | the end stage keeps a prefix of its input |
| Brutus.PipelineSegment | brutus.py:61-77 | the output is a contiguous run of the raw stream |
| Brutus.PipelineValues | brutus.py:61-77 | every output value occurs in the raw stream |
| Brutus.BruteforceValues | brutus.py:18-78 | `bruteforce` fails exactly when normalisation fails; otherwise every value consists of pool bytes and is shorter than `end`, except the empty string |
| Brutus.LengthBounds | brutus.py:51-58 | with length bounds only, the output is the raw stream for those bounds; for example pool `"ab"`, start 0 and end 3 give `'', a, b, aa, ab, ba, bb` |
| Brutus.OffsetStart | brutus.py:61-67 | a negative start `-k` enumerates from the empty string and removes exactly the first `k` values |
| Brutus.OffsetStartEndless | brutus.py:51-52 | without an end, every position after a negative start is reached once the horizon covers its length |
| Brutus.SentinelStart | brutus.py:68-69 | a sentinel start `s` enumerates from the length of `s`; it drops exactly the values before the first `s` and yields nothing when `s` never occurs |
| Brutus.SentinelStartFound | brutus.py:68-69 | a sentinel made of pool bytes whose length is in range is the first value yielded |
| Brutus.SentinelEnd | brutus.py:76-77 | after a length start, a sentinel end `t` bounds lengths by the length of `t`; the output is the longest prefix of the raw stream whose values all sort below `t`, every value at most as long as `t` |
| Brutus.SentinelEndAfterStart | brutus.py:68-77 | after any start, a sentinel end `t` fails exactly when normalisation fails; otherwise it bounds lengths by the length of `t`, and the output is the longest prefix of what the start stage leaves whose values all sort below `t` |
| Brutus.TwoSentinelsExample | brutus.py:68-77 | for example, sentinels `"ab"` and `"ba"` over the pool `"ab"` yield just `"ab"` |
| Brutus.SentinelEndStaysShort | brutus.py:76-77 | when some pool byte does not sort below `t` and the lengths start at most at 1, no value longer than one byte is yielded |
| Brutus.ShortBelowBlocker | brutus.py:76-77 | the `takewhile` below `t` stops within the one-byte strings when a pool byte is not below `t` |
| Brutus.NegativeEndAfterOffset | brutus.py:61-67 | negative start `-k` with negative end `-m`: no length bound; everything past the first `k` values when `k >= m`, nothing otherwise |
| Brutus.NegativeEndOtherwise | brutus.py:70-74 | a negative end after a length start or a sentinel start yields nothing |
| Brutus.FreshCountEmpty | brutus.py:70-74 | without a negative start, a negative end empties the output |
| Brutus.StartStageExtends | brutus.py:61-69 | a longer raw stream only extends what the start stage yields |
| Brutus.EndStageExtends | brutus.py:70-77 | a longer input only extends what the end stage yields |
| Brutus.UnboundedPrefixes | brutus.py:51-52 | without an end bound, a larger horizon only extends the output: the outputs are prefixes of one stream |

## Left out

- The three `print` statements (brutus.py:48-50) and the command-line entry point (brutus.py:80-83) are I/O. The model leaves them out.
- The Python 2/3 compatibility shims (brutus.py:7-14) are left out. The model follows Python 2 semantics throughout.
- `array('B', ...)` raises `OverflowError` on values outside 0-255, and `TypeError` on elements that are not integers or characters. The model's `Byte` type rules these inputs out instead of modelling the errors.
- Python 2 `long` is not modelled. Beyond machine-word size, `isinstance(x, int)` is false for a `long`, so a huge negative `long` would not be treated as an offset.
- `int()` also accepts surrounding whitespace. `IntLiteral` accepts only an optional sign followed by decimal digits.
- Arguments of other types (floats, lists, ...) are not modelled: `Arg` is `None`, an integer or a byte string.
- Laziness and non-termination are not modelled. An unbounded stream is observed up to a `horizon`. The model therefore does not capture that pulling from the Python generator hangs when an unbounded stream never produces a value: an empty pool, or a sentinel start that never occurs.
- Brutus.OffsetStartEndless, Product.RawAtAgrees: position reachability is stated for a non-empty pool only. With an empty pool the stream past the empty string is empty.
