/** The raw enumeration of `bruteforce`: for each length, `itertools.product(pool,
    repeat=length)` with every tuple joined into a byte string, the lengths running
    upwards, and the empty string in front when the start bound is 0. */
module Product {

  /** A byte, as the `array('B', ...)` conversion of the pool and of sentinels keeps it. */
  type Byte = x: int | 0 <= x < 256

  /** A byte string (a Python 2 `str`). */
  type Word = seq<Byte>

  /** The default pool, `range(256)`. */
  const DefaultPool: seq<Byte> := seq(256, i requires 0 <= i < 256 => i as Byte)

  function Pow(n: nat, i: nat): nat
  {
    if i == 0 then 1 else n * Pow(n, i - 1)
  }

  lemma {:induction false} PowPositive(n: nat, i: nat)
    requires n > 0
    ensures Pow(n, i) > 0
  {
    if i > 0 {
      PowPositive(n, i - 1);
    }
  }

  /** Python 2 comparison of byte strings: bytewise, a proper prefix is the smaller. */
  predicate Less(a: Word, b: Word)
  {
    if b == [] then false
    else if a == [] then true
    else a[0] < b[0] || (a[0] == b[0] && Less(a[1..], b[1..]))
  }

  /** Byte-string order is irreflexive, asymmetric and total, and every proper prefix comes first. */
  lemma {:induction false} LessOrder(a: Word, b: Word)
    ensures !Less(a, a)
    ensures Less(a, b) ==> !Less(b, a)
    ensures a != b ==> Less(a, b) || Less(b, a)
    ensures |a| < |b| && a == b[..|a|] ==> Less(a, b)
  {
    if a != [] && b != [] {
      LessOrder(a[1..], b[1..]);
      assert a == [a[0]] + a[1..] && b == [b[0]] + b[1..];
      if |a| < |b| && a == b[..|a|] {
        assert a[1..] == b[1..][..|a[1..]|];
      }
    } else if a != [] {
      LessOrder(a[1..], a[1..]);
    }
  }

  /** Byte-string order is transitive, so with `LessOrder` it is a strict total order. */
  lemma {:induction false} LessTransitive(a: Word, b: Word, c: Word)
    ensures Less(a, b) && Less(b, c) ==> Less(a, c)
  {
    if a != [] && b != [] && c != [] {
      LessTransitive(a[1..], b[1..], c[1..]);
    }
  }

  predicate OnlyPoolBytes(w: Word, pool: seq<Byte>)
  {
    forall k :: 0 <= k < |w| ==> w[k] in pool
  }

  predicate StrictlyIncreasing(pool: seq<Byte>)
  {
    forall a, b :: 0 <= a < b < |pool| ==> pool[a] < pool[b]
  }

  predicate NoDuplicates<T(==)>(s: seq<T>)
  {
    forall a, b :: 0 <= a < b < |s| ==> s[a] != s[b]
  }

  predicate LexAscending(ws: seq<Word>)
  {
    forall a, b :: 0 <= a < b < |ws| ==> Less(ws[a], ws[b])
  }

  // ---------------------------------------------------------------------------
  // One length: the Cartesian product in product order

  /** Byte `c` put in front of each word of `ws`, keeping their order. */
  function Prepend(c: Byte, ws: seq<Word>): (r: seq<Word>)
    ensures |r| == |ws|
    ensures forall j {:trigger r[j]} :: 0 <= j < |ws| ==> r[j] == [c] + ws[j]
  {
    if ws == [] then [] else [[c] + ws[0]] + Prepend(c, ws[1..])
  }

  /** One more position on the left: for each pool byte in pool order, every word of `ws`. */
  function Extend(pool: seq<Byte>, ws: seq<Word>): seq<Word>
  {
    if pool == [] then [] else Prepend(pool[0], ws) + Extend(pool[1..], ws)
  }

  /** `product(pool, repeat=i)` with each tuple joined: the leftmost position varies slowest. */
  function Words(pool: seq<Byte>, i: nat): seq<Word>
  {
    if i == 0 then [[]] else Extend(pool, Words(pool, i - 1))
  }

  /** The `j`-th tuple of `product(pool, repeat=i)` read off directly: `j` written in base
      `|pool|` with `i` digits, most significant first, each digit an index into the pool. */
  function Digits(pool: seq<Byte>, i: nat, j: nat): (w: Word)
    requires j < Pow(|pool|, i)
    ensures |w| == i && OnlyPoolBytes(w, pool)
  {
    if i == 0 then []
    else
      var block := Pow(|pool|, i - 1);
      DivBelow(j, |pool|, block);
      [pool[j / block]] + Digits(pool, i - 1, j % block)
  }

  lemma DivBelow(j: nat, n: nat, b: nat)
    requires j < n * b
    ensures b > 0 && j / b < n && j % b < b
  {
  }

  /** Position `r` of block `q`, blocks of `w` words, lies before `n` whole blocks. */
  lemma BlockIndex(q: nat, r: nat, w: nat, n: nat)
    requires q < n && r < w
    ensures q * w + r < n * w
    ensures q > 0 ==> q * w + r == w + ((q - 1) * w + r)
  {
    assert (q + 1) * w <= n * w;
  }

  lemma {:induction false} ExtendSize(pool: seq<Byte>, ws: seq<Word>)
    ensures |Extend(pool, ws)| == |pool| * |ws|
  {
    if pool != [] {
      ExtendSize(pool[1..], ws);
    }
  }

  /** Block `q` of `Extend(pool, ws)` holds the words of `ws` behind `pool[q]`. */
  lemma {:induction false} ExtendAt(pool: seq<Byte>, ws: seq<Word>, q: nat, r: nat)
    requires q < |pool| && r < |ws|
    ensures q * |ws| + r < |Extend(pool, ws)|
    ensures Extend(pool, ws)[q * |ws| + r] == [pool[q]] + ws[r]
  {
    var w := |ws|;
    ExtendSize(pool, ws);
    BlockIndex(q, r, w, |pool|);
    var head, tail := Prepend(pool[0], ws), Extend(pool[1..], ws);
    assert Extend(pool, ws) == head + tail;
    if q == 0 {
      assert q * w + r == r;
    } else {
      ExtendAt(pool[1..], ws, q - 1, r);
      assert tail[(q - 1) * w + r] == [pool[q]] + ws[r];
    }
  }

  /** `ExtendAt` with the position given as one index into `Extend(pool, ws)`. */
  lemma ExtendAtIndex(pool: seq<Byte>, ws: seq<Word>, j: nat, w: nat)
    requires w == |ws| && j < |pool| * w
    ensures w > 0 && j / w < |pool|
    ensures j < |Extend(pool, ws)| && Extend(pool, ws)[j] == [pool[j / w]] + ws[j % w]
  {
    DivBelow(j, |pool|, w);
    var q, r := j / w, j % w;
    assert j == q * w + r;
    ExtendAt(pool, ws, q, r);
  }

  /** `product(pool, repeat=i)` yields exactly `|pool|^i` tuples, repeats in the pool counted. */
  lemma {:induction false} WordsCount(pool: seq<Byte>, i: nat)
    ensures |Words(pool, i)| == Pow(|pool|, i)
  {
    if i > 0 {
      WordsCount(pool, i - 1);
      ExtendSize(pool, Words(pool, i - 1));
    }
  }

  /** Product order: the `j`-th word of length `i` is `j` in base `|pool|`. */
  lemma {:induction false} WordsAt(pool: seq<Byte>, i: nat, j: nat)
    requires j < Pow(|pool|, i)
    ensures j < |Words(pool, i)| && Words(pool, i)[j] == Digits(pool, i, j)
  {
    if i > 0 {
      var ws := Words(pool, i - 1);
      WordsCount(pool, i - 1);
      DigitsStep(pool, i, j);
      var block := Pow(|pool|, i - 1);
      ExtendAtIndex(pool, ws, j, block);
      WordsAt(pool, i - 1, j % block);
    }
  }

  /** One step of `Digits`: the leading digit, then the rest in one digit fewer. */
  lemma DigitsStep(pool: seq<Byte>, i: nat, j: nat)
    requires i > 0 && j < Pow(|pool|, i)
    ensures var block := Pow(|pool|, i - 1);
      && block > 0 && j < |pool| * block && j / block < |pool| && j % block < block
      && Digits(pool, i, j) == [pool[j / block]] + Digits(pool, i - 1, j % block)
  {
    DivBelow(j, |pool|, Pow(|pool|, i - 1));
  }

  lemma PrependMember(c: Byte, ws: seq<Word>, x: Word)
    ensures x in Prepend(c, ws) <==> |x| > 0 && x[0] == c && x[1..] in ws
  {
    if x in Prepend(c, ws) {
      var j :| 0 <= j < |ws| && Prepend(c, ws)[j] == x;
      assert x[1..] == ws[j];
    }
    if |x| > 0 && x[0] == c && x[1..] in ws {
      var j :| 0 <= j < |ws| && ws[j] == x[1..];
      assert Prepend(c, ws)[j] == x;
    }
  }

  lemma {:induction false} ExtendMember(pool: seq<Byte>, ws: seq<Word>, x: Word)
    ensures x in Extend(pool, ws) <==> |x| > 0 && x[0] in pool && x[1..] in ws
  {
    if pool != [] {
      PrependMember(pool[0], ws, x);
      ExtendMember(pool[1..], ws, x);
      assert pool == [pool[0]] + pool[1..];
    }
  }

  /** The words of length `i` are exactly the strings of length `i` over pool bytes. */
  lemma {:induction false} WordsMember(pool: seq<Byte>, i: nat, w: Word)
    ensures w in Words(pool, i) <==> |w| == i && OnlyPoolBytes(w, pool)
  {
    if i > 0 {
      ExtendMember(pool, Words(pool, i - 1), w);
      if |w| > 0 {
        WordsMember(pool, i - 1, w[1..]);
        if |w| == i && w[0] in pool && OnlyPoolBytes(w[1..], pool) {
          forall k | 0 <= k < |w| ensures w[k] in pool {
            if k > 0 {
              assert w[k] == w[1..][k - 1];
            }
          }
        }
      }
    }
  }

  /** Every word of length `i` is made of pool bytes. */
  lemma WordsShape(pool: seq<Byte>, i: nat)
    ensures forall w :: w in Words(pool, i) ==> |w| == i && OnlyPoolBytes(w, pool)
  {
    forall w | w in Words(pool, i) ensures |w| == i && OnlyPoolBytes(w, pool) {
      WordsMember(pool, i, w);
    }
  }

  lemma IndexOf(s: seq<Word>, x: Word) returns (j: nat)
    requires x in s
    ensures j < |s| && s[j] == x
  {
    j :| 0 <= j < |s| && s[j] == x;
  }

  lemma PrependAscending(c: Byte, ws: seq<Word>)
    requires LexAscending(ws)
    ensures LexAscending(Prepend(c, ws))
  {
    var r := Prepend(c, ws);
    forall a, b | 0 <= a < b < |r| ensures Less(r[a], r[b]) {
      assert r[a][1..] == ws[a] && r[b][1..] == ws[b];
    }
  }

  lemma AscendingAppend(a: seq<Word>, b: seq<Word>)
    requires LexAscending(a) && LexAscending(b)
    requires forall x, y :: x in a && y in b ==> Less(x, y)
    ensures LexAscending(a + b)
  {
    var r := a + b;
    forall i, j | 0 <= i < j < |r| ensures Less(r[i], r[j]) {
      if j < |a| {
        assert r[i] == a[i] && r[j] == a[j];
      } else if i >= |a| {
        assert r[i] == b[i - |a|] && r[j] == b[j - |a|];
      } else {
        assert r[i] in a && r[j] in b;
      }
    }
  }

  lemma {:induction false} ExtendAscending(pool: seq<Byte>, ws: seq<Word>)
    requires StrictlyIncreasing(pool) && LexAscending(ws)
    ensures LexAscending(Extend(pool, ws))
  {
    if pool != [] {
      var head, tail := Prepend(pool[0], ws), Extend(pool[1..], ws);
      ExtendAscending(pool[1..], ws);
      PrependAscending(pool[0], ws);
      forall x, y | x in head && y in tail ensures Less(x, y) {
        PrependMember(pool[0], ws, x);
        ExtendMember(pool[1..], ws, y);
      }
      AscendingAppend(head, tail);
    }
  }

  /** With an ascending pool (the default `range(256)` is one), each length is enumerated in
      strictly ascending bytewise order. */
  lemma {:induction false} WordsAscending(pool: seq<Byte>, i: nat)
    requires StrictlyIncreasing(pool)
    ensures LexAscending(Words(pool, i))
  {
    if i > 0 {
      WordsAscending(pool, i - 1);
      ExtendAscending(pool, Words(pool, i - 1));
    }
  }

  lemma PrependDistinct(c: Byte, ws: seq<Word>)
    requires NoDuplicates(ws)
    ensures NoDuplicates(Prepend(c, ws))
  {
    var r := Prepend(c, ws);
    forall a, b | 0 <= a < b < |r| ensures r[a] != r[b] {
      assert r[a][1..] == ws[a] && r[b][1..] == ws[b];
    }
  }

  lemma DistinctAppend(a: seq<Word>, b: seq<Word>)
    requires NoDuplicates(a) && NoDuplicates(b)
    requires forall x, y :: x in a && y in b ==> x != y
    ensures NoDuplicates(a + b)
  {
    var r := a + b;
    forall i, j | 0 <= i < j < |r| ensures r[i] != r[j] {
      if j < |a| {
        assert r[i] == a[i] && r[j] == a[j];
      } else if i >= |a| {
        assert r[i] == b[i - |a|] && r[j] == b[j - |a|];
      } else {
        assert r[i] in a && r[j] in b;
      }
    }
  }

  lemma {:induction false} ExtendDistinct(pool: seq<Byte>, ws: seq<Word>)
    requires NoDuplicates(pool) && NoDuplicates(ws)
    ensures NoDuplicates(Extend(pool, ws))
  {
    if pool != [] {
      var head, tail := Prepend(pool[0], ws), Extend(pool[1..], ws);
      ExtendDistinct(pool[1..], ws);
      PrependDistinct(pool[0], ws);
      forall x, y | x in head && y in tail ensures x != y {
        PrependMember(pool[0], ws, x);
        ExtendMember(pool[1..], ws, y);
        assert y[0] in pool[1..];
      }
      DistinctAppend(head, tail);
    }
  }

  /** A pool without repeats gives words without repeats (the pool itself is not deduplicated). */
  lemma {:induction false} WordsDistinct(pool: seq<Byte>, i: nat)
    requires NoDuplicates(pool)
    ensures NoDuplicates(Words(pool, i))
  {
    if i > 0 {
      WordsDistinct(pool, i - 1);
      ExtendDistinct(pool, Words(pool, i - 1));
    }
  }

  /** A repeated pool byte is enumerated as often as it occurs: the pool is not deduplicated. */
  lemma RepeatedPoolByte()
    ensures Words([97, 97], 1) == [[97], [97]]
  {
    var pool: seq<Byte> := [97, 97];
    WordsCount(pool, 1);
    forall j | 0 <= j < 2 ensures Words(pool, 1)[j] == [97] {
      WordsAt(pool, 1, j);
    }
  }

  lemma DefaultPoolAscending()
    ensures StrictlyIncreasing(DefaultPool) && forall b: Byte :: b in DefaultPool
  {
    forall b: Byte ensures b in DefaultPool {
      assert DefaultPool[b] == b;
    }
  }

  // ---------------------------------------------------------------------------
  // All lengths: the raw stream

  /** `max(start, 1)`: the first length the product is taken for. */
  function FirstLength(start: nat): (lo: nat)
    ensures lo >= 1 && lo >= start && (lo == 1 || lo == start)
  {
    if start >= 1 then start else 1
  }

  /** The products for the lengths `lo, lo + 1, ..., hi - 1`, one after the other. */
  function Blocks(pool: seq<Byte>, lo: nat, hi: nat): seq<Word>
    decreases hi - lo
  {
    if lo >= hi then [] else Words(pool, lo) + Blocks(pool, lo + 1, hi)
  }

  /** The raw enumeration for a normalised start bound and an exclusive length bound `hi`:
      the empty string when `start` is 0, then the products for lengths `max(start, 1)` to
      `hi - 1`. */
  function Raw(pool: seq<Byte>, start: nat, hi: nat): seq<Word>
  {
    (if start == 0 then [[]] else []) + Blocks(pool, FirstLength(start), hi)
  }

  /** From a start of at most 1, the raw enumeration opens with the one-byte strings, one
      per pool byte; `j` is the position of `[c]` among them. */
  lemma RawHead(pool: seq<Byte>, start: nat, hi: nat, c: Byte) returns (j: nat)
    requires start <= 1 < hi && c in pool
    ensures Raw(pool, start, hi) ==
      (if start == 0 then [[]] else []) + (Words(pool, 1) + Blocks(pool, 2, hi))
    ensures j < |Words(pool, 1)| && Words(pool, 1)[j] == [c]
    ensures forall w :: w in Words(pool, 1) ==> |w| == 1
  {
    var ones := Words(pool, 1);
    assert FirstLength(start) == 1;
    assert Blocks(pool, 1, hi) == ones + Blocks(pool, 2, hi);
    assert [c] in ones by {
      WordsMember(pool, 1, [c]);
    }
    WordsShape(pool, 1);
    j := IndexOf(ones, [c]);
  }

  /** Only the values of one length, in stream order. */
  function OfLength(ws: seq<Word>, len: nat): (r: seq<Word>)
    ensures forall w :: w in r <==> w in ws && |w| == len
  {
    if ws == [] then []
    else (if |ws[0]| == len then [ws[0]] else []) + OfLength(ws[1..], len)
  }

  lemma {:induction false} OfLengthAppend(a: seq<Word>, b: seq<Word>, len: nat)
    ensures OfLength(a + b, len) == OfLength(a, len) + OfLength(b, len)
  {
    if a == [] {
      assert a + b == b;
    } else {
      assert (a + b)[0] == a[0];
      assert (a + b)[1..] == a[1..] + b;
      OfLengthAppend(a[1..], b, len);
    }
  }

  lemma {:induction false} OfLengthUniform(ws: seq<Word>, len: nat, other: nat)
    requires forall w :: w in ws ==> |w| == len
    ensures OfLength(ws, len) == ws
    ensures other != len ==> OfLength(ws, other) == []
  {
    if ws != [] {
      OfLengthUniform(ws[1..], len, other);
    }
  }

  /** Lengths never decrease along the sequence. */
  predicate LengthsAscending(ws: seq<Word>)
  {
    forall a, b :: 0 <= a < b < |ws| ==> |ws[a]| <= |ws[b]|
  }

  lemma LengthsAppend(head: seq<Word>, tail: seq<Word>, len: nat)
    requires forall w :: w in head ==> |w| == len
    requires forall w :: w in tail ==> len <= |w|
    requires LengthsAscending(tail)
    ensures LengthsAscending(head + tail)
  {
    var r := head + tail;
    forall a, b | 0 <= a < b < |r| ensures |r[a]| <= |r[b]| {
      if b < |head| {
        assert r[a] == head[a] && r[b] == head[b];
      } else if a < |head| {
        assert r[a] == head[a] && r[b] == tail[b - |head|];
      } else {
        assert r[a] == tail[a - |head|] && r[b] == tail[b - |head|];
      }
    }
  }

  lemma AppendLengths(head: seq<Word>, tail: seq<Word>, lo: nat, hi: nat)
    requires lo < hi
    requires forall w :: w in head ==> |w| == lo
    requires forall w :: w in tail ==> lo + 1 <= |w| < hi
    ensures forall w :: w in head + tail ==> lo <= |w| < hi
  {
  }

  /** Every value of the stream for lengths `lo` to `hi - 1` has a length in that range. */
  lemma {:induction false} BlocksLengthRange(pool: seq<Byte>, lo: nat, hi: nat)
    ensures forall w :: w in Blocks(pool, lo, hi) ==> lo <= |w| < hi
    decreases hi - lo
  {
    if lo < hi {
      BlocksLengthRange(pool, lo + 1, hi);
      WordsShape(pool, lo);
      AppendLengths(Words(pool, lo), Blocks(pool, lo + 1, hi), lo, hi);
    }
  }

  /** The values of every length appear as one contiguous run, lengths ascending. */
  lemma {:induction false} BlocksLengths(pool: seq<Byte>, lo: nat, hi: nat)
    ensures LengthsAscending(Blocks(pool, lo, hi))
    decreases hi - lo
  {
    if lo < hi {
      BlocksLengths(pool, lo + 1, hi);
      BlocksLengthRange(pool, lo + 1, hi);
      WordsShape(pool, lo);
      LengthsAppend(Words(pool, lo), Blocks(pool, lo + 1, hi), lo);
    }
  }

  /** For each length in range the stream holds exactly the product for that length, in
      product order; no other length occurs. */
  lemma {:induction false} BlocksOfLength(pool: seq<Byte>, lo: nat, hi: nat, len: nat)
    ensures OfLength(Blocks(pool, lo, hi), len) == if lo <= len < hi then Words(pool, len) else []
    decreases hi - lo
  {
    if lo < hi {
      var head := Words(pool, lo);
      WordsShape(pool, lo);
      OfLengthAppend(head, Blocks(pool, lo + 1, hi), len);
      OfLengthUniform(head, lo, len);
      BlocksOfLength(pool, lo + 1, hi, len);
    }
  }

  /** Every value of the raw stream is a string over the pool. */
  lemma {:induction false} BlocksPoolBytes(pool: seq<Byte>, lo: nat, hi: nat)
    ensures forall w :: w in Blocks(pool, lo, hi) ==> OnlyPoolBytes(w, pool)
    decreases hi - lo
  {
    if lo < hi {
      BlocksPoolBytes(pool, lo + 1, hi);
      WordsShape(pool, lo);
    }
  }

  /** Lengths in the raw stream never decrease, stay below `hi`, and the empty string is
      there, as the first value, exactly when the start bound is 0. */
  lemma RawShape(pool: seq<Byte>, start: nat, hi: nat)
    ensures var raw := Raw(pool, start, hi);
      && LengthsAscending(raw)
      && (forall w :: w in raw ==> |w| < hi || w == [])
      && (forall w :: w in raw ==> OnlyPoolBytes(w, pool))
      && ([] in raw <==> start == 0)
      && (start == 0 ==> raw[0] == [])
  {
    var lo := FirstLength(start);
    var blocks := Blocks(pool, lo, hi);
    BlocksLengthRange(pool, lo, hi);
    BlocksLengths(pool, lo, hi);
    BlocksPoolBytes(pool, lo, hi);
    if start == 0 {
      LengthsAppend([[]], blocks, 0);
    }
  }

  lemma RawFromZero(pool: seq<Byte>, hi: nat)
    ensures |Raw(pool, 0, hi)| > 0 && Raw(pool, 0, hi)[0] == []
  {
  }

  /** For example, the pool `"ab"` with start 0 and end 3. */
  lemma PoolAbExample()
    ensures Raw([97, 98], 0, 3) == [[], [97], [98], [97, 97], [97, 98], [98, 97], [98, 98]]
  {
    var pool: seq<Byte> := [97, 98];
    PoolAbWords();
    assert Blocks(pool, 3, 3) == [];
  }

  /** The words of lengths 1 and 2 over the pool `"ab"`. */
  lemma PoolAbWords()
    ensures Words([97, 98], 1) == [[97], [98]]
    ensures Words([97, 98], 2) == [[97, 97], [97, 98], [98, 97], [98, 98]]
  {
    var pool: seq<Byte> := [97, 98];
    var ones: seq<Word> := [[97], [98]];
    var a0, b0 := Prepend(97, [[]]), Prepend(98, [[]]);
    assert a0[0] == [97] && b0[0] == [98];
    assert Words(pool, 1) == a0 + b0 == ones;
    var a1, b1 := Prepend(97, ones), Prepend(98, ones);
    assert a1[0] == [97, 97] && a1[1] == [97, 98];
    assert b1[0] == [98, 97] && b1[1] == [98, 98];
    assert Words(pool, 2) == a1 + b1 == [[97, 97], [97, 98], [98, 97], [98, 98]];
  }

  // ---------------------------------------------------------------------------
  // The endless stream, by index

  /** The `n`-th value of the raw enumeration when there is no end bound: the value at
      position `n` of any finite prefix long enough to hold it. */
  function RawAt(pool: seq<Byte>, start: nat, n: nat): Word
    requires |pool| > 0
  {
    RawLongEnough(pool, start, FirstLength(start) + n + 1, n);
    Raw(pool, start, FirstLength(start) + n + 1)[n]
  }

  /** With a non-empty pool every length contributes at least one word, so a length
      bound `n` past the first length already yields more than `n` values. */
  lemma RawLongEnough(pool: seq<Byte>, start: nat, hi: nat, n: nat)
    requires |pool| > 0 && hi > FirstLength(start) + n
    ensures n < |Raw(pool, start, hi)|
  {
    BlocksSize(pool, FirstLength(start), hi);
  }

  lemma {:induction false} BlocksSize(pool: seq<Byte>, lo: nat, hi: nat)
    requires |pool| > 0
    ensures lo <= hi ==> |Blocks(pool, lo, hi)| >= hi - lo
    decreases hi - lo
  {
    if lo < hi {
      WordsCount(pool, lo);
      PowPositive(|pool|, lo);
      BlocksSize(pool, lo + 1, hi);
    }
  }

  /** Every finite prefix of the enumeration agrees with the unbounded stream, and with a
      non-empty pool every index is reached by some length bound: the unbounded stream is
      endless and its values do not depend on the bound that cut it off. */
  lemma RawAtAgrees(pool: seq<Byte>, start: nat, hi: nat, n: nat)
    requires |pool| > 0
    ensures n < |Raw(pool, start, hi)| ==> Raw(pool, start, hi)[n] == RawAt(pool, start, n)
    ensures hi > FirstLength(start) + n ==> n < |Raw(pool, start, hi)|
  {
    var h := FirstLength(start) + n + 1;
    RawLongEnough(pool, start, h, n);
    if hi > FirstLength(start) + n {
      RawLongEnough(pool, start, hi, n);
    }
    if hi <= h {
      RawExtends(pool, start, hi, h);
    } else {
      RawExtends(pool, start, h, hi);
    }
  }

  /** The smaller of two counts. */
  function Min(a: nat, b: nat): (r: nat)
    ensures r <= a && r <= b && (r == a || r == b)
  {
    if a <= b then a else b
  }

  /** A larger length bound only extends the raw enumeration. */
  lemma {:induction false} BlocksExtend(pool: seq<Byte>, lo: nat, hi: nat, hi': nat)
    requires hi <= hi'
    ensures Blocks(pool, lo, hi) <= Blocks(pool, lo, hi')
    decreases hi - lo
  {
    if lo < hi {
      BlocksExtend(pool, lo + 1, hi, hi');
    }
  }

  lemma RawExtends(pool: seq<Byte>, start: nat, hi: nat, hi': nat)
    requires hi <= hi'
    ensures Raw(pool, start, hi) <= Raw(pool, start, hi')
  {
    BlocksExtend(pool, FirstLength(start), hi, hi');
  }
}
