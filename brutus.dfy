/** `bruteforce(start, end, pool)`: the arguments are normalised by `prepare` into length
    bounds and marks (a negative offset or a sentinel string), the raw enumeration of the
    pool is built for the lengths in range, and the marks bound it with `dropwhile` and
    `takewhile`. */
module Brutus {
  import opened Itertools
  import opened Product

  datatype Option<T> = None | Some(value: T)

  /** A value passed as `start` or `end`: `None`, an integer, or a byte string. */
  datatype Arg = Absent | Int(n: int) | Str(s: Word)

  /** The first half of what `prepare` returns. */
  datatype Number =
    | NoNumber          // None
    | Count(n: nat)     // a length bound
    | Leftover(s: Word) // the argument itself, handed back by `value and int(value) or value`
                        // when it is '' or a numeral of zero

  /** The second half of what `prepare` returns. */
  datatype Mark =
    | NoMark
    | Offset(value: int)      // a negative index offset into the enumeration
    | Sentinel(s: Word)       // the bytes of a string that is not a numeral

  /** `count()` or `range()` given a string as a length bound: Python raises `TypeError`. */
  datatype Error = LengthNotAnInteger

  datatype Result<T> = Ok(value: T) | Err(error: Error)

  // ---------------------------------------------------------------------------
  // prepare

  predicate IsDigit(b: Byte)
  {
    48 <= b <= 57
  }

  predicate AllDigits(s: Word)
  {
    forall k :: 0 <= k < |s| ==> IsDigit(s[k])
  }

  function DecimalValue(s: Word): nat
    requires AllDigits(s)
  {
    if s == [] then 0 else DecimalValue(s[..|s| - 1]) * 10 + (s[|s| - 1] - 48)
  }

  /** `int(s)` on a byte string: an optional `+` or `-` followed by decimal digits;
      `None` where `int` raises `ValueError`. */
  function IntLiteral(s: Word): Option<int>
  {
    if |s| > 0 && AllDigits(s) then Some(DecimalValue(s))
    else if |s| > 1 && (s[0] == 43 || s[0] == 45) && AllDigits(s[1..]) then
      Some(if s[0] == 45 then -(DecimalValue(s[1..]) as int) else DecimalValue(s[1..]))
    else None
  }

  /** `int` on a few byte strings: `"5"`, `"10"`, `"-3"`, `"+7"` and `"-0"` are numerals;
      `"-"`, `"a"` and `"1a"` are not. */
  lemma IntLiteralExamples()
    ensures IntLiteral([53]) == Some(5) && IntLiteral([49, 48]) == Some(10)
    ensures IntLiteral([45, 51]) == Some(-3) && IntLiteral([43, 55]) == Some(7)
    ensures IntLiteral([45, 48]) == Some(0)
    ensures IntLiteral([45]) == None && IntLiteral([97]) == None && IntLiteral([49, 97]) == None
  {
  }

  /** The decimal digits of `n`, most significant first, as `str(n)` writes them. */
  function Decimal(n: nat): (s: Word)
    ensures s != [] && AllDigits(s)
    decreases n
  {
    if n < 10 then [48 + n] else Decimal(n / 10) + [48 + n % 10]
  }

  /** `int(str(n)) == n` and `int('-' + str(n)) == -n`: `IntLiteral` reads back every
      integer written in decimal. */
  lemma {:induction false} IntLiteralDecimal(n: nat)
    ensures IntLiteral(Decimal(n)) == Some(n)
    ensures IntLiteral([45] + Decimal(n)) == Some(-(n as int))
  {
    DecimalValueOfDecimal(n);
    var t := [45] + Decimal(n);
    assert t[1..] == Decimal(n) && !IsDigit(t[0]);
  }

  lemma {:induction false} DecimalValueOfDecimal(n: nat)
    ensures DecimalValue(Decimal(n)) == n
    decreases n
  {
    var s := Decimal(n);
    if n >= 10 {
      DecimalValueOfDecimal(n / 10);
      assert s[..|s| - 1] == Decimal(n / 10);
    }
  }

  /** A string that `int` refuses: what `bruteforce` takes as a sentinel. */
  predicate NonNumeric(s: Word)
  {
    s != [] && IntLiteral(s).None?
  }

  /** The inner `prepare(value, bump)`. */
  function Prepare(value: Arg, bump: nat): (r: (Number, Mark))
    ensures r.1.Offset? ==> r.0 == NoNumber && r.1.value < 0
    ensures r.1.Sentinel? ==> NonNumeric(r.1.s) && r.0 == Count(|r.1.s| + bump)
    ensures r.0.Leftover? ==> r.1 == NoMark && (r.0.s == [] || IntLiteral(r.0.s) == Some(0))
  {
    match value
    case Absent => (NoNumber, NoMark)
    case Int(n) => if n < 0 then (NoNumber, Offset(n)) else (Count(n), NoMark)
    case Str(s) =>
      if s == [] then (Leftover(s), NoMark)
      else
        match IntLiteral(s)
        case None => (Count(|s| + bump), Sentinel(s))
        case Some(n) =>
          if n < 0 then (NoNumber, Offset(n))
          else if n == 0 then (Leftover(s), NoMark)
          else (Count(n), NoMark)
  }

  /** The three kinds of bound: a length, an offset, a sentinel. */
  lemma PrepareKinds(value: Arg, bump: nat)
    ensures value.Absent? ==> Prepare(value, bump) == (NoNumber, NoMark)
    ensures value.Int? && value.n >= 0 ==> Prepare(value, bump) == (Count(value.n), NoMark)
    ensures value.Int? && value.n < 0 ==> Prepare(value, bump) == (NoNumber, Offset(value.n))
    ensures value.Str? && NonNumeric(value.s) ==>
      Prepare(value, bump) == (Count(|value.s| + bump), Sentinel(value.s))
  {
  }

  // ---------------------------------------------------------------------------
  // Normalised bounds

  /** `start` after `start or 0`, `end` (`None` for unbounded), and the two marks. */
  datatype Plan = Plan(start: nat, end: Option<nat>, first: Mark, last: Mark)

  /** `prepare(start)`, `start or 0` and `prepare(end, 1)`, with the `TypeError` that
      `count()` or `range()` raise when a length bound is still a string. */
  function Normalise(start: Arg, end: Arg): (r: Result<Plan>)
    ensures r.Err? <==>
      (start.Str? && start.s != [] && IntLiteral(start.s) == Some(0)) ||
      (end.Str? && (end.s == [] || IntLiteral(end.s) == Some(0)))
    ensures r.Ok? && r.value.first.Sentinel? ==> r.value.start == |r.value.first.s|
    ensures r.Ok? && r.value.first.Offset? ==> r.value.start == 0
    ensures r.Ok? ==> ValidMark(r.value.first) && ValidMark(r.value.last)
    ensures r.Ok? && r.value.last.Sentinel? ==> r.value.end == Some(|r.value.last.s| + 1)
    ensures r.Ok? && r.value.last.Offset? ==> r.value.end == None
  {
    var (number, first) := Prepare(start, 0);
    var (bound, last) := Prepare(end, 1);
    if number.Leftover? && number.s != [] then Err(LengthNotAnInteger)
    else if bound.Leftover? then Err(LengthNotAnInteger)
    else
      Ok(Plan(if number.Count? then number.n else 0,
              if bound.Count? then Some(bound.n) else None,
              first, last))
  }

  /** An offset mark is negative, as `prepare` makes it. */
  predicate ValidMark(m: Mark)
  {
    m.Offset? ==> m.value < 0
  }

  /** The exclusive length bound: `end`, or the horizon the unbounded stream is observed to. */
  function LengthBound(plan: Plan, horizon: nat): nat
  {
    if plan.end.Some? then plan.end.value else horizon
  }

  // ---------------------------------------------------------------------------
  // The bounding stages

  /** `partial(operator.gt, (k,))` on an enumerated pair: `(k,) > (i, v)` holds exactly when
      `k > i`, since on a tie the one-element tuple is the smaller. */
  function BeforeIndex(k: int): ((nat, Word)) -> bool
  {
    (iv: (nat, Word)) => k > iv.0
  }

  /** `partial(operator.lt, (m,))` on an enumerated pair: `(m,) < (i, v)` holds exactly when
      `m <= i`. */
  function FromIndex(m: int): ((nat, Word)) -> bool
  {
    (iv: (nat, Word)) => m <= iv.0
  }

  /** `partial(operator.ne, s)`. */
  function Unequal(s: Word): Word -> bool
  {
    v => s != v
  }

  /** `partial(operator.gt, t)`: the value sorts below `t`. */
  function Below(t: Word): Word -> bool
  {
    v => Less(v, t)
  }

  /** A negative start `offset == -k`: enumerate, drop while the index is below `k`, then
      for a negative end `-m` keep while the index is at least `m`, and drop the indices. */
  function SkipCount(raw: seq<Word>, offset: int, last: Mark): seq<Word>
  {
    var skipped := DropWhile(BeforeIndex(-offset), Enumerate(raw, 0));
    Values(if last.Offset? then TakeWhile(FromIndex(-last.value), skipped) else skipped)
  }

  /** A sentinel start `s`: drop while the value differs from `s`. */
  function SkipToSentinel(raw: seq<Word>, s: Word): seq<Word>
  {
    DropWhile(Unequal(s), raw)
  }

  /** A negative end `offset == -m` after any other start: enumerate afresh from 0 and keep
      while the index is at least `m`. */
  function TakeFromIndex(values: seq<Word>, offset: int): seq<Word>
  {
    Values(TakeWhile(FromIndex(-offset), Enumerate(values, 0)))
  }

  /** A sentinel end `t`: keep while the value sorts below `t`. */
  function TakeBelow(values: seq<Word>, t: Word): seq<Word>
  {
    TakeWhile(Below(t), values)
  }

  /** The start mark's stage (brutus.py lines 61-69; a negative end beside a negative start
      is handled here, as the source does). */
  function StartStage(raw: seq<Word>, first: Mark, last: Mark): seq<Word>
  {
    if first.Offset? then SkipCount(raw, first.value, last)
    else if first.Sentinel? then SkipToSentinel(raw, first.s)
    else raw
  }

  /** The end mark's stage. */
  function EndStage(values: seq<Word>, first: Mark, last: Mark): seq<Word>
  {
    if last.Offset? then (if first.Offset? then values else TakeFromIndex(values, last.value))
    else if last.Sentinel? then TakeBelow(values, last.s)
    else values
  }

  /** The bounding stages applied to the raw enumeration. */
  function Pipeline(raw: seq<Word>, first: Mark, last: Mark): seq<Word>
  {
    EndStage(StartStage(raw, first, last), first, last)
  }

  /** `bruteforce(start, end, pool)`. An unbounded end is observed up to `horizon`: the
      result is what the endless stream yields from the lengths below `horizon`. */
  function Bruteforce(start: Arg, end: Arg, pool: seq<Byte>, horizon: nat): Result<seq<Word>>
  {
    match Normalise(start, end)
    case Err(e) => Err(e)
    case Ok(plan) =>
      Ok(Pipeline(Raw(pool, plan.start, LengthBound(plan, horizon)), plan.first, plan.last))
  }

  /** A numeral string other than zero as `start` acts as the integer it spells: `int(value)`
      turns it into a length bound or an offset, not a sentinel. */
  lemma NumeralStart(s: Word, end: Arg, pool: seq<Byte>, horizon: nat)
    requires s != [] && IntLiteral(s).Some? && IntLiteral(s).value != 0
    ensures Normalise(Str(s), end) == Normalise(Int(IntLiteral(s).value), end)
    ensures Bruteforce(Str(s), end, pool, horizon)
         == Bruteforce(Int(IntLiteral(s).value), end, pool, horizon)
  {
  }

  /** A numeral string other than zero as `end` acts as the integer it spells. */
  lemma NumeralEnd(start: Arg, s: Word, pool: seq<Byte>, horizon: nat)
    requires s != [] && IntLiteral(s).Some? && IntLiteral(s).value != 0
    ensures Normalise(start, Str(s)) == Normalise(start, Int(IntLiteral(s).value))
    ensures Bruteforce(start, Str(s), pool, horizon)
         == Bruteforce(start, Int(IntLiteral(s).value), pool, horizon)
  {
  }

  /** `''` as `start` is handed back by `prepare` and becomes 0 through `start or 0`. */
  lemma EmptyStart(end: Arg, pool: seq<Byte>, horizon: nat)
    ensures Normalise(Str([]), end) == Normalise(Int(0), end)
    ensures Bruteforce(Str([]), end, pool, horizon) == Bruteforce(Int(0), end, pool, horizon)
  {
  }

  // ---------------------------------------------------------------------------
  // The stages, each in closed form

  /** A negative start `offset == -k` removes exactly the first `k` values; a negative end `-m`
      beside it either keeps all that is left (when `k >= m`) or nothing. */
  lemma SkipCountSpec(raw: seq<Word>, offset: int, last: Mark)
    requires offset < 0
    ensures SkipCount(raw, offset, last) ==
      if last.Offset? && last.value < offset then [] else raw[Min(-offset, |raw|)..]
  {
    var e := Enumerate(raw, 0);
    var skipped := DropWhile(BeforeIndex(-offset), e);
    var d := |e| - |skipped|;
    if d > 0 {
      assert BeforeIndex(-offset)(e[d - 1]);
    }
    if skipped != [] {
      assert skipped[0] == e[d];
    }
    assert d == Min(-offset, |raw|);
    assert Values(skipped) == raw[d..];
    if last.Offset? && last.value < offset && skipped != [] {
      assert !FromIndex(-last.value)(skipped[0]);
    }
  }

  /** A sentinel start drops everything before the first value equal to it, and
      everything when it never occurs. */
  lemma SkipToSentinelSpec(raw: seq<Word>, s: Word)
    ensures var r := SkipToSentinel(raw, s);
      && r == raw[|raw| - |r|..]
      && (forall i :: 0 <= i < |raw| - |r| ==> raw[i] != s)
      && (r != [] ==> r[0] == s)
      && (r != [] <==> s in raw)
  {
    var r := SkipToSentinel(raw, s);
    if r != [] {
      assert !Unequal(s)(r[0]);
      assert raw[|raw| - |r|] == r[0];
    }
  }

  /** After any start but an offset, a negative end yields nothing: the fresh `enumerate`
      starts at 0, which is below every `m`. */
  lemma TakeFromIndexEmpty(values: seq<Word>, offset: int)
    requires offset < 0
    ensures TakeFromIndex(values, offset) == []
  {
  }

  // ---------------------------------------------------------------------------
  // What bruteforce yields

  /** The start stage only ever drops values from the front (and, for a negative end
      beside a negative start, may drop everything). */
  lemma StartStageSuffix(raw: seq<Word>, first: Mark, last: Mark) returns (d: nat)
    requires ValidMark(first) && ValidMark(last)
    ensures d <= |raw| && StartStage(raw, first, last) <= raw[d..]
  {
    if first.Offset? {
      SkipCountSpec(raw, first.value, last);
      d := Min(-first.value, |raw|);
    } else if first.Sentinel? {
      SkipToSentinelSpec(raw, first.s);
      d := |raw| - |SkipToSentinel(raw, first.s)|;
    } else {
      d := 0;
    }
  }

  /** The end stage only ever keeps a prefix. */
  lemma EndStagePrefix(values: seq<Word>, first: Mark, last: Mark)
    requires ValidMark(first) && ValidMark(last)
    ensures EndStage(values, first, last) <= values
  {
    if last.Offset? && !first.Offset? {
      TakeFromIndexEmpty(values, last.value);
    }
  }

  /** The output is always a contiguous run of the raw enumeration. */
  lemma PipelineSegment(raw: seq<Word>, first: Mark, last: Mark) returns (d: nat)
    requires ValidMark(first) && ValidMark(last)
    ensures d <= |raw| && Pipeline(raw, first, last) <= raw[d..]
  {
    d := StartStageSuffix(raw, first, last);
    EndStagePrefix(StartStage(raw, first, last), first, last);
  }

  /** The bounding stages only drop values: everything they yield comes from `raw`. */
  lemma PipelineValues(raw: seq<Word>, first: Mark, last: Mark)
    requires ValidMark(first) && ValidMark(last)
    ensures forall v :: v in Pipeline(raw, first, last) ==> v in raw
  {
    var d := PipelineSegment(raw, first, last);
    SegmentMembers(Pipeline(raw, first, last), raw, d);
  }

  lemma SegmentMembers(out: seq<Word>, raw: seq<Word>, d: nat)
    requires d <= |raw| && out <= raw[d..]
    ensures forall v :: v in out ==> v in raw
  {
    forall v | v in out ensures v in raw {
      var i :| 0 <= i < |out| && out[i] == v;
      assert out[i] == raw[d + i];
    }
  }

  /** Every value is a string over the pool, and shorter than the end bound unless it is
      the empty string (which `start` 0 emits even when `end` is 0). */
  lemma BruteforceValues(start: Arg, end: Arg, pool: seq<Byte>, horizon: nat)
    ensures Bruteforce(start, end, pool, horizon).Err? <==> Normalise(start, end).Err?
    ensures Bruteforce(start, end, pool, horizon).Ok? ==>
      var plan := Normalise(start, end).value;
      forall v :: v in Bruteforce(start, end, pool, horizon).value ==>
        OnlyPoolBytes(v, pool) && (v == [] || plan.end.None? || |v| < plan.end.value)
  {
    if Normalise(start, end).Ok? {
      var plan := Normalise(start, end).value;
      var hi := LengthBound(plan, horizon);
      var raw := Raw(pool, plan.start, hi);
      var out := Pipeline(raw, plan.first, plan.last);
      BruteforceRuns(start, end, pool, horizon);
      PipelineValues(raw, plan.first, plan.last);
      assert forall v :: v in raw ==> OnlyPoolBytes(v, pool) && (v == [] || |v| < hi) by {
        RawShape(pool, plan.start, hi);
      }
    }
  }

  /** Once the bounds are normalised, the output is the bounding stages over the raw
      enumeration for the lengths in range. */
  lemma BruteforceRuns(start: Arg, end: Arg, pool: seq<Byte>, horizon: nat)
    requires Normalise(start, end).Ok?
    ensures var plan := Normalise(start, end).value;
      Bruteforce(start, end, pool, horizon) ==
        Ok(Pipeline(Raw(pool, plan.start, LengthBound(plan, horizon)), plan.first, plan.last))
  {
  }

  /** A start or end that is `None` or a non-negative integer. */
  predicate LengthArg(a: Arg)
  {
    a.Absent? || (a.Int? && a.n >= 0)
  }

  function StartLength(a: Arg): nat
    requires LengthArg(a)
  {
    if a.Int? then a.n else 0
  }

  function EndLength(a: Arg, horizon: nat): nat
    requires LengthArg(a)
  {
    if a.Int? then a.n else horizon
  }

  /** With length bounds only, the output is the raw enumeration itself: for example pool
      `"ab"`, start 0 and end 3 give `'', 'a', 'b', 'aa', 'ab', 'ba', 'bb'`. */
  lemma LengthBounds(start: Arg, end: Arg, pool: seq<Byte>, horizon: nat)
    requires LengthArg(start) && LengthArg(end)
    ensures Bruteforce(start, end, pool, horizon) ==
      Ok(Raw(pool, StartLength(start), EndLength(end, horizon)))
    ensures start == Int(0) && end == Int(3) && pool == [97, 98] ==>
      Bruteforce(start, end, pool, horizon) ==
        Ok([[], [97], [98], [97, 97], [97, 98], [98, 97], [98, 98]])
  {
    PoolAbExample();
  }

  /** A negative start `offset == -k` yields the enumeration from length 0, the empty
      string first, with exactly its first `k` values removed. */
  lemma OffsetStart(offset: int, end: Arg, pool: seq<Byte>, horizon: nat)
    requires offset < 0 && LengthArg(end)
    ensures var raw := Raw(pool, 0, EndLength(end, horizon));
      raw[0] == [] && Bruteforce(Int(offset), end, pool, horizon) == Ok(raw[Min(-offset, |raw|)..])
  {
    var raw := Raw(pool, 0, EndLength(end, horizon));
    RawFromZero(pool, EndLength(end, horizon));
    OffsetStartRuns(offset, end, pool, horizon);
    SkipCountSpec(raw, offset, NoMark);
  }

  lemma OffsetStartRuns(offset: int, end: Arg, pool: seq<Byte>, horizon: nat)
    requires offset < 0 && LengthArg(end)
    ensures Bruteforce(Int(offset), end, pool, horizon) ==
      Ok(SkipCount(Raw(pool, 0, EndLength(end, horizon)), offset, NoMark))
  {
    assert Normalise(Int(offset), end) ==
      Ok(Plan(0, if end.Int? then Some(end.n) else None, Offset(offset), NoMark));
    BruteforceRuns(Int(offset), end, pool, horizon);
  }

  /** With a non-empty pool and no end, every position `n` after a negative start is
      reached once the horizon takes in the lengths that hold it. */
  lemma OffsetStartEndless(offset: int, pool: seq<Byte>, horizon: nat, n: nat)
    requires offset < 0 && |pool| > 0
    ensures var out := Bruteforce(Int(offset), Absent, pool, horizon);
      out.Ok? && (horizon > 1 - offset + n ==> n < |out.value|)
  {
    var raw := Raw(pool, 0, horizon);
    var out := raw[Min(-offset, |raw|)..];
    assert Bruteforce(Int(offset), Absent, pool, horizon) == Ok(out) by {
      OffsetStart(offset, Absent, pool, horizon);
    }
    if horizon > 1 - offset + n {
      assert n < |out| by {
        RawAtAgrees(pool, 0, horizon, -offset + n);
        assert FirstLength(0) + (-offset + n) < horizon;
      }
    }
  }

  /** A sentinel start `s`: the lengths begin at `|s|`, every value before the first one
      equal to `s` is dropped, and nothing is left when `s` does not occur. */
  lemma SentinelStart(s: Word, end: Arg, pool: seq<Byte>, horizon: nat)
    requires NonNumeric(s) && LengthArg(end)
    ensures var raw := Raw(pool, |s|, EndLength(end, horizon));
      var out := Bruteforce(Str(s), end, pool, horizon);
      && out.Ok?
      && out.value == raw[|raw| - |out.value|..]
      && (forall i :: 0 <= i < |raw| - |out.value| ==> raw[i] != s)
      && (out.value != [] ==> out.value[0] == s)
      && (out.value != [] <==> s in raw)
  {
    SentinelStartRuns(s, end, pool, horizon);
    SkipToSentinelSpec(Raw(pool, |s|, EndLength(end, horizon)), s);
  }

  lemma SentinelStartRuns(s: Word, end: Arg, pool: seq<Byte>, horizon: nat)
    requires NonNumeric(s) && LengthArg(end)
    ensures Bruteforce(Str(s), end, pool, horizon) ==
      Ok(SkipToSentinel(Raw(pool, |s|, EndLength(end, horizon)), s))
  {
    assert Normalise(Str(s), end) ==
      Ok(Plan(|s|, if end.Int? then Some(end.n) else None, Sentinel(s), NoMark));
    BruteforceRuns(Str(s), end, pool, horizon);
  }

  /** When `s` is made of pool bytes and its length is in range, the output starts at `s`. */
  lemma SentinelStartFound(s: Word, end: Arg, pool: seq<Byte>, horizon: nat)
    requires NonNumeric(s) && LengthArg(end) && OnlyPoolBytes(s, pool)
    requires |s| < EndLength(end, horizon)
    ensures var out := Bruteforce(Str(s), end, pool, horizon);
      out.Ok? && out.value != [] && out.value[0] == s
  {
    var hi := EndLength(end, horizon);
    SentinelStart(s, end, pool, horizon);
    WordsMember(pool, |s|, s);
    assert Raw(pool, |s|, hi) == Words(pool, |s|) + Blocks(pool, |s| + 1, hi);
  }

  /** A sentinel end `t`: the lengths stop at `|t|`, and the output is the longest prefix of
      the enumeration whose values all sort bytewise below `t`. */
  lemma SentinelEnd(start: Arg, t: Word, pool: seq<Byte>, horizon: nat)
    requires LengthArg(start) && NonNumeric(t)
    ensures var raw := Raw(pool, StartLength(start), |t| + 1);
      var out := Bruteforce(start, Str(t), pool, horizon);
      && out.Ok?
      && out.value == raw[..|out.value|]
      && (forall v :: v in out.value ==> Less(v, t) && |v| <= |t|)
      && (|out.value| < |raw| ==> !Less(raw[|out.value|], t))
  {
    var raw := Raw(pool, StartLength(start), |t| + 1);
    SentinelEndRuns(start, t, pool, horizon);
    var out := TakeBelow(raw, t);
    assert forall w :: w in raw ==> |w| <= |t| by {
      RawShape(pool, StartLength(start), |t| + 1);
    }
    forall v | v in out ensures Less(v, t) && |v| <= |t| {
      var i :| 0 <= i < |out| && out[i] == v;
      assert Below(t)(out[i]);
      assert v == raw[i];
    }
  }

  /** A sentinel end `t` after any start: the lengths stop at `|t|`, and the output is the
      longest prefix of what the start stage leaves whose values all sort below `t`; for
      example two sentinels `"ab"` and `"ba"` over the pool `"ab"` yield just `"ab"`. */
  lemma SentinelEndAfterStart(start: Arg, t: Word, pool: seq<Byte>, horizon: nat)
    requires NonNumeric(t)
    ensures Bruteforce(start, Str(t), pool, horizon).Ok? <==> Normalise(start, Str(t)).Ok?
    ensures Normalise(start, Str(t)).Ok? ==>
      var plan := Normalise(start, Str(t)).value;
      var values := StartStage(Raw(pool, plan.start, |t| + 1), plan.first, plan.last);
      var out := Bruteforce(start, Str(t), pool, horizon).value;
      && plan.end == Some(|t| + 1)
      && |out| <= |values| && out == values[..|out|]
      && (forall i :: 0 <= i < |out| ==> Less(out[i], t))
      && (|out| < |values| ==> !Less(values[|out|], t))
  {
    if Normalise(start, Str(t)).Ok? {
      var plan := Normalise(start, Str(t)).value;
      assert plan.last == Sentinel(t) && plan.end == Some(|t| + 1);
      BruteforceRuns(start, Str(t), pool, horizon);
    }
  }

  /** Two sentinels `"ab"` and `"ba"` over the pool `"ab"`: the lengths are 2 only, the
      start drops `"aa"`, and the end stops at `"ba"`. */
  lemma TwoSentinelsExample(horizon: nat)
    ensures Bruteforce(Str([97, 98]), Str([98, 97]), [97, 98], horizon) == Ok([[97, 98]])
  {
    var pool: seq<Byte> := [97, 98];
    var s, t: Word := [97, 98], [98, 97];
    assert IntLiteral(s).None? && IntLiteral(t).None?;
    assert Normalise(Str(s), Str(t)) == Ok(Plan(2, Some(3), Sentinel(s), Sentinel(t)));
    SentinelEndAfterStart(Str(s), t, pool, horizon);
    var values := SkipToSentinel(Raw(pool, 2, 3), s);
    TwoSentinelsValues();
    PrefixBelowOne(Bruteforce(Str(s), Str(t), pool, horizon).value, values, t);
  }

  lemma TwoSentinelsValues()
    ensures var values := SkipToSentinel(Raw([97, 98], 2, 3), [97, 98]);
      |values| == 3 && Less(values[0], [98, 97]) && !Less(values[1], [98, 97])
      && values[0] == [97, 98]
  {
    var pool: seq<Byte> := [97, 98];
    PoolAbWords();
    var raw := Raw(pool, 2, 3);
    assert raw == [[97, 97], [97, 98], [98, 97], [98, 98]] by {
      assert Blocks(pool, 3, 3) == [];
    }
    assert SkipToSentinel(raw, [97, 98]) == raw[1..] by {
      assert !Unequal([97, 98])(raw[1]);
    }
  }

  /** A `takewhile` below `t` over values whose first sorts below `t` and whose second
      does not keeps exactly the first. */
  lemma PrefixBelowOne(out: seq<Word>, values: seq<Word>, t: Word)
    requires |out| <= |values| && out == values[..|out|]
    requires forall i :: 0 <= i < |out| ==> Less(out[i], t)
    requires |out| < |values| ==> !Less(values[|out|], t)
    requires |values| >= 2 && Less(values[0], t) && !Less(values[1], t)
    ensures out == [values[0]]
  {
    assert forall i :: 0 <= i < |out| ==> out[i] == values[i];
  }

  /** Because the end sentinel is compared bytewise while the stream runs through the
      lengths in turn, a pool byte `c` that does not sort below `t` stops the output within
      the shortest strings: no value is longer than one byte. */
  lemma SentinelEndStaysShort(start: Arg, t: Word, pool: seq<Byte>, horizon: nat, c: Byte)
    requires LengthArg(start) && StartLength(start) <= 1 && NonNumeric(t)
    requires c in pool && !Less([c], t)
    ensures var out := Bruteforce(start, Str(t), pool, horizon);
      out.Ok? && forall v :: v in out.value ==> |v| <= 1
  {
    SentinelEndRuns(start, t, pool, horizon);
    ShortBelowBlocker(pool, StartLength(start), t, c);
  }

  /** The raw enumeration from length at most 1, cut at the first value not below `t`,
      stops within the one-byte strings when a pool byte is not below `t`. */
  lemma ShortBelowBlocker(pool: seq<Byte>, n: nat, t: Word, c: Byte)
    requires n <= 1 && |t| > 0 && c in pool && !Less([c], t)
    ensures forall v :: v in TakeBelow(Raw(pool, n, |t| + 1), t) ==> |v| <= 1
  {
    var hi := |t| + 1;
    var raw := Raw(pool, n, hi);
    var j := RawHead(pool, n, hi, c);
    var pre: seq<Word> := if n == 0 then [[]] else [];
    assert forall v :: v in pre ==> |v| <= 1;
    StopsWithin(TakeBelow(raw, t), raw, pre, Words(pool, 1), Blocks(pool, 2, hi), t, j);
  }

  lemma SentinelEndRuns(start: Arg, t: Word, pool: seq<Byte>, horizon: nat)
    requires LengthArg(start) && NonNumeric(t)
    ensures Bruteforce(start, Str(t), pool, horizon) ==
      Ok(TakeBelow(Raw(pool, StartLength(start), |t| + 1), t))
  {
    assert Normalise(start, Str(t)) == Ok(Plan(StartLength(start), Some(|t| + 1), NoMark, Sentinel(t)));
    BruteforceRuns(start, Str(t), pool, horizon);
  }

  /** A prefix of `pre + ones + rest` whose values all sort below `t` ends before any value
      of `ones` that does not. */
  lemma StopsWithin(out: seq<Word>, raw: seq<Word>, pre: seq<Word>, ones: seq<Word>, rest: seq<Word>,
                    t: Word, j: nat)
    requires raw == pre + (ones + rest)
    requires |out| <= |raw| && out == raw[..|out|]
    requires forall i :: 0 <= i < |out| ==> Less(out[i], t)
    requires j < |ones| && !Less(ones[j], t)
    requires forall v :: v in pre ==> |v| <= 1
    requires forall v :: v in ones ==> |v| == 1
    ensures forall v :: v in out ==> |v| <= 1
  {
    assert !Less(raw[|pre| + j], t);
    forall i | 0 <= i < |out| ensures Less(raw[i], t) {
      assert out[i] == raw[i];
    }
    assert |out| <= |pre| + j;
    forall v | v in out ensures |v| <= 1 {
      var i :| 0 <= i < |out| && out[i] == v;
      assert v == raw[i];
      if i >= |pre| {
        assert v == ones[i - |pre|];
      }
    }
  }

  /** A negative end `-m` after a negative start `-k` drops the length bound and yields
      everything past the first `k` values when `k >= m`, and nothing otherwise. */
  lemma NegativeEndAfterOffset(offset: int, endOffset: int, pool: seq<Byte>, horizon: nat)
    requires offset < 0 && endOffset < 0
    ensures var raw := Raw(pool, 0, horizon);
      Bruteforce(Int(offset), Int(endOffset), pool, horizon) ==
        Ok(if offset <= endOffset then raw[Min(-offset, |raw|)..] else [])
  {
    NegativeEndRuns(offset, endOffset, pool, horizon);
    SkipCountSpec(Raw(pool, 0, horizon), offset, Offset(endOffset));
  }

  lemma NegativeEndRuns(offset: int, endOffset: int, pool: seq<Byte>, horizon: nat)
    requires offset < 0 && endOffset < 0
    ensures Bruteforce(Int(offset), Int(endOffset), pool, horizon) ==
      Ok(SkipCount(Raw(pool, 0, horizon), offset, Offset(endOffset)))
  {
    assert Normalise(Int(offset), Int(endOffset)) ==
      Ok(Plan(0, None, Offset(offset), Offset(endOffset)));
    BruteforceRuns(Int(offset), Int(endOffset), pool, horizon);
  }

  /** A negative end `-m` after a length start or a sentinel start yields nothing at all:
      the values are enumerated afresh from index 0, which is below `m`. */
  lemma NegativeEndOtherwise(start: Arg, endOffset: int, pool: seq<Byte>, horizon: nat)
    requires endOffset < 0
    requires LengthArg(start) || (start.Str? && NonNumeric(start.s))
    ensures Bruteforce(start, Int(endOffset), pool, horizon) == Ok([])
  {
    NegativeEndPlan(start, endOffset);
    var plan := Normalise(start, Int(endOffset)).value;
    BruteforceRuns(start, Int(endOffset), pool, horizon);
    FreshCountEmpty(Raw(pool, plan.start, LengthBound(plan, horizon)), plan.first, endOffset);
  }

  lemma NegativeEndPlan(start: Arg, endOffset: int)
    requires endOffset < 0
    requires LengthArg(start) || (start.Str? && NonNumeric(start.s))
    ensures Normalise(start, Int(endOffset)).Ok?
    ensures var plan := Normalise(start, Int(endOffset)).value;
      plan.last == Offset(endOffset) && !plan.first.Offset?
  {
  }

  /** Without a negative start, a negative end counts the surviving values from 0 again. */
  lemma FreshCountEmpty(raw: seq<Word>, first: Mark, endOffset: int)
    requires endOffset < 0 && !first.Offset?
    ensures Pipeline(raw, first, Offset(endOffset)) == []
  {
    TakeFromIndexEmpty(StartStage(raw, first, Offset(endOffset)), endOffset);
  }

  lemma SuffixExtends(a: seq<Word>, b: seq<Word>, k: nat)
    requires a <= b
    ensures a[Min(k, |a|)..] <= b[Min(k, |b|)..]
  {
  }

  lemma SkipCountExtends(raw: seq<Word>, raw': seq<Word>, offset: int, last: Mark)
    requires raw <= raw' && offset < 0
    ensures SkipCount(raw, offset, last) <= SkipCount(raw', offset, last)
  {
    SkipCountSpec(raw, offset, last);
    SkipCountSpec(raw', offset, last);
    SuffixExtends(raw, raw', -offset);
  }

  /** The start stage only extends its output on a longer raw stream. */
  lemma StartStageExtends(raw: seq<Word>, raw': seq<Word>, first: Mark, last: Mark)
    requires ValidMark(first) && ValidMark(last)
    requires raw <= raw'
    ensures StartStage(raw, first, last) <= StartStage(raw', first, last)
  {
    if first.Offset? {
      SkipCountExtends(raw, raw', first.value, last);
    } else if first.Sentinel? {
      DropWhileExtends(Unequal(first.s), raw, raw');
    }
  }

  /** The end stage only extends its output on a longer input. */
  lemma EndStageExtends(values: seq<Word>, values': seq<Word>, first: Mark, last: Mark)
    requires ValidMark(first) && ValidMark(last)
    requires values <= values'
    ensures EndStage(values, first, last) <= EndStage(values', first, last)
  {
    if last.Offset? && !first.Offset? {
      TakeFromIndexEmpty(values, last.value);
      TakeFromIndexEmpty(values', last.value);
    } else if last.Sentinel? {
      TakeWhileExtends(Below(last.s), values, values');
    }
  }

  /** Without an end bound, a larger horizon only extends the output: the outputs for
      growing horizons are the prefixes of one stream. */
  lemma UnboundedPrefixes(start: Arg, end: Arg, pool: seq<Byte>, horizon: nat, horizon': nat)
    requires horizon <= horizon'
    requires Normalise(start, end).Ok? && Normalise(start, end).value.end.None?
    ensures Bruteforce(start, end, pool, horizon).value <= Bruteforce(start, end, pool, horizon').value
  {
    var plan := Normalise(start, end).value;
    BruteforceRuns(start, end, pool, horizon);
    BruteforceRuns(start, end, pool, horizon');
    var raw, raw' := Raw(pool, plan.start, horizon), Raw(pool, plan.start, horizon');
    RawExtends(pool, plan.start, horizon, horizon');
    StartStageExtends(raw, raw', plan.first, plan.last);
    EndStageExtends(StartStage(raw, plan.first, plan.last), StartStage(raw', plan.first, plan.last),
                    plan.first, plan.last);
  }
}
