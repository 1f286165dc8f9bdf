/** Finite models of the lazy combinators `bruteforce` composes its result from:
    `itertools.dropwhile`, `itertools.takewhile`, `enumerate`, and the `map` that
    keeps the value of each `(index, value)` pair. A lazy stream is modelled by the
    finite sequence of the values it yields. */
module Itertools {

  /** `dropwhile(p, s)`: skips the longest prefix whose items all satisfy `p`. */
  function DropWhile<T>(p: T -> bool, s: seq<T>): (r: seq<T>)
    ensures |r| <= |s| && r == s[|s| - |r|..]
    ensures forall i :: 0 <= i < |s| - |r| ==> p(s[i])
    ensures r != [] ==> !p(r[0])
  {
    if s != [] && p(s[0]) then DropWhile(p, s[1..]) else s
  }

  /** `takewhile(p, s)`: the longest prefix whose items all satisfy `p`. */
  function TakeWhile<T>(p: T -> bool, s: seq<T>): (r: seq<T>)
    ensures |r| <= |s| && r == s[..|r|]
    ensures forall i :: 0 <= i < |r| ==> p(r[i])
    ensures |r| < |s| ==> !p(s[|r|])
  {
    if s != [] && p(s[0]) then [s[0]] + TakeWhile(p, s[1..]) else []
  }

  /** `enumerate(s, from)`: every item paired with its position, counted from `from`. */
  function Enumerate<T>(s: seq<T>, from: nat): (r: seq<(nat, T)>)
    ensures |r| == |s|
    ensures forall i {:trigger r[i]} :: 0 <= i < |s| ==> r[i].0 == from + i && r[i].1 == s[i]
  {
    if s == [] then [] else [(from, s[0])] + Enumerate(s[1..], from + 1)
  }

  /** The `map` of `__getitem__(1)` over enumerated pairs: the value of each pair. */
  function Values<T>(ps: seq<(nat, T)>): (r: seq<T>)
    ensures |r| == |ps|
    ensures forall i {:trigger r[i]} :: 0 <= i < |ps| ==> r[i] == ps[i].1
  {
    if ps == [] then [] else [ps[0].1] + Values(ps[1..])
  }

  /** Feeding `dropwhile` more of the same stream only extends what it yields. */
  lemma {:induction false} DropWhileExtends<T>(p: T -> bool, a: seq<T>, b: seq<T>)
    requires a <= b
    ensures DropWhile(p, a) <= DropWhile(p, b)
  {
    if a != [] && p(a[0]) {
      assert a[1..] <= b[1..];
      DropWhileExtends(p, a[1..], b[1..]);
    }
  }

  /** Feeding `takewhile` more of the same stream only extends what it yields. */
  lemma {:induction false} TakeWhileExtends<T>(p: T -> bool, a: seq<T>, b: seq<T>)
    requires a <= b
    ensures TakeWhile(p, a) <= TakeWhile(p, b)
  {
    if a != [] && p(a[0]) {
      assert a[1..] <= b[1..];
      TakeWhileExtends(p, a[1..], b[1..]);
    }
  }
}
