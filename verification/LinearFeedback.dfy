/**
 Feedback shift registers over any type with an addition: what folding a message into a register step by step has to
 do with adding a whole word to it and stepping once per digit. Nothing here knows about bits; Crc32 supplies them.
 */
module LinearFeedback {
  function Iterate<T>(f: T -> T, x: T, n: nat): T
    decreases n
  {
    if n == 0 then x else Iterate(f, f(x), n - 1)
  }

  // The register after taking in the words of a message, first to last.
  function Fold<T>(f: T -> T, add: (T, T) -> T, c: T, ws: seq<T>): T
    decreases |ws|
  {
    if ws == [] then c else Fold(f, add, f(add(c, ws[0])), ws[1..])
  }

  // The lowest n digits of a word, lowest first.
  function Digits<T>(low: T -> T, high: T -> T, w: T, n: nat): (ds: seq<T>)
    ensures |ds| == n
    decreases n
  {
    if n == 0 then [] else [low(w)] + Digits(low, high, high(w), n - 1)
  }

  ghost predicate Linear<T(!new)>(f: T -> T, add: (T, T) -> T) {
    forall x, y :: f(add(x, y)) == add(f(x), f(y))
  }

  ghost predicate Injective<T(!new)>(f: T -> T) {
    forall x, y :: f(x) == f(y) ==> x == y
  }

  ghost predicate Cancels<T(!new)>(add: (T, T) -> T) {
    forall x, y, z :: add(x, z) == add(y, z) ==> x == y
  }

  // Stepping deals with the low digit of what was added; the rest only moves down.
  ghost predicate Splits<T(!new)>(f: T -> T, add: (T, T) -> T, low: T -> T, high: T -> T) {
    forall c, w :: f(add(c, w)) == add(f(add(c, low(w))), high(w))
  }

  lemma SplitsByRest<T(!new)>(f: T -> T, add: (T, T) -> T, low: T -> T, high: T -> T, rest: T -> T)
    requires Linear(f, add)
    requires forall c, w :: add(c, w) == add(add(c, low(w)), rest(w))
    requires forall w :: f(rest(w)) == high(w)
    ensures Splits(f, add, low, high)
  {
    forall c, w
      ensures f(add(c, w)) == add(f(add(c, low(w))), high(w))
    {
      assert add(c, w) == add(add(c, low(w)), rest(w));
    }
  }

  lemma {:induction false} IterateLinear<T(!new)>(f: T -> T, add: (T, T) -> T, a: T, b: T, n: nat)
    requires Linear(f, add)
    ensures Iterate(f, add(a, b), n) == add(Iterate(f, a, n), Iterate(f, b, n))
    decreases n
  {
    if n > 0 {
      IterateLinear(f, add, f(a), f(b), n - 1);
    }
  }

  lemma {:induction false} IterateInjective<T(!new)>(f: T -> T, a: T, b: T, n: nat)
    requires Injective(f)
    requires Iterate(f, a, n) == Iterate(f, b, n)
    ensures a == b
    decreases n
  {
    if n > 0 {
      IterateInjective(f, f(a), f(b), n - 1);
    }
  }

  // Adding a word at once and stepping n times is taking in its n lowest digits one by one, the rest being added after.
  lemma {:induction false} FoldDigits<T(!new)>(
    f: T -> T, add: (T, T) -> T, low: T -> T, high: T -> T, c: T, w: T, n: nat)
    requires Splits(f, add, low, high)
    ensures Iterate(f, add(c, w), n) == add(Fold(f, add, c, Digits(low, high, w, n)), Iterate(high, w, n))
    decreases n
  {
    if n > 0 {
      FoldDigits(f, add, low, high, f(add(c, low(w))), high(w), n - 1);
      assert Digits(low, high, w, n)[1..] == Digits(low, high, high(w), n - 1);
    }
  }

  lemma {:induction false} FoldConcat<T>(f: T -> T, add: (T, T) -> T, c: T, xs: seq<T>, ys: seq<T>)
    ensures Fold(f, add, c, xs + ys) == Fold(f, add, Fold(f, add, c, xs), ys)
    decreases |xs|
  {
    if xs == [] {
      assert xs + ys == ys;
    } else {
      assert (xs + ys)[1..] == xs[1..] + ys;
      FoldConcat(f, add, f(add(c, xs[0])), xs[1..], ys);
    }
  }

  lemma {:induction false} FoldInjective<T(!new)>(f: T -> T, add: (T, T) -> T, c: T, d: T, ws: seq<T>)
    requires Injective(f) && Cancels(add)
    requires Fold(f, add, c, ws) == Fold(f, add, d, ws)
    ensures c == d
    decreases |ws|
  {
    if ws != [] {
      FoldInjective(f, add, f(add(c, ws[0])), f(add(d, ws[0])), ws[1..]);
    }
  }

  lemma DigitsFour<T>(low: T -> T, high: T -> T, w: T)
    ensures Digits(low, high, w, 4) == [low(w), low(high(w)), low(high(high(w))), low(high(high(high(w))))]
    ensures Iterate(high, w, 4) == high(high(high(high(w))))
  {
    assert Digits(low, high, w, 4)[1..] == Digits(low, high, high(w), 3);
  }

  lemma FoldDigitsInjective<T(!new)>(
    f: T -> T, add: (T, T) -> T, low: T -> T, high: T -> T, c: T, v: T, w: T, n: nat)
    requires Injective(f) && Splits(f, add, low, high)
    requires Iterate(high, v, n) == Iterate(high, w, n)
    requires Fold(f, add, c, Digits(low, high, v, n)) == Fold(f, add, c, Digits(low, high, w, n))
    ensures add(c, v) == add(c, w)
  {
    FoldDigits(f, add, low, high, c, v, n);
    FoldDigits(f, add, low, high, c, w, n);
    IterateInjective(f, add(c, v), add(c, w), n);
  }

  lemma SplitAlone<T(!new)>(f: T -> T, add: (T, T) -> T, low: T -> T, high: T -> T, zero: T, x: T)
    requires Splits(f, add, low, high)
    requires add(zero, x) == x && add(zero, low(x)) == low(x)
    ensures f(x) == add(f(low(x)), high(x))
  {
    assert f(add(zero, x)) == add(f(add(zero, low(x))), high(x));
  }
}
