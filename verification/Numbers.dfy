// Positional numbers: the integer a digit sequence denotes, and the digits of an integer.
module Numbers {
  import opened Bits

  ghost predicate DigitsBelow(ds: seq<nat>, base: nat) {
    forall k :: 0 <= k < |ds| ==> ds[k] < base
  }

  // The integer written with the digits `ds`, most significant first.
  function Number(base: nat, ds: seq<nat>): nat {
    if ds == [] then 0 else base * Number(base, ds[..|ds| - 1]) + ds[|ds| - 1]
  }

  // The `count` least significant digits of `n`, most significant first.
  function Digits(base: nat, n: nat, count: nat): (ds: seq<nat>)
    requires base > 0
    ensures |ds| == count && DigitsBelow(ds, base)
    decreases count
  {
    if count == 0 then [] else Digits(base, n / base, count - 1) + [n % base]
  }

  lemma NumberNext(base: nat, ds: seq<nat>, d: nat)
    ensures Number(base, ds + [d]) == base * Number(base, ds) + d
  {
    assert (ds + [d])[..|ds|] == ds;
  }

  lemma ScaleUp(base: nat, n: nat)
    requires base > 0
    ensures base * n >= n
  {
    if n > 0 && base > 1 {
      ProductGap(n, base, 1);
    }
  }

  lemma {:induction false} NumberFits(ds: seq<nat>, ds': seq<nat>, base: nat)
    requires base > 0 && DigitsBelow(ds, base) && ds <= ds'
    ensures Number(base, ds) <= Number(base, ds')
    decreases ds'
  {
    if |ds| == |ds'| {
      assert ds == ds';
    } else {
      var init := ds'[..|ds'| - 1];
      assert ds <= init;
      NumberFits(ds, init, base);
      ScaleUp(base, Number(base, init));
    }
  }

  // Writing a number down and reading it back, at a fixed number of digits.
  lemma {:induction false} DigitsOfNumber(base: nat, ds: seq<nat>)
    requires base > 0 && DigitsBelow(ds, base)
    ensures Digits(base, Number(base, ds), |ds|) == ds
  {
    if ds != [] {
      var init, last := ds[..|ds| - 1], ds[|ds| - 1];
      assert ds == init + [last];
      var n := Number(base, init);
      DigitsOfNumber(base, init);
      LastDigit(base, n, last);
    }
  }

  lemma {:induction false} LastDigit(base: nat, n: nat, d: nat)
    requires d < base
    ensures (base * n + d) / base == n && (base * n + d) % base == d
  {
    DivModUnique(base * n + d, base, n, d);
  }
}
