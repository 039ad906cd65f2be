// The Luhn checksum that gates credit-card candidates (app/guardrails/output_leak.py).
//
// The specification is the formula of Annex B of ISO/IEC 7812-1: counting from the
// right, every second digit is doubled and the digits of the product are added up.
module Luhn {
  type Digit = d: int | 0 <= d <= 9

  // The standard's contribution of one digit.
  function Weight(d: Digit, doubled: bool): Digit {
    if !doubled then d
    else if 2 * d < 10 then 2 * d
    else 1 + (2 * d - 10)
  }

  // The standard's sum; `doubled` says whether the rightmost digit is a doubled one.
  function Sum(ds: seq<Digit>, doubled: bool): nat {
    if ds == [] then 0
    else Weight(ds[|ds| - 1], doubled) + Sum(ds[..|ds| - 1], !doubled)
  }

  predicate Valid(ds: seq<Digit>) {
    Sum(ds, false) % 10 == 0
  }

  // The formula digit by digit: those at an even distance from the right count as they are,
  // the others are doubled and the product's tens and ones added up. The first n digits' part.
  ghost function Formula(ds: seq<Digit>, n: nat): nat
    requires n <= |ds|
  {
    if n == 0 then 0
    else
      var d: int := ds[n - 1];
      Formula(ds, n - 1) + if (|ds| - n) % 2 == 0 then d else (2 * d) / 10 + (2 * d) % 10
  }

  lemma {:induction false} SumIsFormula(ds: seq<Digit>, n: nat)
    requires n <= |ds|
    ensures Sum(ds[..n], (|ds| - n) % 2 == 1) == Formula(ds, n)
  {
    if n > 0 {
      SumIsFormula(ds, n - 1);
      assert ds[..n][..n - 1] == ds[..n - 1];
      assert ((|ds| - n) % 2 == 1) == !((|ds| - (n - 1)) % 2 == 1);
      WeightIsDigitSum(ds[n - 1]);
    }
  }

  lemma WeightIsDigitSum(d: Digit)
    ensures Weight(d, false) == d
    ensures Weight(d, true) == (2 * (d as int)) / 10 + (2 * (d as int)) % 10
  {
  }

  // The source subtracts nine instead of adding the product's digits.
  method LuhnValid(digits: seq<Digit>) returns (valid: bool)
    ensures valid <==> Formula(digits, |digits|) % 10 == 0
    ensures valid == Valid(digits)
  {
    SumIsFormula(digits, |digits|);
    var total := 0;
    var i := 0;
    assert digits[..|digits|] == digits;
    while i < |digits|
      invariant 0 <= i <= |digits|
      invariant total + Sum(digits[..|digits| - i], i % 2 == 1) == Sum(digits, false)
    {
      var n: int := digits[|digits| - 1 - i];
      assert digits[..|digits| - i][..|digits| - i - 1] == digits[..|digits| - i - 1];
      if i % 2 == 1 {
        n := n * 2;
        if n > 9 {
          n := n - 9;
        }
      }
      total := total + n;
      i := i + 1;
    }
    return total % 10 == 0;
  }

  // Whether the digit at a distance from the right is a doubled one.
  predicate DoubledAt(distance: nat, doubled: bool) {
    if distance == 0 then doubled else DoubledAt(distance - 1, !doubled)
  }

  lemma {:induction false} DoublingAlternates(distance: nat, doubled: bool)
    ensures DoubledAt(distance, !doubled) == !DoubledAt(distance, doubled)
  {
    if distance > 0 {
      DoublingAlternates(distance - 1, !doubled);
    }
  }

  // Replacing one digit moves the sum by exactly that digit's change of weight.
  lemma {:induction false} SumUpdate(ds: seq<Digit>, doubled: bool, k: nat, x: Digit)
    requires k < |ds|
    ensures Sum(ds[k := x], doubled) - Sum(ds, doubled)
         == Weight(x, DoubledAt(|ds| - 1 - k, doubled)) - Weight(ds[k], DoubledAt(|ds| - 1 - k, doubled))
  {
    var init := ds[..|ds| - 1];
    if k == |ds| - 1 {
      assert ds[k := x][..|ds| - 1] == init;
    } else {
      assert ds[k := x][..|ds| - 1] == init[k := x];
      SumUpdate(init, !doubled, k, x);
    }
  }

  // Doubling permutes the digits, and shifts each one by at most four either way.
  lemma WeightFacts(a: Digit, b: Digit, doubled: bool)
    ensures Weight(a, true) == if a <= 4 then 2 * a else 2 * a - 9
    ensures a != b ==> Weight(a, doubled) != Weight(b, doubled)
    ensures Weight(a, true) - a == Weight(b, true) - b <==> a == b || (a == 0 && b == 9) || (a == 9 && b == 0)
  {
  }

  lemma ResiduesMod10(s: int, t: int)
    requires s % 10 == 0 && -9 <= t - s <= 9
    ensures t % 10 == 0 <==> t == s
  {
  }

  lemma PairOfZeroAndNine(a: Digit, b: Digit)
    ensures {a, b} == {0, 9} <==> (a == 0 && b == 9) || (a == 9 && b == 0)
  {
    assert a in {a, b} && b in {a, b} && 0 in {0, 9} && 9 in {0, 9};
  }

  // Every single-digit error is detected.
  lemma SingleDigitErrorDetected(ds: seq<Digit>, k: nat, x: Digit)
    requires k < |ds| && x != ds[k]
    requires Valid(ds)
    ensures !Valid(ds[k := x])
  {
    SumUpdate(ds, false, k, x);
    WeightFacts(x, ds[k], DoubledAt(|ds| - 1 - k, false));
    ResiduesMod10(Sum(ds, false), Sum(ds[k := x], false));
  }

  // Swapping two adjacent digits goes unnoticed exactly for equal digits and for 0 with 9.
  lemma AdjacentSwapDetected(ds: seq<Digit>, k: nat)
    requires k + 1 < |ds|
    requires Valid(ds)
    ensures Valid(ds[k := ds[k + 1]][k + 1 := ds[k]])
       <==> ds[k] == ds[k + 1] || {ds[k], ds[k + 1]} == {0, 9}
  {
    var a, b := ds[k], ds[k + 1];
    var once := ds[k := b];
    var swapped := once[k + 1 := a];
    SumUpdate(ds, false, k, b);
    SumUpdate(once, false, k + 1, a);
    DoublingAlternates(|ds| - 2 - k, false);
    WeightFacts(a, b, true);
    WeightFacts(b, a, true);
    ResiduesMod10(Sum(ds, false), Sum(swapped, false));
    PairOfZeroAndNine(a, b);
  }

  lemma CheckDigit(prefix: seq<Digit>, d: Digit)
    ensures Valid(prefix + [d]) <==> d == (10 - Sum(prefix, true) % 10) % 10
  {
    assert (prefix + [d])[..|prefix|] == prefix;
  }

  // Any prefix has one and only one check digit.
  lemma CheckDigitUnique(prefix: seq<Digit>)
    ensures exists d: Digit :: Valid(prefix + [d]) && forall e: Digit :: Valid(prefix + [e]) ==> e == d
  {
    var d: Digit := (10 - Sum(prefix, true) % 10) % 10;
    forall e: Digit
      ensures Valid(prefix + [e]) <==> e == d
    {
      CheckDigit(prefix, e);
    }
    assert Valid(prefix + [d]);
  }
}
