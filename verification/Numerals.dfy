/** Numbers written as sequences of digits, the most significant digit first. */
module Numerals {

  function Pow(b: nat, k: nat): nat {
    if k == 0 then 1 else b * Pow(b, k - 1)
  }

  // Read the first n digits after acc.
  function NumTo(acc: nat, ds: seq<nat>, b: nat, n: nat): nat
    requires n <= |ds|
    decreases n
  {
    if n == 0 then acc else NumTo(acc, ds, b, n - 1) * b + ds[n - 1]
  }

  function Num(acc: nat, ds: seq<nat>, b: nat): nat {
    NumTo(acc, ds, b, |ds|)
  }

  ghost predicate AreDigits(ds: seq<nat>, b: nat) {
    forall i :: 0 <= i < |ds| ==> ds[i] < b
  }

  // ---------- Reading digits ----------

  lemma {:induction false} NumToConcat(acc: nat, xs: seq<nat>, ys: seq<nat>, b: nat, n: nat)
    requires n <= |ys|
    ensures NumTo(acc, xs + ys, b, |xs| + n) == NumTo(Num(acc, xs, b), ys, b, n)
    decreases n
  {
    if n == 0 {
      NumToLocal(acc, xs, xs + ys, b, |xs|);
    } else {
      NumToConcat(acc, xs, ys, b, n - 1);
      assert (xs + ys)[|xs| + n - 1] == ys[n - 1];
    }
  }

  lemma {:induction false} NumToLocal(acc: nat, xs: seq<nat>, ys: seq<nat>, b: nat, n: nat)
    requires n <= |xs| && n <= |ys| && forall i :: 0 <= i < n ==> xs[i] == ys[i]
    ensures NumTo(acc, xs, b, n) == NumTo(acc, ys, b, n)
    decreases n
  {
    if n > 0 {
      NumToLocal(acc, xs, ys, b, n - 1);
    }
  }

  lemma NumConcat(acc: nat, xs: seq<nat>, ys: seq<nat>, b: nat)
    ensures Num(acc, xs + ys, b) == Num(Num(acc, xs, b), ys, b)
  {
    NumToConcat(acc, xs, ys, b, |ys|);
  }

  // Reading one more digit at the end, or the first one.
  lemma NumSnoc(acc: nat, xs: seq<nat>, d: nat, b: nat)
    ensures Num(acc, xs + [d], b) == Num(acc, xs, b) * b + d
  {
    NumConcat(acc, xs, [d], b);
    assert NumTo(Num(acc, xs, b), [d], b, 0) == Num(acc, xs, b);
  }

  lemma NumCons(acc: nat, d: nat, xs: seq<nat>, b: nat)
    ensures Num(acc, [d] + xs, b) == Num(acc * b + d, xs, b)
  {
    NumConcat(acc, [d], xs, b);
    assert NumTo(acc, [d], b, 0) == acc;
  }

  // Leading zeros do not count.
  lemma {:induction false} NumToZeros(ds: seq<nat>, b: nat, n: nat)
    requires n <= |ds| && forall i :: 0 <= i < n ==> ds[i] == 0
    ensures NumTo(0, ds, b, n) == 0
    decreases n
  {
    if n > 0 {
      NumToZeros(ds, b, n - 1);
    }
  }

  lemma ZerosFront(ds: seq<nat>, k: nat, b: nat)
    requires k <= |ds| && forall i :: 0 <= i < k ==> ds[i] == 0
    ensures Num(0, ds, b) == Num(0, ds[k..], b) && Num(0, ds[..k], b) == 0
  {
    assert ds == ds[..k] + ds[k..];
    NumToZeros(ds[..k], b, k);
    NumConcat(0, ds[..k], ds[k..], b);
  }

  // ---------- Bounds ----------

  lemma Times(a: nat, b: nat, x: nat, y: nat)
    requires a <= b && x <= y
    ensures a * x <= b * y
  {
    assert b * y == a * x + a * (y - x) + (b - a) * y;
  }

  lemma {:induction false} PowPositive(b: nat, k: nat)
    requires b > 0
    ensures Pow(b, k) > 0
  {
    if k > 0 {
      PowPositive(b, k - 1);
    }
  }

  lemma {:induction false} PowMonotone(b: nat, i: nat, j: nat)
    requires b > 0 && i <= j
    ensures Pow(b, i) <= Pow(b, j)
    decreases j
  {
    if i < j {
      PowMonotone(b, i, j - 1);
      Times(1, b, Pow(b, j - 1), Pow(b, j - 1));
    }
  }

  lemma PowReflects(b: nat, i: nat, j: nat)
    requires b > 0 && Pow(b, i) < Pow(b, j)
    ensures i < j
  {
    if j <= i {
      PowMonotone(b, j, i);
    }
  }

  lemma {:induction false} PowLarger(a: nat, b: nat, k: nat)
    requires a <= b
    ensures Pow(a, k) <= Pow(b, k)
  {
    if k > 0 {
      PowLarger(a, b, k - 1);
      Times(a, b, Pow(a, k - 1), Pow(b, k - 1));
    }
  }

  lemma {:induction false} PowSum(b: nat, i: nat, j: nat)
    ensures Pow(b, i + j) == Pow(b, i) * Pow(b, j)
  {
    if i > 0 {
      PowSum(b, i - 1, j);
      assert Pow(b, i + j) == b * Pow(b, i - 1 + j);
      Reassociate(b, Pow(b, i - 1), Pow(b, j));
    }
  }

  lemma Reassociate(x: nat, y: nat, z: nat)
    ensures x * (y * z) == x * y * z
  {
  }

  // acc and n more digits make a number from acc b^n up to (acc + 1) b^n.
  lemma {:induction false} NumToBounds(acc: nat, ds: seq<nat>, b: nat, n: nat)
    requires n <= |ds| && AreDigits(ds, b)
    ensures acc * Pow(b, n) <= NumTo(acc, ds, b, n) < (acc + 1) * Pow(b, n)
    decreases n
  {
    if n == 0 {
      assert Pow(b, 0) == 1;
    } else {
      NumToBounds(acc, ds, b, n - 1);
      Widen(acc, b, ds[n - 1], Pow(b, n - 1), NumTo(acc, ds, b, n - 1));
    }
  }

  lemma Widen(acc: nat, b: nat, d: nat, p: nat, x: nat)
    requires d < b && acc * p <= x < (acc + 1) * p
    ensures acc * (b * p) <= x * b + d < (acc + 1) * (b * p)
  {
    Times(acc * p, x, b, b);
    Times(x + 1, (acc + 1) * p, b, b);
    assert acc * (b * p) == acc * p * b;
    assert (acc + 1) * (b * p) == (acc + 1) * p * b;
    assert (x + 1) * b == x * b + b;
  }

  lemma NumBelow(ds: seq<nat>, b: nat)
    requires AreDigits(ds, b)
    ensures Num(0, ds, b) < Pow(b, |ds|)
  {
    NumToBounds(0, ds, b, |ds|);
  }

  // A number that is too small for a carry has none.
  lemma NoCarry(carry: nat, ds: seq<nat>, b: nat)
    requires AreDigits(ds, b) && Num(carry, ds, b) < Pow(b, |ds|)
    ensures carry == 0
  {
    NumToBounds(carry, ds, b, |ds|);
    if carry > 0 {
      Times(1, carry, Pow(b, |ds|), Pow(b, |ds|));
    }
  }

  // A first digit other than zero makes a number large.
  lemma Leading(ds: seq<nat>, b: nat)
    requires AreDigits(ds, b) && |ds| > 0
    ensures ds[0] * Pow(b, |ds| - 1) <= Num(0, ds, b)
    ensures ds[0] != 0 ==> Num(0, ds, b) >= Pow(b, |ds| - 1) > 0
  {
    var k := |ds| - 1;
    assert ds == [ds[0]] + ds[1..];
    NumCons(0, ds[0], ds[1..], b);
    NumToBounds(ds[0], ds[1..], b, k);
    PowPositive(b, k);
    if ds[0] != 0 {
      Times(1, ds[0], Pow(b, k), Pow(b, k));
    }
  }

  // ---------- Writing digits ----------

  // The digits of v, without leading zeros.
  ghost predicate IsNumeral(ds: seq<nat>, v: nat, b: nat) {
    Num(0, ds, b) == v && AreDigits(ds, b) && (|ds| > 0 ==> ds[0] != 0)
  }

  ghost function Digits(v: nat, b: nat): (r: seq<nat>)
    requires b > 1
    ensures IsNumeral(r, v, b)
  {
    DigitsExist(v, b);
    var ds: seq<nat> :| IsNumeral(ds, v, b);
    ds
  }

  lemma DivParts(v: nat, b: nat)
    requires b > 1 && v > 0
    ensures v / b * b + v % b == v && v % b < b && v / b < v
    ensures v / b == 0 ==> v % b == v
  {
    var q := v / b;
    assert v == b * q + v % b;
    Times(2, b, q, q);
  }

  lemma {:induction false} DigitsExist(v: nat, b: nat)
    requires b > 1
    ensures exists ds: seq<nat> :: IsNumeral(ds, v, b)
    decreases v
  {
    if v == 0 {
      assert IsNumeral([], v, b);
    } else {
      DivParts(v, b);
      DigitsExist(v / b, b);
      var ds: seq<nat> :| IsNumeral(ds, v / b, b);
      DigitMore(ds, v / b, v % b, b);
      assert IsNumeral(ds + [v % b], v, b);
    }
  }

  lemma DigitMore(ds: seq<nat>, q: nat, d: nat, b: nat)
    requires IsNumeral(ds, q, b) && d < b && (q == 0 ==> d != 0)
    ensures IsNumeral(ds + [d], q * b + d, b)
  {
    NumSnoc(0, ds, d, b);
  }

  lemma NextMultiple(p: nat, q: nat, b: nat)
    requires p < q
    ensures p * b + b <= q * b
  {
    assert (p + 1) * b == p * b + b;
    Times(p + 1, q, b, b);
  }

  lemma DivUnique(q1: nat, r1: nat, q2: nat, r2: nat, b: nat)
    requires q1 * b + r1 == q2 * b + r2 && r1 < b && r2 < b
    ensures q1 == q2 && r1 == r2
  {
    if q1 < q2 {
      NextMultiple(q1, q2, b);
    } else if q2 < q1 {
      NextMultiple(q2, q1, b);
    }
  }

  lemma NumLast(ds: seq<nat>, b: nat)
    requires |ds| > 0
    ensures Num(0, ds, b) == Num(0, ds[..|ds| - 1], b) * b + ds[|ds| - 1]
  {
    NumToLocal(0, ds, ds[..|ds| - 1], b, |ds| - 1);
  }

  // There is only one numeral without leading zeros.
  lemma {:induction false} NumeralUnique(xs: seq<nat>, ys: seq<nat>, v: nat, b: nat)
    requires b > 1 && IsNumeral(xs, v, b) && IsNumeral(ys, v, b)
    ensures xs == ys
    decreases |xs|
  {
    ZeroNumeral(xs, b);
    ZeroNumeral(ys, b);
    if |xs| > 0 {
      var i, j := |xs| - 1, |ys| - 1;
      NumLast(xs, b);
      NumLast(ys, b);
      DivUnique(Num(0, xs[..i], b), xs[i], Num(0, ys[..j], b), ys[j], b);
      NumeralUnique(xs[..i], ys[..j], Num(0, xs[..i], b), b);
      assert xs == xs[..i] + [xs[i]] && ys == ys[..j] + [ys[j]];
    }
  }

  lemma ZeroNumeral(ds: seq<nat>, b: nat)
    requires b > 1 && AreDigits(ds, b) && (|ds| > 0 ==> ds[0] != 0)
    ensures Num(0, ds, b) == 0 <==> |ds| == 0
  {
    if |ds| > 0 {
      Leading(ds, b);
    }
  }

  // The number of leading symbols z.
  function CountLeading(s: seq<nat>, z: nat): (r: nat)
    ensures r <= |s| && (forall i :: 0 <= i < r ==> s[i] == z) && (r < |s| ==> s[r] != z)
  {
    if |s| == 0 || s[0] != z then 0 else 1 + CountLeading(s[1..], z)
  }

  lemma CountIs(s: seq<nat>, z: nat, k: nat)
    requires k <= |s| && (forall i :: 0 <= i < k ==> s[i] == z) && (k < |s| ==> s[k] != z)
    ensures CountLeading(s, z) == k
  {
  }

  // The digits of a numeral are what is left behind the leading zeros.
  lemma StripZeros(ds: seq<nat>, j: nat, v: nat, b: nat)
    requires b > 1 && AreDigits(ds, b) && j == CountLeading(ds, 0) && v == Num(0, ds, b)
    ensures Digits(v, b) == ds[j..]
  {
    ZerosFront(ds, j, b);
    NumeralUnique(Digits(v, b), ds[j..], v, b);
  }
}
