/**
The algebra that the cryptographic packages compute in: a field of scalars and a
module of points over it. Both are records of operations, and IsField and IsModule
say which laws the operations obey, so every theorem built on them holds for any
scalar field and any group of points, the Ristretto group included.

Each law is stated with the trigger At(x), a predicate that is always true. A law
is used at chosen elements by naming them in At; it never fires by itself.
*/
module Algebra {

  datatype Field<!F> = Field(
    zero: F,
    one: F,
    sum: ((F, F)) -> F,
    difference: ((F, F)) -> F,
    product: ((F, F)) -> F,
    quotient: ((F, F)) -> F)
  {
    function Add(x: F, y: F): F {
      sum((x, y))
    }

    function Neg(x: F): F {
      difference((zero, x))
    }

    function Mul(x: F, y: F): F {
      product((x, y))
    }

    function Inv(x: F): F {
      quotient((one, x))
    }

    function Sub(x: F, y: F): F {
      Add(x, Neg(y))
    }

    function Square(x: F): F {
      Mul(x, x)
    }
  }

  datatype Points<!F, !P> = Points(
    zero: P,
    sum: ((P, P)) -> P,
    difference: ((P, P)) -> P,
    multiple: ((F, P)) -> P)
  {
    function Add(x: P, y: P): P {
      sum((x, y))
    }

    function Neg(x: P): P {
      difference((zero, x))
    }

    function Scale(k: F, x: P): P {
      multiple((k, x))
    }

    function Sub(x: P, y: P): P {
      Add(x, Neg(y))
    }
  }

  ghost predicate At<T>(x: T) {
    true
  }

  ghost predicate IsField<F(!new)>(f: Field<F>) {
    && f.zero != f.one
    && (forall x, y {:trigger At(x), At(y)} :: f.Add(x, y) == f.Add(y, x))
    && (forall x, y, z {:trigger At(x), At(y), At(z)} :: f.Add(f.Add(x, y), z) == f.Add(x, f.Add(y, z)))
    && (forall x {:trigger At(x)} :: f.Add(x, f.zero) == x)
    && (forall x {:trigger At(x)} :: f.Add(x, f.Neg(x)) == f.zero)
    && (forall x, y {:trigger At(x), At(y)} :: f.Mul(x, y) == f.Mul(y, x))
    && (forall x, y, z {:trigger At(x), At(y), At(z)} :: f.Mul(f.Mul(x, y), z) == f.Mul(x, f.Mul(y, z)))
    && (forall x {:trigger At(x)} :: f.Mul(x, f.one) == x)
    && (forall x, y, z {:trigger At(x), At(y), At(z)} :: f.Mul(x, f.Add(y, z)) == f.Add(f.Mul(x, y), f.Mul(x, z)))
    && (forall x {:trigger At(x)} :: x != f.zero ==> f.Mul(x, f.Inv(x)) == f.one)
  }

  ghost predicate IsModule<F(!new), P(!new)>(f: Field<F>, m: Points<F, P>) {
    && IsField(f)
    && (forall x, y {:trigger At(x), At(y)} :: m.Add(x, y) == m.Add(y, x))
    && (forall x, y, z {:trigger At(x), At(y), At(z)} :: m.Add(m.Add(x, y), z) == m.Add(x, m.Add(y, z)))
    && (forall x {:trigger At(x)} :: m.Add(x, m.zero) == x)
    && (forall x {:trigger At(x)} :: m.Add(x, m.Neg(x)) == m.zero)
    && (forall x {:trigger At(x)} :: m.Scale(f.one, x) == x)
    && (forall k, x, y {:trigger At(k), At(x), At(y)} :: m.Scale(k, m.Add(x, y)) == m.Add(m.Scale(k, x), m.Scale(k, y)))
    && (forall k, l, x {:trigger At(k), At(l), At(x)} :: m.Scale(f.Add(k, l), x) == m.Add(m.Scale(k, x), m.Scale(l, x)))
    && (forall k, l, x {:trigger At(k), At(l), At(x)} :: m.Scale(f.Mul(k, l), x) == m.Scale(k, m.Scale(l, x)))
  }

  // The scalars, seen as points over themselves.
  function Self<F>(f: Field<F>): Points<F, F> {
    Points(f.zero, f.sum, f.difference, f.product)
  }

  lemma SelfIsModule<F(!new)>(f: Field<F>)
    requires IsField(f)
    ensures IsModule(f, Self(f))
  {
    var m := Self(f);
    forall x, y ensures m.Add(x, y) == m.Add(y, x) {
      assert At(x) && At(y) && m.Add(x, y) == f.Add(x, y);
    }
    forall x, y, z ensures m.Add(m.Add(x, y), z) == m.Add(x, m.Add(y, z)) {
      assert At(x) && At(y) && At(z) && f.Add(f.Add(x, y), z) == f.Add(x, f.Add(y, z));
    }
    forall x ensures m.Add(x, m.zero) == x {
      assert At(x) && f.Add(x, f.zero) == x;
    }
    forall x ensures m.Add(x, m.Neg(x)) == m.zero {
      assert At(x) && f.Add(x, f.Neg(x)) == f.zero;
    }
    forall x ensures m.Scale(f.one, x) == x {
      assert At(x) && At(f.one) && f.Mul(f.one, x) == x;
    }
    forall k, x, y ensures m.Scale(k, m.Add(x, y)) == m.Add(m.Scale(k, x), m.Scale(k, y)) {
      assert At(k) && At(x) && At(y) && f.Mul(k, f.Add(x, y)) == f.Add(f.Mul(k, x), f.Mul(k, y));
    }
    forall k, l, x ensures m.Scale(f.Add(k, l), x) == m.Add(m.Scale(k, x), m.Scale(l, x)) {
      assert At(k) && At(l) && At(x) && At(f.Add(k, l)) && f.Mul(f.Add(k, l), x) == f.Add(f.Mul(k, x), f.Mul(l, x));
    }
    forall k, l, x ensures m.Scale(f.Mul(k, l), x) == m.Scale(k, m.Scale(l, x)) {
      assert At(k) && At(l) && At(x) && f.Mul(f.Mul(k, l), x) == f.Mul(k, f.Mul(l, x));
    }
  }

  // Laws at given elements.

  lemma AddComm<F(!new), P(!new)>(f: Field<F>, m: Points<F, P>, x: P, y: P)
    requires IsModule(f, m)
    ensures m.Add(x, y) == m.Add(y, x)
  {
    assert At(x) && At(y);
  }

  lemma AddAssoc<F(!new), P(!new)>(f: Field<F>, m: Points<F, P>, x: P, y: P, z: P)
    requires IsModule(f, m)
    ensures m.Add(m.Add(x, y), z) == m.Add(x, m.Add(y, z))
  {
    assert At(x) && At(y) && At(z);
  }

  // (x + y) + z == (x + z) + y
  lemma SwapLast<F(!new), P(!new)>(f: Field<F>, m: Points<F, P>, x: P, y: P, z: P)
    requires IsModule(f, m)
    ensures m.Add(m.Add(x, y), z) == m.Add(m.Add(x, z), y)
  {
    AddAssoc(f, m, x, y, z);
    AddComm(f, m, y, z);
    AddAssoc(f, m, x, z, y);
  }

  lemma AddZero<F(!new), P(!new)>(f: Field<F>, m: Points<F, P>, x: P)
    requires IsModule(f, m)
    ensures m.Add(x, m.zero) == x == m.Add(m.zero, x)
  {
    assert At(x) && At(m.zero);
  }

  lemma AddNeg<F(!new), P(!new)>(f: Field<F>, m: Points<F, P>, x: P)
    requires IsModule(f, m)
    ensures m.Add(x, m.Neg(x)) == m.zero == m.Add(m.Neg(x), x)
  {
    assert At(x) && At(m.Neg(x));
  }

  lemma ScaleAdd<F(!new), P(!new)>(f: Field<F>, m: Points<F, P>, k: F, x: P, y: P)
    requires IsModule(f, m)
    ensures m.Scale(k, m.Add(x, y)) == m.Add(m.Scale(k, x), m.Scale(k, y))
  {
    assert At(k) && At(x) && At(y);
  }

  lemma ScaleSum<F(!new), P(!new)>(f: Field<F>, m: Points<F, P>, k: F, l: F, x: P)
    requires IsModule(f, m)
    ensures m.Scale(f.Add(k, l), x) == m.Add(m.Scale(k, x), m.Scale(l, x))
  {
    assert At(k) && At(l) && At(x);
  }

  lemma ScaleMul<F(!new), P(!new)>(f: Field<F>, m: Points<F, P>, k: F, l: F, x: P)
    requires IsModule(f, m)
    ensures m.Scale(f.Mul(k, l), x) == m.Scale(k, m.Scale(l, x))
  {
    assert At(k) && At(l) && At(x);
  }

  lemma ScaleOne<F(!new), P(!new)>(f: Field<F>, m: Points<F, P>, x: P)
    requires IsModule(f, m)
    ensures m.Scale(f.one, x) == x
  {
    assert At(x);
  }

  // (a + b) + (c + d) == (a + c) + (b + d)
  lemma Interchange<F(!new), P(!new)>(f: Field<F>, m: Points<F, P>, a: P, b: P, c: P, d: P)
    requires IsModule(f, m)
    ensures m.Add(m.Add(a, b), m.Add(c, d)) == m.Add(m.Add(a, c), m.Add(b, d))
  {
    AddAssoc(f, m, a, b, m.Add(c, d));
    AddAssoc(f, m, b, c, d);
    AddComm(f, m, b, c);
    AddAssoc(f, m, c, b, d);
    AddAssoc(f, m, a, c, m.Add(b, d));
  }

  lemma Cancel<F(!new), P(!new)>(f: Field<F>, m: Points<F, P>, x: P, y: P, z: P)
    requires IsModule(f, m)
    requires m.Add(x, z) == m.Add(y, z)
    ensures x == y
  {
    AddAssoc(f, m, x, z, m.Neg(z));
    AddAssoc(f, m, y, z, m.Neg(z));
    AddNeg(f, m, z);
    AddZero(f, m, x);
    AddZero(f, m, y);
  }

  lemma ScaleZero<F(!new), P(!new)>(f: Field<F>, m: Points<F, P>, k: F, x: P)
    requires IsModule(f, m)
    ensures m.Scale(f.zero, x) == m.zero
    ensures m.Scale(k, m.zero) == m.zero
  {
    SelfIsModule(f);
    AddZero(f, Self(f), f.zero);
    ScaleSum(f, m, f.zero, f.zero, x);
    AddZero(f, m, m.Scale(f.zero, x));
    Cancel(f, m, m.Scale(f.zero, x), m.zero, m.Scale(f.zero, x));
    AddZero(f, m, m.zero);
    ScaleAdd(f, m, k, m.zero, m.zero);
    AddZero(f, m, m.Scale(k, m.zero));
    Cancel(f, m, m.Scale(k, m.zero), m.zero, m.Scale(k, m.zero));
  }

  // A scaled negation is the negated scaling, on either side.
  lemma ScaleNeg<F(!new), P(!new)>(f: Field<F>, m: Points<F, P>, k: F, x: P)
    requires IsModule(f, m)
    ensures m.Scale(f.Neg(k), x) == m.Neg(m.Scale(k, x)) == m.Scale(k, m.Neg(x))
  {
    SelfIsModule(f);
    var y := m.Scale(k, x);
    AddNeg(f, m, y);
    ScaleZero(f, m, k, x);
    ScaleSum(f, m, f.Neg(k), k, x);
    AddNeg(f, Self(f), k);
    Cancel(f, m, m.Scale(f.Neg(k), x), m.Neg(y), y);
    ScaleAdd(f, m, k, m.Neg(x), x);
    AddNeg(f, m, x);
    Cancel(f, m, m.Scale(k, m.Neg(x)), m.Neg(y), y);
  }

  // -(x + y) == -x + -y
  lemma NegAdd<F(!new), P(!new)>(f: Field<F>, m: Points<F, P>, x: P, y: P)
    requires IsModule(f, m)
    ensures m.Neg(m.Add(x, y)) == m.Add(m.Neg(x), m.Neg(y))
  {
    Interchange(f, m, m.Neg(x), m.Neg(y), x, y);
    AddNeg(f, m, x);
    AddNeg(f, m, y);
    AddZero(f, m, m.zero);
    AddNeg(f, m, m.Add(x, y));
    Cancel(f, m, m.Neg(m.Add(x, y)), m.Add(m.Neg(x), m.Neg(y)), m.Add(x, y));
  }

  lemma MulComm<F(!new)>(f: Field<F>, x: F, y: F)
    requires IsField(f)
    ensures f.Mul(x, y) == f.Mul(y, x)
  {
    assert At(x) && At(y);
  }

  lemma MulAssoc<F(!new)>(f: Field<F>, x: F, y: F, z: F)
    requires IsField(f)
    ensures f.Mul(f.Mul(x, y), z) == f.Mul(x, f.Mul(y, z))
  {
    assert At(x) && At(y) && At(z);
  }

  lemma MulOne<F(!new)>(f: Field<F>, x: F)
    requires IsField(f)
    ensures f.Mul(x, f.one) == x == f.Mul(f.one, x)
  {
    assert At(x) && At(f.one);
  }

  lemma MulInv<F(!new)>(f: Field<F>, x: F)
    requires IsField(f) && x != f.zero
    ensures f.Mul(x, f.Inv(x)) == f.one == f.Mul(f.Inv(x), x)
  {
    assert At(x) && At(f.Inv(x));
  }

  // (a * b) * (c * d) == (a * c) * (b * d)
  lemma MulInterchange<F(!new)>(f: Field<F>, a: F, b: F, c: F, d: F)
    requires IsField(f)
    ensures f.Mul(f.Mul(a, b), f.Mul(c, d)) == f.Mul(f.Mul(a, c), f.Mul(b, d))
  {
    MulAssoc(f, a, b, f.Mul(c, d));
    MulAssoc(f, b, c, d);
    MulComm(f, b, c);
    MulAssoc(f, c, b, d);
    MulAssoc(f, a, c, f.Mul(b, d));
  }
}
