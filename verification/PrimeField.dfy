/** The field of residues modulo an arbitrary prime above the identifier range. The operations are known through
    congruences only, so that proofs about them rest on the field laws. */
module PrimeField {
  import opened Primes

  const IDENTIFIER_BOUND: nat := 0x1_0000_0000

  type Modulus = q: nat | IsPrime(q) && q > IDENTIFIER_BOUND witness LeastPrimeAbove(IDENTIFIER_BOUND)

  const Q: Modulus

  type Scalar = x: nat | x < Q

  type BinaryOp = (Scalar, Scalar) -> Scalar

  ghost predicate SumAt(a: Scalar, b: Scalar, r: Scalar) { r == (a + b) % Q }
  ghost predicate DifferenceAt(a: Scalar, b: Scalar, r: Scalar) { r == (a - b) % Q }
  ghost predicate ProductAt(a: Scalar, b: Scalar, r: Scalar) { r == (a * b) % Q }
  ghost predicate InverseAt(a: Scalar, r: Scalar) { a != 0 ==> (a * r) % Q == 1 }

  ghost predicate IsAddition(f: BinaryOp) {
    forall a, b {:trigger SumAt(a, b, f(a, b))} :: SumAt(a, b, f(a, b))
  }

  ghost predicate IsSubtraction(f: BinaryOp) {
    forall a, b {:trigger DifferenceAt(a, b, f(a, b))} :: DifferenceAt(a, b, f(a, b))
  }

  ghost predicate IsMultiplication(f: BinaryOp) {
    forall a, b {:trigger ProductAt(a, b, f(a, b))} :: ProductAt(a, b, f(a, b))
  }

  ghost predicate IsInversion(f: Scalar -> Scalar) {
    forall a {:trigger InverseAt(a, f(a))} :: InverseAt(a, f(a))
  }

  function AddMod(a: Scalar, b: Scalar): Scalar { (a + b) % Q }
  function SubMod(a: Scalar, b: Scalar): Scalar { (a - b) % Q }
  function MulMod(a: Scalar, b: Scalar): Scalar { (a * b) % Q }

  /** Coefficients u, v with u * a + v * b == gcd(a, b). */
  function Bezout(a: nat, b: nat): (r: (int, int))
    requires a > 0
    ensures var g := r.0 * a + r.1 * b; g > 0 && Divides(g, a) && Divides(g, b)
    decreases b
  {
    if b == 0 then (1, 0)
    else
      var (u, v) := Bezout(b, a % b);
      BezoutStep(u, v, a, b);
      DividesStep(u * b + v * (a % b), a, b);
      (v, u - v * (a / b))
  }

  lemma {:induction false} BezoutStep(u: int, v: int, a: nat, b: nat)
    requires b > 0
    ensures u * b + v * (a % b) == v * a + (u - v * (a / b)) * b
  {
    var c := a / b;
    assert a % b == a - c * b;
    assert v * (a - c * b) == v * a - v * c * b;
    assert (u - v * c) * b == u * b - v * c * b;
  }

  lemma {:induction false} DividesStep(g: int, a: nat, b: nat)
    requires b > 0 && g > 0 && Divides(g, b) && Divides(g, a % b)
    ensures Divides(g, a)
  {
    var i, j := b / g, (a % b) / g;
    assert a == (a / b) * b + a % b;
    assert a == ((a / b) * i + j) * g + 0;
    MultipleMod((a / b) * i + j, g, 0);
  }

  function InvMod(a: Scalar): (r: Scalar)
    ensures InverseAt(a, r)
  {
    if a == 0 then 0 else
      var (u, v) := Bezout(a, Q);
      InverseFromBezout(a, u, v);
      u % Q
  }

  lemma {:induction false} InverseFromBezout(a: Scalar, u: int, v: int)
    requires a != 0
    requires var g := u * a + v * Q; g > 0 && Divides(g, a) && Divides(g, Q)
    ensures (a * (u % Q)) % Q == 1
  {
    var g := u * a + v * Q;
    DivisorAtMost(g, a);
    var k := u / Q;
    assert u == k * Q + u % Q;
    assert a * (u % Q) == a * u - a * (k * Q) == (-v - a * k) * Q + 1;
    MultipleMod(-v - a * k, Q, 1);
  }

  type Addition = f: BinaryOp | IsAddition(f) witness AddMod
  type Subtraction = f: BinaryOp | IsSubtraction(f) witness SubMod
  type Multiplication = f: BinaryOp | IsMultiplication(f) witness MulMod
  type Inversion = f: Scalar -> Scalar | IsInversion(f) witness InvMod

  const ADDITION: Addition
  const SUBTRACTION: Subtraction
  const MULTIPLICATION: Multiplication
  const INVERSION: Inversion

  function Add(a: Scalar, b: Scalar): Scalar { ADDITION(a, b) }
  function Sub(a: Scalar, b: Scalar): Scalar { SUBTRACTION(a, b) }
  function Mul(a: Scalar, b: Scalar): Scalar { MULTIPLICATION(a, b) }
  function Inv(a: Scalar): Scalar { INVERSION(a) }

  // ---- congruence: the only bridge from the operations to the integers ----

  /** Two residues that differ by a multiple of Q are equal. */
  lemma {:induction false} SameResidue(a: Scalar, b: Scalar, k: int)
    requires a - b == k * Q
    ensures a == b
  {
    QuotientUnique(k, Q, a - b);
  }

  lemma {:induction false} AddRep(a: Scalar, b: Scalar) returns (k: int)
    ensures a + b == Add(a, b) + k * Q
  {
    assert SumAt(a, b, ADDITION(a, b));
    k := (a + b) / Q;
  }

  lemma {:induction false} SubRep(a: Scalar, b: Scalar) returns (k: int)
    ensures a - b == Sub(a, b) + k * Q
  {
    assert DifferenceAt(a, b, SUBTRACTION(a, b));
    k := (a - b) / Q;
  }

  lemma {:induction false} MulRep(a: Scalar, b: Scalar) returns (k: int)
    ensures a * b == Mul(a, b) + k * Q
  {
    assert ProductAt(a, b, MULTIPLICATION(a, b));
    k := (a * b) / Q;
  }

  // ---- field laws ----

  lemma {:induction false} AddComm(a: Scalar, b: Scalar)
    ensures Add(a, b) == Add(b, a)
  {
    var i := AddRep(a, b);
    var j := AddRep(b, a);
    SameResidue(Add(a, b), Add(b, a), j - i);
  }

  lemma {:induction false} AddAssoc(a: Scalar, b: Scalar, c: Scalar)
    ensures Add(Add(a, b), c) == Add(a, Add(b, c))
  {
    var i := AddRep(a, b);
    var j := AddRep(Add(a, b), c);
    var k := AddRep(b, c);
    var l := AddRep(a, Add(b, c));
    SameResidue(Add(Add(a, b), c), Add(a, Add(b, c)), k + l - i - j);
  }

  lemma {:induction false} AddZero(a: Scalar)
    ensures Add(a, 0) == a && Add(0, a) == a
  {
    AddComm(a, 0);
    var k := AddRep(a, 0);
    SameResidue(Add(a, 0), a, -k);
  }

  lemma {:induction false} SubAdd(a: Scalar, b: Scalar)
    ensures Add(Sub(a, b), b) == a && Sub(Add(a, b), b) == a
  {
    var i := SubRep(a, b);
    var j := AddRep(Sub(a, b), b);
    SameResidue(Add(Sub(a, b), b), a, -i - j);
    var k := AddRep(a, b);
    var l := SubRep(Add(a, b), b);
    SameResidue(Sub(Add(a, b), b), a, -k - l);
  }

  lemma {:induction false} MulComm(a: Scalar, b: Scalar)
    ensures Mul(a, b) == Mul(b, a)
  {
    var i := MulRep(a, b);
    var j := MulRep(b, a);
    SameResidue(Mul(a, b), Mul(b, a), j - i);
  }

  lemma {:induction false} ScaleMultiple(a: int, b: int, i: int)
    ensures a * (b + i * Q) == a * b + (a * i) * Q
  {
  }

  lemma {:induction false} TripleRep(a: Scalar, b: Scalar, c: Scalar) returns (k: int)
    ensures (a * b) * c == Mul(Mul(a, b), c) + k * Q
  {
    var i := MulRep(a, b);
    var j := MulRep(Mul(a, b), c);
    ScaleMultiple(c, Mul(a, b), i);
    k := j + c * i;
  }

  lemma {:induction false} MulAssoc(a: Scalar, b: Scalar, c: Scalar)
    ensures Mul(Mul(a, b), c) == Mul(a, Mul(b, c))
  {
    var i := TripleRep(a, b, c);
    var j := TripleRep(b, c, a);
    assert (a * b) * c == (b * c) * a;
    SameResidue(Mul(Mul(a, b), c), Mul(Mul(b, c), a), j - i);
    MulComm(Mul(b, c), a);
  }

  lemma {:induction false} MulOne(a: Scalar)
    ensures Mul(a, 1) == a && Mul(1, a) == a
  {
    MulComm(a, 1);
    var k := MulRep(a, 1);
    SameResidue(Mul(a, 1), a, -k);
  }

  lemma {:induction false} MulZero(a: Scalar)
    ensures Mul(a, 0) == 0 && Mul(0, a) == 0
  {
    MulComm(a, 0);
    var k := MulRep(a, 0);
    SameResidue(Mul(a, 0), 0, -k);
  }

  lemma {:induction false} ProductOfSumRep(a: Scalar, b: Scalar, c: Scalar) returns (k: int)
    ensures a * (b + c) == Mul(a, Add(b, c)) + k * Q
  {
    var i := AddRep(b, c);
    var j := MulRep(a, Add(b, c));
    ScaleMultiple(a, Add(b, c), i);
    k := j + a * i;
  }

  lemma {:induction false} SumOfProductsRep(a: Scalar, b: Scalar, c: Scalar) returns (k: int)
    ensures a * b + a * c == Add(Mul(a, b), Mul(a, c)) + k * Q
  {
    var i := MulRep(a, b);
    var j := MulRep(a, c);
    var l := AddRep(Mul(a, b), Mul(a, c));
    k := i + j + l;
  }

  lemma {:induction false} Distrib(a: Scalar, b: Scalar, c: Scalar)
    ensures Mul(a, Add(b, c)) == Add(Mul(a, b), Mul(a, c))
  {
    var i := ProductOfSumRep(a, b, c);
    var j := SumOfProductsRep(a, b, c);
    assert a * (b + c) == a * b + a * c;
    SameResidue(Mul(a, Add(b, c)), Add(Mul(a, b), Mul(a, c)), j - i);
  }

  lemma {:induction false} MulInv(a: Scalar)
    requires a != 0
    ensures Mul(a, Inv(a)) == 1 && Mul(Inv(a), a) == 1
  {
    MulComm(a, Inv(a));
    assert InverseAt(a, INVERSION(a));
    assert ProductAt(a, Inv(a), MULTIPLICATION(a, Inv(a)));
  }

  // ---- consequences ----

  lemma {:induction false} NoZeroDivisors(a: Scalar, b: Scalar)
    requires Mul(a, b) == 0
    ensures a == 0 || b == 0
  {
    if a != 0 {
      MulInv(a);
      MulAssoc(Inv(a), a, b);
      MulOne(b);
      MulZero(Inv(a));
    }
  }

  lemma {:induction false} ProductNotZero(a: Scalar, b: Scalar)
    requires a != 0 && b != 0
    ensures Mul(a, b) != 0
  {
    if Mul(a, b) == 0 {
      NoZeroDivisors(a, b);
    }
  }

  lemma {:induction false} AddCancel(a: Scalar, b: Scalar, c: Scalar)
    requires Add(a, c) == Add(b, c)
    ensures a == b
  {
    SubAdd(a, c);
    SubAdd(b, c);
  }

  lemma {:induction false} SubZero(a: Scalar, b: Scalar)
    ensures Sub(a, b) == 0 <==> a == b
  {
    SubAdd(a, b);
    AddZero(b);
    AddComm(0, b);
    SubAdd(0, b);
  }

  lemma {:induction false} SubAsAdd(a: Scalar, b: Scalar)
    ensures Sub(a, b) == Add(a, Sub(0, b))
  {
    AddAssoc(a, Sub(0, b), b);
    SubAdd(0, b);
    AddZero(a);
    SubAdd(Add(a, Sub(0, b)), b);
  }

  lemma {:induction false} SubLaws(a: Scalar, b: Scalar, c: Scalar)
    ensures Mul(c, Sub(a, b)) == Sub(Mul(c, a), Mul(c, b))
  {
    Distrib(c, Sub(a, b), b);
    SubAdd(a, b);
    SubAdd(Mul(c, Sub(a, b)), Mul(c, b));
  }

  lemma {:induction false} MulCancel(k: Scalar, a: Scalar, b: Scalar)
    requires k != 0 && Mul(k, a) == Mul(k, b)
    ensures a == b
  {
    SubLaws(a, b, k);
    SubZero(Mul(k, a), Mul(k, b));
    NoZeroDivisors(k, Sub(a, b));
    SubZero(a, b);
  }

  lemma {:induction false} InvNotZero(a: Scalar)
    requires a != 0
    ensures Inv(a) != 0
  {
    MulInv(a);
    MulZero(a);
  }
}
