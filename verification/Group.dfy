/** The prime-order group, each element given by its discrete logarithm to the generator. */
module Group {
  import opened PrimeField

  datatype Element = Element(log: Scalar) {
    predicate IsIdentity() {
      this == IDENTITY
    }

    function Plus(other: Element): Element {
      Element(Add(log, other.log))
    }
  }

  const IDENTITY: Element := Element(0)
  const GENERATOR: Element := Element(1)

  function ScalarMult(e: Element, k: Scalar): Element {
    Element(Mul(e.log, k))
  }

  function ScalarBaseMult(k: Scalar): (e: Element)
    ensures e == Element(k)
  {
    MulOne(k);
    ScalarMult(GENERATOR, k)
  }

  function Logs(es: seq<Element>): (ls: seq<Scalar>)
    ensures |ls| == |es| && forall i :: 0 <= i < |es| ==> ls[i] == es[i].log
  {
    seq(|es|, i requires 0 <= i < |es| => es[i].log)
  }

  /** The coefficient commitments of a polynomial. */
  function Commit(p: seq<Scalar>): (cs: seq<Element>)
    ensures |cs| == |p| && forall i :: 0 <= i < |p| ==> cs[i] == ScalarBaseMult(p[i])
    ensures Logs(cs) == p
  {
    seq(|p|, i requires 0 <= i < |p| => ScalarBaseMult(p[i]))
  }
}
