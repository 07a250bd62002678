/** Batch verification of signatures by a random linear combination. */
module Batch {
  import opened PrimeField
  import opened Group
  import opened Types
  import opened Sums
  import opened Encoding
  import opened Aggregator
  import opened Transcript

  datatype Item = Item(key: Element, sig: Signature, challenge: Scalar)

  /** z*G == R + c*VK for one item. */
  predicate Valid(item: Item) {
    SchnorrEquation(item.sig, item.key, item.challenge)
  }

  /** The item made of a key, a signature and a message, or why it is refused. */
  function ItemFor(suite: Suite, key: Element, sig: Signature, msg: Bytes): Result<Item> {
    if key.IsIdentity() then Err(Plain(IdentityElement))
    else if sig.R.IsIdentity() then Err(Plain(IdentityElement))
    else Ok(Item(key, sig, suite.H2(ChallengeInput(suite, sig.R, key, msg))))
  }

  /** How far an item is from valid: z - R - c*VK, as a logarithm. */
  function Defect(item: Item): Scalar {
    Sub(item.sig.z, Add(item.sig.R.log, Mul(item.key.log, item.challenge)))
  }

  function Defects(items: seq<Item>): (ds: seq<Scalar>)
    ensures |ds| == |items| && forall i :: 0 <= i < |items| ==> ds[i] == Defect(items[i])
  {
    seq(|items|, i requires 0 <= i < |items| => Defect(items[i]))
  }

  /** The verdict on the accumulated items with the drawn blinds: a single item is verified directly. */
  function Verdict(items: seq<Item>, blinds: seq<Scalar>): Result<()>
    requires |blinds| == |items|
  {
    if items == [] then Err(Plain(InvalidParameters))
    else if |items| == 1 then if Valid(items[0]) then Ok(()) else Err(Plain(InvalidSignature))
    else if Dot(blinds, Defects(items)) == 0 then Ok(())
    else Err(Plain(InvalidSignature))
  }

  class BatchVerifier {
    var items: seq<Item>

    constructor ()
      ensures items == []
    {
      items := [];
    }

    method Add(suite: Suite, key: Element, sig: Signature, msg: Bytes) returns (r: Result<()>)
      modifies this
      ensures var item := ItemFor(suite, key, sig, msg);
        if item.Ok? then r == Ok(()) && items == old(items) + [item.value]
          else r == Err(item.error) && items == old(items)
      ensures r == if key == IDENTITY || sig.R == IDENTITY then Err(Plain(IdentityElement)) else Ok(())
      ensures r.Ok? ==> items == old(items) + [Item(key, sig, suite.H2(ChallengeInput(suite, sig.R, key, msg)))]
    {
      if key.IsIdentity() {
        return Err(Plain(IdentityElement));
      }
      if sig.R.IsIdentity() {
        return Err(Plain(IdentityElement));
      }
      var challenge := suite.H2(suite.ElementBytes(sig.R) + suite.ElementBytes(key) + msg);
      items := items + [Item(key, sig, challenge)];
      r := Ok(());
    }

    /** `blinds` are the scalars drawn for the items. */
    method Verify(blinds: seq<Scalar>) returns (r: Result<()>)
      requires |blinds| == |items|
      ensures r == Verdict(items, blinds)
      ensures items == [] ==> r == Err(Plain(InvalidParameters))
      ensures |items| == 1 ==>
        r == if items[0].sig.z == PrimeField.Add(items[0].sig.R.log, Mul(items[0].key.log, items[0].challenge))
             then Ok(()) else Err(Plain(InvalidSignature))
      ensures |items| >= 2 ==> r == if Dot(blinds, Defects(items)) == 0 then Ok(()) else Err(Plain(InvalidSignature))
    {
      if |items| == 0 {
        return Err(Plain(InvalidParameters));
      }
      if |items| == 1 {
        ValidHasNoDefect(items[0]);
        r := VerifySingle(items[0]);
        return;
      }
      var gCoeff := 0;
      var accumR, accumVK := IDENTITY, IDENTITY;
      CombinedStart();
      for i := 0 to |items|
        invariant Combined(gCoeff, accumR.log, accumVK.log, DotTo(blinds, Defects(items), i))
      {
        var blind, item := blinds[i], items[i];
        CombinedStep(gCoeff, accumR.log, accumVK.log, DotTo(blinds, Defects(items), i), blind, item);
        gCoeff := Sub(gCoeff, Mul(blind, item.sig.z));
        accumR := accumR.Plus(ScalarMult(item.sig.R, blind));
        accumVK := accumVK.Plus(ScalarMult(item.key, Mul(blind, item.challenge)));
      }
      var gTerm := ScalarBaseMult(gCoeff);
      var check := gTerm.Plus(accumR).Plus(accumVK);
      CombinedCheck(gCoeff, accumR.log, accumVK.log, Dot(blinds, Defects(items)));
      if !check.IsIdentity() {
        return Err(Plain(InvalidSignature));
      }
      r := Ok(());
    }

    method VerifySingle(item: Item) returns (r: Result<()>)
      ensures r == if Defect(item) == 0 then Ok(()) else Err(Plain(InvalidSignature))
    {
      ValidHasNoDefect(item);
      var left := ScalarBaseMult(item.sig.z);
      var right := item.sig.R.Plus(ScalarMult(item.key, item.challenge));
      if left != right {
        return Err(Plain(InvalidSignature));
      }
      r := Ok(());
    }

    method Size() returns (n: nat)
      ensures n == |items|
    {
      n := |items|;
    }

    method Clear()
      modifies this
      ensures items == []
    {
      items := [];
    }
  }

  /** The accumulated -sum(b z), sum(b R), sum(b c VK) add up with sum(b * defect) to zero. */
  ghost predicate Combined(g: Scalar, r: Scalar, v: Scalar, d: Scalar) {
    PrimeField.Add(PrimeField.Add(PrimeField.Add(g, r), v), d) == 0
  }

  lemma {:induction false} CombinedStart()
    ensures Combined(0, 0, 0, 0)
  {
    AddZero(0);
  }

  lemma {:induction false} CombinedCheck(g: Scalar, r: Scalar, v: Scalar, d: Scalar)
    requires Combined(g, r, v, d)
    ensures PrimeField.Add(PrimeField.Add(g, r), v) == 0 <==> d == 0
  {
    AddZero(d);
    AddZero(PrimeField.Add(PrimeField.Add(g, r), v));
  }

  /** (g - bz) + (r + bR) + (v + bcV) + (d + b(z - (R + Vc))) == g + r + v + d */
  lemma {:induction false} CombinedStep(g: Scalar, r: Scalar, v: Scalar, d: Scalar, b: Scalar, item: Item)
    requires Combined(g, r, v, d)
    ensures Combined(Sub(g, Mul(b, item.sig.z)),
                     PrimeField.Add(r, Mul(item.sig.R.log, b)),
                     PrimeField.Add(v, Mul(item.key.log, Mul(b, item.challenge))),
                     PrimeField.Add(d, Mul(b, Defect(item))))
  {
    var bz, br, bv := Mul(b, item.sig.z), Mul(item.sig.R.log, b), Mul(item.key.log, Mul(b, item.challenge));
    var be := Mul(b, Defect(item));
    assert bz == PrimeField.Add(be, PrimeField.Add(br, bv)) by {
      var right := PrimeField.Add(item.sig.R.log, Mul(item.key.log, item.challenge));
      SubAdd(item.sig.z, right);
      PrimeField.Distrib(b, Defect(item), right);
      PrimeField.Distrib(b, item.sig.R.log, Mul(item.key.log, item.challenge));
      MulComm(b, item.sig.R.log);
      MulAssoc(b, item.key.log, item.challenge);
      MulComm(b, item.key.log);
      MulAssoc(item.key.log, b, item.challenge);
    }
    Rebalance(g, r, v, d, bz, br, bv, be);
  }

  lemma {:induction false} Rebalance(g: Scalar, r: Scalar, v: Scalar, d: Scalar, bz: Scalar, br: Scalar, bv: Scalar,
                                     be: Scalar)
    requires bz == PrimeField.Add(be, PrimeField.Add(br, bv))
    ensures PrimeField.Add(PrimeField.Add(PrimeField.Add(Sub(g, bz), PrimeField.Add(r, br)), PrimeField.Add(v, bv)),
                           PrimeField.Add(d, be))
         == PrimeField.Add(PrimeField.Add(PrimeField.Add(g, r), v), d)
  {
    var n := Sub(0, bz);
    SubAsAdd(g, bz);
    Swap4(g, n, r, br);
    Swap4(PrimeField.Add(g, r), PrimeField.Add(n, br), v, bv);
    Swap4(PrimeField.Add(PrimeField.Add(g, r), v), PrimeField.Add(PrimeField.Add(n, br), bv), d, be);
    assert PrimeField.Add(PrimeField.Add(PrimeField.Add(n, br), bv), be) == 0 by {
      AddAssoc(n, br, bv);
      AddAssoc(n, PrimeField.Add(br, bv), be);
      AddComm(PrimeField.Add(br, bv), be);
      SubAdd(0, bz);
    }
    AddZero(PrimeField.Add(PrimeField.Add(PrimeField.Add(g, r), v), d));
  }

  // ---- what a verdict is worth ----

  lemma {:induction false} ValidHasNoDefect(item: Item)
    ensures Valid(item) <==> Defect(item) == 0
  {
    SubZero(item.sig.z, PrimeField.Add(item.sig.R.log, Mul(item.key.log, item.challenge)));
  }

  /** A single item is accepted exactly if its signature is valid, whatever the blind: z is R + c*VK. */
  lemma {:induction false} SingleExact(items: seq<Item>, blinds: seq<Scalar>)
    requires |items| == |blinds| == 1
    ensures Verdict(items, blinds).Ok? <==>
      items[0].sig.z == PrimeField.Add(items[0].sig.R.log, Mul(items[0].key.log, items[0].challenge))
  {
  }

  /** If every item is valid the batch is accepted, whatever the blinds. */
  lemma {:induction false} BatchComplete(items: seq<Item>, blinds: seq<Scalar>)
    requires items != [] && |blinds| == |items|
    requires forall i :: 0 <= i < |items| ==> Valid(items[i])
    ensures Verdict(items, blinds).Ok?
  {
    var ds := Defects(items);
    var products := seq(|items|, _ => 0 as Scalar);
    forall i | 0 <= i < |items|
      ensures products[i] == Mul(blinds[i], ds[i])
    {
      ValidHasNoDefect(items[i]);
      MulZero(blinds[i]);
    }
    DotIsSum(blinds, ds, products, |items|);
    SumZero(products, |items|);
  }

  /** The one value of blind j that hides the defect of item j behind the other blinds. */
  function HidingBlind(items: seq<Item>, blinds: seq<Scalar>, j: nat): Scalar
    requires |blinds| == |items| && j < |items|
  {
    Mul(Sub(0, Dot(blinds[j := 0], Defects(items))), Inv(Defect(items[j])))
  }

  /** s + b*d == 0 has exactly one solution b. */
  lemma {:induction false} OneSolution(s: Scalar, b: Scalar, d: Scalar)
    requires d != 0
    ensures PrimeField.Add(s, Mul(b, d)) == 0 <==> b == Mul(Sub(0, s), Inv(d))
  {
    var n := Sub(0, s);
    MulInv(d);
    SubAdd(0, s);
    AddComm(s, Mul(b, d));
    if PrimeField.Add(s, Mul(b, d)) == 0 {
      AddCancel(Mul(b, d), n, s);
      MulAssoc(b, d, Inv(d));
      MulOne(b);
    }
    if b == Mul(n, Inv(d)) {
      MulAssoc(n, Inv(d), d);
      MulOne(n);
    }
  }

  /** If item j is invalid, then with the other blinds fixed the batch passes for exactly one of the Q values of blind
      j. */
  lemma {:induction false} BatchSound(items: seq<Item>, blinds: seq<Scalar>, j: nat, b: Scalar)
    requires |items| >= 2 && |blinds| == |items| && j < |items| && !Valid(items[j])
    ensures Verdict(items, blinds[j := b]).Ok? <==> b == HidingBlind(items, blinds, j)
  {
    var ds := Defects(items);
    ValidHasNoDefect(items[j]);
    var a := blinds[j := 0];
    DotUpdate(a, ds, j, b, |items|);
    assert a[j := b] == blinds[j := b];
    MulZero(ds[j]);
    AddZero(Dot(blinds[j := b], ds));
    OneSolution(Dot(a, ds), b, ds[j]);
  }

  /** Adding a signature and verifying it alone: the batch differs from the aggregator's Verify only in that
      it does not refuse a zero challenge. */
  lemma {:induction false} ItemMeansVerify(suite: Suite, key: Element, sig: Signature, msg: Bytes)
    ensures Aggregator.Verify(suite, msg, sig, key).Ok? <==>
      var item := ItemFor(suite, key, sig, msg); item.Ok? && item.value.challenge != 0 && Valid(item.value)
  {
  }

  /** An item with a zero challenge: alone, or any number of times in a batch with any blinds, it is accepted, and
      Verify refuses it. */
  lemma {:induction false} ZeroChallengeAccepted(suite: Suite, msg: Bytes, n: nat, blinds: seq<Scalar>)
    requires n > 0 && |blinds| == n
    requires suite.H2(ChallengeInput(suite, GENERATOR, GENERATOR, msg)) == 0
    ensures var sig := Signature(GENERATOR, 1);
      && ItemFor(suite, GENERATOR, sig, msg).Ok?
      && Verdict(seq(n, _ => ItemFor(suite, GENERATOR, sig, msg).value), blinds).Ok?
      && Aggregator.Verify(suite, msg, sig, GENERATOR) == Err(Plain(InvalidChallenge))
  {
    var sig := Signature(GENERATOR, 1);
    var item := ItemFor(suite, GENERATOR, sig, msg).value;
    MulZero(1);
    AddZero(1);
    assert Valid(item);
    BatchComplete(seq(n, _ => item), blinds);
  }
}
