/** What an accepted batch says about its proofs. One proof alone is accepted exactly when it is valid;
    for larger batches this fails, because the weight of a proof is fixed before the proof is. */
module Groth16BatchSoundness {
  import opened Bytes
  import opened PairingGroup
  import opened Groth16
  import opened Groth16Batch

  /** All proofs are taken by a fresh batch, and its final check succeeds. */
  ghost predicate BatchAccepted(cv: Curve, hash: HashFn, vk: VerifierKey, random: bytes32, ps: seq<Proof>)
    requires |vk.ic| > 0
  {
    var b := Filled(cv, hash, vk, random, MAX_BATCH_SIZE, ps);
    b.Some? && |b.value.negAScaled| == |b.value.bPoints| && Finalize(cv, vk, b.value) == Ok
  }

  ghost predicate AllValid(cv: Curve, vk: VerifierKey, ps: seq<Proof>) {
    forall i :: 0 <= i < |ps| ==> EquationHolds(cv, vk, ps[i])
  }

  /** Every accepted batch of n proofs whose points decode has only valid proofs. */
  ghost predicate SoundFor(cv: Curve, hash: HashFn, vk: VerifierKey, random: bytes32, n: nat)
    requires |vk.ic| > 0
  {
    forall ps: seq<Proof> :: |ps| == n && AllDecode(cv, vk, ps) && BatchAccepted(cv, hash, vk, random, ps) ==>
      AllValid(cv, vk, ps)
  }

  lemma AcceptedExactly(cv: Curve, hash: HashFn, vk: VerifierKey, random: bytes32, ps: seq<Proof>)
    requires IsPairingCurve(cv) && KeyDecodes(cv, vk) && |vk.ic| > 0
    requires 0 < |ps| <= MAX_BATCH_SIZE && AllDecode(cv, vk, ps) && AllAddable(cv, vk, ps)
    ensures BatchAccepted(cv, hash, vk, random, ps) <==> WeightedResidual(cv, hash, vk, random, ps) == cv.one
  {
    BatchAccepts(cv, hash, vk, random, MAX_BATCH_SIZE, ps);
    FilledRepresents(cv, hash, vk, random, MAX_BATCH_SIZE, ps);
  }

  // ----- one proof

  lemma SoundForOne(cv: Curve, hash: HashFn, vk: VerifierKey, random: bytes32)
    requires IsPairingCurve(cv) && KeyDecodes(cv, vk) && |vk.ic| > 0
    ensures SoundFor(cv, hash, vk, random, 1)
  {
    forall ps: seq<Proof> | |ps| == 1 && AllDecode(cv, vk, ps) && BatchAccepted(cv, hash, vk, random, ps)
      ensures AllValid(cv, vk, ps)
    {
      FillsExactly(cv, hash, vk, random, MAX_BATCH_SIZE, ps);
      assert ps == [ps[0]] && ProofDecodes(cv, ps[0]);
      AcceptedExactly(cv, hash, vk, random, ps);
      SingleResidual(cv, hash, vk, random, ps[0]);
      ResidualTellsEquation(cv, vk, ps[0]);
    }
  }

  // ----- moving one point of a proof

  /** The proof with its third point moved by d. */
  function Moved(cv: Curve, p: Proof, d: G1): Proof
    requires cv.decode1(p.c).Some?
  {
    p.(c := cv.encode1(cv.add(Decoded(cv, p.c), d)))
  }

  lemma MovedDecodes(cv: Curve, vk: VerifierKey, p: Proof, d: G1)
    requires IsPairingCurve(cv) && ProofDecodes(cv, p)
    ensures ProofDecodes(cv, Moved(cv, p, d))
    ensures Decoded(cv, Moved(cv, p, d).c) == cv.add(Decoded(cv, p.c), d)
    ensures Addable(cv, vk, p) ==> Addable(cv, vk, Moved(cv, p, d))
  {
    assert EncodeLaw(cv, cv.add(Decoded(cv, p.c), d));
  }

  /** Factoring the moved part out of a residual. */
  lemma FactorOut(cv: Curve, m: GT, x: GT, c: GT, t: GT, z: GT)
    requires IsPairingCurve(cv)
    ensures cv.mul(m, cv.mul(cv.mul(x, cv.mul(c, t)), z)) == cv.mul(cv.mul(m, cv.mul(cv.mul(x, c), z)), t)
  {
    var xc := cv.mul(x, c);
    calc {
      cv.mul(m, cv.mul(cv.mul(x, cv.mul(c, t)), z));
      { assert MulLaw(cv, x, c, t); }
      cv.mul(m, cv.mul(cv.mul(xc, t), z));
      { assert MulLaw(cv, xc, t, z); assert MulLaw(cv, t, z, z); assert MulLaw(cv, xc, z, t); }
      cv.mul(m, cv.mul(cv.mul(xc, z), t));
      { assert MulLaw(cv, m, cv.mul(xc, z), t); }
      cv.mul(cv.mul(m, cv.mul(xc, z)), t);
    }
  }

  /** Moving the third point by d multiplies the residual by e(d, delta). */
  lemma MovedResidual(cv: Curve, vk: VerifierKey, p: Proof, d: G1)
    requires IsPairingCurve(cv) && KeyDecodes(cv, vk) && ProofDecodes(cv, p) && |vk.ic| > |p.inputs|
    ensures ProofDecodes(cv, Moved(cv, p, d))
    ensures Residual(cv, vk, Moved(cv, p, d)) ==
      cv.mul(Residual(cv, vk, p), cv.pair(d, cv.decode2(vk.delta).value))
  {
    MovedDecodes(cv, vk, p, d);
    var delta := cv.decode2(vk.delta).value;
    assert PairLaw(cv, Decoded(cv, p.c), d, delta);
    FactorOut(cv, cv.pair(cv.neg(Decoded(cv, p.a)), cv.decode2(p.b).value),
              cv.pair(InputPoint(cv, vk.ic, p.inputs), cv.decode2(vk.gamma).value),
              cv.pair(Decoded(cv, p.c), delta), cv.pair(d, delta),
              cv.pair(Decoded(cv, vk.alpha), cv.decode2(vk.beta).value));
  }

  ghost predicate ValidAndAddable(cv: Curve, vk: VerifierKey, p: Proof) {
    EquationHolds(cv, vk, p) && Addable(cv, vk, p)
  }

  /** For a valid proof the residual is then e(d, delta), so moving it by anything that pairs with
      delta to other than one makes it invalid. */
  lemma MovedInvalid(cv: Curve, vk: VerifierKey, p: Proof, d: G1)
    requires IsPairingCurve(cv) && ValidAndAddable(cv, vk, p)
    ensures ProofDecodes(cv, Moved(cv, p, d)) && Addable(cv, vk, Moved(cv, p, d))
    ensures Residual(cv, vk, Moved(cv, p, d)) == cv.pair(d, cv.decode2(vk.delta).value)
    ensures EquationHolds(cv, vk, Moved(cv, p, d)) <==> cv.pair(d, cv.decode2(vk.delta).value) == cv.one
  {
    MovedDecodes(cv, vk, p, d);
    MovedResidual(cv, vk, p, d);
    ResidualTellsEquation(cv, vk, p);
    OneUnit(cv, cv.pair(d, cv.decode2(vk.delta).value));
    ResidualTellsEquation(cv, vk, Moved(cv, p, d));
  }

  // ----- two proofs, and more

  /** The weight that a second proof gets after p moved by d, whatever that second proof is. */
  function NextWeight(cv: Curve, hash: HashFn, random: bytes32, p: Proof, d: G1): nat
    requires cv.decode1(p.c).Some?
  {
    LastWeight(hash, random, [Moved(cv, p, d), p])
  }

  /** The point e undoes d under the weight that follows it, and d matters to the pairing. */
  ghost predicate Offsets(cv: Curve, hash: HashFn, vk: VerifierKey, random: bytes32, p: Proof, d: G1, e: G1)
    requires cv.decode1(p.c).Some? && cv.decode2(vk.delta).Some?
  {
    && cv.pair(d, cv.decode2(vk.delta).value) != cv.one
    && Scale(cv, NextWeight(cv, hash, random, p, d), e) == cv.neg(d)
  }

  function Copies(p: Proof, k: nat): (ps: seq<Proof>)
    ensures |ps| == k && forall i :: 0 <= i < k ==> ps[i] == p
  {
    if k == 0 then [] else Copies(p, k - 1) + [p]
  }

  /** The counterexample: two proofs, both moved, the second so that it undoes the first, and as many
      unmoved ones as it takes. */
  function Offset(cv: Curve, p: Proof, d: G1, e: G1, n: nat): (ps: seq<Proof>)
    requires cv.decode1(p.c).Some? && n >= 2
    ensures |ps| == n
  {
    [Moved(cv, p, d), Moved(cv, p, e)] + Copies(p, n - 2)
  }

  lemma OffsetMembers(cv: Curve, vk: VerifierKey, p: Proof, d: G1, e: G1, n: nat)
    requires IsPairingCurve(cv) && ValidAndAddable(cv, vk, p) && n >= 2
    ensures AllDecode(cv, vk, Offset(cv, p, d, e, n)) && AllAddable(cv, vk, Offset(cv, p, d, e, n))
  {
    MovedInvalid(cv, vk, p, d);
    MovedInvalid(cv, vk, p, e);
  }

  lemma PairNegInverse(cv: Curve, d: G1, h: G2)
    requires IsPairingCurve(cv)
    ensures cv.pair(cv.neg(d), h) == cv.inv(cv.pair(d, h))
  {
    PairNeg(cv, d, h);
    InverseUnique(cv, cv.pair(d, h), cv.pair(cv.neg(d), h));
  }

  /** The two moved residuals cancel under the weights. */
  lemma TwoCancel(cv: Curve, hash: HashFn, vk: VerifierKey, random: bytes32, p: Proof, d: G1, e: G1)
    requires IsPairingCurve(cv) && ValidAndAddable(cv, vk, p) && Offsets(cv, hash, vk, random, p, d, e)
    ensures AllDecode(cv, vk, [Moved(cv, p, d), Moved(cv, p, e)])
    ensures WeightedResidual(cv, hash, vk, random, [Moved(cv, p, d), Moved(cv, p, e)]) == cv.one
  {
    var first, second, delta := Moved(cv, p, d), Moved(cv, p, e), cv.decode2(vk.delta).value;
    MovedInvalid(cv, vk, p, d);
    MovedInvalid(cv, vk, p, e);
    var ps := [first, second];
    assert ps[..1] == [first] && ps == [first] + [second] && [first, p] == [first] + [p];
    WeightIgnoresLast(hash, random, [first], second, p);
    var w := LastWeight(hash, random, ps);
    PairScale(cv, w, e, delta);
    PairNegInverse(cv, d, delta);
    SingleResidual(cv, hash, vk, random, first);
    InverseUnique(cv, cv.pair(d, delta), Pow(cv, w, cv.pair(e, delta)));
  }

  /** A valid proof at the end leaves the weighted residual as it is. */
  lemma ValidLast(cv: Curve, hash: HashFn, vk: VerifierKey, random: bytes32, before: seq<Proof>, p: Proof)
    requires IsPairingCurve(cv) && EquationHolds(cv, vk, p) && AllDecode(cv, vk, before) && |before| < MAX_BATCH_SIZE
    ensures AllDecode(cv, vk, before + [p])
    ensures WeightedResidual(cv, hash, vk, random, before + [p]) == WeightedResidual(cv, hash, vk, random, before)
  {
    var ps := before + [p];
    assert ps[..|before|] == before;
    ResidualTellsEquation(cv, vk, p);
    PowOfOne(cv, LastWeight(hash, random, ps));
    OneUnit(cv, WeightedResidual(cv, hash, vk, random, before));
  }

  lemma Regroup(before: seq<Proof>, tail: seq<Proof>)
    requires |tail| > 0
    ensures before + tail == (before + [tail[0]]) + tail[1..]
  {
  }

  /** Any number of valid proofs at the end do, too. */
  lemma {:induction false} ValidTail(cv: Curve, hash: HashFn, vk: VerifierKey, random: bytes32, before: seq<Proof>,
                                     tail: seq<Proof>)
    requires IsPairingCurve(cv) && KeyDecodes(cv, vk) && AllDecode(cv, vk, before) && AllValid(cv, vk, tail)
    requires |before| + |tail| <= MAX_BATCH_SIZE
    ensures AllDecode(cv, vk, before + tail)
    ensures WeightedResidual(cv, hash, vk, random, before + tail) == WeightedResidual(cv, hash, vk, random, before)
    decreases |tail|
  {
    if |tail| == 0 {
      assert before + tail == before;
    } else {
      assert EquationHolds(cv, vk, tail[0]);
      ValidLast(cv, hash, vk, random, before, tail[0]);
      ValidTail(cv, hash, vk, random, before + [tail[0]], tail[1..]);
      Regroup(before, tail);
    }
  }

  /** Accepted, and its first proof invalid: the input on which "accepted means valid" fails. */
  lemma AcceptedThoughInvalid(cv: Curve, hash: HashFn, vk: VerifierKey, random: bytes32, p: Proof, d: G1, e: G1, n: nat)
    requires IsPairingCurve(cv) && ValidAndAddable(cv, vk, p) && Offsets(cv, hash, vk, random, p, d, e)
    requires 2 <= n <= MAX_BATCH_SIZE
    ensures
      var ps := Offset(cv, p, d, e, n);
      && AllDecode(cv, vk, ps) && BatchAccepted(cv, hash, vk, random, ps) && !EquationHolds(cv, vk, ps[0])
  {
    OffsetMembers(cv, vk, p, d, e, n);
    TwoCancel(cv, hash, vk, random, p, d, e);
    ValidTail(cv, hash, vk, random, [Moved(cv, p, d), Moved(cv, p, e)], Copies(p, n - 2));
    AcceptedExactly(cv, hash, vk, random, Offset(cv, p, d, e, n));
    MovedInvalid(cv, vk, p, d);
  }

  // ----- when the weights leave such points

  ghost predicate Reaches(cv: Curve, w: nat, y: G1) {
    exists x: G1 :: Scale(cv, w, x) == y
  }

  /** The weight sends every point to zero, or every point is a multiple by it: on a group of prime
      order one of the two holds of every weight. */
  ghost predicate ZeroOrDivides(cv: Curve, w: nat) {
    (forall x: G1 :: Scale(cv, w, x) == cv.zero) || (forall y: G1 :: Reaches(cv, w, y))
  }

  /** The point matters to the pairing with delta, and the weight that follows it does not lose it. */
  ghost predicate Kept(cv: Curve, hash: HashFn, vk: VerifierKey, random: bytes32, p: Proof, d: G1)
    requires cv.decode1(p.c).Some? && cv.decode2(vk.delta).Some?
  {
    && cv.pair(d, cv.decode2(vk.delta).value) != cv.one
    && Scale(cv, NextWeight(cv, hash, random, p, d), d) != cv.zero
    && ZeroOrDivides(cv, NextWeight(cv, hash, random, p, d))
  }

  lemma OffsetExists(cv: Curve, hash: HashFn, vk: VerifierKey, random: bytes32, p: Proof, d: G1) returns (e: G1)
    requires cv.decode1(p.c).Some? && cv.decode2(vk.delta).Some? && Kept(cv, hash, vk, random, p, d)
    ensures Offsets(cv, hash, vk, random, p, d, e)
  {
    var w := NextWeight(cv, hash, random, p, d);
    assert Reaches(cv, w, cv.neg(d));
    e :| Scale(cv, w, e) == cv.neg(d);
  }

  /** Wherever there is one valid proof and one such point, an accepted batch of n proofs vouches for
      every one of them if and only if n is one. */
  lemma SoundExactlyAlone(cv: Curve, hash: HashFn, vk: VerifierKey, random: bytes32, p: Proof, d: G1, n: nat)
    requires IsPairingCurve(cv) && ValidAndAddable(cv, vk, p) && Kept(cv, hash, vk, random, p, d)
    requires 1 <= n <= MAX_BATCH_SIZE
    ensures SoundFor(cv, hash, vk, random, n) <==> n == 1
  {
    if n == 1 {
      SoundForOne(cv, hash, vk, random);
    } else {
      var e := OffsetExists(cv, hash, vk, random, p, d);
      AcceptedThoughInvalid(cv, hash, vk, random, p, d, e, n);
      assert !AllValid(cv, vk, Offset(cv, p, d, e, n));
    }
  }
}
