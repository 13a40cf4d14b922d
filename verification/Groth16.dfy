/** Groth16 verification by one pairing check, and batches of proofs checked together under
    pseudo-random weights. */
module Groth16 {
  import opened Wrappers
  import opened Bytes
  import opened FieldBytes
  import opened PairingGroup

  datatype VerifierKey = VerifierKey(
    alpha: bytes64,
    beta: bytes128,
    gamma: bytes128,
    delta: bytes128,
    ic: seq<bytes64>)

  datatype Proof = Proof(a: bytes64, b: bytes128, c: bytes64, inputs: seq<bytes32>)

  datatype Verdict = Accepted | ProofMalformed | ProofInvalid

  // ----- the public input point

  /** What the accumulation loop computes on bytes; no value once a syscall fails. */
  function InputPointBytes(cv: Curve, ic: seq<bytes64>, inputs: seq<bytes32>): Option<bytes64>
    requires |ic| > |inputs|
  {
    if |inputs| == 0 then Some(ic[0])
    else
      var n := |inputs| - 1;
      match (InputPointBytes(cv, ic, inputs[..n]), G1ScalarMul(cv, ic[n + 1], inputs[n]))
      case (Some(sum), Some(term)) => G1Add(cv, sum, term)
      case _ => None
  }

  method AccumulateInputs(cv: Curve, ic: seq<bytes64>, inputs: seq<bytes32>) returns (r: Option<bytes64>)
    requires |ic| > |inputs|
    ensures r == InputPointBytes(cv, ic, inputs)
  {
    var vkX := ic[0];
    for i := 0 to |inputs|
      invariant InputPointBytes(cv, ic, inputs[..i]) == Some(vkX)
    {
      assert inputs[..i + 1][..i] == inputs[..i];
      InputPointStops(cv, ic, inputs, i + 1);
      var term := G1ScalarMul(cv, ic[i + 1], inputs[i]);
      if term.None? {
        return None;
      }
      var sum := G1Add(cv, vkX, term.value);
      if sum.None? {
        return None;
      }
      vkX := sum.value;
    }
    assert inputs[..|inputs|] == inputs;
    return Some(vkX);
  }

  lemma {:induction false} InputPointStops(cv: Curve, ic: seq<bytes64>, inputs: seq<bytes32>, i: nat)
    requires |ic| > |inputs| >= i
    ensures InputPointBytes(cv, ic, inputs[..i]).None? ==> InputPointBytes(cv, ic, inputs).None?
    decreases |inputs|
  {
    if i < |inputs| {
      var n := |inputs| - 1;
      assert inputs[..n][..i] == inputs[..i];
      InputPointStops(cv, ic, inputs[..n], i);
    } else {
      assert inputs[..i] == inputs;
    }
  }

  predicate DecodesAll(cv: Curve, ps: seq<bytes64>) {
    forall i :: 0 <= i < |ps| ==> cv.decode1(ps[i]).Some?
  }

  function Decoded(cv: Curve, p: bytes64): G1
    requires cv.decode1(p).Some?
  {
    cv.decode1(p).value
  }

  /** IC_0 + sum of x_i * IC_{i+1}. */
  function InputPoint(cv: Curve, ic: seq<bytes64>, inputs: seq<bytes32>): G1
    requires |ic| > |inputs| && DecodesAll(cv, ic)
  {
    if |inputs| == 0 then Decoded(cv, ic[0])
    else
      var n := |inputs| - 1;
      cv.add(InputPoint(cv, ic, inputs[..n]), Scale(cv, BeValue(inputs[n]), Decoded(cv, ic[n + 1])))
  }

  lemma {:induction false} InputPointRight(cv: Curve, ic: seq<bytes64>, inputs: seq<bytes32>)
    requires IsPairingCurve(cv) && |ic| > |inputs| && DecodesAll(cv, ic)
    ensures InputPointBytes(cv, ic, inputs).Some?
    ensures cv.decode1(InputPointBytes(cv, ic, inputs).value) == Some(InputPoint(cv, ic, inputs))
  {
    if |inputs| > 0 {
      var n := |inputs| - 1;
      InputPointRight(cv, ic, inputs[..n]);
      var term := Scale(cv, BeValue(inputs[n]), Decoded(cv, ic[n + 1]));
      assert EncodeLaw(cv, term);
      assert EncodeLaw(cv, cv.add(InputPoint(cv, ic, inputs[..n]), term));
    }
  }

  lemma AddSwap(cv: Curve, a: G1, x: G1, y: G1)
    requires IsPairingCurve(cv)
    ensures cv.add(cv.add(a, x), y) == cv.add(cv.add(a, y), x)
  {
    assert AddLaw(cv, a, x, y) && AddLaw(cv, a, y, x) && AddLaw(cv, x, y, a);
  }

  /** The input at k counts towards the key point at k + 1 and nothing else: exchanging it exchanges
      that point's multiple. */
  lemma {:induction false} OneInputChanges(cv: Curve, ic: seq<bytes64>, inputs: seq<bytes32>, k: nat, v: bytes32)
    requires IsPairingCurve(cv) && |ic| > |inputs| && DecodesAll(cv, ic) && k < |inputs|
    ensures cv.add(InputPoint(cv, ic, inputs[k := v]), Scale(cv, BeValue(inputs[k]), Decoded(cv, ic[k + 1]))) ==
      cv.add(InputPoint(cv, ic, inputs), Scale(cv, BeValue(v), Decoded(cv, ic[k + 1])))
  {
    var n, point := |inputs| - 1, Decoded(cv, ic[k + 1]);
    if k == n {
      assert inputs[k := v][..n] == inputs[..n];
      AddSwap(cv, InputPoint(cv, ic, inputs[..n]), Scale(cv, BeValue(v), point), Scale(cv, BeValue(inputs[k]), point));
    } else {
      assert inputs[k := v][..n] == inputs[..n][k := v];
      OneInputChanges(cv, ic, inputs[..n], k, v);
      var last := Scale(cv, BeValue(inputs[n]), Decoded(cv, ic[n + 1]));
      AddSwap(cv, InputPoint(cv, ic, inputs[..n][k := v]), last, Scale(cv, BeValue(inputs[k]), point));
      AddSwap(cv, InputPoint(cv, ic, inputs[..n]), last, Scale(cv, BeValue(v), point));
    }
  }

  /** Without inputs, or with all of them zero, the first key point is left. */
  lemma {:induction false} ZeroInputs(cv: Curve, ic: seq<bytes64>, inputs: seq<bytes32>)
    requires IsPairingCurve(cv) && |ic| > |inputs| && DecodesAll(cv, ic)
    requires forall i :: 0 <= i < |inputs| ==> BeValue(inputs[i]) == 0
    ensures InputPoint(cv, ic, inputs) == Decoded(cv, ic[0])
  {
    if |inputs| > 0 {
      ZeroInputs(cv, ic, inputs[..|inputs| - 1]);
      assert AddLaw(cv, Decoded(cv, ic[0]), cv.zero, cv.zero);
    }
  }

  // ----- one proof

  /** The 768 bytes handed to the pairing syscall: four pairs, each a G1 point then a G2 point. */
  function PairingBuffer(vk: VerifierKey, p: Proof, vkX: bytes64): (buf: bytes)
    ensures |buf| == 768
  {
    (((Negated(p.a) + p.b) + (vkX + vk.gamma)) + (p.c + vk.delta)) + (vk.alpha + vk.beta)
  }

  function Verify(cv: Curve, vk: VerifierKey, p: Proof): Verdict
    requires |vk.ic| > |p.inputs|
  {
    match InputPointBytes(cv, vk.ic, p.inputs)
    case None => ProofMalformed
    case Some(vkX) =>
      match PairingCheck(cv, PairingBuffer(vk, p, vkX))
      case None => ProofMalformed
      case Some(valid) => if valid then Accepted else ProofInvalid
  }

  method Copy(buf: array<u8>, offset: nat, part: bytes)
    requires offset + |part| <= buf.Length
    modifies buf
    ensures buf[..] == old(buf[..offset]) + part + old(buf[offset + |part|..])
  {
    forall i | 0 <= i < |part| {
      buf[offset + i] := part[i];
    }
  }

  method CopyPair(buf: array<u8>, offset: nat, g: bytes64, h: bytes128)
    requires offset + PAIR_WIDTH <= buf.Length
    modifies buf
    ensures buf[..offset + PAIR_WIDTH] == old(buf[..offset]) + (g + h)
  {
    Copy(buf, offset, g);
    ghost var half := buf[..];
    assert half[..offset + 64] == old(buf[..offset]) + g;
    Copy(buf, offset + 64, h);
    assert buf[..offset + PAIR_WIDTH] == half[..offset + 64] + h;
  }

  /** Filling the buffer by offset. */
  method FillBuffer(vk: VerifierKey, p: Proof, negA: bytes64, vkX: bytes64) returns (r: bytes)
    requires negA == Negated(p.a)
    ensures r == PairingBuffer(vk, p, vkX)
  {
    var buf := new u8[768](_ => 0);
    var o := 0;
    CopyPair(buf, o, negA, p.b);
    o := o + 192;
    CopyPair(buf, o, vkX, vk.gamma);
    o := o + 192;
    CopyPair(buf, o, p.c, vk.delta);
    o := o + 192;
    CopyPair(buf, o, vk.alpha, vk.beta);
    o := o + 192;
    assert buf[..o] == buf[..];
    return buf[..];
  }

  /** The verifier. It needs one IC point more than inputs, or it would run off the key. */
  method VerifyGroth16(cv: Curve, vk: VerifierKey, p: Proof) returns (r: Verdict)
    requires |vk.ic| > |p.inputs|
    ensures r == Verify(cv, vk, p)
  {
    var vkX := AccumulateInputs(cv, vk.ic, p.inputs);
    if vkX.None? {
      return ProofMalformed;
    }
    var negA := NegateG1(p.a);
    var buf := FillBuffer(vk, p, negA, vkX.value);
    var valid := PairingCheck(cv, buf);
    if valid.None? {
      return ProofMalformed;
    }
    return if valid.value then Accepted else ProofInvalid;
  }

  predicate KeyDecodes(cv: Curve, vk: VerifierKey) {
    && cv.decode1(vk.alpha).Some? && cv.decode2(vk.beta).Some?
    && cv.decode2(vk.gamma).Some? && cv.decode2(vk.delta).Some?
    && DecodesAll(cv, vk.ic)
  }

  predicate ProofDecodes(cv: Curve, p: Proof) {
    cv.decode1(p.a).Some? && cv.decode2(p.b).Some? && cv.decode1(p.c).Some?
  }

  /** The Groth16 equation: e(A, B) = e(alpha, beta) * e(X, gamma) * e(C, delta). */
  predicate Groth16Equation(cv: Curve, vk: VerifierKey, p: Proof)
    requires KeyDecodes(cv, vk) && ProofDecodes(cv, p) && |vk.ic| > |p.inputs|
  {
    cv.pair(Decoded(cv, p.a), cv.decode2(p.b).value) ==
      cv.mul(
        cv.mul(
          cv.pair(InputPoint(cv, vk.ic, p.inputs), cv.decode2(vk.gamma).value),
          cv.pair(Decoded(cv, p.c), cv.decode2(vk.delta).value)),
        cv.pair(Decoded(cv, vk.alpha), cv.decode2(vk.beta).value))
  }

  /** e(-A, B) * e(X, gamma) * e(C, delta) * e(alpha, beta), one for a valid proof. */
  function Residual(cv: Curve, vk: VerifierKey, p: Proof): GT
    requires KeyDecodes(cv, vk) && ProofDecodes(cv, p) && |vk.ic| > |p.inputs|
  {
    cv.mul(
      cv.pair(cv.neg(Decoded(cv, p.a)), cv.decode2(p.b).value),
      cv.mul(
        cv.mul(
          cv.pair(InputPoint(cv, vk.ic, p.inputs), cv.decode2(vk.gamma).value),
          cv.pair(Decoded(cv, p.c), cv.decode2(vk.delta).value)),
        cv.pair(Decoded(cv, vk.alpha), cv.decode2(vk.beta).value)))
  }

  /** The residual is one exactly when the equation holds. */
  lemma ResidualTellsEquation(cv: Curve, vk: VerifierKey, p: Proof)
    requires IsPairingCurve(cv) && KeyDecodes(cv, vk) && ProofDecodes(cv, p) && |vk.ic| > |p.inputs|
    ensures Residual(cv, vk, p) == cv.one <==> Groth16Equation(cv, vk, p)
  {
    var a, b := Decoded(cv, p.a), cv.decode2(p.b).value;
    var rhs := cv.mul(
      cv.mul(
        cv.pair(InputPoint(cv, vk.ic, p.inputs), cv.decode2(vk.gamma).value),
        cv.pair(Decoded(cv, p.c), cv.decode2(vk.delta).value)),
      cv.pair(Decoded(cv, vk.alpha), cv.decode2(vk.beta).value));
    var m := cv.pair(cv.neg(a), b);
    PairNeg(cv, a, b);
    assert MulLaw(cv, cv.pair(a, b), m, m);
    if cv.mul(m, rhs) == cv.one {
      MulCancel(cv, m, rhs, cv.pair(a, b));
    }
  }

  /** What the syscall makes of the buffer: the four pairs in order, and their product. */
  lemma BufferParses(cv: Curve, vk: VerifierKey, p: Proof, vkX: bytes64)
    ensures PairProduct(cv, PairingBuffer(vk, p, vkX)) ==
      match (cv.decode1(Negated(p.a)), cv.decode2(p.b), cv.decode1(vkX), cv.decode2(vk.gamma),
             cv.decode1(p.c), cv.decode2(vk.delta), cv.decode1(vk.alpha), cv.decode2(vk.beta))
      case (Some(a), Some(b), Some(x), Some(g), Some(c), Some(d), Some(al), Some(be)) =>
        Some(cv.mul(cv.mul(cv.mul(cv.mul(cv.one, cv.pair(a, b)), cv.pair(x, g)), cv.pair(c, d)), cv.pair(al, be)))
      case _ => None
  {
    var one := Negated(p.a) + p.b;
    var two := one + (vkX + vk.gamma);
    var three := two + (p.c + vk.delta);
    assert [] + one == one;
    PairAppended(cv, [], Negated(p.a), p.b);
    PairAppended(cv, one, vkX, vk.gamma);
    PairAppended(cv, two, p.c, vk.delta);
    PairAppended(cv, three, vk.alpha, vk.beta);
  }

  /** Soundness and completeness of the check with respect to the equation, for every key and proof
      whose points decode. */
  lemma VerifyIffEquation(cv: Curve, vk: VerifierKey, p: Proof)
    requires IsPairingCurve(cv) && KeyDecodes(cv, vk) && ProofDecodes(cv, p) && |vk.ic| > |p.inputs|
    ensures Verify(cv, vk, p) == if Groth16Equation(cv, vk, p) then Accepted else ProofInvalid
  {
    InputPointRight(cv, vk.ic, p.inputs);
    var vkX := InputPointBytes(cv, vk.ic, p.inputs).value;
    NegatedDecodes(cv, p.a);
    BufferParses(cv, vk, p, vkX);
    FourFactors(cv, cv.pair(cv.neg(Decoded(cv, p.a)), cv.decode2(p.b).value),
                cv.pair(InputPoint(cv, vk.ic, p.inputs), cv.decode2(vk.gamma).value),
                cv.pair(Decoded(cv, p.c), cv.decode2(vk.delta).value),
                cv.pair(Decoded(cv, vk.alpha), cv.decode2(vk.beta).value));
    ResidualTellsEquation(cv, vk, p);
  }

  lemma FourFactors(cv: Curve, m: GT, x: GT, c: GT, z: GT)
    requires IsPairingCurve(cv)
    ensures cv.mul(cv.mul(cv.mul(cv.mul(cv.one, m), x), c), z) == cv.mul(m, cv.mul(cv.mul(x, c), z))
  {
    OneUnit(cv, m);
    assert MulLaw(cv, m, x, c);
    assert MulLaw(cv, m, cv.mul(x, c), z);
  }

  /** On a key that decodes, a proof is malformed exactly when one of its points does not decode,
      where the first is read after negation. */
  lemma MalformedExactly(cv: Curve, vk: VerifierKey, p: Proof)
    requires IsPairingCurve(cv) && KeyDecodes(cv, vk) && |vk.ic| > |p.inputs|
    ensures Verify(cv, vk, p) == ProofMalformed <==>
      cv.decode1(Negated(p.a)).None? || cv.decode2(p.b).None? || cv.decode1(p.c).None?
  {
    InputPointRight(cv, vk.ic, p.inputs);
    BufferParses(cv, vk, p, InputPointBytes(cv, vk.ic, p.inputs).value);
  }
}
