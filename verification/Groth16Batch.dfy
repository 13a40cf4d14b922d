/** Checking several Groth16 proofs with one pairing check: each proof is scaled by a weight drawn
    from a running hash, and the shared key points are summed. */
module Groth16Batch {
  import opened Wrappers
  import opened Bytes
  import opened FieldBytes
  import opened PairingGroup
  import opened Groth16

  const MAX_BATCH_SIZE: nat := 10

  datatype Error =
    | Paused
    | InvalidBatchSize
    | BatchVkMismatch
    | VkMismatch
    | NotProductionVk
    | BatchFull
    | PublicInputCountMismatch
    | PublicInputOutOfField
    | Malformed
    | BatchEmpty
    | Invalid

  datatype Outcome = Ok | Err(error: Error)

  datatype Batch = Batch(
    maxProofs: nat,
    accAlpha: bytes64,
    accVkX: bytes64,
    accC: bytes64,
    randomState: bytes32,
    negAScaled: seq<bytes64>,
    bPoints: seq<bytes128>)

  function Count(b: Batch): nat {
    |b.negAScaled|
  }

  /** The weight of the proof at a position: one for the first, 128 hashed bits for the others. */
  function DeriveScalar(hash: HashFn, state: bytes32, index: nat): (r: bytes32)
    requires index < 0x100
  {
    if index == 0 then BeBytes(1, 32) else BeBytes(0, 16) + hash(state + [index])[16..]
  }

  function NextRandom(hash: HashFn, state: bytes32, p: Proof): bytes32 {
    hash(state + p.a + p.b + p.c)
  }

  function OpenedBatch(random: bytes32, maxProofs: nat): Batch {
    Batch(maxProofs, BeBytes(0, 64), BeBytes(0, 64), BeBytes(0, 64), random, [], [])
  }

  predicate InputsInField(inputs: seq<bytes32>) {
    forall i :: 0 <= i < |inputs| ==> BeValue(inputs[i]) < BN254_FIELD_MODULUS
  }

  /** The four scaled points of one proof, unless a syscall fails. */
  datatype Scaled = Scaled(negA: bytes64, vkX: bytes64, c: bytes64, alpha: bytes64)

  function ScaleProof(cv: Curve, vk: VerifierKey, p: Proof, r: bytes32): Option<Scaled>
    requires |vk.ic| > |p.inputs|
  {
    match InputPointBytes(cv, vk.ic, p.inputs)
    case None => None
    case Some(vkX) =>
      match (G1ScalarMul(cv, Negated(p.a), r), G1ScalarMul(cv, vkX, r),
             G1ScalarMul(cv, p.c, r), G1ScalarMul(cv, vk.alpha, r))
      case (Some(a), Some(x), Some(c), Some(al)) => Some(Scaled(a, x, c, al))
      case _ => None
  }

  function Accumulate(cv: Curve, b: Batch, s: Scaled): Option<Batch> {
    if Count(b) == 0 then Some(b.(accAlpha := s.alpha, accVkX := s.vkX, accC := s.c))
    else
      match (G1Add(cv, b.accAlpha, s.alpha), G1Add(cv, b.accVkX, s.vkX), G1Add(cv, b.accC, s.c))
      case (Some(al), Some(x), Some(c)) => Some(b.(accAlpha := al, accVkX := x, accC := c))
      case _ => None
  }

  /** The batch after a proof, or why it was refused. The key has one IC point more than inputs. */
  function AddProof(cv: Curve, hash: HashFn, vk: VerifierKey, b: Batch, p: Proof): (r: (Option<Batch>, Outcome))
    requires |vk.ic| > 0 && b.maxProofs <= MAX_BATCH_SIZE
    ensures r.1.Ok? <==> r.0.Some?
    ensures r.0.Some? ==> r.0.value.maxProofs == b.maxProofs && Count(r.0.value) == Count(b) + 1 <= b.maxProofs
  {
    if Count(b) >= b.maxProofs then (None, Err(BatchFull))
    else if |p.inputs| != |vk.ic| - 1 then (None, Err(PublicInputCountMismatch))
    else if !InputsInField(p.inputs) then (None, Err(PublicInputOutOfField))
    else
      var scaled := ScaleProof(cv, vk, p, DeriveScalar(hash, b.randomState, Count(b)));
      if scaled.None? then (None, Err(Malformed))
      else
        var acc := Accumulate(cv, b, scaled.value);
        if acc.None? then (None, Err(Malformed))
        else
          (Some(acc.value.(negAScaled := b.negAScaled + [scaled.value.negA],
                           bPoints := b.bPoints + [p.b],
                           randomState := NextRandom(hash, b.randomState, p))), Ok)
  }

  function PairsBuffer(gs: seq<bytes64>, hs: seq<bytes128>): (buf: bytes)
    requires |gs| == |hs|
    ensures |buf| == |gs| * 192
  {
    if |gs| == 0 then []
    else PairsBuffer(gs[..|gs| - 1], hs[..|hs| - 1]) + (gs[|gs| - 1] + hs[|hs| - 1])
  }

  function FinalBuffer(vk: VerifierKey, b: Batch): (buf: bytes)
    requires |b.negAScaled| == |b.bPoints|
    ensures |buf| == (Count(b) + 3) * 192
  {
    ((PairsBuffer(b.negAScaled, b.bPoints) + (b.accAlpha + vk.beta)) + (b.accVkX + vk.gamma)) + (b.accC + vk.delta)
  }

  function Finalize(cv: Curve, vk: VerifierKey, b: Batch): Outcome
    requires |b.negAScaled| == |b.bPoints|
  {
    if Count(b) == 0 then Err(BatchEmpty)
    else match PairingCheck(cv, FinalBuffer(vk, b))
      case None => Err(Malformed)
      case Some(valid) => if valid then Ok else Err(Invalid)
  }

  /** What a handler finds in the config, key and mode accounts beside the batch. */
  datatype Setting = Setting(paused: bool, activeKey: Key, key: Key, production: bool, mainnet: bool)

  /** The addition with all its checks, in the handler's order. */
  function AddChecked(cv: Curve, hash: HashFn, s: Setting, vk: VerifierKey, vkKey: Key, b: Batch, p: Proof)
    : (r: (Option<Batch>, Outcome))
    requires |vk.ic| > 0 && b.maxProofs <= MAX_BATCH_SIZE
    ensures r.1.Ok? <==> r.0.Some?
    ensures r.0.Some? ==> r.0 == AddProof(cv, hash, vk, b, p).0 && Gate(s, vkKey) && (s.mainnet ==> s.production)
    ensures Gate(s, vkKey) && (s.mainnet ==> s.production) ==> r == AddProof(cv, hash, vk, b, p)
  {
    if s.paused then (None, Err(Paused))
    else if Count(b) >= b.maxProofs then (None, Err(BatchFull))
    else if vkKey != s.key then (None, Err(BatchVkMismatch))
    else if s.activeKey != s.key then (None, Err(VkMismatch))
    else if s.mainnet && !s.production then (None, Err(NotProductionVk))
    else AddProof(cv, hash, vk, b, p)
  }

  /** The program runs, and the key handed in is the batch's own and still the active one. */
  predicate Gate(s: Setting, vkKey: Key) {
    !s.paused && vkKey == s.key && s.activeKey == s.key
  }

  function FinalizeChecked(cv: Curve, s: Setting, vk: VerifierKey, vkKey: Key, b: Batch): (r: Outcome)
    requires |b.negAScaled| == |b.bPoints|
    ensures r.Ok? <==> Gate(s, vkKey) && Finalize(cv, vk, b).Ok?
  {
    if s.paused then Err(Paused)
    else if Count(b) == 0 then Err(BatchEmpty)
    else if vkKey != s.key then Err(BatchVkMismatch)
    else if s.activeKey != s.key then Err(VkMismatch)
    else Finalize(cv, vk, b)
  }

  type bytes16 = s: bytes | |s| == 16 witness seq(16, _ => 0)

  function OpeningPreimage(batchId: bytes16, cranker: Key, slot: u64): bytes {
    batchId + cranker + LeBytes(slot, 8)
  }

  function OpeningSeed(hash: HashFn, batchId: bytes16, cranker: Key, slot: u64): bytes32 {
    hash(OpeningPreimage(batchId, cranker, slot))
  }

  /** What the seed is hashed from reads back as batch id, cranker and slot. */
  lemma OpeningPreimageReads(batchId: bytes16, cranker: Key, slot: u64)
    ensures
      var p := OpeningPreimage(batchId, cranker, slot);
      |p| == 56 && p[..16] == batchId && p[16..48] == cranker && LeValue(p[48..]) == slot
  {
    assert OpeningPreimage(batchId, cranker, slot)[48..] == LeBytes(slot, 8);
    LeReads(slot);
  }

  /** The seeds of two batches differ unless they share id, cranker and slot, or collide. */
  lemma SeedsDiffer(hash: HashFn, i: bytes16, c: Key, n: u64, i': bytes16, c': Key, n': u64)
    requires OpeningSeed(hash, i, c, n) == OpeningSeed(hash, i', c', n')
    ensures (i == i' && c == c' && n == n') || Collision(hash, OpeningPreimage(i, c, n), OpeningPreimage(i', c', n'))
  {
    if OpeningPreimage(i, c, n) == OpeningPreimage(i', c', n') {
      OpeningPreimageReads(i, c, n);
      OpeningPreimageReads(i', c', n');
    }
  }

  method CheckInputs(inputs: seq<bytes32>) returns (ok: bool)
    ensures ok <==> InputsInField(inputs)
  {
    for i := 0 to |inputs|
      invariant InputsInField(inputs[..i])
    {
      var inField := ScalarInField(inputs[i]);
      if !inField {
        return false;
      }
    }
    assert inputs[..|inputs|] == inputs;
    return true;
  }

  method ScalePoints(cv: Curve, vk: VerifierKey, p: Proof, r: bytes32) returns (s: Option<Scaled>)
    requires |vk.ic| > |p.inputs|
    ensures s == ScaleProof(cv, vk, p, r)
  {
    var vkX := AccumulateInputs(cv, vk.ic, p.inputs);
    if vkX.None? {
      return None;
    }
    var negA := NegateG1(p.a);
    var scaledNegA := G1ScalarMul(cv, negA, r);
    var scaledVkX := G1ScalarMul(cv, vkX.value, r);
    var scaledC := G1ScalarMul(cv, p.c, r);
    var scaledAlpha := G1ScalarMul(cv, vk.alpha, r);
    if scaledNegA.None? || scaledVkX.None? || scaledC.None? || scaledAlpha.None? {
      return None;
    }
    return Some(Scaled(scaledNegA.value, scaledVkX.value, scaledC.value, scaledAlpha.value));
  }

  // ----- the account that the handlers update in place

  class BatchState {
    const vkKey: Key
    const maxProofs: nat
    var accAlpha: bytes64
    var accVkX: bytes64
    var accC: bytes64
    var randomState: bytes32
    var negAScaled: seq<bytes64>
    var bPoints: seq<bytes128>

    function State(): Batch
      reads this
    {
      Batch(maxProofs, accAlpha, accVkX, accC, randomState, negAScaled, bPoints)
    }

    constructor (vkKey: Key, random: bytes32, maxProofs: nat)
      ensures State() == OpenedBatch(random, maxProofs) && this.vkKey == vkKey
    {
      this.vkKey, this.maxProofs := vkKey, maxProofs;
      accAlpha, accVkX, accC := BeBytes(0, 64), BeBytes(0, 64), BeBytes(0, 64);
      randomState, negAScaled, bPoints := random, [], [];
    }

    /** Adding the scaled points to the accumulators, or to none of them. */
    method Merge(cv: Curve, t: Scaled) returns (ok: bool)
      modifies this
      ensures ok <==> Accumulate(cv, old(State()), t).Some?
      ensures State() == if ok then Accumulate(cv, old(State()), t).value else old(State())
    {
      if |negAScaled| == 0 {
        accAlpha, accVkX, accC := t.alpha, t.vkX, t.c;
        return true;
      }
      var alpha := G1Add(cv, accAlpha, t.alpha);
      var x := G1Add(cv, accVkX, t.vkX);
      var c := G1Add(cv, accC, t.c);
      if alpha.None? || x.None? || c.None? {
        return false;
      }
      accAlpha, accVkX, accC := alpha.value, x.value, c.value;
      return true;
    }

    method Add(cv: Curve, hash: HashFn, s: Setting, vk: VerifierKey, p: Proof) returns (r: Outcome)
      requires |vk.ic| > 0 && maxProofs <= MAX_BATCH_SIZE
      modifies this
      ensures r == AddChecked(cv, hash, s, vk, vkKey, old(State()), p).1
      ensures State() == if r.Ok? then AddChecked(cv, hash, s, vk, vkKey, old(State()), p).0.value else old(State())
    {
      if s.paused {
        return Err(Paused);
      }
      if |negAScaled| >= maxProofs {
        return Err(BatchFull);
      }
      if vkKey != s.key {
        return Err(BatchVkMismatch);
      }
      if s.activeKey != s.key {
        return Err(VkMismatch);
      }
      if s.mainnet && !s.production {
        return Err(NotProductionVk);
      }
      if |p.inputs| != |vk.ic| - 1 {
        return Err(PublicInputCountMismatch);
      }
      var inField := CheckInputs(p.inputs);
      if !inField {
        return Err(PublicInputOutOfField);
      }
      var weight := DeriveScalar(hash, randomState, |negAScaled|);
      var scaled := ScalePoints(cv, vk, p, weight);
      if scaled.None? {
        return Err(Malformed);
      }
      var t := scaled.value;
      var merged := Merge(cv, t);
      if !merged {
        return Err(Malformed);
      }
      negAScaled := negAScaled + [t.negA];
      bPoints := bPoints + [p.b];
      randomState := hash(randomState + p.a + p.b + p.c);
      return Ok;
    }

    method BuildBuffer(vk: VerifierKey) returns (r: bytes)
      requires |negAScaled| == |bPoints|
      ensures r == FinalBuffer(vk, State())
    {
      var n := |negAScaled|;
      var buf := new u8[(n + 3) * 192](_ => 0);
      var o := 0;
      for i := 0 to n
        invariant o == i * 192
        invariant buf[..o] == PairsBuffer(negAScaled[..i], bPoints[..i])
      {
        assert negAScaled[..i + 1][..i] == negAScaled[..i] && bPoints[..i + 1][..i] == bPoints[..i];
        CopyPair(buf, o, negAScaled[i], bPoints[i]);
        o := o + 192;
      }
      assert negAScaled[..n] == negAScaled && bPoints[..n] == bPoints;
      CopyPair(buf, o, accAlpha, vk.beta);
      o := o + 192;
      CopyPair(buf, o, accVkX, vk.gamma);
      o := o + 192;
      CopyPair(buf, o, accC, vk.delta);
      o := o + 192;
      assert buf[..o] == buf[..];
      return buf[..];
    }

    method Close(cv: Curve, s: Setting, vk: VerifierKey) returns (r: Outcome)
      requires |negAScaled| == |bPoints|
      ensures r == FinalizeChecked(cv, s, vk, vkKey, State())
    {
      if s.paused {
        return Err(Paused);
      }
      if |negAScaled| == 0 {
        return Err(BatchEmpty);
      }
      if vkKey != s.key {
        return Err(BatchVkMismatch);
      }
      if s.activeKey != s.key {
        return Err(VkMismatch);
      }
      var buf := BuildBuffer(vk);
      var valid := PairingCheck(cv, buf);
      if valid.None? {
        return Err(Malformed);
      }
      return if valid.value then Ok else Err(Invalid);
    }
  }

  method OpenBatch(hash: HashFn, paused: bool, activeKey: Key, batchId: bytes16, cranker: Key, slot: u64,
                   maxProofs: nat)
    returns (r: Outcome, batch: BatchState?)
    ensures r == if paused then Err(Paused) else if 1 <= maxProofs <= 10 then Ok else Err(InvalidBatchSize)
    ensures r.Ok? <==> batch != null
    ensures r.Ok? ==> fresh(batch) && batch.vkKey == activeKey
    ensures r.Ok? ==> batch.State() == OpenedBatch(OpeningSeed(hash, batchId, cranker, slot), maxProofs)
  {
    if paused {
      return Err(Paused), null;
    }
    if maxProofs < 1 || maxProofs > MAX_BATCH_SIZE {
      return Err(InvalidBatchSize), null;
    }
    batch := new BatchState(activeKey, OpeningSeed(hash, batchId, cranker, slot), maxProofs);
    return Ok, batch;
  }

  // ----- what a batch computes in the groups

  /** The batch after all the proofs, when each of them was accepted. */
  function Filled(cv: Curve, hash: HashFn, vk: VerifierKey, random: bytes32, maxProofs: nat, ps: seq<Proof>)
    : (b: Option<Batch>)
    requires |vk.ic| > 0 && maxProofs <= MAX_BATCH_SIZE
    ensures b.Some? ==> b.value.maxProofs == maxProofs && Count(b.value) == |ps| <= maxProofs
  {
    if |ps| == 0 then Some(OpenedBatch(random, maxProofs))
    else
      match Filled(cv, hash, vk, random, maxProofs, ps[..|ps| - 1])
      case None => None
      case Some(b) => AddProof(cv, hash, vk, b, ps[|ps| - 1]).0
  }

  function RandomAfter(hash: HashFn, random: bytes32, ps: seq<Proof>): bytes32 {
    if |ps| == 0 then random
    else NextRandom(hash, RandomAfter(hash, random, ps[..|ps| - 1]), ps[|ps| - 1])
  }

  /** The weight of the last proof of a non-empty batch. */
  function LastWeight(hash: HashFn, random: bytes32, ps: seq<Proof>): nat
    requires 0 < |ps| <= MAX_BATCH_SIZE
  {
    BeValue(DeriveScalar(hash, RandomAfter(hash, random, ps[..|ps| - 1]), |ps| - 1))
  }

  ghost predicate AllDecode(cv: Curve, vk: VerifierKey, ps: seq<Proof>) {
    forall i :: 0 <= i < |ps| ==> ProofDecodes(cv, ps[i]) && |vk.ic| > |ps[i].inputs|
  }

  datatype Aggregate = Aggregate(alpha: G1, x: G1, c: G1, ab: GT)

  function NextAggregate(cv: Curve, vk: VerifierKey, before: Aggregate, p: Proof, w: nat): Aggregate
    requires KeyDecodes(cv, vk) && ProofDecodes(cv, p) && |vk.ic| > |p.inputs|
  {
    Aggregate(
      cv.add(before.alpha, Scale(cv, w, Decoded(cv, vk.alpha))),
      cv.add(before.x, Scale(cv, w, InputPoint(cv, vk.ic, p.inputs))),
      cv.add(before.c, Scale(cv, w, Decoded(cv, p.c))),
      cv.mul(before.ab, cv.pair(Scale(cv, w, cv.neg(Decoded(cv, p.a))), cv.decode2(p.b).value)))
  }

  /** Weighted sums of the shared points, and the weighted product of the e(-A, B). */
  function Aggregated(cv: Curve, hash: HashFn, vk: VerifierKey, random: bytes32, ps: seq<Proof>): Aggregate
    requires KeyDecodes(cv, vk) && AllDecode(cv, vk, ps) && |ps| <= MAX_BATCH_SIZE
  {
    if |ps| == 0 then Aggregate(cv.zero, cv.zero, cv.zero, cv.one)
    else
      var n := |ps| - 1;
      NextAggregate(cv, vk, Aggregated(cv, hash, vk, random, ps[..n]), ps[n], LastWeight(hash, random, ps))
  }

  /** The product of the residuals of the proofs, each to the power of its weight. */
  function WeightedResidual(cv: Curve, hash: HashFn, vk: VerifierKey, random: bytes32, ps: seq<Proof>): GT
    requires KeyDecodes(cv, vk) && AllDecode(cv, vk, ps) && |ps| <= MAX_BATCH_SIZE
  {
    if |ps| == 0 then cv.one
    else
      var n := |ps| - 1;
      cv.mul(WeightedResidual(cv, hash, vk, random, ps[..n]),
             Pow(cv, LastWeight(hash, random, ps), Residual(cv, vk, ps[n])))
  }

  lemma WeightedFactor(cv: Curve, w: nat, acc: G1, g: G1, h: G2)
    requires IsPairingCurve(cv)
    ensures cv.pair(cv.add(acc, Scale(cv, w, g)), h) == cv.mul(cv.pair(acc, h), Pow(cv, w, cv.pair(g, h)))
  {
    assert PairLaw(cv, acc, Scale(cv, w, g), h);
    PairScale(cv, w, g, h);
  }

  /** Multiplying four products factor by factor. */
  lemma FourInterchange(cv: Curve, m: GT, x: GT, c: GT, a: GT, m': GT, x': GT, c': GT, a': GT)
    requires IsPairingCurve(cv)
    ensures cv.mul(cv.mul(m, m'), cv.mul(cv.mul(cv.mul(x, x'), cv.mul(c, c')), cv.mul(a, a')))
      == cv.mul(cv.mul(m, cv.mul(cv.mul(x, c), a)), cv.mul(m', cv.mul(cv.mul(x', c'), a')))
  {
    MulInterchange(cv, x, x', c, c');
    MulInterchange(cv, cv.mul(x, c), cv.mul(x', c'), a, a');
    MulInterchange(cv, m, m', cv.mul(cv.mul(x, c), a), cv.mul(cv.mul(x', c'), a'));
  }

  /** One pairing check over the aggregates is the weighted product of the single checks. */
  lemma {:induction false} BatchAlgebra(cv: Curve, hash: HashFn, vk: VerifierKey, random: bytes32, ps: seq<Proof>)
    requires IsPairingCurve(cv) && KeyDecodes(cv, vk) && AllDecode(cv, vk, ps) && |ps| <= MAX_BATCH_SIZE
    ensures
      var g := Aggregated(cv, hash, vk, random, ps);
      var x, c, a := cv.pair(g.x, cv.decode2(vk.gamma).value), cv.pair(g.c, cv.decode2(vk.delta).value),
                     cv.pair(g.alpha, cv.decode2(vk.beta).value);
      cv.mul(g.ab, cv.mul(cv.mul(x, c), a)) == WeightedResidual(cv, hash, vk, random, ps)
  {
    var beta, gamma, delta := cv.decode2(vk.beta).value, cv.decode2(vk.gamma).value, cv.decode2(vk.delta).value;
    if |ps| == 0 {
      PairZero(cv, beta);
      PairZero(cv, gamma);
      PairZero(cv, delta);
      OneUnit(cv, cv.one);
    } else {
      var n := |ps| - 1;
      BatchAlgebra(cv, hash, vk, random, ps[..n]);
      var g, p, w := Aggregated(cv, hash, vk, random, ps[..n]), ps[n], LastWeight(hash, random, ps);
      var negA, b := cv.neg(Decoded(cv, p.a)), cv.decode2(p.b).value;
      var xp, al := InputPoint(cv, vk.ic, p.inputs), Decoded(cv, vk.alpha);
      WeightedFactor(cv, w, g.x, xp, gamma);
      WeightedFactor(cv, w, g.c, Decoded(cv, p.c), delta);
      WeightedFactor(cv, w, g.alpha, al, beta);
      PairScale(cv, w, negA, b);
      var m, x, c, a := cv.pair(negA, b), cv.pair(xp, gamma), cv.pair(Decoded(cv, p.c), delta), cv.pair(al, beta);
      FourInterchange(cv, g.ab, cv.pair(g.x, gamma), cv.pair(g.c, delta), cv.pair(g.alpha, beta),
                      Pow(cv, w, m), Pow(cv, w, x), Pow(cv, w, c), Pow(cv, w, a));
      PowOfProduct(cv, w, m, cv.mul(cv.mul(x, c), a));
      PowOfProduct(cv, w, cv.mul(x, c), a);
      PowOfProduct(cv, w, x, c);
    }
  }

  // ----- what the bytes decode to

  ghost predicate Represents(cv: Curve, b: Batch, g: Aggregate) {
    && |b.negAScaled| == |b.bPoints|
    && PairProduct(cv, PairsBuffer(b.negAScaled, b.bPoints)) == Some(g.ab)
    && (Count(b) > 0 ==>
          && cv.decode1(b.accAlpha) == Some(g.alpha)
          && cv.decode1(b.accVkX) == Some(g.x)
          && cv.decode1(b.accC) == Some(g.c))
    && (Count(b) == 0 ==> g == Aggregate(cv.zero, cv.zero, cv.zero, cv.one))
  }

  lemma ScaledDecode(cv: Curve, vk: VerifierKey, p: Proof, r: bytes32)
    requires IsPairingCurve(cv) && KeyDecodes(cv, vk) && ProofDecodes(cv, p) && |vk.ic| > |p.inputs|
    ensures ScaleProof(cv, vk, p, r).Some?
    ensures
      var s, w := ScaleProof(cv, vk, p, r).value, BeValue(r);
      && cv.decode1(s.negA) == Some(Scale(cv, w, cv.neg(Decoded(cv, p.a))))
      && cv.decode1(s.vkX) == Some(Scale(cv, w, InputPoint(cv, vk.ic, p.inputs)))
      && cv.decode1(s.c) == Some(Scale(cv, w, Decoded(cv, p.c)))
      && cv.decode1(s.alpha) == Some(Scale(cv, w, Decoded(cv, vk.alpha)))
  {
    InputPointRight(cv, vk.ic, p.inputs);
    NegatedDecodes(cv, p.a);
    var w := BeValue(r);
    assert EncodeLaw(cv, Scale(cv, w, cv.neg(Decoded(cv, p.a))));
    assert EncodeLaw(cv, Scale(cv, w, InputPoint(cv, vk.ic, p.inputs)));
    assert EncodeLaw(cv, Scale(cv, w, Decoded(cv, p.c)));
    assert EncodeLaw(cv, Scale(cv, w, Decoded(cv, vk.alpha)));
  }

  lemma AddDecodes(cv: Curve, x: bytes64, y: bytes64)
    requires IsPairingCurve(cv) && cv.decode1(x).Some? && cv.decode1(y).Some?
    ensures G1Add(cv, x, y).Some?
    ensures cv.decode1(G1Add(cv, x, y).value) == Some(cv.add(Decoded(cv, x), Decoded(cv, y)))
  {
    assert EncodeLaw(cv, cv.add(Decoded(cv, x), Decoded(cv, y)));
  }

  lemma ZeroPlus(cv: Curve, x: G1)
    requires IsPairingCurve(cv)
    ensures cv.add(cv.zero, x) == x
  {
    assert AddLaw(cv, x, cv.zero, x);
  }

  /** The accumulators hold the encodings of the weighted sums. */
  lemma {:induction false} FilledRepresents(cv: Curve, hash: HashFn, vk: VerifierKey, random: bytes32, maxProofs: nat,
                                            ps: seq<Proof>)
    requires IsPairingCurve(cv) && KeyDecodes(cv, vk) && AllDecode(cv, vk, ps)
    requires |vk.ic| > 0 && maxProofs <= MAX_BATCH_SIZE
    requires Filled(cv, hash, vk, random, maxProofs, ps).Some?
    ensures Represents(cv, Filled(cv, hash, vk, random, maxProofs, ps).value, Aggregated(cv, hash, vk, random, ps))
    ensures Filled(cv, hash, vk, random, maxProofs, ps).value.randomState == RandomAfter(hash, random, ps)
  {
    if |ps| > 0 {
      var before, p := ps[..|ps| - 1], ps[|ps| - 1];
      FilledRepresents(cv, hash, vk, random, maxProofs, before);
      assert ProofDecodes(cv, p) && |vk.ic| > |p.inputs|;
      var b := Filled(cv, hash, vk, random, maxProofs, before).value;
      AddRepresents(cv, hash, vk, b, Aggregated(cv, hash, vk, random, before), p);
    }
  }

  /** Merging scaled points adds the points they decode to. */
  lemma MergedDecode(cv: Curve, b: Batch, g: Aggregate, s: Scaled)
    requires IsPairingCurve(cv) && Represents(cv, b, g)
    requires cv.decode1(s.alpha).Some? && cv.decode1(s.vkX).Some? && cv.decode1(s.c).Some?
    ensures Accumulate(cv, b, s).Some?
    ensures
      var f := Accumulate(cv, b, s).value;
      && cv.decode1(f.accAlpha) == Some(cv.add(g.alpha, Decoded(cv, s.alpha)))
      && cv.decode1(f.accVkX) == Some(cv.add(g.x, Decoded(cv, s.vkX)))
      && cv.decode1(f.accC) == Some(cv.add(g.c, Decoded(cv, s.c)))
      && f == b.(accAlpha := f.accAlpha, accVkX := f.accVkX, accC := f.accC)
  {
    if Count(b) == 0 {
      ZeroPlus(cv, Decoded(cv, s.alpha));
      ZeroPlus(cv, Decoded(cv, s.vkX));
      ZeroPlus(cv, Decoded(cv, s.c));
    } else {
      AddDecodes(cv, b.accAlpha, s.alpha);
      AddDecodes(cv, b.accVkX, s.vkX);
      AddDecodes(cv, b.accC, s.c);
    }
  }

  lemma PairsSnoc(gs: seq<bytes64>, hs: seq<bytes128>, g: bytes64, h: bytes128)
    requires |gs| == |hs|
    ensures PairsBuffer(gs + [g], hs + [h]) == PairsBuffer(gs, hs) + (g + h)
  {
    assert (gs + [g])[..|gs|] == gs && (hs + [h])[..|hs|] == hs;
  }

  lemma AddRepresents(cv: Curve, hash: HashFn, vk: VerifierKey, b: Batch, g: Aggregate, p: Proof)
    requires IsPairingCurve(cv) && KeyDecodes(cv, vk) && ProofDecodes(cv, p) && |vk.ic| > |p.inputs|
    requires b.maxProofs <= MAX_BATCH_SIZE && Represents(cv, b, g) && AddProof(cv, hash, vk, b, p).0.Some?
    ensures
      var w := BeValue(DeriveScalar(hash, b.randomState, Count(b)));
      Represents(cv, AddProof(cv, hash, vk, b, p).0.value, NextAggregate(cv, vk, g, p, w))
  {
    var r := DeriveScalar(hash, b.randomState, Count(b));
    ScaledDecode(cv, vk, p, r);
    var s := ScaleProof(cv, vk, p, r).value;
    MergedDecode(cv, b, g, s);
    PairsSnoc(b.negAScaled, b.bPoints, s.negA, p.b);
    PairAppended(cv, PairsBuffer(b.negAScaled, b.bPoints), s.negA, p.b);
  }

  /** What a batch asks of a proof when it is added; the G2 point is not looked at before the end. */
  ghost predicate Addable(cv: Curve, vk: VerifierKey, p: Proof) {
    && |p.inputs| == |vk.ic| - 1 && InputsInField(p.inputs)
    && cv.decode1(Negated(p.a)).Some? && cv.decode1(p.c).Some?
  }

  ghost predicate AccumulatorsDecode(cv: Curve, b: Batch) {
    Count(b) > 0 ==> cv.decode1(b.accAlpha).Some? && cv.decode1(b.accVkX).Some? && cv.decode1(b.accC).Some?
  }

  lemma ScalesExactly(cv: Curve, vk: VerifierKey, p: Proof, r: bytes32)
    requires IsPairingCurve(cv) && KeyDecodes(cv, vk) && |vk.ic| > |p.inputs|
    ensures
      var s := ScaleProof(cv, vk, p, r);
      && (s.Some? <==> cv.decode1(Negated(p.a)).Some? && cv.decode1(p.c).Some?)
      && (s.Some? ==> && cv.decode1(s.value.vkX).Some? && cv.decode1(s.value.c).Some?
                      && cv.decode1(s.value.alpha).Some?)
  {
    InputPointRight(cv, vk.ic, p.inputs);
    var w := BeValue(r);
    assert EncodeLaw(cv, Scale(cv, w, InputPoint(cv, vk.ic, p.inputs)));
    assert EncodeLaw(cv, Scale(cv, w, Decoded(cv, vk.alpha)));
    if cv.decode1(p.c).Some? {
      assert EncodeLaw(cv, Scale(cv, w, Decoded(cv, p.c)));
    }
  }

  lemma AddsExactly(cv: Curve, hash: HashFn, vk: VerifierKey, b: Batch, p: Proof)
    requires IsPairingCurve(cv) && KeyDecodes(cv, vk) && |vk.ic| > 0 && b.maxProofs <= MAX_BATCH_SIZE
    requires AccumulatorsDecode(cv, b)
    ensures
      var f := AddProof(cv, hash, vk, b, p).0;
      && (f.Some? <==> Count(b) < b.maxProofs && Addable(cv, vk, p))
      && (f.Some? ==> AccumulatorsDecode(cv, f.value))
  {
    if Count(b) < b.maxProofs && |p.inputs| == |vk.ic| - 1 {
      var r := DeriveScalar(hash, b.randomState, Count(b));
      ScalesExactly(cv, vk, p, r);
      var s := ScaleProof(cv, vk, p, r);
      if s.Some? && Count(b) > 0 {
        AddDecodes(cv, b.accAlpha, s.value.alpha);
        AddDecodes(cv, b.accVkX, s.value.vkX);
        AddDecodes(cv, b.accC, s.value.c);
      }
    }
  }

  ghost predicate AllAddable(cv: Curve, vk: VerifierKey, ps: seq<Proof>) {
    forall i :: 0 <= i < |ps| ==> Addable(cv, vk, ps[i])
  }

  lemma AllAddableStep(cv: Curve, vk: VerifierKey, before: seq<Proof>, last: Proof)
    ensures AllAddable(cv, vk, before + [last]) <==> AllAddable(cv, vk, before) && Addable(cv, vk, last)
  {
    var all := before + [last];
    if AllAddable(cv, vk, all) {
      assert Addable(cv, vk, all[|before|]);
      assert forall i :: 0 <= i < |before| ==> before[i] == all[i];
    }
  }

  /** Under a key that decodes, a batch takes exactly the sequences of addable proofs that are not
      too long: nothing already added can make a later addition fail. */
  lemma {:induction false} FillsExactly(cv: Curve, hash: HashFn, vk: VerifierKey, random: bytes32, maxProofs: nat,
                                        ps: seq<Proof>)
    requires IsPairingCurve(cv) && KeyDecodes(cv, vk) && |vk.ic| > 0 && maxProofs <= MAX_BATCH_SIZE
    ensures
      var b := Filled(cv, hash, vk, random, maxProofs, ps);
      && (b.Some? <==> |ps| <= maxProofs && AllAddable(cv, vk, ps))
      && (b.Some? ==> AccumulatorsDecode(cv, b.value))
  {
    if |ps| > 0 {
      var before, last := ps[..|ps| - 1], ps[|ps| - 1];
      assert ps == before + [last];
      AllAddableStep(cv, vk, before, last);
      FillsExactly(cv, hash, vk, random, maxProofs, before);
      var b := Filled(cv, hash, vk, random, maxProofs, before);
      if b.Some? {
        AddsExactly(cv, hash, vk, b.value, last);
        FilledStep(cv, hash, vk, random, maxProofs, ps, b.value);
      }
    }
  }

  lemma FilledStep(cv: Curve, hash: HashFn, vk: VerifierKey, random: bytes32, maxProofs: nat, ps: seq<Proof>, b: Batch)
    requires |vk.ic| > 0 && maxProofs <= MAX_BATCH_SIZE && |ps| > 0 && b.maxProofs == maxProofs
    ensures Filled(cv, hash, vk, random, maxProofs, ps[..|ps| - 1]) == Some(b) ==>
      Filled(cv, hash, vk, random, maxProofs, ps) == AddProof(cv, hash, vk, b, ps[|ps| - 1]).0
  {
  }

  /** The finalising check accepts exactly when the weighted product of residuals is one. */
  lemma BatchAccepts(cv: Curve, hash: HashFn, vk: VerifierKey, random: bytes32, maxProofs: nat, ps: seq<Proof>)
    requires IsPairingCurve(cv) && KeyDecodes(cv, vk) && AllDecode(cv, vk, ps)
    requires |vk.ic| > 0 && 0 < |ps| <= maxProofs <= MAX_BATCH_SIZE && AllAddable(cv, vk, ps)
    ensures Filled(cv, hash, vk, random, maxProofs, ps).Some?
    ensures |Filled(cv, hash, vk, random, maxProofs, ps).value.bPoints| == |ps|
    ensures Finalize(cv, vk, Filled(cv, hash, vk, random, maxProofs, ps).value) ==
      if WeightedResidual(cv, hash, vk, random, ps) == cv.one then Ok else Err(Invalid)
  {
    FillsExactly(cv, hash, vk, random, maxProofs, ps);
    var b, g := Filled(cv, hash, vk, random, maxProofs, ps).value, Aggregated(cv, hash, vk, random, ps);
    FilledRepresents(cv, hash, vk, random, maxProofs, ps);
    BatchAlgebra(cv, hash, vk, random, ps);
    var pairs := PairsBuffer(b.negAScaled, b.bPoints);
    PairAppended(cv, pairs, b.accAlpha, vk.beta);
    PairAppended(cv, pairs + (b.accAlpha + vk.beta), b.accVkX, vk.gamma);
    PairAppended(cv, (pairs + (b.accAlpha + vk.beta)) + (b.accVkX + vk.gamma), b.accC, vk.delta);
    var a, x, c := cv.pair(g.alpha, cv.decode2(vk.beta).value), cv.pair(g.x, cv.decode2(vk.gamma).value),
                   cv.pair(g.c, cv.decode2(vk.delta).value);
    Rotate(cv, g.ab, a, x, c);
  }

  lemma Rotate(cv: Curve, m: GT, a: GT, x: GT, c: GT)
    requires IsPairingCurve(cv)
    ensures cv.mul(cv.mul(cv.mul(m, a), x), c) == cv.mul(m, cv.mul(cv.mul(x, c), a))
  {
    calc {
      cv.mul(cv.mul(cv.mul(m, a), x), c);
      { assert MulLaw(cv, cv.mul(m, a), x, c); }
      cv.mul(cv.mul(m, a), cv.mul(x, c));
      { assert MulLaw(cv, m, a, cv.mul(x, c)); }
      cv.mul(m, cv.mul(a, cv.mul(x, c)));
      { assert MulLaw(cv, a, cv.mul(x, c), a); }
      cv.mul(m, cv.mul(cv.mul(x, c), a));
    }
  }

  ghost predicate EquationHolds(cv: Curve, vk: VerifierKey, p: Proof) {
    KeyDecodes(cv, vk) && ProofDecodes(cv, p) && |vk.ic| > |p.inputs| && Groth16Equation(cv, vk, p)
  }

  lemma {:induction false} ValidProofsResidual(cv: Curve, hash: HashFn, vk: VerifierKey, random: bytes32,
                                               ps: seq<Proof>)
    requires IsPairingCurve(cv) && KeyDecodes(cv, vk) && AllDecode(cv, vk, ps) && |ps| <= MAX_BATCH_SIZE
    requires forall i :: 0 <= i < |ps| ==> EquationHolds(cv, vk, ps[i])
    ensures WeightedResidual(cv, hash, vk, random, ps) == cv.one
  {
    if |ps| > 0 {
      var n := |ps| - 1;
      ValidProofsResidual(cv, hash, vk, random, ps[..n]);
      assert EquationHolds(cv, vk, ps[n]);
      ResidualTellsEquation(cv, vk, ps[n]);
      PowOfOne(cv, LastWeight(hash, random, ps));
      OneUnit(cv, cv.one);
    }
  }

  /** A batch of valid proofs is always accepted, whatever the weights. */
  lemma ValidBatchAccepted(cv: Curve, hash: HashFn, vk: VerifierKey, random: bytes32, maxProofs: nat, ps: seq<Proof>)
    requires IsPairingCurve(cv) && KeyDecodes(cv, vk) && AllDecode(cv, vk, ps)
    requires |vk.ic| > 0 && 0 < |ps| <= maxProofs <= MAX_BATCH_SIZE && AllAddable(cv, vk, ps)
    requires forall i :: 0 <= i < |ps| ==> EquationHolds(cv, vk, ps[i])
    ensures Filled(cv, hash, vk, random, maxProofs, ps).Some?
    ensures |Filled(cv, hash, vk, random, maxProofs, ps).value.bPoints| == |ps|
    ensures Finalize(cv, vk, Filled(cv, hash, vk, random, maxProofs, ps).value) == Ok
  {
    ValidProofsResidual(cv, hash, vk, random, ps);
    BatchAccepts(cv, hash, vk, random, maxProofs, ps);
  }

  /** If all proofs but the last are valid, the batch is accepted exactly when the weight of the
      last makes its residual vanish; the weight of a batch of one is one. */
  lemma LastProofDecides(cv: Curve, hash: HashFn, vk: VerifierKey, random: bytes32, maxProofs: nat, ps: seq<Proof>)
    requires IsPairingCurve(cv) && KeyDecodes(cv, vk) && AllDecode(cv, vk, ps)
    requires |vk.ic| > 0 && 0 < |ps| <= maxProofs <= MAX_BATCH_SIZE && AllAddable(cv, vk, ps)
    requires forall i :: 0 <= i < |ps| - 1 ==> EquationHolds(cv, vk, ps[i])
    ensures Filled(cv, hash, vk, random, maxProofs, ps).Some?
    ensures |Filled(cv, hash, vk, random, maxProofs, ps).value.bPoints| == |ps|
    ensures Finalize(cv, vk, Filled(cv, hash, vk, random, maxProofs, ps).value) == Ok <==>
      Pow(cv, LastWeight(hash, random, ps), Residual(cv, vk, ps[|ps| - 1])) == cv.one
    ensures |ps| == 1 ==> LastWeight(hash, random, ps) == 1
  {
    var n := |ps| - 1;
    ValidProofsResidual(cv, hash, vk, random, ps[..n]);
    BatchAccepts(cv, hash, vk, random, maxProofs, ps);
    OneUnit(cv, Pow(cv, LastWeight(hash, random, ps), Residual(cv, vk, ps[n])));
    if |ps| == 1 {
      OneEncoded(32);
    }
  }

  /** The weight of a proof is fixed by the seed and the proofs before it; the proof itself has no
      part in it. */
  lemma WeightIgnoresLast(hash: HashFn, random: bytes32, before: seq<Proof>, p: Proof, q: Proof)
    requires |before| < MAX_BATCH_SIZE
    ensures LastWeight(hash, random, before + [p]) == LastWeight(hash, random, before + [q])
  {
    assert (before + [p])[..|before|] == before && (before + [q])[..|before|] == before;
  }

  lemma InverseUnique(cv: Curve, r: GT, x: GT)
    requires IsPairingCurve(cv)
    ensures cv.mul(r, x) == cv.one <==> x == cv.inv(r)
  {
    assert MulLaw(cv, r, r, r);
    if cv.mul(r, x) == cv.one {
      MulCancel(cv, r, x, cv.inv(r));
    }
  }

  /** Acceptance of a batch, valid proofs or not: exactly when the weighted residual of the last proof
      is the inverse of that of all before it. */
  lemma LastResidualExactly(cv: Curve, hash: HashFn, vk: VerifierKey, random: bytes32, maxProofs: nat, ps: seq<Proof>)
    requires IsPairingCurve(cv) && KeyDecodes(cv, vk) && AllDecode(cv, vk, ps)
    requires |vk.ic| > 0 && 0 < |ps| <= maxProofs <= MAX_BATCH_SIZE && AllAddable(cv, vk, ps)
    ensures Filled(cv, hash, vk, random, maxProofs, ps).Some?
    ensures |Filled(cv, hash, vk, random, maxProofs, ps).value.bPoints| == |ps|
    ensures
      var before := WeightedResidual(cv, hash, vk, random, ps[..|ps| - 1]);
      var last := Pow(cv, LastWeight(hash, random, ps), Residual(cv, vk, ps[|ps| - 1]));
      var ok := Finalize(cv, vk, Filled(cv, hash, vk, random, maxProofs, ps).value) == Ok;
      (ok <==> last == cv.inv(before)) && (ok ==> (before == cv.one <==> last == cv.one))
  {
    BatchAccepts(cv, hash, vk, random, maxProofs, ps);
    var before := WeightedResidual(cv, hash, vk, random, ps[..|ps| - 1]);
    var last := Pow(cv, LastWeight(hash, random, ps), Residual(cv, vk, ps[|ps| - 1]));
    InverseUnique(cv, before, last);
    OneUnit(cv, before);
    OneUnit(cv, last);
  }

  /** For two proofs: an accepted pair whose first proof is valid or whose second proof's weighted
      residual is one has both. */
  lemma AcceptedPair(cv: Curve, hash: HashFn, vk: VerifierKey, random: bytes32, maxProofs: nat, p: Proof, q: Proof)
    requires IsPairingCurve(cv) && KeyDecodes(cv, vk) && AllDecode(cv, vk, [p, q])
    requires |vk.ic| > 0 && 2 <= maxProofs <= MAX_BATCH_SIZE && AllAddable(cv, vk, [p, q])
    ensures Filled(cv, hash, vk, random, maxProofs, [p, q]).Some?
    ensures |Filled(cv, hash, vk, random, maxProofs, [p, q]).value.bPoints| == 2
    ensures ProofDecodes(cv, p) && ProofDecodes(cv, q) && |vk.ic| > |p.inputs| && |vk.ic| > |q.inputs|
    ensures
      var last := Pow(cv, LastWeight(hash, random, [p, q]), Residual(cv, vk, q));
      var ok := Finalize(cv, vk, Filled(cv, hash, vk, random, maxProofs, [p, q]).value) == Ok;
      (ok <==> last == cv.inv(Residual(cv, vk, p))) && (ok ==> (Groth16Equation(cv, vk, p) <==> last == cv.one))
  {
    var ps := [p, q];
    assert ps[..1] == [p] && ProofDecodes(cv, ps[0]) && ProofDecodes(cv, ps[1]);
    LastResidualExactly(cv, hash, vk, random, maxProofs, ps);
    SingleResidual(cv, hash, vk, random, p);
    ResidualTellsEquation(cv, vk, p);
  }

  lemma SingleResidual(cv: Curve, hash: HashFn, vk: VerifierKey, random: bytes32, p: Proof)
    requires IsPairingCurve(cv) && KeyDecodes(cv, vk) && ProofDecodes(cv, p) && |vk.ic| > |p.inputs|
    ensures AllDecode(cv, vk, [p])
    ensures WeightedResidual(cv, hash, vk, random, [p]) == Residual(cv, vk, p)
  {
    var residual := Residual(cv, vk, p);
    assert [p][..0] == [];
    OneEncoded(32);
    assert LastWeight(hash, random, [p]) == 1;
    assert Pow(cv, 1, residual) == cv.mul(Pow(cv, 0, residual), residual);
    OneUnit(cv, residual);
  }

  lemma OneEncoded(width: nat)
    requires width > 0
    ensures BeValue(BeBytes(1, width)) == 1
  {
    BeDecodeEncode(1, width);
    assert Pow256(width) == 0x100 * Pow256(width - 1);
    ModUnique(1, 0, 1, Pow256(width));
  }

  /** A batch of one proof agrees with checking the proof alone. */
  lemma BatchOfOne(cv: Curve, hash: HashFn, vk: VerifierKey, random: bytes32, maxProofs: nat, p: Proof)
    requires IsPairingCurve(cv) && KeyDecodes(cv, vk) && ProofDecodes(cv, p)
    requires |vk.ic| > |p.inputs| && 0 < maxProofs <= MAX_BATCH_SIZE && Addable(cv, vk, p)
    ensures Filled(cv, hash, vk, random, maxProofs, [p]).Some?
    ensures |Filled(cv, hash, vk, random, maxProofs, [p]).value.bPoints| == 1
    ensures Finalize(cv, vk, Filled(cv, hash, vk, random, maxProofs, [p]).value) == Ok <==>
      Verify(cv, vk, p) == Accepted
  {
    LastProofDecides(cv, hash, vk, random, maxProofs, [p]);
    var residual := Residual(cv, vk, p);
    assert Pow(cv, 1, residual) == cv.mul(Pow(cv, 0, residual), residual);
    OneUnit(cv, residual);
    ResidualTellsEquation(cv, vk, p);
    VerifyIffEquation(cv, vk, p);
  }
}
