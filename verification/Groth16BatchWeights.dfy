/** Where the weights of a batch come from: the first is one, every later one is the low half of a hash
    over everything that came before, so that equal weights of different batches take a coincidence of
    the hash. */
module Groth16BatchWeights {
  import opened Bytes
  import opened Groth16
  import opened Groth16Batch

  lemma {:induction false} ZerosAreZero(len: nat)
    ensures BeValue(BeBytes(0, len)) == 0
  {
    if len > 0 {
      ZerosAreZero(len - 1);
      var s := BeBytes(0, len);
      assert s[..len - 1] == BeBytes(0, len - 1) && s[len - 1] == 0;
    }
  }

  /** Clearing the upper half of a hash takes the rest modulo 2^128. */
  lemma LowHalf(h: bytes32)
    ensures BeValue(BeBytes(0, 16) + h[16..]) == BeValue(h) % U128_LIMIT
    ensures BeValue(h) % U128_LIMIT == BeValue(h[16..])
  {
    MachineWidths();
    ZerosAreZero(16);
    BeConcat(BeBytes(0, 16), h[16..]);
    assert h == h[..16] + h[16..];
    BeConcat(h[..16], h[16..]);
    BeBound(h[16..]);
    ModUnique(BeValue(h), BeValue(h[..16]), BeValue(h[16..]), U128_LIMIT);
  }

  /** The first proof of a batch counts once. Every later one is weighed by the hash of the running
      state and its position, modulo 2^128. */
  lemma WeightIsHashed(hash: HashFn, random: bytes32, before: seq<Proof>, q: Proof)
    requires |before| < MAX_BATCH_SIZE
    ensures LastWeight(hash, random, before + [q]) ==
      if |before| == 0 then 1 else BeValue(hash(RandomAfter(hash, random, before) + [|before|])) % U128_LIMIT
  {
    assert (before + [q])[..|before|] == before;
    if |before| == 0 {
      OneEncoded(32);
    } else {
      LowHalf(hash(RandomAfter(hash, random, before) + [|before|]));
    }
  }

  // ----- the running state

  /** What is hashed when a proof is added. */
  function StepPreimage(state: bytes32, p: Proof): bytes {
    state + p.a + p.b + p.c
  }

  predicate SamePoints(p: Proof, q: Proof) {
    p.a == q.a && p.b == q.b && p.c == q.c
  }

  lemma StepPreimageReads(state: bytes32, p: Proof)
    ensures
      var s := StepPreimage(state, p);
      |s| == 288 && s[..32] == state && s[32..96] == p.a && s[96..224] == p.b && s[224..] == p.c
  {
  }

  lemma StepPreimageInjective(s: bytes32, p: Proof, t: bytes32, q: Proof)
    requires StepPreimage(s, p) == StepPreimage(t, q)
    ensures s == t && SamePoints(p, q)
  {
    StepPreimageReads(s, p);
    StepPreimageReads(t, q);
  }

  /** Two histories of one length are the same for the weights. */
  ghost predicate SameHistory(random: bytes32, ps: seq<Proof>, random': bytes32, qs: seq<Proof>)
    requires |ps| == |qs|
  {
    random == random' && forall i :: 0 <= i < |ps| ==> SamePoints(ps[i], qs[i])
  }

  /** Walk back until the two states were hashed from different strings. */
  function ChainPair(hash: HashFn, random: bytes32, ps: seq<Proof>, random': bytes32, qs: seq<Proof>): (bytes, bytes)
    requires |ps| == |qs|
  {
    if |ps| == 0 then (random, random')
    else
      var n := |ps| - 1;
      var x := StepPreimage(RandomAfter(hash, random, ps[..n]), ps[n]);
      var y := StepPreimage(RandomAfter(hash, random', qs[..n]), qs[n]);
      if x != y then (x, y) else ChainPair(hash, random, ps[..n], random', qs[..n])
  }

  /** One running state means one history: the same seed and the same points in every proof so far, or
      the pair above collides. */
  lemma {:induction false} StateBindsHistory(hash: HashFn, random: bytes32, ps: seq<Proof>, random': bytes32,
                                             qs: seq<Proof>)
    requires |ps| == |qs| && RandomAfter(hash, random, ps) == RandomAfter(hash, random', qs)
    ensures
      var (x, y) := ChainPair(hash, random, ps, random', qs);
      SameHistory(random, ps, random', qs) || Collision(hash, x, y)
  {
    if |ps| > 0 {
      var n := |ps| - 1;
      var s, t := RandomAfter(hash, random, ps[..n]), RandomAfter(hash, random', qs[..n]);
      if StepPreimage(s, ps[n]) == StepPreimage(t, qs[n]) {
        StepPreimageInjective(s, ps[n], t, qs[n]);
        StateBindsHistory(hash, random, ps[..n], random', qs[..n]);
        if SameHistory(random, ps[..n], random', qs[..n]) {
          forall i | 0 <= i < |ps|
            ensures SamePoints(ps[i], qs[i])
          {
            assert i < n ==> SamePoints(ps[..n][i], qs[..n][i]);
          }
        }
      }
    }
  }

  /** Conversely, nothing but the seed and the points of the earlier proofs has a part in it. */
  lemma {:induction false} HistoryFixesState(hash: HashFn, random: bytes32, ps: seq<Proof>, qs: seq<Proof>)
    requires |ps| == |qs| && SameHistory(random, ps, random, qs)
    ensures RandomAfter(hash, random, ps) == RandomAfter(hash, random, qs)
  {
    if |ps| > 0 {
      var n := |ps| - 1;
      assert SamePoints(ps[n], qs[n]);
      HistoryFixesState(hash, random, ps[..n], qs[..n]);
    }
  }

  /** Two different strings whose hashes agree in their low 128 bits. */
  ghost predicate HalfCollision(hash: HashFn, x: bytes, y: bytes) {
    x != y && BeValue(hash(x)) % U128_LIMIT == BeValue(hash(y)) % U128_LIMIT
  }

  /** What a later weight is hashed from. */
  function WeightPreimage(hash: HashFn, random: bytes32, before: seq<Proof>): bytes
    requires |before| < MAX_BATCH_SIZE
  {
    RandomAfter(hash, random, before) + [|before|]
  }

  /** Equal weights of proofs that are not the first come from one history, or two different strings
      agree in half their hash, or the running states collide. The proofs at other positions of a batch
      are no exception: their positions are hashed too. */
  lemma EqualWeights(hash: HashFn, random: bytes32, ps: seq<Proof>, p: Proof, random': bytes32, qs: seq<Proof>,
                     q: Proof)
    requires 0 < |ps| < MAX_BATCH_SIZE && 0 < |qs| < MAX_BATCH_SIZE
    requires LastWeight(hash, random, ps + [p]) == LastWeight(hash, random', qs + [q])
    ensures
      var u, v := WeightPreimage(hash, random, ps), WeightPreimage(hash, random', qs);
      if |ps| != |qs| then HalfCollision(hash, u, v)
      else
        var (x, y) := ChainPair(hash, random, ps, random', qs);
        SameHistory(random, ps, random', qs) || Collision(hash, x, y) || HalfCollision(hash, u, v)
  {
    WeightIsHashed(hash, random, ps, p);
    WeightIsHashed(hash, random', qs, q);
    var u, v := WeightPreimage(hash, random, ps), WeightPreimage(hash, random', qs);
    assert u[32] == |ps| && v[32] == |qs|;
    if u == v {
      assert u[..32] == RandomAfter(hash, random, ps) && v[..32] == RandomAfter(hash, random', qs);
      StateBindsHistory(hash, random, ps, random', qs);
    }
  }

  /** Down to the opening: at one position of two batches, equal later weights come from one batch id,
      cranker and slot as well, or from one of the three coincidences. */
  lemma EqualWeightsAcrossBatches(hash: HashFn, i: bytes16, c: Key, slot: u64, ps: seq<Proof>, p: Proof, i': bytes16,
                                  c': Key, slot': u64, qs: seq<Proof>, q: Proof)
    requires 0 < |ps| == |qs| < MAX_BATCH_SIZE
    requires LastWeight(hash, OpeningSeed(hash, i, c, slot), ps + [p]) ==
      LastWeight(hash, OpeningSeed(hash, i', c', slot'), qs + [q])
    ensures
      var s, t := OpeningSeed(hash, i, c, slot), OpeningSeed(hash, i', c', slot');
      var (x, y) := ChainPair(hash, s, ps, t, qs);
      || (i == i' && c == c' && slot == slot' && forall k :: 0 <= k < |ps| ==> SamePoints(ps[k], qs[k]))
      || Collision(hash, OpeningPreimage(i, c, slot), OpeningPreimage(i', c', slot'))
      || Collision(hash, x, y)
      || HalfCollision(hash, WeightPreimage(hash, s, ps), WeightPreimage(hash, t, qs))
  {
    var s, t := OpeningSeed(hash, i, c, slot), OpeningSeed(hash, i', c', slot');
    EqualWeights(hash, s, ps, p, t, qs, q);
    if s == t {
      SeedsDiffer(hash, i, c, slot, i', c', slot');
    }
  }
}
