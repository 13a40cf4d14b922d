/** The abstract setting of pairing checks: an abelian group written additively, one written
    multiplicatively, a map between them that is additive in its first argument, and byte
    encodings of curve points. Nothing else about the curve is used. */
module PairingGroup {
  import opened Wrappers
  import opened Bytes
  import opened FieldBytes

  type G1(==, !new)
  type G2(==, !new)
  type GT(==, !new)

  type bytes128 = s: bytes | |s| == 128 witness seq(128, _ => 0)

  datatype Curve = Curve(
    add: (G1, G1) -> G1,
    zero: G1,
    neg: G1 -> G1,
    mul: (GT, GT) -> GT,
    one: GT,
    inv: GT -> GT,
    pair: (G1, G2) -> GT,
    decode1: bytes64 -> Option<G1>,
    encode1: G1 -> bytes64,
    decode2: bytes128 -> Option<G2>)

  // ----- the laws, one instance each

  predicate AddLaw(c: Curve, x: G1, y: G1, z: G1) {
    && c.add(c.add(x, y), z) == c.add(x, c.add(y, z))
    && c.add(x, y) == c.add(y, x)
    && c.add(x, c.zero) == x
    && c.add(x, c.neg(x)) == c.zero
  }

  predicate MulLaw(c: Curve, x: GT, y: GT, z: GT) {
    && c.mul(c.mul(x, y), z) == c.mul(x, c.mul(y, z))
    && c.mul(x, y) == c.mul(y, x)
    && c.mul(x, c.one) == x
    && c.mul(x, c.inv(x)) == c.one
  }

  predicate PairLaw(c: Curve, x: G1, y: G1, h: G2) {
    c.pair(c.add(x, y), h) == c.mul(c.pair(x, h), c.pair(y, h))
  }

  predicate EncodeLaw(c: Curve, x: G1) {
    c.decode1(c.encode1(x)) == Some(x)
  }

  /** Points that decode have their y coordinate in the field, and the point with the same x and the
      field-negative y is the group negative. */
  predicate CoordinateLaw(c: Curve, p: bytes64, p': bytes64) {
    c.decode1(p).Some? ==>
      && BeValue(p[32..]) < BN254_BASE_MODULUS
      && (p'[..32] == p[..32] && BeValue(p'[32..]) == (0 - BeValue(p[32..])) % BN254_BASE_MODULUS ==>
            c.decode1(p') == Some(c.neg(c.decode1(p).value)))
  }

  ghost predicate IsPairingCurve(c: Curve) {
    && (forall x: G1, y: G1, z: G1 {:trigger AddLaw(c, x, y, z)} :: AddLaw(c, x, y, z))
    && (forall x: GT, y: GT, z: GT {:trigger MulLaw(c, x, y, z)} :: MulLaw(c, x, y, z))
    && (forall x: G1, y: G1, h: G2 {:trigger PairLaw(c, x, y, h)} :: PairLaw(c, x, y, h))
    && (forall x: G1 {:trigger EncodeLaw(c, x)} :: EncodeLaw(c, x))
    && (forall p: bytes64, p': bytes64 {:trigger CoordinateLaw(c, p, p')} :: CoordinateLaw(c, p, p'))
  }

  /** n times x. */
  function Scale(c: Curve, n: nat, x: G1): G1 {
    if n == 0 then c.zero else c.add(Scale(c, n - 1, x), x)
  }

  function Pow(c: Curve, n: nat, x: GT): GT {
    if n == 0 then c.one else c.mul(Pow(c, n - 1, x), x)
  }

  // ----- consequences in the target group

  lemma MulCancel(c: Curve, a: GT, x: GT, y: GT)
    requires IsPairingCurve(c) && c.mul(a, x) == c.mul(a, y)
    ensures x == y
  {
    MulBack(c, a, x);
    MulBack(c, a, y);
  }

  /** Dividing a product by one factor leaves the other. */
  lemma MulBack(c: Curve, a: GT, x: GT)
    requires IsPairingCurve(c)
    ensures c.mul(c.mul(a, x), c.inv(a)) == x
  {
    assert MulLaw(c, a, x, x);
    assert MulLaw(c, x, a, c.inv(a));
    assert MulLaw(c, a, a, a);
    assert MulLaw(c, x, x, x);
  }

  /** Regrouping a product of two products. */
  lemma MulInterchange(c: Curve, a: GT, b: GT, x: GT, y: GT)
    requires IsPairingCurve(c)
    ensures c.mul(c.mul(a, b), c.mul(x, y)) == c.mul(c.mul(a, x), c.mul(b, y))
  {
    calc {
      c.mul(c.mul(a, b), c.mul(x, y));
      { assert MulLaw(c, a, b, c.mul(x, y)); }
      c.mul(a, c.mul(b, c.mul(x, y)));
      { assert MulLaw(c, b, x, y); }
      c.mul(a, c.mul(c.mul(b, x), y));
      { assert MulLaw(c, b, x, y); assert MulLaw(c, x, b, y); }
      c.mul(a, c.mul(x, c.mul(b, y)));
      { assert MulLaw(c, a, x, c.mul(b, y)); }
      c.mul(c.mul(a, x), c.mul(b, y));
    }
  }

  lemma OneUnit(c: Curve, x: GT)
    requires IsPairingCurve(c)
    ensures c.mul(x, c.one) == x && c.mul(c.one, x) == x
  {
    assert MulLaw(c, x, c.one, x);
  }

  lemma {:induction false} PowOfProduct(c: Curve, n: nat, x: GT, y: GT)
    requires IsPairingCurve(c)
    ensures Pow(c, n, c.mul(x, y)) == c.mul(Pow(c, n, x), Pow(c, n, y))
  {
    if n == 0 {
      OneUnit(c, c.one);
    } else {
      PowOfProduct(c, n - 1, x, y);
      MulInterchange(c, Pow(c, n - 1, x), Pow(c, n - 1, y), x, y);
    }
  }

  lemma {:induction false} PowOfOne(c: Curve, n: nat)
    requires IsPairingCurve(c)
    ensures Pow(c, n, c.one) == c.one
  {
    if n > 0 {
      PowOfOne(c, n - 1);
      OneUnit(c, c.one);
    }
  }

  // ----- consequences for the pairing

  lemma PairZero(c: Curve, h: G2)
    requires IsPairingCurve(c)
    ensures c.pair(c.zero, h) == c.one
  {
    var p := c.pair(c.zero, h);
    assert AddLaw(c, c.zero, c.zero, c.zero);
    assert PairLaw(c, c.zero, c.zero, h);
    OneUnit(c, p);
    MulCancel(c, p, p, c.one);
  }

  lemma PairNeg(c: Curve, x: G1, h: G2)
    requires IsPairingCurve(c)
    ensures c.mul(c.pair(x, h), c.pair(c.neg(x), h)) == c.one
  {
    assert AddLaw(c, x, x, x);
    assert PairLaw(c, x, c.neg(x), h);
    PairZero(c, h);
  }

  lemma {:induction false} PairScale(c: Curve, n: nat, x: G1, h: G2)
    requires IsPairingCurve(c)
    ensures c.pair(Scale(c, n, x), h) == Pow(c, n, c.pair(x, h))
  {
    if n == 0 {
      PairZero(c, h);
    } else {
      PairScale(c, n - 1, x, h);
      assert PairLaw(c, Scale(c, n - 1, x), x, h);
    }
  }

  // ----- negated point bytes

  /** The verifier's byte-level negation is group negation on everything that decodes. */
  lemma NegatedDecodes(c: Curve, p: bytes64)
    requires IsPairingCurve(c) && c.decode1(p).Some?
    ensures c.decode1(Negated(p)) == Some(c.neg(c.decode1(p).value))
  {
    assert CoordinateLaw(c, p, Negated(p));
    NegatedYIsFieldNegative(p[32..]);
    assert Negated(p)[..32] == p[..32] && Negated(p)[32..] == NegatedY(p[32..]);
  }

  /** Exactly one family of bytes that do not decode still negates to bytes that do: y is the
      modulus itself, which negates to y = 0, and the point with that x and y = 0 exists. */
  lemma NegatedDecodesWrongly(c: Curve, p: bytes64)
    requires IsPairingCurve(c)
    ensures c.decode1(p).None? && c.decode1(Negated(p)).Some? <==>
      p[32..] == BASE_FIELD_MODULUS && c.decode1(p[..32] + BeBytes(0, 32)).Some?
  {
    if p[32..] == BASE_FIELD_MODULUS {
      ModuliValues();
      assert CoordinateLaw(c, p, p);
    } else if c.decode1(Negated(p)).Some? {
      NegatedTwice(p);
      NegatedDecodes(c, Negated(p));
    }
  }

  // ----- the syscalls

  function G1Add(c: Curve, x: bytes64, y: bytes64): Option<bytes64> {
    match (c.decode1(x), c.decode1(y))
    case (Some(g), Some(h)) => Some(c.encode1(c.add(g, h)))
    case _ => None
  }

  function G1ScalarMul(c: Curve, x: bytes64, scalar: bytes32): Option<bytes64> {
    match c.decode1(x)
    case Some(g) => Some(c.encode1(Scale(c, BeValue(scalar), g)))
    case None => None
  }

  const PAIR_WIDTH: nat := 192

  /** The product of the pairings of the 192-byte pairs in a buffer, if all of them decode. */
  function PairProduct(c: Curve, buf: bytes): Option<GT> {
    if |buf| == 0 then Some(c.one)
    else if |buf| < PAIR_WIDTH then None
    else
      var front := |buf| - PAIR_WIDTH;
      match (PairProduct(c, buf[..front]), c.decode1(buf[front..front + 64]), c.decode2(buf[front + 64..]))
      case (Some(product), Some(g), Some(h)) => Some(c.mul(product, c.pair(g, h)))
      case _ => None
  }

  function PairingCheck(c: Curve, buf: bytes): Option<bool> {
    match PairProduct(c, buf)
    case Some(product) => Some(product == c.one)
    case None => None
  }

  /** Reading one more pair at the end of a buffer. */
  lemma PairAppended(c: Curve, buf: bytes, g: bytes64, h: bytes128)
    ensures PairProduct(c, buf + (g + h)) ==
      match (PairProduct(c, buf), c.decode1(g), c.decode2(h))
      case (Some(product), Some(x), Some(y)) => Some(c.mul(product, c.pair(x, y)))
      case _ => None
  {
    var all := buf + (g + h);
    var front := |all| - PAIR_WIDTH;
    assert all[..front] == buf && all[front..front + 64] == g && all[front + 64..] == h;
  }
}
