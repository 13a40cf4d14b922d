/** BN254 field elements as 32 big-endian bytes: the negation of curve points and the range check of
    the proof verifier, and the encoders and reducers of the TypeScript side. */
module FieldBytes {
  import opened Bytes

  /** Base field modulus: curve coordinates live below it. */
  const BASE_FIELD_MODULUS: bytes32 :=
    [0x30, 0x64, 0x4e, 0x72, 0xe1, 0x31, 0xa0, 0x29]
    + [0xb8, 0x50, 0x45, 0xb6, 0x81, 0x81, 0x58, 0x5d]
    + [0x97, 0x81, 0x6a, 0x91, 0x68, 0x71, 0xca, 0x8d]
    + [0x3c, 0x20, 0x8c, 0x16, 0xd8, 0x7c, 0xfd, 0x47]

  /** Scalar field modulus: public inputs live below it. */
  const SCALAR_FIELD_MODULUS: bytes32 :=
    [0x30, 0x64, 0x4e, 0x72, 0xe1, 0x31, 0xa0, 0x29]
    + [0xb8, 0x50, 0x45, 0xb6, 0x81, 0x81, 0x58, 0x5d]
    + [0x28, 0x33, 0xe8, 0x48, 0x79, 0xb9, 0x70, 0x91]
    + [0x43, 0xe1, 0xf5, 0x93, 0xf0, 0x00, 0x00, 0x01]

  const BN254_FIELD_MODULUS: int := 21888242871839275222246405745257275088548364400416034343698204186575808495617

  const BN254_BASE_MODULUS: int := 21888242871839275222246405745257275088696311157297823662689037894645226208583

  /** The value of eight bytes. */
  lemma RowValue(a: u8, b: u8, c: u8, d: u8, e: u8, f: u8, g: u8, h: u8)
    ensures BeValue([a, b, c, d, e, f, g, h]) ==
      a as int * 0x100_0000_0000_0000 + b as int * 0x1_0000_0000_0000 + c as int * 0x100_0000_0000
      + d as int * 0x1_0000_0000 + e as int * 0x100_0000 + f as int * 0x1_0000 + g as int * 0x100 + h
  {
    QuadValue(a, b, c, d);
    QuadValue(e, f, g, h);
    BeConcat([a, b, c, d], [e, f, g, h]);
    assert [a, b, c, d] + [e, f, g, h] == [a, b, c, d, e, f, g, h];
    assert Pow256(4) == 0x1_0000_0000;
  }

  lemma QuadValue(a: u8, b: u8, c: u8, d: u8)
    ensures BeValue([a, b, c, d]) == a as int * 0x100_0000 + b as int * 0x1_0000 + c as int * 0x100 + d
  {
    PairValue(a, b);
    PairValue(c, d);
    BeConcat([a, b], [c, d]);
    assert [a, b] + [c, d] == [a, b, c, d];
    assert Pow256(2) == 0x1_0000;
  }

  lemma PairValue(a: u8, b: u8)
    ensures BeValue([a, b]) == a as int * 0x100 + b
  {
    assert [a, b][..1] == [a] && [a][..0] == [];
    assert BeValue([a]) == a;
  }

  lemma FourRows(a: bytes, b: bytes, c: bytes, d: bytes)
    requires |a| == |b| == |c| == |d| == 8
    ensures BeValue(a + b + c + d) ==
      ((BeValue(a) * U64_LIMIT + BeValue(b)) * U64_LIMIT + BeValue(c)) * U64_LIMIT + BeValue(d)
  {
    MachineWidths();
    BeConcat(a, b);
    BeConcat(a + b, c);
    BeConcat(a + b + c, d);
  }

  lemma TableValue(a: bytes, b: bytes, c: bytes, d: bytes, va: int, vb: int, vc: int, vd: int)
    requires |a| == |b| == |c| == |d| == 8
    requires BeValue(a) == va && BeValue(b) == vb && BeValue(c) == vc && BeValue(d) == vd
    ensures BeValue(a + b + c + d) == ((va * U64_LIMIT + vb) * U64_LIMIT + vc) * U64_LIMIT + vd
  {
    FourRows(a, b, c, d);
  }

  lemma ScalarModulusValue()
    ensures BeValue(SCALAR_FIELD_MODULUS) == BN254_FIELD_MODULUS
  {
    RowValue(0x30, 0x64, 0x4e, 0x72, 0xe1, 0x31, 0xa0, 0x29);
    RowValue(0xb8, 0x50, 0x45, 0xb6, 0x81, 0x81, 0x58, 0x5d);
    RowValue(0x28, 0x33, 0xe8, 0x48, 0x79, 0xb9, 0x70, 0x91);
    RowValue(0x43, 0xe1, 0xf5, 0x93, 0xf0, 0x00, 0x00, 0x01);
    TableValue([0x30, 0x64, 0x4e, 0x72, 0xe1, 0x31, 0xa0, 0x29], [0xb8, 0x50, 0x45, 0xb6, 0x81, 0x81, 0x58, 0x5d],
               [0x28, 0x33, 0xe8, 0x48, 0x79, 0xb9, 0x70, 0x91], [0x43, 0xe1, 0xf5, 0x93, 0xf0, 0x00, 0x00, 0x01],
               0x30644e72e131a029, 0xb85045b68181585d, 0x2833e84879b97091, 0x43e1f593f0000001);
  }

  lemma BaseModulusValue()
    ensures BeValue(BASE_FIELD_MODULUS) == BN254_BASE_MODULUS
  {
    RowValue(0x30, 0x64, 0x4e, 0x72, 0xe1, 0x31, 0xa0, 0x29);
    RowValue(0xb8, 0x50, 0x45, 0xb6, 0x81, 0x81, 0x58, 0x5d);
    RowValue(0x97, 0x81, 0x6a, 0x91, 0x68, 0x71, 0xca, 0x8d);
    RowValue(0x3c, 0x20, 0x8c, 0x16, 0xd8, 0x7c, 0xfd, 0x47);
    TableValue([0x30, 0x64, 0x4e, 0x72, 0xe1, 0x31, 0xa0, 0x29], [0xb8, 0x50, 0x45, 0xb6, 0x81, 0x81, 0x58, 0x5d],
               [0x97, 0x81, 0x6a, 0x91, 0x68, 0x71, 0xca, 0x8d], [0x3c, 0x20, 0x8c, 0x16, 0xd8, 0x7c, 0xfd, 0x47],
               0x30644e72e131a029, 0xb85045b68181585d, 0x97816a916871ca8d, 0x3c208c16d87cfd47);
  }

  /** The byte tables are the two primes, and the scalar modulus is the one the scripts reduce by. */
  lemma ModuliValues()
    ensures BeValue(SCALAR_FIELD_MODULUS) == BN254_FIELD_MODULUS
    ensures BeValue(BASE_FIELD_MODULUS) == BN254_BASE_MODULUS
  {
    ScalarModulusValue();
    BaseModulusValue();
  }

  // ----- negating a curve point

  type bytes64 = s: bytes | |s| == 64 witness seq(64, _ => 0)

  /** The y coordinate of the negated point: zero stays zero, otherwise q - y modulo 2^256. */
  function NegatedY(y: bytes32): (r: bytes32) {
    if BeValue(y) == 0 then y else BeBytes(BeValue(BASE_FIELD_MODULUS) - BeValue(y), 32)
  }

  function Negated(point: bytes64): (r: bytes64) {
    point[..32] + NegatedY(point[32..])
  }

  lemma {:induction false} AllZero(s: bytes)
    ensures (forall i :: 0 <= i < |s| ==> s[i] == 0) <==> BeValue(s) == 0
  {
    if |s| > 0 {
      AllZero(s[..|s| - 1]);
      assert forall i :: 0 <= i < |s| - 1 ==> s[..|s| - 1][i] == s[i];
    }
  }

  /** The difference of two suffixes, as far as the loop has got. */
  ghost predicate Subtracted(q: bytes, y: bytes, d: bytes, borrow: bool) {
    && |q| == |y| == |d|
    && BeValue(d) == BeValue(q) - BeValue(y) + (if borrow then Pow256(|d|) else 0)
  }

  lemma SubtractedColumn(q: bytes, y: bytes, d: bytes, borrow: bool, q0: u8, y0: u8, d0: u8, borrow': bool)
    requires Subtracted(q, y, d, borrow)
    requires d0 == q0 as int - y0 - (if borrow then 1 else 0) + (if borrow' then 0x100 else 0)
    ensures Subtracted([q0] + q, [y0] + y, [d0] + d, borrow')
  {
    BeCons(q0, q);
    BeCons(y0, y);
    BeCons(d0, d);
    Spread(q0, y0, if borrow then 1 else 0, if borrow' then 1 else 0, Pow256(|d|));
  }

  lemma Spread(q: int, y: int, b: int, c: int, p: int)
    requires 0 <= b <= 1 && 0 <= c <= 1
    ensures (q - y - b + 0x100 * c) * p ==
      q * p - y * p - (if b == 1 then p else 0) + (if c == 1 then 0x100 * p else 0)
  {
  }

  /** Rust's `a.wrapping_sub(b)` on u16. */
  function WrappingSub16(a: int, b: int): int {
    (a - b) % 0x1_0000
  }

  /** The borrow loop, on 16-bit columns from the right. */
  method SubtractBytes(q: bytes, y: bytes) returns (r: bytes)
    requires |q| == |y|
    ensures |r| == |q|
    ensures BeValue(r) == BeValue(q) - BeValue(y) || BeValue(r) == BeValue(q) - BeValue(y) + Pow256(|r|)
  {
    var out := new u8[|q|](_ => 0);
    var borrow := 0;
    var i := |q|;
    while i > 0
      invariant 0 <= i <= |q|
      invariant 0 <= borrow <= 1
      invariant Subtracted(q[i..], y[i..], out[i..], borrow == 1)
    {
      i := i - 1;
      ghost var done := out[i + 1..];
      var diff := WrappingSub16(WrappingSub16(q[i], y[i]), borrow);
      ColumnDigit(q[i], y[i], borrow);
      var next := if diff > 0xff then 1 else 0;
      SubtractedColumn(q[i + 1..], y[i + 1..], done, borrow == 1, q[i], y[i], diff % 0x100, next == 1);
      out[i] := diff % 0x100;
      borrow := next;
      assert q[i..] == [q[i]] + q[i + 1..] && y[i..] == [y[i]] + y[i + 1..] && out[i..] == [diff % 0x100] + done;
    }
    assert y[0..] == y && q[0..] == q && out[0..] == out[..];
    return out[..];
  }

  method NegateG1(point: bytes64) returns (r: bytes64)
    ensures r == Negated(point)
  {
    var x, y := point[..32], point[32..];
    AllZero(y);
    if forall i :: 0 <= i < 32 ==> y[i] == 0 {
      assert point == x + y;
      return point;
    }
    var negated := SubtractBytes(BASE_FIELD_MODULUS, y);
    BeEncodesSmall(negated, BeValue(BASE_FIELD_MODULUS) - BeValue(y));
    return x + negated;
  }

  lemma ColumnDigit(q: u8, y: u8, borrow: int)
    requires 0 <= borrow <= 1
    ensures
      var diff := WrappingSub16(WrappingSub16(q, y), borrow);
      var next := if diff > 0xff then 1 else 0;
      diff % 0x100 == q as int - y - borrow + 0x100 * next
  {
  }

  /** The value of the negated coordinate, for every y that fits the width. */
  lemma NegatedYValue(y: bytes32)
    ensures BeValue(NegatedY(y)) ==
      if BeValue(y) == 0 then 0
      else if BeValue(y) <= BN254_BASE_MODULUS then BN254_BASE_MODULUS - BeValue(y)
      else BN254_BASE_MODULUS - BeValue(y) + Pow256(32)
  {
    ModuliValues();
    BeBound(y);
    BeBound(BASE_FIELD_MODULUS);
    BeSmall(BN254_BASE_MODULUS - BeValue(y), 32);
  }

  /** For coordinates in the field it is the field's negative. */
  lemma NegatedYIsFieldNegative(y: bytes32)
    requires BeValue(y) < BN254_BASE_MODULUS
    ensures BeValue(NegatedY(y)) == (0 - BeValue(y)) % BN254_BASE_MODULUS
  {
    NegatedYValue(y);
    FieldNegative(BeValue(y));
  }

  lemma FieldNegative(v: int)
    requires 0 <= v < BN254_BASE_MODULUS
    ensures (0 - v) % BN254_BASE_MODULUS == if v == 0 then 0 else BN254_BASE_MODULUS - v
  {
    if v > 0 {
      ModUnique(0 - v, -1, BN254_BASE_MODULUS - v, BN254_BASE_MODULUS);
    }
  }

  /** Negating twice gives a y coordinate back exactly when it is not the modulus itself. */
  lemma NegatedYTwice(y: bytes32)
    ensures NegatedY(NegatedY(y)) == y <==> y != BASE_FIELD_MODULUS
  {
    var z := NegatedY(y);
    ModuliValues();
    NegatedYValue(y);
    NegatedYValue(z);
    BeBound(y);
    BeBound(BASE_FIELD_MODULUS);
    if BeValue(y) == BeValue(BASE_FIELD_MODULUS) {
      BeInjective(y, BASE_FIELD_MODULUS);
    } else {
      BeInjective(NegatedY(z), y);
    }
  }

  /** The same for whole points: an involution exactly off y = q. */
  lemma NegatedTwice(point: bytes64)
    ensures Negated(Negated(point)) == point <==> point[32..] != BASE_FIELD_MODULUS
  {
    var y := point[32..];
    NegatedYTwice(y);
    assert Negated(point)[..32] == point[..32] && Negated(point)[32..] == NegatedY(y);
    assert point == point[..32] + y;
    assert Negated(Negated(point))[32..] == NegatedY(NegatedY(y));
  }

  // ----- range check of public inputs

  lemma FirstDifferenceDecides(a: bytes32, b: bytes32, i: nat)
    requires i < 32 && a[..i] == b[..i] && a[i] < b[i]
    ensures BeValue(a) < BeValue(b)
  {
    assert a == a[..i] + ([a[i]] + a[i + 1..]);
    assert b == b[..i] + ([b[i]] + b[i + 1..]);
    BeConcat(a[..i], [a[i]] + a[i + 1..]);
    BeConcat(b[..i], [b[i]] + b[i + 1..]);
    BeCons(a[i], a[i + 1..]);
    BeCons(b[i], b[i + 1..]);
    BeBound(a[i + 1..]);
    BeBound(b[i + 1..]);
    LeadingDigit(a[i], b[i], BeValue(a[i + 1..]), BeValue(b[i + 1..]), Pow256(31 - i));
  }

  /** The byte-by-byte comparison accepts exactly the scalars below the modulus. */
  method ScalarInField(scalar: bytes32) returns (ok: bool)
    ensures ok <==> BeValue(scalar) < BN254_FIELD_MODULUS
  {
    ModuliValues();
    for i := 0 to 32
      invariant scalar[..i] == SCALAR_FIELD_MODULUS[..i]
    {
      if scalar[i] < SCALAR_FIELD_MODULUS[i] {
        FirstDifferenceDecides(scalar, SCALAR_FIELD_MODULUS, i);
        return true;
      }
      if scalar[i] > SCALAR_FIELD_MODULUS[i] {
        FirstDifferenceDecides(SCALAR_FIELD_MODULUS, scalar, i);
        return false;
      }
      assert scalar[..i + 1] == scalar[..i] + [scalar[i]];
      assert SCALAR_FIELD_MODULUS[..i + 1] == SCALAR_FIELD_MODULUS[..i] + [SCALAR_FIELD_MODULUS[i]];
    }
    assert scalar == scalar[..32] && SCALAR_FIELD_MODULUS == SCALAR_FIELD_MODULUS[..32];
    return false;
  }

  // ----- the TypeScript encoders

  /** `value` split into the digits already written and what is still to write. */
  ghost predicate Peeled(value: int, rest: int, done: bytes) {
    value == rest * Pow256(|done|) + BeValue(done)
  }

  lemma PeelDigit(value: int, n: int, done: bytes)
    requires Peeled(value, n, done)
    ensures Peeled(value, n / 0x100, [n % 0x100] + done)
  {
    BeCons(n % 0x100, done);
    WeightMoves(n, Pow256(|done|));
  }

  lemma PeeledAll(value: int, rest: int, done: bytes)
    requires Peeled(value, rest, done)
    ensures done == BeBytes(value, |done|)
    ensures rest == 0 <==> 0 <= value < Pow256(|done|)
  {
    BeEncodes(done, value, rest);
    BeBound(done);
    if 0 <= value < Pow256(|done|) {
      ResidueUnique(rest, BeValue(done), 0, value, Pow256(|done|));
    }
  }

  /** The shared loop: write the low base-256 digits of a BigInt, from the last byte to the first;
      what is left over is returned too. */
  method WriteDigits(value: int, width: nat) returns (out: bytes, rest: int)
    ensures out == BeBytes(value, width)
    ensures rest == 0 <==> 0 <= value < Pow256(width)
  {
    var buf := new u8[width];
    var n := value;
    var i := width;
    while i > 0
      invariant 0 <= i <= width
      invariant Peeled(value, n, buf[i..])
    {
      i := i - 1;
      ghost var done := buf[i + 1..];
      PeelDigit(value, n, done);
      buf[i] := n % 0x100;
      n := n / 0x100;
      assert buf[i..] == [buf[i]] + done;
    }
    assert buf[0..] == buf[..];
    PeeledAll(value, n, buf[..]);
    return buf[..], n;
  }

  lemma WeightMoves(n: int, p: int)
    ensures n * p == (n / 0x100) * (0x100 * p) + (n % 0x100) * p
  {
    var q, r := n / 0x100, n % 0x100;
    assert n == q * 0x100 + r;
    MulAssoc(q, 0x100, p);
  }

  /** The script's `fieldElementToBytes`: any BigInt, silently reduced modulo 2^256. */
  method ScriptFieldElementToBytes(value: int) returns (out: bytes32)
    ensures BeValue(out) == value % Pow256(32)
  {
    var rest;
    out, rest := WriteDigits(value, 32);
    BeDecodeEncode(value, 32);
  }

  datatype Encoded = Bytes(value: bytes32) | Negative | TooWide

  /** The SDK's `fieldElementToBytes`: refuses what does not fit, and is exact on the rest. */
  method SdkFieldElementToBytes(value: int) returns (r: Encoded)
    ensures r.Negative? <==> value < 0
    ensures r.TooWide? <==> value >= Pow256(32)
    ensures r.Bytes? ==> BeValue(r.value) == value
  {
    if value < 0 {
      return Negative;
    }
    var out, cursor := WriteDigits(value, 32);
    if cursor != 0 {
      return TooWide;
    }
    BeDecodeEncode(value, 32);
    ModUnique(value, 0, value, Pow256(32));
    return Bytes(out);
  }

  lemma NextByte(s: bytes, k: nat)
    requires k < |s|
    ensures BeValue(s[..k + 1]) == BeValue(s[..k]) * 0x100 + s[k]
  {
    assert s[..k + 1][..k] == s[..k];
  }

  /** The accumulation loop of the decimal decoder and the reducer. */
  method AccumulateBytes(data: bytes) returns (acc: int)
    ensures acc == BeValue(data)
  {
    acc := 0;
    for i := 0 to |data|
      invariant acc == BeValue(data[..i])
    {
      NextByte(data, i);
      acc := acc * 0x100 + data[i];
    }
    assert data[..|data|] == data;
  }

  /** The reducer to canonical scalars, for byte strings of any length. */
  method CanonicalFieldBytes(data: bytes) returns (out: bytes32)
    ensures BeValue(out) == BeValue(data) % BN254_FIELD_MODULUS
  {
    var acc := AccumulateBytes(data);
    acc := acc % BN254_FIELD_MODULUS;
    var rest;
    out, rest := WriteDigits(acc, 32);
    BeDecodeEncode(acc, 32);
    BeBound(SCALAR_FIELD_MODULUS);
    ModuliValues();
    ModUnique(acc, 0, acc, Pow256(32));
  }

  /** What the reducer writes passes the verifier's range check, and is the input itself exactly
      when the input was 32 bytes that already passed. */
  method CanonicalThenChecked(data: bytes) returns (out: bytes32, ok: bool)
    ensures ok
    ensures BeValue(out) == BeValue(data) % BN254_FIELD_MODULUS
    ensures out == data <==> |data| == 32 && BeValue(data) < BN254_FIELD_MODULUS
  {
    out := CanonicalFieldBytes(data);
    ok := ScalarInField(out);
    if |data| == 32 && BeValue(data) < BN254_FIELD_MODULUS {
      ModUnique(BeValue(data), 0, BeValue(data), BN254_FIELD_MODULUS);
      BeInjective(out, data);
    }
  }

  /** Encoding and decoding undo each other on 32-byte values, in both directions. */
  method RoundTrip(element: bytes32, value: int) returns (again: Encoded, back: int)
    requires 0 <= value < Pow256(32)
    ensures again == Bytes(element) && back == value
  {
    var n := AccumulateBytes(element);
    BeBound(element);
    again := SdkFieldElementToBytes(n);
    BeInjective(again.value, element);
    var encoded := SdkFieldElementToBytes(value);
    back := AccumulateBytes(encoded.value);
  }
}
