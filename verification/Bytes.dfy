/** Machine integers, byte strings, and the fixed-width encodings that the programs and the
    TypeScript packages share: big-endian field elements and little-endian machine integers. */
module Bytes {

  type u8 = x: int | 0 <= x < 0x100

  type bytes = seq<u8>

  /** What a 32-byte hash, key or field element is made of. */
  type bytes32 = s: bytes | |s| == 32 witness seq(32, _ => 0)

  const U64_LIMIT: nat := 0x1_0000_0000_0000_0000
  const U32_LIMIT: nat := 0x1_0000_0000
  const U128_LIMIT: nat := 0x1_0000_0000_0000_0000_0000_0000_0000_0000

  const I64_MAX: int := 0x7fff_ffff_ffff_ffff
  const I64_MIN: int := -0x8000_0000_0000_0000

  type u16 = x: int | 0 <= x < 0x1_0000
  type u64 = x: int | 0 <= x < U64_LIMIT
  type u128 = x: int | 0 <= x < U128_LIMIT
  type i64 = x: int | I64_MIN <= x <= I64_MAX

  predicate FitsI64(x: int) {
    I64_MIN <= x <= I64_MAX
  }

  function Min(a: int, b: int): int {
    if a <= b then a else b
  }

  function SaturatingSub(a: nat, b: nat): nat {
    if a >= b then a - b else 0
  }

  /** The address of an account. */
  type Key = bytes32

  /** SHA-256 or Keccak-256, of which nothing but the output width is used. */
  type HashFn = bytes -> bytes32

  /** Two different strings with one hash. */
  ghost predicate Collision(hash: HashFn, x: bytes, y: bytes) {
    x != y && hash(x) == hash(y)
  }

  function Pow256(n: nat): (p: nat)
    ensures p > 0
  {
    if n == 0 then 1 else 0x100 * Pow256(n - 1)
  }

  /** The number a byte string denotes, most significant byte first. */
  function BeValue(s: bytes): nat {
    if |s| == 0 then 0 else BeValue(s[..|s| - 1]) * 0x100 + s[|s| - 1]
  }

  /** The low `len` base-256 digits of `n` (negative numbers in two's complement), most significant first. */
  function BeBytes(n: int, len: nat): (s: bytes)
    ensures |s| == len
    decreases len, n
  {
    if len == 0 then [] else BeBytes(n / 0x100, len - 1) + [n % 0x100]
  }

  /** The number a byte string denotes, least significant byte first. */
  function LeValue(s: bytes): nat {
    if |s| == 0 then 0 else s[0] + 0x100 * LeValue(s[1..])
  }

  /** The low `len` base-256 digits of `n`, least significant first. */
  function LeBytes(n: int, len: nat): (s: bytes)
    ensures |s| == len
    decreases len, n
  {
    if len == 0 then [] else [n % 0x100] + LeBytes(n / 0x100, len - 1)
  }

  function Join(a: bytes, b: bytes): bytes {
    a + b
  }

  /** Rust's `<` on byte arrays of one length. */
  predicate LexLess(a: bytes, b: bytes)
    requires |a| == |b|
  {
    |a| > 0 && (a[0] < b[0] || (a[0] == b[0] && LexLess(a[1..], b[1..])))
  }

  lemma {:induction false} PowSplit(a: nat, b: nat)
    ensures Pow256(a + b) == Pow256(a) * Pow256(b)
  {
    if a > 0 {
      PowSplit(a - 1, b);
      assert Pow256(a + b) == 0x100 * Pow256(a - 1 + b);
      MulAssoc(0x100, Pow256(a - 1), Pow256(b));
    }
  }

  lemma MulAssoc(a: int, b: int, c: int)
    ensures a * (b * c) == (a * b) * c
  {
  }

  lemma {:induction false} BeBound(s: bytes)
    ensures BeValue(s) < Pow256(|s|)
  {
    if |s| > 0 {
      BeBound(s[..|s| - 1]);
    }
  }

  /** Concatenation shifts the left part by the width of the right part. */
  lemma {:induction false} BeConcat(a: bytes, b: bytes)
    ensures BeValue(a + b) == BeValue(a) * Pow256(|b|) + BeValue(b)
  {
    if |b| == 0 {
      assert a + b == a;
    } else {
      var c, last := b[..|b| - 1], b[|b| - 1];
      assert (a + b)[..|a + b| - 1] == a + c;
      BeConcat(a, c);
      var x, p := BeValue(a), Pow256(|c|);
      calc {
        BeValue(a + b);
        (x * p + BeValue(c)) * 0x100 + last;
        (x * p) * 0x100 + BeValue(b);
        { MulAssoc(x, p, 0x100); }
        x * (p * 0x100) + BeValue(b);
      }
    }
  }

  lemma BeCons(first: u8, rest: bytes)
    ensures BeValue([first] + rest) == first * Pow256(|rest|) + BeValue(rest)
  {
    BeConcat([first], rest);
    assert [first][..0] == [];
    assert BeValue([first]) == first;
  }

  /** Decoding then encoding gives the bytes back. */
  lemma {:induction false} BeEncodeDecode(s: bytes)
    ensures BeBytes(BeValue(s), |s|) == s
  {
    if |s| > 0 {
      var front, last := s[..|s| - 1], s[|s| - 1];
      BeEncodeDecode(front);
      DivModUnique(BeValue(s), BeValue(front), last);
      assert s == front + [last];
    }
  }

  lemma DivModUnique(n: int, q: int, r: int)
    requires n == q * 0x100 + r && 0 <= r < 0x100
    ensures n / 0x100 == q && n % 0x100 == r
  {
  }

  /** Encoding keeps exactly the residue modulo 256^len, for every integer. */
  lemma {:induction false} BeDecodeEncode(n: int, len: nat)
    ensures BeValue(BeBytes(n, len)) == n % Pow256(len)
    decreases len
  {
    if len > 0 {
      var s := BeBytes(n, len);
      assert s[..len - 1] == BeBytes(n / 0x100, len - 1);
      BeDecodeEncode(n / 0x100, len - 1);
      ModStep(n, Pow256(len - 1));
    }
  }

  /** The same without a modulus: some multiple of 256^len is all that an encoding drops. */
  lemma {:induction false} BeDropped(n: int, len: nat) returns (k: int)
    ensures n == k * Pow256(len) + BeValue(BeBytes(n, len))
    decreases len
  {
    if len == 0 {
      k := n;
    } else {
      var s := BeBytes(n, len);
      assert s[..len - 1] == BeBytes(n / 0x100, len - 1);
      k := BeDropped(n / 0x100, len - 1);
      MulAssoc(k, Pow256(len - 1), 0x100);
    }
  }

  /** Bytes that denote a number up to a multiple of 256^len are its encoding. */
  lemma BeEncodes(s: bytes, n: int, j: int)
    requires n == j * Pow256(|s|) + BeValue(s)
    ensures s == BeBytes(n, |s|)
  {
    var k := BeDropped(n, |s|);
    BeBound(s);
    BeBound(BeBytes(n, |s|));
    ResidueUnique(k, BeValue(BeBytes(n, |s|)), j, BeValue(s), Pow256(|s|));
    BeInjective(s, BeBytes(n, |s|));
  }

  /** Encoding is exact on what fits, and adds one turn to negative numbers that nearly do. */
  lemma BeSmall(n: int, len: nat)
    requires 0 <= n + Pow256(len) && n < Pow256(len)
    ensures BeValue(BeBytes(n, len)) == if n >= 0 then n else n + Pow256(len)
  {
    var k := BeDropped(n, len);
    BeBound(BeBytes(n, len));
    if n >= 0 {
      ResidueUnique(k, BeValue(BeBytes(n, len)), 0, n, Pow256(len));
    } else {
      ResidueUnique(k, BeValue(BeBytes(n, len)), -1, n + Pow256(len), Pow256(len));
    }
  }

  lemma BeEncodesSmall(s: bytes, n: int)
    requires BeValue(s) == n || BeValue(s) == n + Pow256(|s|)
    ensures s == BeBytes(n, |s|)
  {
    BeBound(s);
    if BeValue(s) == n {
      BeEncodes(s, n, 0);
    } else {
      BeEncodes(s, n, -1);
    }
  }

  lemma ModStep(n: int, p: int)
    requires p > 0
    ensures (n / 0x100) % p * 0x100 + n % 0x100 == n % (p * 0x100)
  {
    var q, r := n / 0x100, n % 0x100;
    var a, b := q / p, q % p;
    assert n == (a * p + b) * 0x100 + r;
    MulAssoc(a, p, 0x100);
    assert n == a * (p * 0x100) + (b * 0x100 + r);
    assert 0 <= b * 0x100 + r < p * 0x100;
    ModUnique(n, a, b * 0x100 + r, p * 0x100);
  }

  /** Division with remainder has one outcome. */
  lemma ResidueUnique(k: int, b: int, j: int, d: int, p: int)
    requires p > 0 && k * p + b == j * p + d && 0 <= b < p && 0 <= d < p
    ensures k == j && b == d
  {
    MulDistributes(k, j, p);
    if k > j {
      MulAtLeast(k - j, p);
    } else if k < j {
      MulDistributes(j, k, p);
      MulAtLeast(j - k, p);
    }
  }

  lemma ModUnique(n: int, q: int, r: int, m: int)
    requires m > 0 && n == q * m + r && 0 <= r < m
    ensures n % m == r && n / m == q
  {
    ResidueUnique(n / m, n % m, q, r, m);
  }

  lemma MulDistributes(a: int, b: int, m: int)
    ensures (a - b) * m == a * m - b * m
  {
  }

  lemma MulAtLeast(k: int, m: int)
    requires k >= 1 && m >= 0
    ensures k * m >= m
  {
  }

  /** Two byte strings of one width that denote the same number are the same. */
  lemma BeInjective(a: bytes, b: bytes)
    requires |a| == |b| && BeValue(a) == BeValue(b)
    ensures a == b
  {
    BeEncodeDecode(a);
    BeEncodeDecode(b);
  }

  /** Lexicographic comparison of equal-width byte strings is numeric comparison. */
  lemma {:induction false} LexIsNumeric(a: bytes, b: bytes)
    requires |a| == |b|
    ensures LexLess(a, b) <==> BeValue(a) < BeValue(b)
  {
    if |a| > 0 {
      LexIsNumeric(a[1..], b[1..]);
      assert a == [a[0]] + a[1..] && b == [b[0]] + b[1..];
      BeCons(a[0], a[1..]);
      BeCons(b[0], b[1..]);
      BeBound(a[1..]);
      BeBound(b[1..]);
      LeadingDigit(a[0], b[0], BeValue(a[1..]), BeValue(b[1..]), Pow256(|a| - 1));
    }
  }

  lemma LeadingDigit(a: int, b: int, x: int, y: int, p: int)
    requires 0 <= x < p && 0 <= y < p
    ensures a * p + x < b * p + y <==> a < b || (a == b && x < y)
  {
    MulDistributes(a, b, p);
    if a < b {
      MulDistributes(b, a, p);
      MulAtLeast(b - a, p);
    } else if b < a {
      MulAtLeast(a - b, p);
    }
  }

  lemma LexTrichotomy(a: bytes, b: bytes)
    requires |a| == |b|
    ensures LexLess(a, b) || LexLess(b, a) || a == b
    ensures !(LexLess(a, b) && LexLess(b, a)) && !LexLess(a, a)
  {
    LexIsNumeric(a, b);
    LexIsNumeric(b, a);
    LexIsNumeric(a, a);
    if BeValue(a) == BeValue(b) {
      BeInjective(a, b);
    }
  }

  lemma {:induction false} LeBound(s: bytes)
    ensures LeValue(s) < Pow256(|s|)
  {
    if |s| > 0 {
      LeBound(s[1..]);
    }
  }

  /** Concatenation shifts the right part by the width of the left part. */
  lemma {:induction false} LeConcat(a: bytes, b: bytes)
    ensures LeValue(a + b) == LeValue(a) + Pow256(|a|) * LeValue(b)
  {
    if |a| == 0 {
      assert a + b == b;
    } else {
      assert (a + b)[1..] == a[1..] + b;
      LeConcat(a[1..], b);
      MulAssoc(0x100, Pow256(|a| - 1), LeValue(b));
    }
  }

  /** An encoding of 8 or 16 bytes reads back as the number, if that fits. */
  lemma LeReads(n: nat)
    ensures n < U64_LIMIT ==> LeValue(LeBytes(n, 8)) == n
    ensures n < U128_LIMIT ==> LeValue(LeBytes(n, 16)) == n
  {
    MachineWidths();
    LeDecodeEncode(n, 8);
    LeDecodeEncode(n, 16);
    if n < U64_LIMIT {
      ModUnique(n, 0, n, Pow256(8));
    }
    if n < U128_LIMIT {
      ModUnique(n, 0, n, Pow256(16));
    }
  }

  lemma {:induction false} LeEncodeDecode(s: bytes)
    ensures LeBytes(LeValue(s), |s|) == s
  {
    if |s| > 0 {
      LeEncodeDecode(s[1..]);
      DivModUnique(LeValue(s), LeValue(s[1..]), s[0]);
    }
  }

  lemma {:induction false} LeDecodeEncode(n: int, len: nat)
    ensures LeValue(LeBytes(n, len)) == n % Pow256(len)
    decreases len
  {
    if len > 0 {
      var s := LeBytes(n, len);
      assert s[1..] == LeBytes(n / 0x100, len - 1);
      LeDecodeEncode(n / 0x100, len - 1);
      ModStep(n, Pow256(len - 1));
    }
  }

  /** Little-endian encodings of one width are injective below the width's limit. */
  lemma LeInjective(m: int, n: int, len: nat)
    requires 0 <= m < Pow256(len) && 0 <= n < Pow256(len)
    requires LeBytes(m, len) == LeBytes(n, len)
    ensures m == n
  {
    LeDecodeEncode(m, len);
    LeDecodeEncode(n, len);
    ModUnique(m, 0, m, Pow256(len));
    ModUnique(n, 0, n, Pow256(len));
  }

  lemma MachineWidths()
    ensures Pow256(8) == U64_LIMIT && Pow256(16) == U128_LIMIT
  {
    assert Pow256(4) == U32_LIMIT;
    PowSplit(4, 4);
    PowSplit(8, 8);
  }
}
