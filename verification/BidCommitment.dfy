/** The sealed-bid commitment: the bytes that the TypeScript handlers hash when a bid is committed
    and the bytes that the task market hashes when the bid is revealed. */
module BidCommitment {
  import opened Bytes

  /** What the task market hashes at reveal: amount (8 bytes, little-endian), nonce, agent DID. */
  function RevealPreimage(amount: u64, nonce: bytes32, agentDid: bytes32): (p: bytes)
    ensures |p| == 72
  {
    LeBytes(amount, 8) + nonce + agentDid
  }

  function RevealCommitHash(hash: HashFn, amount: u64, nonce: bytes32, agentDid: bytes32): bytes32 {
    hash(RevealPreimage(amount, nonce, agentDid))
  }

  /** The handlers' digit loop: peel off low bytes, whatever the sign or size of the BigInt. */
  method LowBytes(amount: int, width: nat) returns (r: bytes)
    ensures r == LeBytes(amount, width)
  {
    var out := new u8[width];
    var n := amount;
    for i := 0 to width
      invariant out[..i] + LeBytes(n, width - i) == LeBytes(amount, width)
    {
      PeelDigit(out[..i], n, width - i);
      ghost var before := out[..i];
      out[i] := n % 0x100;
      n := n / 0x100;
      assert out[..i + 1] == before + [out[i]];
    }
    assert out[..width] + [] == out[..];
    return out[..];
  }

  lemma PeelDigit(done: bytes, n: int, width: nat)
    requires width > 0
    ensures done + LeBytes(n, width) == (done + [n % 0x100]) + LeBytes(n / 0x100, width - 1)
  {
  }

  /** The handlers' `commitHash`, filling a 72-byte buffer at offsets 0, 8 and 40. For every BigInt
      it commits to the amount modulo 2^64. */
  method CommitHash(hash: HashFn, amount: int, nonce: bytes32, agentDid: bytes32) returns (r: bytes32)
    ensures r == RevealCommitHash(hash, amount % U64_LIMIT, nonce, agentDid)
  {
    var buf := new u8[72];
    var amountBytes := LowBytes(amount, 8);
    forall i | 0 <= i < 8 {
      buf[i] := amountBytes[i];
    }
    forall i | 0 <= i < 32 {
      buf[8 + i] := nonce[i];
    }
    forall i | 0 <= i < 32 {
      buf[40 + i] := agentDid[i];
    }
    assert buf[..] == amountBytes + nonce + agentDid;
    LowDigitsOnly(amount);
    return hash(buf[..]);
  }

  lemma LowDigitsOnly(amount: int)
    ensures LeBytes(amount, 8) == LeBytes(amount % U64_LIMIT, 8)
  {
    MachineWidths();
    LeDecodeEncode(amount, 8);
    LeEncodeDecode(LeBytes(amount, 8));
  }

  /** The preimage reads back as amount, nonce and agent DID. */
  lemma PreimageReads(amount: u64, nonce: bytes32, agentDid: bytes32)
    ensures
      var p := RevealPreimage(amount, nonce, agentDid);
      LeValue(p[..8]) == amount && p[8..40] == nonce && p[40..72] == agentDid
  {
    assert RevealPreimage(amount, nonce, agentDid)[..8] == LeBytes(amount, 8);
    LeReads(amount);
  }

  /** So it determines all three parts. */
  lemma PreimageInjective(a: u64, n: bytes32, d: bytes32, a': u64, n': bytes32, d': bytes32)
    requires RevealPreimage(a, n, d) == RevealPreimage(a', n', d')
    ensures a == a' && n == n' && d == d'
  {
    PreimageReads(a, n, d);
    PreimageReads(a', n', d');
  }

  /** Binding: two different openings of one commitment are a hash collision. */
  lemma Binding(hash: HashFn, commitment: bytes32, a: u64, n: bytes32, d: bytes32, a': u64, n': bytes32, d': bytes32)
    requires RevealCommitHash(hash, a, n, d) == commitment == RevealCommitHash(hash, a', n', d')
    requires (a, n, d) != (a', n', d')
    ensures Collision(hash, RevealPreimage(a, n, d), RevealPreimage(a', n', d'))
  {
    if RevealPreimage(a, n, d) == RevealPreimage(a', n', d') {
      PreimageInjective(a, n, d, a', n', d');
    }
  }

  /** A BigInt commitment opens on chain for exactly one amount, its residue modulo 2^64, unless
      the other opening is a collision; so it opens for the amount itself iff that fits 64 bits. */
  lemma CommittedAmountOpens(hash: HashFn, amount: int, revealed: u64, nonce: bytes32, agentDid: bytes32)
    ensures
      RevealCommitHash(hash, revealed, nonce, agentDid) ==
        RevealCommitHash(hash, amount % U64_LIMIT, nonce, agentDid)
      <==>
        || revealed == amount % U64_LIMIT
        || Collision(hash, RevealPreimage(revealed, nonce, agentDid),
                     RevealPreimage(amount % U64_LIMIT, nonce, agentDid))
    ensures amount % U64_LIMIT == amount <==> 0 <= amount < U64_LIMIT
  {
    var low := amount % U64_LIMIT;
    if revealed != low && RevealPreimage(revealed, nonce, agentDid) == RevealPreimage(low, nonce, agentDid) {
      PreimageInjective(revealed, nonce, agentDid, low, nonce, agentDid);
    }
  }
}
