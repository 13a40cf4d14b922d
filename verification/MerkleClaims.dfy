/** Sorted-pair Merkle proofs, as fee claims and governance votes check them. The hash is any
    function from byte strings to 32 bytes; nothing about it is assumed. Soundness is stated by
    collision extraction: an explicit function turns a proof accepted for something outside the
    tree into two different preimages with one hash. */
module MerkleClaims {
  import opened Bytes

  const LEAF_WIDTH: nat := 48
  const MAX_MERKLE_PROOF_DEPTH: nat := 24

  // ----- the verifier

  /** The 64-byte preimage of an inner node: the smaller hash first. */
  function NodePreimage(a: bytes32, b: bytes32): (p: bytes)
    ensures |p| == 64
  {
    if LexLess(b, a) then b + a else a + b
  }

  function ClimbOne(hash: HashFn, computed: bytes32, node: bytes32): bytes32 {
    hash(NodePreimage(computed, node))
  }

  /** The root that a proof claims for a leaf hash. */
  function Climb(hash: HashFn, leaf: bytes32, proof: seq<bytes32>): bytes32 {
    if |proof| == 0 then leaf
    else ClimbOne(hash, Climb(hash, leaf, proof[..|proof| - 1]), proof[|proof| - 1])
  }

  method VerifyProof(hash: HashFn, proof: seq<bytes32>, root: bytes32, leaf: bytes32) returns (ok: bool)
    ensures ok <==> Climb(hash, leaf, proof) == root
  {
    var computed := leaf;
    for i := 0 to |proof|
      invariant computed == Climb(hash, leaf, proof[..i])
    {
      var node := proof[i];
      LexTrichotomy(computed, node);
      assert proof[..i + 1][..i] == proof[..i];
      if computed == node || LexLess(computed, node) {
        computed := hash(Join(computed, node));
      } else {
        computed := hash(Join(node, computed));
      }
    }
    assert proof[..|proof|] == proof;
    return computed == root;
  }

  // ----- the trees that roots commit to

  /** A tree of any shape over leaf preimages. */
  datatype Tree = Leaf(preimage: bytes) | Node(left: Tree, right: Tree)

  function Root(hash: HashFn, t: Tree): bytes32 {
    match t
    case Leaf(p) => hash(p)
    case Node(l, r) => hash(NodePreimage(Root(hash, l), Root(hash, r)))
  }

  /** All leaves have the common 48-byte layout. */
  ghost predicate LeavesAre48(t: Tree) {
    match t
    case Leaf(p) => |p| == LEAF_WIDTH
    case Node(l, r) => LeavesAre48(l) && LeavesAre48(r)
  }

  /** `preimage` is a leaf of `t` exactly `depth` levels down. */
  predicate IsLeafAt(t: Tree, preimage: bytes, depth: nat) {
    match t
    case Leaf(p) => depth == 0 && p == preimage
    case Node(l, r) => depth > 0 && (IsLeafAt(l, preimage, depth - 1) || IsLeafAt(r, preimage, depth - 1))
  }

  /** The turns from the root to a leaf; true is left. */
  type Path = seq<bool>

  ghost predicate PathTo(t: Tree, path: Path, preimage: bytes) {
    match t
    case Leaf(p) => path == [] && p == preimage
    case Node(l, r) => path != [] && PathTo(if path[0] then l else r, path[1..], preimage)
  }

  /** The hashes of the siblings along a path, lowest first: the proof a prover hands in. */
  function SiblingPath(hash: HashFn, t: Tree, path: Path): seq<bytes32> {
    match t
    case Leaf(_) => []
    case Node(l, r) =>
      if path == [] then []
      else if path[0] then SiblingPath(hash, l, path[1..]) + [Root(hash, r)]
      else SiblingPath(hash, r, path[1..]) + [Root(hash, l)]
  }

  /** A node preimage is both hashes, the numerically smaller one first. */
  lemma NodePreimageSorted(a: bytes32, b: bytes32)
    ensures
      var p := NodePreimage(a, b);
      && BeValue(p[..32]) <= BeValue(p[32..])
      && ((p[..32] == a && p[32..] == b) || (p[..32] == b && p[32..] == a))
  {
    LexIsNumeric(b, a);
  }

  lemma NodePreimageSymmetric(a: bytes32, b: bytes32)
    ensures NodePreimage(a, b) == NodePreimage(b, a)
  {
    LexTrichotomy(a, b);
  }

  /** Completeness: the sibling path of every leaf of every tree verifies, with one hash a level. */
  lemma {:induction false} Complete(hash: HashFn, t: Tree, path: Path, preimage: bytes)
    requires PathTo(t, path, preimage)
    ensures Climb(hash, hash(preimage), SiblingPath(hash, t, path)) == Root(hash, t)
    ensures |SiblingPath(hash, t, path)| == |path| && IsLeafAt(t, preimage, |path|)
  {
    match t
    case Leaf(_) =>
    case Node(l, r) =>
      var child, sibling := if path[0] then l else r, if path[0] then r else l;
      Complete(hash, child, path[1..], preimage);
      var proof := SiblingPath(hash, t, path);
      assert proof[..|proof| - 1] == SiblingPath(hash, child, path[1..]);
      NodePreimageSymmetric(Root(hash, l), Root(hash, r));
  }

  // ----- soundness

  function RootPreimage(hash: HashFn, t: Tree): bytes {
    match t
    case Leaf(p) => p
    case Node(l, r) => NodePreimage(Root(hash, l), Root(hash, r))
  }

  /** The preimage hashed in the last step of a proof check. */
  function TopPreimage(hash: HashFn, preimage: bytes, proof: seq<bytes32>): bytes {
    if |proof| == 0 then preimage
    else NodePreimage(Climb(hash, hash(preimage), proof[..|proof| - 1]), proof[|proof| - 1])
  }

  /** Walk down the tree beside the proof until the two hash different strings to one value. */
  function ExtractCollision(hash: HashFn, t: Tree, preimage: bytes, proof: seq<bytes32>): (bytes, bytes) {
    var mine, theirs := TopPreimage(hash, preimage, proof), RootPreimage(hash, t);
    if mine != theirs || t.Leaf? || |proof| == 0 then (mine, theirs)
    else
      var below := proof[..|proof| - 1];
      var child := if Climb(hash, hash(preimage), below) == Root(hash, t.left) then t.left else t.right;
      ExtractCollision(hash, child, preimage, below)
  }

  /** Two hash pairs with one node preimage are the same unordered pair. */
  lemma NodePreimageInjective(a: bytes32, b: bytes32, c: bytes32, d: bytes32)
    requires NodePreimage(a, b) == NodePreimage(c, d)
    ensures (a == c && b == d) || (a == d && b == c)
  {
    var p, q := NodePreimage(a, b), NodePreimage(c, d);
    assert p[..32] == q[..32] && p[32..] == q[32..];
    assert (p[..32] == a && p[32..] == b) || (p[..32] == b && p[32..] == a);
    assert (q[..32] == c && q[32..] == d) || (q[..32] == d && q[32..] == c);
  }

  lemma ClimbHashesTop(hash: HashFn, preimage: bytes, proof: seq<bytes32>)
    ensures Climb(hash, hash(preimage), proof) == hash(TopPreimage(hash, preimage, proof))
  {
  }

  /** Soundness for every tree shape: a 48-byte preimage whose proof reaches the root of a tree of
      48-byte leaves is a leaf at the depth of the proof, or the extracted pair is a collision. */
  lemma {:induction false} Sound(hash: HashFn, t: Tree, preimage: bytes, proof: seq<bytes32>)
    requires LeavesAre48(t) && |preimage| == LEAF_WIDTH
    requires Climb(hash, hash(preimage), proof) == Root(hash, t)
    ensures
      var (x, y) := ExtractCollision(hash, t, preimage, proof);
      IsLeafAt(t, preimage, |proof|) || Collision(hash, x, y)
    decreases t
  {
    var mine, theirs := TopPreimage(hash, preimage, proof), RootPreimage(hash, t);
    ClimbHashesTop(hash, preimage, proof);
    if mine == theirs && t.Node? {
      assert |mine| == 64;
      var below := proof[..|proof| - 1];
      var computed := Climb(hash, hash(preimage), below);
      NodePreimageInjective(computed, proof[|proof| - 1], Root(hash, t.left), Root(hash, t.right));
      var child := if computed == Root(hash, t.left) then t.left else t.right;
      Sound(hash, child, preimage, below);
    }
  }

  /** The leaves of a tree, left to right. */
  function Leaves(t: Tree): seq<bytes> {
    match t
    case Leaf(p) => [p]
    case Node(l, r) => Leaves(l) + Leaves(r)
  }

  lemma {:induction false} LeafAtIsLeaf(t: Tree, preimage: bytes, depth: nat)
    requires IsLeafAt(t, preimage, depth)
    ensures preimage in Leaves(t)
  {
    match t
    case Leaf(_) =>
    case Node(l, r) =>
      if IsLeafAt(l, preimage, depth - 1) {
        LeafAtIsLeaf(l, preimage, depth - 1);
      } else {
        LeafAtIsLeaf(r, preimage, depth - 1);
      }
  }

  // ----- the two leaf layouts

  /** staker (32 bytes), amount (8, little-endian), epoch (8, little-endian) */
  function ClaimPreimage(staker: bytes32, amount: u64, epoch: u64): (p: bytes)
    ensures |p| == LEAF_WIDTH
  {
    staker + LeBytes(amount, 8) + LeBytes(epoch, 8)
  }

  /** voter (32 bytes), weight (16, little-endian) */
  function VotePreimage(voter: bytes32, weight: u128): (p: bytes)
    ensures |p| == LEAF_WIDTH
  {
    voter + LeBytes(weight, 16)
  }

  /** A claim leaf reads back as staker, amount and epoch. */
  lemma ClaimPreimageReads(staker: bytes32, amount: u64, epoch: u64)
    ensures
      var p := ClaimPreimage(staker, amount, epoch);
      p[..32] == staker && LeValue(p[32..40]) == amount && LeValue(p[40..48]) == epoch
  {
    var p := ClaimPreimage(staker, amount, epoch);
    assert p[32..40] == LeBytes(amount, 8) && p[40..48] == LeBytes(epoch, 8);
    LeReads(amount);
    LeReads(epoch);
  }

  lemma ClaimPreimageInjective(s: bytes32, a: u64, e: u64, s': bytes32, a': u64, e': u64)
    requires ClaimPreimage(s, a, e) == ClaimPreimage(s', a', e')
    ensures s == s' && a == a' && e == e'
  {
    ClaimPreimageReads(s, a, e);
    ClaimPreimageReads(s', a', e');
  }

  /** A vote leaf reads back as voter and weight. */
  lemma VotePreimageReads(voter: bytes32, weight: u128)
    ensures VotePreimage(voter, weight)[..32] == voter && LeValue(VotePreimage(voter, weight)[32..48]) == weight
  {
    assert VotePreimage(voter, weight)[32..48] == LeBytes(weight, 16);
    LeReads(weight);
  }

  lemma VotePreimageInjective(v: bytes32, w: u128, v': bytes32, w': u128)
    requires VotePreimage(v, w) == VotePreimage(v', w')
    ensures v == v' && w == w'
  {
    VotePreimageReads(v, w);
    VotePreimageReads(v', w');
  }

  datatype Vote = Vote(voter: bytes32, weight: u128)

  /** A tree over votes: the leaves of the committed snapshot. */
  ghost predicate VoteTree(t: Tree, votes: seq<Vote>) {
    Leaves(t) == seq(|votes|, i requires 0 <= i < |votes| => VotePreimage(votes[i].voter, votes[i].weight))
  }

  lemma {:induction false} LeavesWidth(t: Tree)
    requires forall p :: p in Leaves(t) ==> |p| == LEAF_WIDTH
    ensures LeavesAre48(t)
  {
    match t
    case Leaf(p) =>
      assert p in Leaves(t);
    case Node(l, r) =>
      assert forall p :: p in Leaves(l) || p in Leaves(r) ==> p in Leaves(t);
      LeavesWidth(l);
      LeavesWidth(r);
  }

  /** A vote that passes the governance check was in the snapshot with exactly that weight, or the
      proof exhibits a collision. */
  lemma VoteSound(hash: HashFn, t: Tree, votes: seq<Vote>, voter: bytes32, weight: u128, proof: seq<bytes32>)
    requires VoteTree(t, votes)
    requires Climb(hash, hash(VotePreimage(voter, weight)), proof) == Root(hash, t)
    ensures
      var (x, y) := ExtractCollision(hash, t, VotePreimage(voter, weight), proof);
      Vote(voter, weight) in votes || Collision(hash, x, y)
  {
    var p := VotePreimage(voter, weight);
    LeavesWidth(t);
    Sound(hash, t, p, proof);
    if IsLeafAt(t, p, |proof|) {
      LeafAtIsLeaf(t, p, |proof|);
      var i :| 0 <= i < |votes| && Leaves(t)[i] == p;
      VotePreimageInjective(voter, weight, votes[i].voter, votes[i].weight);
    }
  }

  // ----- fee claims

  datatype Claim = Claim(staker: bytes32, amount: u64)

  ghost predicate ClaimTree(t: Tree, epoch: u64, claims: seq<Claim>) {
    Leaves(t) == seq(|claims|, i requires 0 <= i < |claims| => ClaimPreimage(claims[i].staker, claims[i].amount, epoch))
  }

  /** A claim that passes the fee check is one of the committed claims, for exactly that staker,
      amount and epoch, or the proof exhibits a collision. */
  lemma ClaimSound(hash: HashFn, t: Tree, committed: u64, claims: seq<Claim>,
                   staker: bytes32, amount: u64, epoch: u64, proof: seq<bytes32>)
    requires ClaimTree(t, committed, claims)
    requires Climb(hash, hash(ClaimPreimage(staker, amount, epoch)), proof) == Root(hash, t)
    ensures
      var (x, y) := ExtractCollision(hash, t, ClaimPreimage(staker, amount, epoch), proof);
      (epoch == committed && Claim(staker, amount) in claims) || Collision(hash, x, y)
  {
    var p := ClaimPreimage(staker, amount, epoch);
    LeavesWidth(t);
    Sound(hash, t, p, proof);
    if IsLeafAt(t, p, |proof|) {
      LeafAtIsLeaf(t, p, |proof|);
      var i :| 0 <= i < |claims| && Leaves(t)[i] == p;
      ClaimPreimageInjective(staker, amount, epoch, claims[i].staker, claims[i].amount, committed);
    }
  }
}
