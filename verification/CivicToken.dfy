/** The gateway-token account of Civic, as the agent registry reads it: a cursor moving over the
    account's bytes, with optional fields introduced by a tag byte. */
module CivicToken {
  import opened Wrappers
  import opened Bytes

  const CIVIC_STATE_ACTIVE: u8 := 0
  const CIVIC_STATE_REVOKED: u8 := 1
  const CIVIC_STATE_FROZEN: u8 := 2

  /** What the registry keeps of a token. */
  datatype Token = Token(
    version: u8,
    ownerWallet: bytes32,
    gatekeeperNetwork: bytes32,
    issuingGatekeeper: bytes32,
    state: u8,
    expireTime: Option<i64>)

  /** The whole record; the parent token and the owner's identity are skipped by the reader. */
  datatype Record = Record(
    version: u8,
    parentToken: Option<bytes32>,
    ownerWallet: bytes32,
    ownerIdentity: Option<bytes32>,
    gatekeeperNetwork: bytes32,
    issuingGatekeeper: bytes32,
    state: u8,
    expireTime: Option<i64>)

  function Retained(r: Record): Token {
    Token(r.version, r.ownerWallet, r.gatekeeperNetwork, r.issuingGatekeeper, r.state, r.expireTime)
  }

  // ----- the layout

  function EncodeKeyOption(o: Option<bytes32>): bytes {
    match o
    case None => [0]
    case Some(k) => [1] + k
  }

  function EncodeExpiry(o: Option<i64>): bytes {
    match o
    case None => [0]
    case Some(t) => [1] + LeBytes(t, 8)
  }

  function EncodeOwner(r: Record): bytes {
    [r.version] + EncodeKeyOption(r.parentToken) + r.ownerWallet + EncodeKeyOption(r.ownerIdentity)
  }

  function EncodeGrant(r: Record): bytes {
    r.gatekeeperNetwork + r.issuingGatekeeper + [r.state] + EncodeExpiry(r.expireTime)
  }

  function Encode(r: Record): bytes {
    EncodeOwner(r) + EncodeGrant(r)
  }

  lemma OwnerLayout(r: Record)
    ensures
      var e := EncodeOwner(r);
      var o := if r.parentToken.Some? then 34 else 2;
      && |e| == o + (if r.ownerIdentity.Some? then 65 else 33)
      && e[0] == r.version && e[o..o + 32] == r.ownerWallet
  {
  }

  lemma GrantLayout(r: Record)
    ensures
      var e := EncodeGrant(r);
      && |e| == 66 + (if r.expireTime.Some? then 8 else 0)
      && e[..32] == r.gatekeeperNetwork && e[32..64] == r.issuingGatekeeper && e[64] == r.state
      && (e[65] == 1 <==> r.expireTime.Some?) && (e[65] == 0 <==> r.expireTime.None?)
  {
  }

  lemma PartOfJoin(a: bytes, b: bytes, i: nat, j: nat)
    ensures i <= j <= |a| ==> (a + b)[i..j] == a[i..j]
    ensures i <= j <= |b| ==> (a + b)[|a| + i..|a| + j] == b[i..j]
  {
  }

  /** Where an encoding has its fields: after the version byte and each optional key's tag. */
  lemma EncodedLayout(r: Record)
    ensures
      var e := Encode(r);
      var o := if r.parentToken.Some? then 34 else 2;
      var n := o + if r.ownerIdentity.Some? then 65 else 33;
      && |e| == n + 66 + (if r.expireTime.Some? then 8 else 0)
      && e[0] == r.version && e[o..o + 32] == r.ownerWallet
      && e[n..n + 32] == r.gatekeeperNetwork && e[n + 32..n + 64] == r.issuingGatekeeper && e[n + 64] == r.state
      && (e[n + 65] == 1 <==> r.expireTime.Some?) && (e[n + 65] == 0 <==> r.expireTime.None?)
  {
    var first, second := EncodeOwner(r), EncodeGrant(r);
    var o := if r.parentToken.Some? then 34 else 2;
    OwnerLayout(r);
    GrantLayout(r);
    PartOfJoin(first, second, o, o + 32);
    PartOfJoin(first, second, 0, 32);
    PartOfJoin(first, second, 32, 64);
  }

  // ----- the readers

  /** A value and where the cursor stands after it. */
  datatype Read<+T> = Got(value: T, next: nat) | Bad

  function U8At(data: bytes, cur: nat): Read<u8> {
    if cur >= |data| then Bad else Got(data[cur], cur + 1)
  }

  /** Two's complement reading of eight little-endian bytes. */
  function I64Value(b: bytes): (t: i64)
    requires |b| == 8
  {
    LeBound(b);
    MachineWidths();
    var v := LeValue(b);
    if v > I64_MAX then v - U64_LIMIT else v
  }

  function I64At(data: bytes, cur: nat): Read<i64> {
    if cur + 8 > |data| then Bad else Got(I64Value(data[cur..cur + 8]), cur + 8)
  }

  function KeyAt(data: bytes, cur: nat): Read<bytes32> {
    if cur + 32 > |data| then Bad else Got(data[cur..cur + 32], cur + 32)
  }

  function SkipAt(data: bytes, cur: nat, width: nat): Read<()> {
    match U8At(data, cur)
    case Bad => Bad
    case Got(tag, c) =>
      if tag == 0 then Got((), c)
      else if tag == 1 && c + width <= |data| then Got((), c + width)
      else Bad
  }

  function ExpiryAt(data: bytes, cur: nat): Read<Option<i64>> {
    match U8At(data, cur)
    case Bad => Bad
    case Got(tag, c) =>
      if tag == 0 then Got(None, c)
      else if tag == 1 then
        match I64At(data, c)
        case Bad => Bad
        case Got(t, c') => Got(Some(t), c')
      else Bad
  }

  /** The token at the start of the data, and how many bytes it takes. */
  function Parse(data: bytes): Read<Token> {
    match U8At(data, 0) { case Bad => Bad case Got(version, c0) =>
    match SkipAt(data, c0, 32) { case Bad => Bad case Got(_, c1) =>
    match KeyAt(data, c1) { case Bad => Bad case Got(owner, c2) =>
    match SkipAt(data, c2, 32) { case Bad => Bad case Got(_, c3) =>
    match KeyAt(data, c3) { case Bad => Bad case Got(network, c4) =>
    match KeyAt(data, c4) { case Bad => Bad case Got(gatekeeper, c5) =>
    match U8At(data, c5) { case Bad => Bad case Got(state, c6) =>
    match ExpiryAt(data, c6) { case Bad => Bad case Got(expiry, c7) =>
      Got(Token(version, owner, network, gatekeeper, state, expiry), c7)
    }}}}}}}}
  }

  function Outcome<T>(r: Read<T>): Option<T> {
    match r
    case Bad => None
    case Got(v, _) => Some(v)
  }

  /** The account data under a moving cursor. A failed read leaves the cursor wherever it is. */
  class Cursor {
    const data: bytes
    var cur: nat

    constructor (data: bytes)
      ensures this.data == data && cur == 0
    {
      this.data := data;
      cur := 0;
    }

    method ReadU8() returns (r: Option<u8>)
      modifies this
      ensures r == Outcome(U8At(data, old(cur)))
      ensures r.Some? ==> cur == U8At(data, old(cur)).next
    {
      if cur >= |data| {
        return None;
      }
      var v := data[cur];
      cur := cur + 1;
      return Some(v);
    }

    method ReadI64() returns (r: Option<i64>)
      modifies this
      ensures r == Outcome(I64At(data, old(cur)))
      ensures r.Some? ==> cur == I64At(data, old(cur)).next
    {
      if cur + 8 > |data| {
        return None;
      }
      var buf := data[cur..cur + 8];
      cur := cur + 8;
      return Some(I64Value(buf));
    }

    method ReadPubkey() returns (r: Option<bytes32>)
      modifies this
      ensures r == Outcome(KeyAt(data, old(cur)))
      ensures r.Some? ==> cur == KeyAt(data, old(cur)).next
    {
      if cur + 32 > |data| {
        return None;
      }
      var buf := data[cur..cur + 32];
      cur := cur + 32;
      return Some(buf);
    }

    method SkipOption(innerLen: nat) returns (ok: bool)
      modifies this
      ensures ok <==> SkipAt(data, old(cur), innerLen).Got?
      ensures ok ==> cur == SkipAt(data, old(cur), innerLen).next
    {
      var tag := ReadU8();
      if tag.None? {
        return false;
      }
      if tag.value == 0 {
        return true;
      }
      if tag.value == 1 {
        if cur + innerLen > |data| {
          return false;
        }
        cur := cur + innerLen;
        return true;
      }
      return false;
    }
  }

  method Decode(data: bytes) returns (r: Option<Token>)
    ensures r == Outcome(Parse(data))
  {
    var c := new Cursor(data);
    var version := c.ReadU8();
    if version.None? { return None; }
    var ok := c.SkipOption(32);
    if !ok { return None; }
    var ownerWallet := c.ReadPubkey();
    if ownerWallet.None? { return None; }
    ok := c.SkipOption(32);
    if !ok { return None; }
    var network := c.ReadPubkey();
    if network.None? { return None; }
    var gatekeeper := c.ReadPubkey();
    if gatekeeper.None? { return None; }
    var state := c.ReadU8();
    if state.None? { return None; }
    var hasExpire := c.ReadU8();
    if hasExpire.None? { return None; }
    var expireTime: Option<i64> := None;
    if hasExpire.value == 1 {
      expireTime := c.ReadI64();
      if expireTime.None? { return None; }
    } else if hasExpire.value != 0 {
      return None;
    }
    return Some(Token(version.value, ownerWallet.value, network.value, gatekeeper.value, state.value, expireTime));
  }

  // ----- reading back what was written

  lemma I64RoundTrip(t: i64)
    ensures I64Value(LeBytes(t, 8)) == t
  {
    LeDecodeEncode(t, 8);
    MachineWidths();
    if t < 0 {
      ModUnique(t, -1, t + U64_LIMIT, U64_LIMIT);
    } else {
      ModUnique(t, 0, t, U64_LIMIT);
    }
  }

  lemma I64ReadBack(b: bytes)
    requires |b| == 8
    ensures LeBytes(I64Value(b), 8) == b
  {
    LeBound(b);
    LeEncodeDecode(b);
    MachineWidths();
    I64RoundTrip(I64Value(b));
    var c := LeBytes(I64Value(b), 8);
    LeBound(c);
    LeEncodeDecode(c);
  }

  /** `part` stands at the cursor. */
  ghost predicate Stands(data: bytes, cur: nat, part: bytes) {
    cur + |part| <= |data| && data[cur..cur + |part|] == part
  }

  lemma KeyStands(data: bytes, cur: nat, k: bytes32)
    requires Stands(data, cur, k)
    ensures KeyAt(data, cur) == Got(k, cur + 32)
  {
  }

  lemma SkipStands(data: bytes, cur: nat, o: Option<bytes32>)
    requires Stands(data, cur, EncodeKeyOption(o))
    ensures SkipAt(data, cur, 32) == Got((), cur + |EncodeKeyOption(o)|)
  {
    assert data[cur] == data[cur..cur + |EncodeKeyOption(o)|][0];
  }

  lemma ExpiryStands(data: bytes, cur: nat, o: Option<i64>)
    requires Stands(data, cur, EncodeExpiry(o))
    ensures ExpiryAt(data, cur) == Got(o, cur + |EncodeExpiry(o)|)
  {
    var part := data[cur..cur + |EncodeExpiry(o)|];
    assert data[cur] == part[0];
    if o.Some? {
      I64RoundTrip(o.value);
      assert data[cur + 1..cur + 9] == part[1..] == LeBytes(o.value, 8);
    }
  }

  lemma U8Stands(data: bytes, cur: nat, v: u8)
    requires Stands(data, cur, [v])
    ensures U8At(data, cur) == Got(v, cur + 1)
  {
    assert data[cur] == data[cur..cur + 1][0];
  }

  /** A concatenation puts each part where the lengths before it say. */
  lemma StandsSplit(data: bytes, cur: nat, first: bytes, rest: bytes)
    requires Stands(data, cur, first + rest)
    ensures Stands(data, cur, first) && Stands(data, cur + |first|, rest)
  {
    var all := data[cur..cur + |first + rest|];
    assert data[cur..cur + |first|] == all[..|first|];
    assert data[cur + |first|..cur + |first| + |rest|] == all[|first|..];
  }

  lemma OwnerParts(data: bytes, r: Record)
    requires Stands(data, 0, EncodeOwner(r))
    ensures
      var c1 := 1 + |EncodeKeyOption(r.parentToken)|;
      && Stands(data, 0, [r.version]) && Stands(data, 1, EncodeKeyOption(r.parentToken))
      && Stands(data, c1, r.ownerWallet) && Stands(data, c1 + 32, EncodeKeyOption(r.ownerIdentity))
  {
    FourParts(data, [r.version], EncodeKeyOption(r.parentToken), r.ownerWallet, EncodeKeyOption(r.ownerIdentity));
  }

  lemma FourParts(data: bytes, a: bytes, b: bytes, c: bytes, d: bytes)
    requires Stands(data, 0, a + b + c + d)
    ensures Stands(data, 0, a) && Stands(data, |a|, b)
    ensures Stands(data, |a| + |b|, c) && Stands(data, |a| + |b| + |c|, d)
  {
    StandsSplit(data, 0, a + b + c, d);
    StandsSplit(data, 0, a + b, c);
    StandsSplit(data, 0, a, b);
  }

  /** The first half of a record where it stands at the start of the data. */
  lemma OwnerStands(data: bytes, r: Record)
    requires Stands(data, 0, EncodeOwner(r))
    ensures
      var c1 := 1 + |EncodeKeyOption(r.parentToken)|;
      && U8At(data, 0) == Got(r.version, 1)
      && SkipAt(data, 1, 32) == Got((), c1)
      && KeyAt(data, c1) == Got(r.ownerWallet, c1 + 32)
      && SkipAt(data, c1 + 32, 32) == Got((), |EncodeOwner(r)|)
  {
    var c1 := 1 + |EncodeKeyOption(r.parentToken)|;
    OwnerParts(data, r);
    U8Stands(data, 0, r.version);
    SkipStands(data, 1, r.parentToken);
    KeyStands(data, c1, r.ownerWallet);
    SkipStands(data, c1 + 32, r.ownerIdentity);
  }

  /** The second half where it stands at the cursor. */
  lemma GrantStands(data: bytes, cur: nat, r: Record)
    requires Stands(data, cur, EncodeGrant(r))
    ensures KeyAt(data, cur) == Got(r.gatekeeperNetwork, cur + 32)
    ensures KeyAt(data, cur + 32) == Got(r.issuingGatekeeper, cur + 64)
    ensures U8At(data, cur + 64) == Got(r.state, cur + 65)
    ensures ExpiryAt(data, cur + 65) == Got(r.expireTime, cur + |EncodeGrant(r)|)
  {
    var p1: bytes := r.gatekeeperNetwork;
    var p2 := p1 + r.issuingGatekeeper;
    var p3 := p2 + [r.state];
    StandsSplit(data, cur, p3, EncodeExpiry(r.expireTime));
    StandsSplit(data, cur, p2, [r.state]);
    StandsSplit(data, cur, p1, r.issuingGatekeeper);
    KeyStands(data, cur, r.gatekeeperNetwork);
    KeyStands(data, cur + 32, r.issuingGatekeeper);
    U8Stands(data, cur + 64, r.state);
    ExpiryStands(data, cur + 65, r.expireTime);
  }

  /** For every record, with every combination of optional fields, reading its encoding gives the
      retained fields and stops at its end; bytes appended after it change nothing. */
  lemma DecodeEncode(r: Record, rest: bytes)
    ensures Parse(Encode(r) + rest) == Got(Retained(r), |Encode(r)|)
  {
    var data := Encode(r) + rest;
    assert data[..|Encode(r)|] == Encode(r);
    StandsSplit(data, 0, EncodeOwner(r), EncodeGrant(r));
    OwnerStands(data, r);
    GrantStands(data, |EncodeOwner(r)|, r);
  }

  // ----- what an accepted input looks like

  lemma SkipShape(data: bytes, cur: nat) returns (o: Option<bytes32>)
    requires SkipAt(data, cur, 32).Got?
    ensures Stands(data, cur, EncodeKeyOption(o)) && SkipAt(data, cur, 32).next == cur + |EncodeKeyOption(o)|
  {
    if data[cur] == 0 {
      o := None;
      assert data[cur..cur + 1] == [0];
    } else {
      o := Some(data[cur + 1..cur + 33]);
      assert data[cur..cur + 33] == [1] + data[cur + 1..cur + 33];
    }
  }

  lemma ExpiryShape(data: bytes, cur: nat)
    requires ExpiryAt(data, cur).Got?
    ensures Stands(data, cur, EncodeExpiry(ExpiryAt(data, cur).value))
    ensures ExpiryAt(data, cur).next == cur + |EncodeExpiry(ExpiryAt(data, cur).value)|
  {
    if data[cur] == 0 {
      assert data[cur..cur + 1] == [0];
    } else {
      I64ReadBack(data[cur + 1..cur + 9]);
      assert data[cur..cur + 9] == [1] + data[cur + 1..cur + 9];
    }
  }

  lemma StandsJoin(data: bytes, first: bytes, rest: bytes)
    requires Stands(data, 0, first) && Stands(data, |first|, rest)
    ensures Stands(data, 0, first + rest)
  {
    assert data[0..|first + rest|] == data[0..|first|] + data[|first|..|first| + |rest|];
  }

  lemma OwnerShape(data: bytes) returns (parent: Option<bytes32>, identity: Option<bytes32>, cur: nat)
    requires Parse(data).Got?
    ensures
      var t := Parse(data).value;
      var part := [t.version] + EncodeKeyOption(parent) + t.ownerWallet + EncodeKeyOption(identity);
      && Stands(data, 0, part) && cur == |part|
      && KeyAt(data, cur) == Got(t.gatekeeperNetwork, cur + 32)
      && KeyAt(data, cur + 32) == Got(t.issuingGatekeeper, cur + 64)
      && U8At(data, cur + 64) == Got(t.state, cur + 65)
      && ExpiryAt(data, cur + 65) == Got(t.expireTime, Parse(data).next)
  {
    var token := Parse(data).value;
    parent := SkipShape(data, 1);
    var p1 := [token.version];
    assert data[0..1] == p1;
    var p2 := p1 + EncodeKeyOption(parent);
    StandsJoin(data, p1, EncodeKeyOption(parent));
    var p3 := p2 + token.ownerWallet;
    StandsJoin(data, p2, token.ownerWallet);
    identity := SkipShape(data, |p3|);
    StandsJoin(data, p3, EncodeKeyOption(identity));
    cur := |p3| + |EncodeKeyOption(identity)|;
  }

  lemma GrantShape(data: bytes, before: bytes, network: bytes32, gatekeeper: bytes32, state: u8)
    requires Stands(data, 0, before)
    requires KeyAt(data, |before|) == Got(network, |before| + 32)
    requires KeyAt(data, |before| + 32) == Got(gatekeeper, |before| + 64)
    requires U8At(data, |before| + 64) == Got(state, |before| + 65)
    requires ExpiryAt(data, |before| + 65).Got?
    ensures
      var part := network + gatekeeper + [state] + EncodeExpiry(ExpiryAt(data, |before| + 65).value);
      Stands(data, |before|, part) && ExpiryAt(data, |before| + 65).next == |before| + |part|
  {
    ExpiryShape(data, |before| + 65);
    var expiry := EncodeExpiry(ExpiryAt(data, |before| + 65).value);
    var c, k: bytes := |before|, network + gatekeeper;
    assert data[c..c + 64] == data[c..c + 32] + data[c + 32..c + 64];
    assert data[c..c + 65] == data[c..c + 64] + [data[c + 64]];
    assert data[c..c + 65 + |expiry|] == data[c..c + 65] + data[c + 65..c + 65 + |expiry|];
  }

  /** The skipped fields of an accepted input, read back into a record. */
  lemma AcceptedRecord(data: bytes) returns (r: Record)
    requires Parse(data).Got?
    ensures Retained(r) == Parse(data).value
    ensures Stands(data, 0, EncodeOwner(r)) && Stands(data, |EncodeOwner(r)|, EncodeGrant(r))
    ensures Parse(data).next == |EncodeOwner(r)| + |EncodeGrant(r)|
  {
    var t := Parse(data).value;
    var parent, identity, cur := OwnerShape(data);
    r := Record(t.version, parent, t.ownerWallet, identity, t.gatekeeperNetwork, t.issuingGatekeeper, t.state,
                t.expireTime);
    GrantShape(data, EncodeOwner(r), t.gatekeeperNetwork, t.issuingGatekeeper, t.state);
  }

  /** Every accepted input starts with the encoding of a record whose retained fields are the
      result. */
  lemma AcceptedIsEncoding(data: bytes) returns (r: Record, rest: bytes)
    requires Parse(data).Got?
    ensures data == Encode(r) + rest && Retained(r) == Parse(data).value && |Encode(r)| == Parse(data).next
  {
    r := AcceptedRecord(data);
    StandsJoin(data, EncodeOwner(r), EncodeGrant(r));
    rest := TheRest(data, Encode(r));
  }

  lemma TheRest(data: bytes, first: bytes) returns (rest: bytes)
    requires Stands(data, 0, first)
    ensures data == first + rest
  {
    rest := data[|first|..];
  }

  /** So decoding accepts exactly the inputs that start with an encoding. */
  lemma AcceptsExactlyEncodings(data: bytes, token: Token)
    ensures Outcome(Parse(data)) == Some(token) <==>
      exists r: Record, rest: bytes :: data == Encode(r) + rest && Retained(r) == token
  {
    if Outcome(Parse(data)) == Some(token) {
      var r, rest := AcceptedIsEncoding(data);
    }
    if r: Record, rest: bytes :| data == Encode(r) + rest && Retained(r) == token {
      DecodeEncode(r, rest);
    }
  }

  /** Two encodings at the start of one input have one length. */
  lemma EncodingsPrefixFree(r: Record, rest: bytes, r': Record, rest': bytes, data: bytes)
    requires data == Encode(r) + rest && data == Encode(r') + rest'
    ensures |Encode(r)| == |Encode(r')|
  {
    DecodeEncode(r, rest);
    DecodeEncode(r', rest');
  }

  lemma Regroup(whole: bytes, k: nat, first: bytes, rest: bytes)
    requires k <= |whole| && whole[..k] == first + rest
    ensures whole == first + (rest + whole[k..])
  {
    assert whole == whole[..k] + whole[k..];
  }

  /** No strict prefix of an encoding is accepted. */
  lemma StrictPrefixRejected(r: Record, k: nat)
    requires k < |Encode(r)|
    ensures Parse(Encode(r)[..k]).Bad?
  {
    var whole := Encode(r);
    if Parse(whole[..k]).Got? {
      var r', rest := AcceptedIsEncoding(whole[..k]);
      Regroup(whole, k, Encode(r'), rest);
      assert whole == whole + [];
      EncodingsPrefixFree(r, [], r', rest + whole[k..], whole);
    }
  }

  // ----- the checks on a decoded token

  datatype TokenError = GatewayTokenNotActive | GatewayTokenInvalid | PersonhoodExpired

  datatype Checked = Valid(expiry: i64) | Refused(error: TokenError)

  function AssertActive(t: Token): Option<TokenError> {
    if t.state == CIVIC_STATE_ACTIVE then None
    else if t.state == CIVIC_STATE_REVOKED || t.state == CIVIC_STATE_FROZEN then Some(GatewayTokenNotActive)
    else Some(GatewayTokenInvalid)
  }

  function AssertUnexpired(t: Token, now: i64): Checked {
    match t.expireTime
    case None => Valid(0)
    case Some(e) => if e > now then Valid(e) else Refused(PersonhoodExpired)
  }

  /** From bytes to verdict: an encoded record passes both checks exactly when it is active and has
      no expiry or one still ahead. */
  lemma EncodedTokenVerdict(r: Record, rest: bytes, now: i64)
    ensures
      var t := Outcome(Parse(Encode(r) + rest));
      && t.Some?
      && (AssertActive(t.value).None? && AssertUnexpired(t.value, now).Valid? <==>
            r.state == 0 && (r.expireTime.None? || r.expireTime.value > now))
      && (AssertActive(t.value) == Some(GatewayTokenNotActive) <==> r.state == 1 || r.state == 2)
  {
    DecodeEncode(r, rest);
  }
}
