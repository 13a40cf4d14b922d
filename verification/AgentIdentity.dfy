/** How the agent registry names agents: an account sits at the address derived from its operator and
    agent id, and its DID is a hash over what it was registered with. That a DID belongs to one agent
    is not assumed; two agents with one DID are a collision of the hash. */
module AgentIdentity {
  import opened Bytes

  /** What is written at registration and never changes; the manifest is the text before its first
      zero byte. */
  datatype Registration = Registration(operator: Key, agentId: bytes32, manifest: bytes)

  /** All agents ever registered, by account address, and the derivation of addresses. */
  datatype Registry = Registry(registered: map<Key, Registration>, addressOf: (Key, bytes32) -> Key)

  function DidPreimage(r: Registration): bytes {
    r.operator + r.agentId + r.manifest
  }

  function ComputeDid(hash: HashFn, r: Registration): bytes32 {
    hash(DidPreimage(r))
  }

  /** The preimage reads back as operator, agent id and manifest. */
  lemma DidPreimageReads(r: Registration)
    ensures
      var p := DidPreimage(r);
      |p| >= 64 && p[..32] == r.operator && p[32..64] == r.agentId && p[64..] == r.manifest
  {
  }

  lemma DidPreimageInjective(r: Registration, s: Registration)
    requires DidPreimage(r) == DidPreimage(s)
    ensures r == s
  {
    DidPreimageReads(r);
    DidPreimageReads(s);
  }

  /** Every account sits at its own address. */
  ghost predicate WellPlaced(reg: Registry) {
    forall g :: g in reg.registered ==> reg.addressOf(reg.registered[g].operator, reg.registered[g].agentId) == g
  }

  ghost predicate HasDid(hash: HashFn, reg: Registry, g: Key, did: bytes32) {
    g in reg.registered && ComputeDid(hash, reg.registered[g]) == did
  }

  ghost predicate CollidingAgents(hash: HashFn, reg: Registry, g: Key, h: Key) {
    && g in reg.registered && h in reg.registered
    && Collision(hash, DidPreimage(reg.registered[g]), DidPreimage(reg.registered[h]))
  }

  /** Two registered agents are a collision of the hash. */
  ghost predicate DidsCollide(hash: HashFn, reg: Registry) {
    exists g, h :: CollidingAgents(hash, reg, g, h)
  }

  /** Agents with one DID have one registration, or collide. */
  lemma OneRegistrationPerDid(hash: HashFn, reg: Registry, g: Key, h: Key, did: bytes32)
    requires HasDid(hash, reg, g, did) && HasDid(hash, reg, h, did)
    ensures reg.registered[g] == reg.registered[h] || CollidingAgents(hash, reg, g, h)
  {
    if DidPreimage(reg.registered[g]) == DidPreimage(reg.registered[h]) {
      DidPreimageInjective(reg.registered[g], reg.registered[h]);
    }
  }

  /** A DID names one account, unless two registered agents collide. */
  lemma OneAgentPerDid(hash: HashFn, reg: Registry, g: Key, h: Key, did: bytes32)
    requires WellPlaced(reg) && HasDid(hash, reg, g, did) && HasDid(hash, reg, h, did)
    ensures g == h || CollidingAgents(hash, reg, g, h)
  {
    OneRegistrationPerDid(hash, reg, g, h, did);
  }

  /** An account with this DID, if there is one. */
  ghost function AgentFor(hash: HashFn, reg: Registry, did: bytes32): Key {
    if exists g :: HasDid(hash, reg, g, did) then
      var g :| HasDid(hash, reg, g, did);
      g
    else did
  }
}
