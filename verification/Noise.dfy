/** The Noise IKpsk2 handshake of noise-protocol.go over uninterpreted primitives.

    Every message function computes on the handshake record of one peer; the theorem at
    the end follows an honest exchange through both devices. */
module Noise {
  import opened Wrappers

  type Bytes = seq<nat>

  /** Hash, HMAC, Diffie-Hellman and AEAD (with the all-zero nonce). */
  datatype Primitives = Primitives(
    hash: Bytes -> Bytes,
    hmac: (Bytes, Bytes) -> Bytes,
    publicKey: Bytes -> Bytes,
    sharedSecret: (Bytes, Bytes) -> Bytes,
    seal: (Bytes, Bytes, Bytes) -> Bytes,
    open: (Bytes, Bytes, Bytes) -> Option<Bytes>,
    construction: Bytes,
    identifier: Bytes)
  {
    ghost predicate Lawful() {
      && (forall a, b :: sharedSecret(a, publicKey(b)) == sharedSecret(b, publicKey(a)))
      && (forall k, m, ad :: open(k, seal(k, m, ad), ad) == Some(m))
    }

    function MixHash(h: Bytes, data: Bytes): Bytes {
      hash(h + data)
    }

    function Kdf1(key: Bytes, input: Bytes): Bytes {
      hmac(hmac(key, input), [1])
    }

    function Kdf2(key: Bytes, input: Bytes): (Bytes, Bytes) {
      var prk := hmac(key, input);
      var t0 := hmac(prk, [1]);
      (t0, hmac(prk, t0 + [2]))
    }

    function Kdf3(key: Bytes, input: Bytes): (Bytes, Bytes, Bytes) {
      var prk := hmac(key, input);
      var t0 := hmac(prk, [1]);
      var t1 := hmac(prk, t0 + [2]);
      (t0, t1, hmac(prk, t1 + [3]))
    }

    function InitialChainKey(): Bytes {
      hash(construction)
    }

    function InitialHash(): Bytes {
      MixHash(InitialChainKey(), identifier)
    }
  }

  predicate IsZero(b: Bytes) {
    forall i :: 0 <= i < |b| ==> b[i] == 0
  }

  datatype Phase = Zeroed | InitiationCreated | InitiationConsumed | ResponseCreated | ResponseConsumed

  datatype Handshake = Handshake(
    phase: Phase, hash: Bytes, chainKey: Bytes, presharedKey: Bytes, localEphemeral: Bytes,
    localIndex: nat, remoteIndex: nat, remoteStatic: Bytes, remoteEphemeral: Bytes,
    precomputedStaticStatic: Bytes, lastTimestamp: nat, lastInitiationConsumption: int)

  datatype Identity = Identity(privateKey: Bytes, publicKey: Bytes)

  datatype Initiation = Initiation(sender: nat, ephemeral: Bytes, sealedStatic: Bytes, timestamp: Bytes)

  datatype Response = Response(sender: nat, receiver: nat, ephemeral: Bytes, empty: Bytes)

  const HANDSHAKE_INITIATION_RATE: int := 20_000_000

  function Clear(h: Handshake): Handshake {
    h.(localEphemeral := [], remoteEphemeral := [], chainKey := [], hash := [], localIndex := 0, phase := Zeroed)
  }

  // ------------------------------------------------- initiation

  /** The handshake record just before the index is assigned, and the sealed fields; or the
      record as an all-zero shared secret leaves it. */
  function BeginInitiation(c: Primitives, me: Identity, h: Handshake, eph: Bytes, now: nat): (Result<(Bytes, Bytes),
                           ()>, Handshake) {
    var e := c.publicKey(eph);
    var hash2 := c.MixHash(c.MixHash(c.InitialHash(), h.remoteStatic), e);
    var ck1 := c.Kdf1(c.InitialChainKey(), e);
    var h1 := h.(localEphemeral := eph, hash := hash2, chainKey := ck1);
    var ss := c.sharedSecret(eph, h.remoteStatic);
    if IsZero(ss) then (Err(()), h1)
    else
      var (ck2, key) := c.Kdf2(ck1, ss);
      var sealedStatic := c.seal(key, me.publicKey, hash2);
      var hash3 := c.MixHash(hash2, sealedStatic);
      if IsZero(h.precomputedStaticStatic) then (Err(()), h1.(chainKey := ck2, hash := hash3))
      else
        var (ck3, key') := c.Kdf2(ck2, h.precomputedStaticStatic);
        (Ok((sealedStatic, c.seal(key', [now], hash3))), h1.(chainKey := ck3, hash := hash3))
  }

  function FinishInitiation(c: Primitives, h: Handshake, index: nat, sealedStatic: Bytes,
                            timestamp: Bytes): (Initiation, Handshake) {
    (Initiation(index, c.publicKey(h.localEphemeral), sealedStatic, timestamp),
     h.(localIndex := index, hash := c.MixHash(h.hash, timestamp), phase := InitiationCreated))
  }

  /** What the responder learns from the ephemeral and static fields: the initiator's public
      key, the running hash and the chain key. */
  function OpenStatic(c: Primitives, me: Identity, msg: Initiation): Option<(Bytes, Bytes, Bytes)> {
    var hash2 := c.MixHash(c.MixHash(c.InitialHash(), me.publicKey), msg.ephemeral);
    var ck1 := c.Kdf1(c.InitialChainKey(), msg.ephemeral);
    var ss := c.sharedSecret(me.privateKey, msg.ephemeral);
    if IsZero(ss) then None
    else
      var (ck2, key) := c.Kdf2(ck1, ss);
      match c.open(key, msg.sealedStatic, hash2)
      case None => None
      case Some(pk) => Some((pk, c.MixHash(hash2, msg.sealedStatic), ck2))
  }

  /** The record after an accepted initiation; replayed and flooding ones are refused. */
  function AcceptInitiation(c: Primitives, h: Handshake, msg: Initiation, hash3: Bytes, ck2: Bytes,
                            now: int): Option<Handshake> {
    if IsZero(h.precomputedStaticStatic) then None
    else
      var (ck3, key) := c.Kdf2(ck2, h.precomputedStaticStatic);
      match c.open(key, msg.timestamp, hash3)
      case None => None
      case Some(stamp) =>
        if |stamp| != 1 || stamp[0] <= h.lastTimestamp then None
        else if now - h.lastInitiationConsumption <= HANDSHAKE_INITIATION_RATE then None
        else Some(h.(hash := c.MixHash(hash3, msg.timestamp), chainKey := ck3, remoteIndex := msg.sender,
                     remoteEphemeral := msg.ephemeral, lastTimestamp := stamp[0],
                     lastInitiationConsumption :=
                       if now > h.lastInitiationConsumption then now else h.lastInitiationConsumption,
                     phase := InitiationConsumed))
  }

  // ------------------------------------------------- response

  function MakeResponse(c: Primitives, h: Handshake, eph: Bytes): (Response, Handshake) {
    var e := c.publicKey(eph);
    var hash5 := c.MixHash(h.hash, e);
    var ck4 := c.Kdf1(h.chainKey, e);
    var ck6 := c.Kdf1(c.Kdf1(ck4, c.sharedSecret(eph, h.remoteEphemeral)), c.sharedSecret(eph, h.remoteStatic));
    var (ck7, tau, key) := c.Kdf3(ck6, h.presharedKey);
    var hash6 := c.MixHash(hash5, tau);
    var empty := c.seal(key, [], hash6);
    (Response(h.localIndex, h.remoteIndex, e, empty),
     h.(localEphemeral := eph, hash := c.MixHash(hash6, empty), chainKey := ck7, phase := ResponseCreated))
  }

  function AcceptResponse(c: Primitives, me: Identity, h: Handshake, msg: Response): Option<Handshake> {
    if h.phase != InitiationCreated then None
    else
      var hash5 := c.MixHash(h.hash, msg.ephemeral);
      var ck4 := c.Kdf1(h.chainKey, msg.ephemeral);
      var ck5 := c.Kdf1(ck4, c.sharedSecret(h.localEphemeral, msg.ephemeral));
      var ck6 := c.Kdf1(ck5, c.sharedSecret(me.privateKey, msg.ephemeral));
      var (ck7, tau, key) := c.Kdf3(ck6, h.presharedKey);
      var hash6 := c.MixHash(hash5, tau);
      if c.open(key, msg.empty, hash6) == None then None
      else Some(h.(hash := c.MixHash(hash6, msg.empty), chainKey := ck7,
                   remoteIndex := msg.sender, phase := ResponseConsumed))
  }

  /** Sending key, receiving key and initiator flag of the new session. */
  function SessionKeys(c: Primitives, h: Handshake): Option<(Bytes, Bytes, bool)> {
    var (t0, t1) := c.Kdf2(h.chainKey, []);
    match h.phase
    case ResponseConsumed => Some((t0, t1, true))
    case ResponseCreated => Some((t1, t0, false))
    case _ => None
  }

  // ------------------------------------------------- agreement

  /** `hi` is the initiator's record of the responder, `hr` the responder's of the initiator. */
  ghost predicate Honest(c: Primitives, i: Identity, r: Identity, hi: Handshake, hr: Handshake) {
    && c.Lawful() && i.publicKey == c.publicKey(i.privateKey) && r.publicKey == c.publicKey(r.privateKey)
    && hi.remoteStatic == r.publicKey && hr.remoteStatic == i.publicKey
    && hi.presharedKey == hr.presharedKey
    && hi.precomputedStaticStatic == c.sharedSecret(i.privateKey, r.publicKey)
    && hr.precomputedStaticStatic == c.sharedSecret(r.privateKey, i.publicKey)
  }

  /** An honest initiation opens at the responder: it recovers the initiator's static key
      and, if the timestamp is fresh, ends with the initiator's hash and chain key. */
  lemma InitiationAgrees(c: Primitives, i: Identity, r: Identity, hi: Handshake, hr: Handshake, eph: Bytes, now: nat,
                         index: nat, clock: int)
    requires Honest(c, i, r, hi, hr)
    requires !IsZero(c.sharedSecret(eph, r.publicKey)) && !IsZero(hi.precomputedStaticStatic)
    requires now > hr.lastTimestamp && clock - hr.lastInitiationConsumption > HANDSHAKE_INITIATION_RATE
    ensures BeginInitiation(c, i, hi, eph, now).0.Ok?
    ensures var (sealed, h1) := BeginInitiation(c, i, hi, eph, now);
      var (msg, hi1) := FinishInitiation(c, h1, index, sealed.value.0, sealed.value.1);
      var learnt := OpenStatic(c, r, msg);
      && learnt.Some? && learnt.value.0 == i.publicKey
      && var accepted := AcceptInitiation(c, hr, msg, learnt.value.1, learnt.value.2, clock);
      && accepted.Some? && accepted.value.phase == InitiationConsumed && hi1.phase == InitiationCreated
      && accepted.value.hash == hi1.hash && accepted.value.chainKey == hi1.chainKey
      && accepted.value.remoteEphemeral == c.publicKey(eph) && accepted.value.remoteIndex == index
      && accepted.value.lastTimestamp == now
  {
    var (sealed, h1) := BeginInitiation(c, i, hi, eph, now);
    var (msg, hi1) := FinishInitiation(c, h1, index, sealed.value.0, sealed.value.1);
    assert c.sharedSecret(r.privateKey, msg.ephemeral) == c.sharedSecret(eph, r.publicKey);
    assert hr.precomputedStaticStatic == hi.precomputedStaticStatic;
  }

  /** From a common hash and chain key the response is accepted, and the session keys of the
      two sides mirror each other. */
  lemma ResponseAgrees(c: Primitives, i: Identity, r: Identity, hi: Handshake, hr: Handshake, eph: Bytes)
    requires Honest(c, i, r, hi, hr)
    requires hi.phase == InitiationCreated && hr.phase == InitiationConsumed
    requires hi.hash == hr.hash && hi.chainKey == hr.chainKey && hr.remoteEphemeral == c.publicKey(hi.localEphemeral)
    ensures var (msg, hr1) := MakeResponse(c, hr, eph);
      var accepted := AcceptResponse(c, i, hi, msg);
      && accepted.Some? && accepted.value.hash == hr1.hash && accepted.value.chainKey == hr1.chainKey
      && accepted.value.remoteIndex == hr.localIndex && hr1.remoteIndex == hr.remoteIndex
      && var ki := SessionKeys(c, accepted.value); var kr := SessionKeys(c, hr1);
      && ki.Some? && kr.Some?
      && ki.value.0 == kr.value.1 && ki.value.1 == kr.value.0 && ki.value.2 && !kr.value.2
  {
    var (msg, hr1) := MakeResponse(c, hr, eph);
    assert c.sharedSecret(hi.localEphemeral, msg.ephemeral) == c.sharedSecret(eph, hr.remoteEphemeral);
    assert c.sharedSecret(i.privateKey, msg.ephemeral) == c.sharedSecret(eph, hr.remoteStatic);
  }
}
