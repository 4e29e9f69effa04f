/** What the messages of the handshake prove about whoever made them, over primitives that are
    ideal: hash and HMAC have no collisions, and only what was sealed under the same key and
    associated data opens. */
module Authenticity {
  import opened Wrappers
  import opened Noise

  const HASH_SIZE: nat := 32

  ghost predicate Ideal(c: Primitives) {
    && (forall x :: |c.hash(x)| == HASH_SIZE)
    && (forall x, y :: c.hash(x) == c.hash(y) ==> x == y)
    && (forall k, m :: |c.hmac(k, m)| == HASH_SIZE)
    && (forall k, m, k', m' :: c.hmac(k, m) == c.hmac(k', m') ==> k == k' && m == m')
    && (forall k, x, ad {:trigger c.open(k, x, ad)} ::
          c.open(k, x, ad).Some? ==> x == c.seal(k, c.open(k, x, ad).value, ad))
    && (forall k, m, ad, k', m', ad' {:trigger c.seal(k, m, ad), c.seal(k', m', ad')} ::
          c.seal(k, m, ad) == c.seal(k', m', ad') ==> k == k' && m == m' && ad == ad')
  }

  // ------------------------------------------------- derivation steps can be undone

  lemma MixHashInjective(c: Primitives, h: Bytes, x: Bytes, h': Bytes, x': Bytes)
    requires Ideal(c) && c.MixHash(h, x) == c.MixHash(h', x') && (|h| == |h'| || |x| == |x'|)
    ensures h == h' && x == x'
  {
    assert h + x == h' + x';
    assert |h| == |h'|;
    assert h == (h + x)[..|h|] && x == (h + x)[|h|..];
    assert h' == (h' + x')[..|h|] && x' == (h' + x')[|h|..];
  }

  lemma Kdf1Injective(c: Primitives, k: Bytes, x: Bytes, k': Bytes, x': Bytes)
    requires Ideal(c) && c.Kdf1(k, x) == c.Kdf1(k', x')
    ensures k == k' && x == x'
  {
  }

  /** The last output of the derivation determines both inputs. */
  lemma Kdf2Injective(c: Primitives, k: Bytes, x: Bytes, k': Bytes, x': Bytes)
    requires Ideal(c) && c.Kdf2(k, x).1 == c.Kdf2(k', x').1
    ensures k == k' && x == x'
  {
    var prk, prk' := c.hmac(k, x), c.hmac(k', x');
    assert prk == prk';
  }

  lemma Kdf3Injective(c: Primitives, k: Bytes, x: Bytes, k': Bytes, x': Bytes)
    requires Ideal(c) && c.Kdf3(k, x).2 == c.Kdf3(k', x').2
    ensures k == k' && x == x'
  {
    var prk, prk' := c.hmac(k, x), c.hmac(k', x');
    assert prk == prk';
  }

  lemma OpensOnlyItsOwn(c: Primitives, k: Bytes, m: Bytes, ad: Bytes, k': Bytes, ad': Bytes)
    requires Ideal(c) && c.open(k', c.seal(k, m, ad), ad').Some?
    ensures k == k' && ad == ad' && c.open(k', c.seal(k, m, ad), ad').value == m
  {
  }

  // ------------------------------------------------- the response

  /** A response whose authenticator opens under no key is refused. */
  lemma UnsealedResponseIsRefused(c: Primitives, me: Identity, h: Handshake, msg: Response)
    requires forall k, ad :: c.open(k, msg.empty, ad) == None
    ensures AcceptResponse(c, me, h, msg) == None
  {
  }

  /** If the initiator accepts a response with the authenticator that a responder made, then both
      have the same transcript so far, the same preshared key and the same two shared secrets, and
      end with the same hash and chain key. */
  lemma AcceptedResponseAgrees(c: Primitives, me: Identity, hi: Handshake, hr: Handshake, eph: Bytes, msg: Response)
    requires Ideal(c) && |msg.ephemeral| == |c.publicKey(eph)|
    requires msg.empty == MakeResponse(c, hr, eph).0.empty && AcceptResponse(c, me, hi, msg).Some?
    ensures msg.ephemeral == c.publicKey(eph)
    ensures hi.hash == hr.hash && hi.chainKey == hr.chainKey && hi.presharedKey == hr.presharedKey
    ensures c.sharedSecret(hi.localEphemeral, msg.ephemeral) == c.sharedSecret(eph, hr.remoteEphemeral)
    ensures c.sharedSecret(me.privateKey, msg.ephemeral) == c.sharedSecret(eph, hr.remoteStatic)
    ensures var h, h' := AcceptResponse(c, me, hi, msg).value, MakeResponse(c, hr, eph).1;
      h.hash == h'.hash && h.chainKey == h'.chainKey
  {
    var e, e' := msg.ephemeral, c.publicKey(eph);
    var ss, ss' := c.sharedSecret(hi.localEphemeral, e), c.sharedSecret(eph, hr.remoteEphemeral);
    var st, st' := c.sharedSecret(me.privateKey, e), c.sharedSecret(eph, hr.remoteStatic);
    var ck4, ck4' := c.Kdf1(hi.chainKey, e), c.Kdf1(hr.chainKey, e');
    var ck5, ck5' := c.Kdf1(ck4, ss), c.Kdf1(ck4', ss');
    var ck6, ck6' := c.Kdf1(ck5, st), c.Kdf1(ck5', st');
    var tau, tau' := c.Kdf3(ck6, hi.presharedKey).1, c.Kdf3(ck6', hr.presharedKey).1;
    var hash5, hash5' := c.MixHash(hi.hash, e), c.MixHash(hr.hash, e');
    OpensOnlyItsOwn(c, c.Kdf3(ck6', hr.presharedKey).2, [], c.MixHash(hash5', tau'),
                    c.Kdf3(ck6, hi.presharedKey).2, c.MixHash(hash5, tau));
    Kdf3Injective(c, ck6, hi.presharedKey, ck6', hr.presharedKey);
    Kdf1Injective(c, ck5, st, ck5', st');
    Kdf1Injective(c, ck4, ss, ck4', ss');
    Kdf1Injective(c, hi.chainKey, e, hr.chainKey, e');
    MixHashInjective(c, hash5, tau, hash5', tau');
    MixHashInjective(c, hi.hash, e, hr.hash, e');
  }

  /** In particular a response made under a different preshared key, or for a different
      transcript, is never accepted. */
  lemma ForeignResponseIsRefused(c: Primitives, me: Identity, hi: Handshake, hr: Handshake, eph: Bytes)
    requires Ideal(c)
    requires hi.presharedKey != hr.presharedKey || hi.chainKey != hr.chainKey || hi.hash != hr.hash
    ensures AcceptResponse(c, me, hi, MakeResponse(c, hr, eph).0) == None
  {
    if AcceptResponse(c, me, hi, MakeResponse(c, hr, eph).0).Some? {
      AcceptedResponseAgrees(c, me, hi, hr, eph, MakeResponse(c, hr, eph).0);
    }
  }

  /** Then the two sessions mirror each other, with different keys for the two directions; the
      initiator sends with the first output of the split. */
  lemma AcceptedSessionsMirror(c: Primitives, me: Identity, hi: Handshake, hr: Handshake, eph: Bytes, msg: Response)
    requires Ideal(c) && |msg.ephemeral| == |c.publicKey(eph)|
    requires msg.empty == MakeResponse(c, hr, eph).0.empty && AcceptResponse(c, me, hi, msg).Some?
    ensures var h, h' := AcceptResponse(c, me, hi, msg).value, MakeResponse(c, hr, eph).1;
      var ki, kr := SessionKeys(c, h), SessionKeys(c, h');
      && ki.Some? && kr.Some? && ki.value.2 && !kr.value.2
      && ki.value.0 == kr.value.1 && ki.value.1 == kr.value.0 && ki.value.0 != ki.value.1
      && ki.value.0 == c.hmac(c.hmac(h.chainKey, []), [1])
  {
    AcceptedResponseAgrees(c, me, hi, hr, eph, msg);
    KeysMirror(c, AcceptResponse(c, me, hi, msg).value, MakeResponse(c, hr, eph).1);
  }

  lemma KeysMirror(c: Primitives, h: Handshake, h': Handshake)
    requires Ideal(c) && h.phase == ResponseConsumed && h'.phase == ResponseCreated && h.chainKey == h'.chainKey
    ensures var ki, kr := SessionKeys(c, h), SessionKeys(c, h');
      && ki.Some? && kr.Some? && ki.value.2 && !kr.value.2
      && ki.value.0 == kr.value.1 && ki.value.1 == kr.value.0 && ki.value.0 != ki.value.1
      && ki.value.0 == c.hmac(c.hmac(h.chainKey, []), [1])
  {
    var t0 := c.hmac(c.hmac(h.chainKey, []), [1]);
    assert |t0 + [2]| == HASH_SIZE + 1;
  }

  // ------------------------------------------------- the initiation

  /** An initiation is refused if its static field or its timestamp opens under no key, if a shared
      secret is zero, if its timestamp is not newer, or if it comes too soon. */
  lemma InitiationRefused(c: Primitives, me: Identity, h: Handshake, msg: Initiation, hash3: Bytes, ck2: Bytes,
                          now: int)
    ensures (forall k, ad :: c.open(k, msg.sealedStatic, ad) == None) ==> OpenStatic(c, me, msg) == None
    ensures IsZero(c.sharedSecret(me.privateKey, msg.ephemeral)) ==> OpenStatic(c, me, msg) == None
    ensures (forall k, ad :: c.open(k, msg.timestamp, ad) == None) ==>
      AcceptInitiation(c, h, msg, hash3, ck2, now) == None
    ensures IsZero(h.precomputedStaticStatic) ==> AcceptInitiation(c, h, msg, hash3, ck2, now) == None
    ensures now - h.lastInitiationConsumption <= HANDSHAKE_INITIATION_RATE ==>
      AcceptInitiation(c, h, msg, hash3, ck2, now) == None
    ensures var h' := AcceptInitiation(c, h, msg, hash3, ck2, now);
      h'.Some? ==> h'.value.lastTimestamp > h.lastTimestamp && h'.value.lastInitiationConsumption == now
  {
  }

  /** No initiation is made with a shared secret that is zero, and otherwise one always is. */
  lemma InitiationNeedsSecrets(c: Primitives, me: Identity, h: Handshake, eph: Bytes, now: nat)
    ensures BeginInitiation(c, me, h, eph, now).0.Ok? <==>
      !IsZero(c.sharedSecret(eph, h.remoteStatic)) && !IsZero(h.precomputedStaticStatic)
    ensures BeginInitiation(c, me, h, eph, now).1.localIndex == h.localIndex
    ensures BeginInitiation(c, me, h, eph, now).1.phase == h.phase
  {
  }

  /** If the responder accepts an initiation with the timestamp field that an initiator sealed, then
      that initiator meant this responder, made all the fields, and holds the secret that the two
      static keys share; the responder learns its static key and its time. */
  lemma AcceptedInitiationAgrees(c: Primitives, i: Identity, r: Identity, hi: Handshake, hr: Handshake,
                                 eph: Bytes, stamp: nat, msg: Initiation, now: int)
    requires Ideal(c) && |msg.ephemeral| == |c.publicKey(eph)| && |r.publicKey| == |hi.remoteStatic|
    requires BeginInitiation(c, i, hi, eph, stamp).0.Ok?
    requires msg.timestamp == BeginInitiation(c, i, hi, eph, stamp).0.value.1
    requires OpenStatic(c, r, msg).Some?
    requires var (_, hash3, ck2) := OpenStatic(c, r, msg).value; AcceptInitiation(c, hr, msg, hash3, ck2, now).Some?
    ensures msg.ephemeral == c.publicKey(eph) && r.publicKey == hi.remoteStatic
    ensures msg.sealedStatic == BeginInitiation(c, i, hi, eph, stamp).0.value.0
    ensures c.sharedSecret(r.privateKey, msg.ephemeral) == c.sharedSecret(eph, hi.remoteStatic)
    ensures hr.precomputedStaticStatic == hi.precomputedStaticStatic
    ensures var (pk, hash3, ck2) := OpenStatic(c, r, msg).value;
      pk == i.publicKey && AcceptInitiation(c, hr, msg, hash3, ck2, now).value.lastTimestamp == stamp
  {
    var e, e' := msg.ephemeral, c.publicKey(eph);
    var hash1, hash1' := c.MixHash(c.InitialHash(), r.publicKey), c.MixHash(c.InitialHash(), hi.remoteStatic);
    var hash2, hash2' := c.MixHash(hash1, e), c.MixHash(hash1', e');
    var ck1, ck1' := c.Kdf1(c.InitialChainKey(), e), c.Kdf1(c.InitialChainKey(), e');
    var ss, ss' := c.sharedSecret(r.privateKey, e), c.sharedSecret(eph, hi.remoteStatic);
    var (pk, hash3, ck2) := OpenStatic(c, r, msg).value;
    var (ck2', key') := c.Kdf2(ck1', ss');
    var sealed' := c.seal(key', i.publicKey, hash2');
    OpensOnlyItsOwn(c, c.Kdf2(ck2', hi.precomputedStaticStatic).1, [stamp], c.MixHash(hash2', sealed'),
                    c.Kdf2(ck2, hr.precomputedStaticStatic).1, hash3);
    Kdf2Injective(c, ck2, hr.precomputedStaticStatic, ck2', hi.precomputedStaticStatic);
    assert hash3 == c.MixHash(hash2, msg.sealedStatic);
    MixHashInjective(c, hash2, msg.sealedStatic, hash2', sealed');
    OpensOnlyItsOwn(c, key', i.publicKey, hash2', c.Kdf2(ck1, ss).1, hash2);
    Kdf2Injective(c, ck1, ss, ck1', ss');
    Kdf1Injective(c, c.InitialChainKey(), e, c.InitialChainKey(), e');
    MixHashInjective(c, hash1, e, hash1', e');
    MixHashInjective(c, c.InitialHash(), r.publicKey, c.InitialHash(), hi.remoteStatic);
  }
}
