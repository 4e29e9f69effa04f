/** An honest handshake between two devices: two messages and two derived sessions, while both
    devices go on dealing with their other peers. */
module Exchange {
  import opened Wrappers
  import opened Noise
  import opened Session

  ghost predicate Partners(c: Primitives, i: Identity, r: Identity, di: View, dr: View) {
    && r.publicKey in di.peers && i.publicKey in dr.peers
    && Honest(c, i, r, di.peers[r.publicKey].handshake, dr.peers[i.publicKey].handshake)
  }

  /** The first message: what both sides are left with, if it is accepted. */
  ghost function Initiate(c: Primitives, i: Identity, r: Identity, di: View, dr: View,
                          eph: Bytes, stamp: nat, clock: int, draws: Draws): (o: Option<(View, View)>)
    requires r.publicKey in di.peers && i.publicKey in dr.peers
    ensures o.Some? ==> r.publicKey in o.value.0.peers && i.publicKey in o.value.1.peers
  {
    var (m, di1) := CreateInitiation(c, i, di, r.publicKey, eph, stamp, draws);
    if m == None then None else
    var (who, dr1) := ConsumeInitiation(c, r, dr, m.value, clock);
    if who == Some(i.publicKey) then Some((di1, dr1)) else None
  }

  /** The second message, answered by the device that received the first. */
  ghost function Respond(c: Primitives, i: Identity, r: Identity, di: View, dr: View, eph: Bytes,
                         draws: Draws): (o: Option<(View, View)>)
    requires r.publicKey in di.peers && i.publicKey in dr.peers
    ensures o.Some? ==> r.publicKey in o.value.0.peers && i.publicKey in o.value.1.peers
  {
    var (m, dr1) := CreateResponse(c, dr, i.publicKey, eph, draws);
    if m == None then None else
    var (who, di1) := ConsumeResponse(c, i, di, m.value);
    if who == Some(r.publicKey) then Some((di1, dr1)) else None
  }

  /** Both sides in the middle of an honest exchange, with the index of the initiator. */
  ghost predicate Halfway(c: Primitives, i: Identity, r: Identity, di: View, dr: View) {
    && Partners(c, i, r, di, dr)
    && var hi := di.peers[r.publicKey].handshake; var hr := dr.peers[i.publicKey].handshake;
    && hi.phase == InitiationCreated && hr.phase == InitiationConsumed
    && hi.hash == hr.hash && hi.chainKey == hr.chainKey && hr.remoteEphemeral == c.publicKey(hi.localEphemeral)
    && hi.localIndex == hr.remoteIndex
    && hi.localIndex in di.table && di.table[hi.localIndex] == HandshakeEntry(r.publicKey)
  }

  /** The initiation is fresh: non-zero secrets, a newer timestamp outside the flood interval, and
      an index for the initiator. */
  ghost predicate Fresh(c: Primitives, i: Identity, r: Identity, di: View, dr: View,
                        eph: Bytes, stamp: nat, clock: int, draws: Draws) {
    && Partners(c, i, r, di, dr)
    && !IsZero(c.sharedSecret(eph, r.publicKey)) && !IsZero(c.sharedSecret(i.privateKey, r.publicKey))
    && stamp > dr.peers[i.publicKey].handshake.lastTimestamp
    && clock - dr.peers[i.publicKey].handshake.lastInitiationConsumption > HANDSHAKE_INITIATION_RATE
    && FirstUnused(di.table - {di.peers[r.publicKey].handshake.localIndex}, draws.values).Some?
  }

  lemma InitiateSucceeds(c: Primitives, i: Identity, r: Identity, di: View, dr: View, eph: Bytes, stamp: nat,
                         clock: int, draws: Draws)
    requires Fresh(c, i, r, di, dr, eph, stamp, clock, draws)
    ensures var o := Initiate(c, i, r, di, dr, eph, stamp, clock, draws);
      && o.Some? && Halfway(c, i, r, o.value.0, o.value.1)
      && o.value.1.table == dr.table
      && o.value.1.peers[i.publicKey].handshake.localIndex == dr.peers[i.publicKey].handshake.localIndex
  {
    var hi, hr := di.peers[r.publicKey].handshake, dr.peers[i.publicKey].handshake;
    var index := FirstUnused(di.table - {hi.localIndex}, draws.values).value;
    InitiationAgrees(c, i, r, hi, hr, eph, stamp, index, clock);
  }

  /** On a run: a blank responder consumes an honest, fresh initiation, draws index zero for the
      response and begins the session. When some other, idle peer expires, the session is live
      but unreachable. */
  lemma ZeroIndexIsReached(c: Primitives, i: Identity, r: Identity, di: View, dr: View, q: Bytes,
                           ephI: Bytes, ephR: Bytes, stamp: nat, clock: int, drawsI: Draws, leftover: nat)
    requires Fresh(c, i, r, di, dr, ephI, stamp, clock, drawsI)
    requires Blank(dr) && q in dr.peers && q != i.publicKey
    ensures var m := CreateInitiation(c, i, di, r.publicKey, ephI, stamp, drawsI).0;
      && m.Some?
      && var d := RunOf(c, r, dr, [ConsumesInitiation(m.value, clock),
                                   CreatesResponse(i.publicKey, ephR, Draws([0], leftover)),
                                   Begins(i.publicKey), Expires(q)]);
      && i.publicKey in d.peers && d.peers[i.publicKey].keypairs.next.Some?
      && Unreachable(d, i.publicKey, d.peers[i.publicKey].keypairs.next.value)
  {
    InitiateSucceeds(c, i, r, di, dr, ephI, stamp, clock, drawsI);
    var m := CreateInitiation(c, i, di, r.publicKey, ephI, stamp, drawsI).0.value;
    var d1 := ConsumeInitiation(c, r, dr, m, clock).1;
    var evs := [CreatesResponse(i.publicKey, ephR, Draws([0], leftover)), Begins(i.publicKey), Expires(q)];
    assert ([ConsumesInitiation(m, clock)] + evs)[1..] == evs;
    assert d1.peers[q] == dr.peers[q];
    ZeroIndexIsLost(c, r, d1, i.publicKey, q, ephR, Draws([0], leftover));
  }

  /** Both sides when the response has been accepted: their keys mirror each other. */
  ghost predicate Complete(c: Primitives, i: Identity, r: Identity, di: View, dr: View) {
    && r.publicKey in di.peers && i.publicKey in dr.peers
    && var hi := di.peers[r.publicKey].handshake; var hr := dr.peers[i.publicKey].handshake;
    && hi.localIndex == hr.remoteIndex && hi.remoteIndex == hr.localIndex
    && var ki := SessionKeys(c, hi); var kr := SessionKeys(c, hr);
    && ki.Some? && kr.Some?
    && ki.value.0 == kr.value.1 && ki.value.1 == kr.value.0 && ki.value.2 && !kr.value.2
  }

  lemma RespondSucceeds(c: Primitives, i: Identity, r: Identity, di: View, dr: View, eph: Bytes, draws: Draws)
    requires Halfway(c, i, r, di, dr)
    requires FirstUnused(dr.table - {dr.peers[i.publicKey].handshake.localIndex}, draws.values).Some?
    ensures var o := Respond(c, i, r, di, dr, eph, draws);
      o.Some? && Complete(c, i, r, o.value.0, o.value.1)
  {
    var hi, hr := di.peers[r.publicKey].handshake, dr.peers[i.publicKey].handshake;
    var index := FirstUnused(dr.table - {hr.localIndex}, draws.values).value;
    ResponseAgrees(c, i, r, hi, hr.(localIndex := index), eph);
  }

  /** The sessions that both sides begin: mirrored keys and indices, in the right slots. */
  ghost predicate Mirrored(c: Primitives, i: Identity, r: Identity, di: View, dr: View) {
    && r.publicKey in di.peers && i.publicKey in dr.peers
    && var (ki, di') := BeginSession(c, di, r.publicKey); var (kr, dr') := BeginSession(c, dr, i.publicKey);
    && ki.Some? && kr.Some?
    && ki.value.sendKey == kr.value.recvKey && ki.value.recvKey == kr.value.sendKey
    && ki.value.isInitiator && !kr.value.isInitiator
    && ki.value.localIndex == kr.value.remoteIndex && ki.value.remoteIndex == kr.value.localIndex
    && r.publicKey in di'.peers && di'.peers[r.publicKey].keypairs.current == ki
    && i.publicKey in dr'.peers && dr'.peers[i.publicKey].keypairs.next == kr
  }

  lemma CompleteIsMirrored(c: Primitives, i: Identity, r: Identity, di: View, dr: View)
    requires Complete(c, i, r, di, dr)
    ensures Mirrored(c, i, r, di, dr)
  {
  }

  /** The first packet under the new keys completes the handover: the responder's new keypair is
      current, mirrors the initiator's current one, and the older one can still be received with. */
  lemma FirstPacketHandsOver(c: Primitives, i: Identity, r: Identity, di: View, dr: View)
    requires Mirrored(c, i, r, di, dr) && Agree(dr)
    ensures var (ki, di') := BeginSession(c, di, r.publicKey); var (kr, dr') := BeginSession(c, dr, i.publicKey);
      && i.publicKey in dr'.peers && kr.Some?
      && var (done, dr2) := ReceivedWith(dr', i.publicKey, kr.value);
      && done && i.publicKey in dr2.peers && dr2.peers[i.publicKey].keypairs.current == kr
      && dr2.peers[i.publicKey].keypairs.previous == dr.peers[i.publicKey].keypairs.current
      && AllReachable(dr2, i.publicKey, Live(dr2.peers[i.publicKey].keypairs))
      && ki.Some? && ki.value.sendKey == kr.value.recvKey && ki.value.remoteIndex == kr.value.localIndex
  {
    var (kr, dr') := BeginSession(c, dr, i.publicKey);
    BeginSessionAgrees(c, dr, i.publicKey);
    SessionKeepsOlder(c, dr, i.publicKey);
    HandoverKeepsCurrent(dr', i.publicKey, kr.value);
  }

  /** Without anything in between no agreement is needed, and any unused index will do. */
  lemma UninterruptedExchange(c: Primitives, i: Identity, r: Identity, di: View, dr: View,
                              ephI: Bytes, ephR: Bytes, stamp: nat, clock: int, drawsI: Draws, drawsR: Draws)
    requires Fresh(c, i, r, di, dr, ephI, stamp, clock, drawsI)
    requires FirstUnused(dr.table - {dr.peers[i.publicKey].handshake.localIndex}, drawsR.values).Some?
    ensures var first := Initiate(c, i, r, di, dr, ephI, stamp, clock, drawsI);
      && first.Some?
      && var second := Respond(c, i, r, first.value.0, first.value.1, ephR, drawsR);
      && second.Some? && Mirrored(c, i, r, second.value.0, second.value.1)
  {
    InitiateSucceeds(c, i, r, di, dr, ephI, stamp, clock, drawsI);
    var first := Initiate(c, i, r, di, dr, ephI, stamp, clock, drawsI).value;
    RespondSucceeds(c, i, r, first.0, first.1, ephR, drawsR);
    var second := Respond(c, i, r, first.0, first.1, ephR, drawsR).value;
    CompleteIsMirrored(c, i, r, second.0, second.1);
  }

  // ------------------------------------------------- other peers in between

  /** The event does not concern the peer `pk`. */
  ghost predicate Spares(c: Primitives, me: Identity, d: View, ev: Event, pk: Bytes) {
    match ev
    case ConsumesInitiation(msg, _) => OpenStatic(c, me, msg).Some? ==> OpenStatic(c, me, msg).value.0 != pk
    case ConsumesResponse(msg) => msg.receiver in d.table ==> d.table[msg.receiver].peer != pk
    case _ => ev.pk != pk
  }

  /** Every event draws well and concerns other peers only. */
  ghost predicate Elsewhere(c: Primitives, me: Identity, d: View, evs: seq<Event>, pk: Bytes)
    decreases |evs|
  {
    || evs == []
    || (GoodDraw(c, me, d, evs[0]) && Spares(c, me, d, evs[0], pk) &&
        Elsewhere(c, me, Step(c, me, d, evs[0]), evs[1..], pk))
  }

  lemma StepSpares(c: Primitives, me: Identity, d: View, ev: Event, pk: Bytes)
    requires pk in d.peers && Spares(c, me, d, ev, pk)
    ensures var d' := Step(c, me, d, ev); pk in d'.peers && d'.peers[pk] == d.peers[pk]
  {
    match ev
    case CreatesInitiation(_, _, _, _) =>
    case ConsumesInitiation(_, _) =>
    case CreatesResponse(_, _, _) =>
    case ConsumesResponse(_) =>
    case Begins(_) =>
    case Receives(_, _) =>
    case Expires(_) =>
    case Zeroes(_) =>
  }

  /** What happens elsewhere leaves the peer, its handshake entry and the agreement alone. */
  lemma {:induction false} RunSpares(c: Primitives, me: Identity, d: View, evs: seq<Event>, pk: Bytes)
    requires Agree(d) && pk in d.peers && Elsewhere(c, me, d, evs, pk)
    ensures var d' := RunOf(c, me, d, evs); Agree(d') && pk in d'.peers && d'.peers[pk] == d.peers[pk]
    decreases |evs|
  {
    if evs != [] {
      StepAgrees(c, me, d, evs[0]);
      StepSpares(c, me, d, evs[0], pk);
      RunSpares(c, me, Step(c, me, d, evs[0]), evs[1..], pk);
    }
  }

  /** An honest exchange succeeds in every step and leaves both sides with mirrored keys,
      whatever the two devices do with other peers between the messages and before they begin
      the session. */
  lemma HonestExchange(c: Primitives, i: Identity, r: Identity, di: View, dr: View,
                       ephI: Bytes, ephR: Bytes, stamp: nat, clock: int, drawsI: Draws, drawsR: Draws,
                       evsI: seq<Event>, evsR: seq<Event>, evsI': seq<Event>, evsR': seq<Event>)
    requires Agree(di) && Agree(dr) && Fresh(c, i, r, di, dr, ephI, stamp, clock, drawsI)
    requires InitiationIndexOk(di, r.publicKey, drawsI)
    ensures var first := Initiate(c, i, r, di, dr, ephI, stamp, clock, drawsI);
      && first.Some?
      && var (di1, dr1) := first.value;
         Elsewhere(c, i, di1, evsI, r.publicKey) && Elsewhere(c, r, dr1, evsR, i.publicKey) ==>
           Answered(c, i, r, RunOf(c, i, di1, evsI), RunOf(c, r, dr1, evsR), ephR, drawsR, evsI', evsR')
  {
    InitiateSucceeds(c, i, r, di, dr, ephI, stamp, clock, drawsI);
    var first := Initiate(c, i, r, di, dr, ephI, stamp, clock, drawsI).value;
    InitiateAgrees(c, i, r, di, dr, ephI, stamp, clock, drawsI);
    if Elsewhere(c, i, first.0, evsI, r.publicKey) && Elsewhere(c, r, first.1, evsR, i.publicKey) {
      RunSpares(c, i, first.0, evsI, r.publicKey);
      RunSpares(c, r, first.1, evsR, i.publicKey);
      var di', dr' := RunOf(c, i, first.0, evsI), RunOf(c, r, first.1, evsR);
      StillHalfway(c, i, r, first.0, first.1, di', dr');
      AnswerSucceeds(c, i, r, di', dr', ephR, drawsR, evsI', evsR');
    }
  }

  lemma InitiateAgrees(c: Primitives, i: Identity, r: Identity, di: View, dr: View, eph: Bytes, stamp: nat,
                       clock: int, draws: Draws)
    requires Agree(di) && Agree(dr) && r.publicKey in di.peers && i.publicKey in dr.peers
    requires InitiationIndexOk(di, r.publicKey, draws)
    ensures var o := Initiate(c, i, r, di, dr, eph, stamp, clock, draws);
      o.Some? ==> Agree(o.value.0) && Agree(o.value.1)
  {
    CreateInitiationAgrees(c, i, di, r.publicKey, eph, stamp, draws);
    var m := CreateInitiation(c, i, di, r.publicKey, eph, stamp, draws).0;
    if m.Some? {
      ConsumeInitiationAgrees(c, r, dr, m.value, clock);
    }
  }

  /** The exchange is still halfway if only other peers were dealt with. */
  lemma StillHalfway(c: Primitives, i: Identity, r: Identity, di: View, dr: View, di': View, dr': View)
    requires Halfway(c, i, r, di, dr) && Agree(di')
    requires r.publicKey in di'.peers && di'.peers[r.publicKey] == di.peers[r.publicKey]
    requires i.publicKey in dr'.peers && dr'.peers[i.publicKey] == dr.peers[i.publicKey]
    ensures Halfway(c, i, r, di', dr')
  {
    assert PeerAgrees(di', r.publicKey, di'.peers[r.publicKey]);
  }

  /** The second half of the exchange: if the responder draws a usable index, the response is
      accepted, and after further events elsewhere the two sessions mirror each other. */
  ghost predicate Answered(c: Primitives, i: Identity, r: Identity, di: View, dr: View, eph: Bytes, draws: Draws,
                           evsI: seq<Event>, evsR: seq<Event>) {
    && r.publicKey in di.peers && i.publicKey in dr.peers
    && (FirstUnused(dr.table - {dr.peers[i.publicKey].handshake.localIndex}, draws.values).Some? ==>
          var second := Respond(c, i, r, di, dr, eph, draws);
          && second.Some?
          && var (di1, dr1) := second.value;
             ResponseIndexOk(dr, i.publicKey, draws) &&
             Elsewhere(c, i, di1, evsI, r.publicKey) && Elsewhere(c, r, dr1, evsR, i.publicKey) ==>
               Mirrored(c, i, r, RunOf(c, i, di1, evsI), RunOf(c, r, dr1, evsR)))
  }

  lemma AnswerSucceeds(c: Primitives, i: Identity, r: Identity, di: View, dr: View, eph: Bytes, draws: Draws,
                       evsI: seq<Event>, evsR: seq<Event>)
    requires Halfway(c, i, r, di, dr) && Agree(di) && Agree(dr)
    ensures Answered(c, i, r, di, dr, eph, draws, evsI, evsR)
  {
    if FirstUnused(dr.table - {dr.peers[i.publicKey].handshake.localIndex}, draws.values).Some? {
      RespondSucceeds(c, i, r, di, dr, eph, draws);
      var second := Respond(c, i, r, di, dr, eph, draws).value;
      if ResponseIndexOk(dr, i.publicKey, draws) &&
         Elsewhere(c, i, second.0, evsI, r.publicKey) && Elsewhere(c, r, second.1, evsR, i.publicKey) {
        RespondAgrees(c, i, r, di, dr, eph, draws);
        RunSpares(c, i, second.0, evsI, r.publicKey);
        RunSpares(c, r, second.1, evsR, i.publicKey);
        CompleteIsMirrored(c, i, r, RunOf(c, i, second.0, evsI), RunOf(c, r, second.1, evsR));
      }
    }
  }

  lemma RespondAgrees(c: Primitives, i: Identity, r: Identity, di: View, dr: View, eph: Bytes, draws: Draws)
    requires Agree(di) && Agree(dr) && r.publicKey in di.peers && i.publicKey in dr.peers
    requires ResponseIndexOk(dr, i.publicKey, draws)
    ensures var o := Respond(c, i, r, di, dr, eph, draws); o.Some? ==> Agree(o.value.0) && Agree(o.value.1)
  {
    CreateResponseAgrees(c, dr, i.publicKey, eph, draws);
    var m := CreateResponse(c, dr, i.publicKey, eph, draws).0;
    if m.Some? {
      ConsumeResponseAgrees(c, i, di, m.value);
    }
  }
}
