/** The device that owns the index table and its peers' handshakes and keypairs: the methods
    of indextable.go, keypair.go, noise-protocol.go and peer.go that update them in place. */
module SessionDevice {
  import opened Wrappers
  import opened Noise
  import opened Session

  class Device {
    const c: Primitives
    const me: Identity
    var table: map<nat, Entry>
    var peers: map<Bytes, Peer>
    var made: nat

    ghost function Now(): View
      reads this
    {
      View(table, peers, made)
    }

    /** A device with the given peers, none of which has a session. */
    constructor (c: Primitives, me: Identity, handshakes: map<Bytes, Handshake>)
      requires forall pk :: pk in handshakes ==> handshakes[pk].localIndex == 0 && handshakes[pk].phase == Zeroed
      ensures this.c == c && this.me == me && Blank(Now()) && Agree(Now()) && peers.Keys == handshakes.Keys
    {
      this.c, this.me := c, me;
      table, made := map[], 0;
      peers := map pk | pk in handshakes :: Peer(handshakes[pk], Slots(None, None, None));
    }

    // ----------------------------------------------- index table

    method Delete(index: nat)
      modifies this`table
      ensures table == old(table) - {index}
    {
      table := table - {index};
    }

    method SwapIndexForKeypair(index: nat, k: Keypair)
      modifies this`table
      ensures table == SwapIndex(old(table), index, k)
    {
      if index !in table { return; }
      table := table[index := KeypairEntry(table[index].peer, k)];
    }

    /** Draw until an unused index turns up. A draw that fails ends the search; the index
        returned with its error is whatever the generator had filled in. */
    method NewIndexForHandshake(pk: Bytes, draws: Draws) returns (index: nat, ok: bool)
      modifies this`table
      ensures ok == FirstUnused(old(table), draws.values).Some?
      ensures index == if ok then FirstUnused(old(table), draws.values).value else draws.leftover
      ensures table == if ok then old(table)[index := HandshakeEntry(pk)] else old(table)
    {
      var n := 0;
      while n < |draws.values|
        invariant 0 <= n <= |draws.values| && table == old(table)
        invariant FirstUnused(table, draws.values) == FirstUnused(table, draws.values[n..])
      {
        index := draws.values[n];
        if index !in table {
          table := table[index := HandshakeEntry(pk)];
          return index, true;
        }
        n := n + 1;
      }
      return draws.leftover, false;
    }

    method DeleteKeypair(k: Option<Keypair>)
      modifies this`table
      ensures table == old(table) - Indices(AsSet(k))
    {
      if k.Some? {
        Delete(k.value.localIndex);
        assert Indices(AsSet(k)) == {k.value.localIndex};
      } else {
        assert table == table - Indices(AsSet(k));
      }
    }

    method PutHandshake(pk: Bytes, h: Handshake)
      requires pk in peers
      modifies this`peers
      ensures Now() == SetHandshake(old(Now()), pk, h)
    {
      peers := peers[pk := peers[pk].(handshake := h)];
    }

    // ----------------------------------------------- handshake messages

    method CreateMessageInitiation(pk: Bytes, eph: Bytes, now: nat, draws: Draws) returns (msg: Option<Initiation>)
      requires pk in peers
      modifies this`table, this`peers
      ensures (msg, Now()) == CreateInitiation(c, me, old(Now()), pk, eph, now, draws)
      ensures old(Agree(Now())) ==> (Agree(Now()) <==>
        BeginInitiation(c, me, old(peers[pk].handshake), eph, now).0.Err? || InitiationIndexOk(old(Now()), pk, draws))
    {
      if Agree(Now()) {
        CreateInitiationAgrees(c, me, Now(), pk, eph, now, draws);
      }
      var h := peers[pk].handshake;
      var (sealed, h1) := BeginInitiation(c, me, h, eph, now);
      PutHandshake(pk, h1);
      if sealed.Err? { return None; }
      Delete(h.localIndex);
      var index, ok := NewIndexForHandshake(pk, draws);
      if !ok { return None; }
      var (m, h2) := FinishInitiation(c, h1, index, sealed.value.0, sealed.value.1);
      PutHandshake(pk, h2);
      assert peers == old(peers)[pk := old(peers)[pk].(handshake := h2)];
      return Some(m);
    }

    method ConsumeMessageInitiation(msg: Initiation, now: int) returns (who: Option<Bytes>)
      modifies this`peers
      ensures (who, Now()) == ConsumeInitiation(c, me, old(Now()), msg, now)
      ensures old(Agree(Now())) ==> Agree(Now())
    {
      if Agree(Now()) {
        ConsumeInitiationAgrees(c, me, Now(), msg, now);
      }
      var learnt := OpenStatic(c, me, msg);
      if learnt == None { return None; }
      var (pk, hash3, ck2) := learnt.value;
      if pk !in peers { return None; }
      var h := AcceptInitiation(c, peers[pk].handshake, msg, hash3, ck2, now);
      if h == None { return None; }
      PutHandshake(pk, h.value);
      return Some(pk);
    }

    method CreateMessageResponse(pk: Bytes, eph: Bytes, draws: Draws) returns (msg: Option<Response>)
      requires pk in peers
      modifies this`table, this`peers
      ensures (msg, Now()) == CreateResponse(c, old(Now()), pk, eph, draws)
      ensures old(Agree(Now())) ==> (Agree(Now()) <==>
        old(peers[pk].handshake).phase != InitiationConsumed || ResponseIndexOk(old(Now()), pk, draws))
    {
      if Agree(Now()) {
        CreateResponseAgrees(c, Now(), pk, eph, draws);
      }
      var h := peers[pk].handshake;
      if h.phase != InitiationConsumed { return None; }
      Delete(h.localIndex);
      var index, ok := NewIndexForHandshake(pk, draws);
      h := h.(localIndex := index);
      PutHandshake(pk, h);
      if !ok { return None; }
      var (m, h1) := MakeResponse(c, h, eph);
      PutHandshake(pk, h1);
      assert peers == old(peers)[pk := old(peers)[pk].(handshake := h1)];
      return Some(m);
    }

    method ConsumeMessageResponse(msg: Response) returns (who: Option<Bytes>)
      modifies this`peers
      ensures (who, Now()) == ConsumeResponse(c, me, old(Now()), msg)
      ensures old(Agree(Now())) ==> Agree(Now())
    {
      if Agree(Now()) {
        ConsumeResponseAgrees(c, me, Now(), msg);
      }
      if msg.receiver !in table || table[msg.receiver].KeypairEntry? { return None; }
      var pk := table[msg.receiver].peer;
      if pk !in peers { return None; }
      var h := AcceptResponse(c, me, peers[pk].handshake, msg);
      if h == None { return None; }
      PutHandshake(pk, h.value);
      return Some(pk);
    }

    // ----------------------------------------------- keypair slots

    method PutSlots(pk: Bytes, s: Slots)
      requires pk in peers
      modifies this`peers
      ensures peers == old(peers)[pk := old(peers)[pk].(keypairs := s)]
    {
      peers := peers[pk := peers[pk].(keypairs := s)];
    }

    /** Put a new keypair into its slot and delete the entries of those that leave. */
    method RotateKeypairs(pk: Bytes, k: Keypair)
      requires pk in peers && SlotsDistinct(peers[pk].keypairs) && k !in Live(peers[pk].keypairs)
      modifies this`table, this`peers
      ensures Now() == WithSlots(old(Now()), pk, Rotated(old(peers[pk].keypairs), k))
    {
      var s := peers[pk].keypairs;
      RotationDrops(s, k, table);
      if k.isInitiator {
        if s.next.Some? {
          PutSlots(pk, Slots(s.next, Some(k), None));
          DeleteKeypair(s.current);
        } else {
          PutSlots(pk, Slots(s.current, Some(k), None));
        }
        DeleteKeypair(s.previous);
      } else {
        PutSlots(pk, Slots(None, s.current, Some(k)));
        DeleteKeypair(s.next);
        DeleteKeypair(s.previous);
      }
    }

    /** Derive the keys, retire the handshake and rotate. */
    method DeriveSession(pk: Bytes) returns (session: Option<Keypair>)
      requires pk in peers && SlotsDistinct(peers[pk].keypairs)
      requires forall k :: k in Live(peers[pk].keypairs) ==> k.localIndex != peers[pk].handshake.localIndex
      modifies this
      ensures (session, Now()) == BeginSession(c, old(Now()), pk)
    {
      var h := peers[pk].handshake;
      var keys := SessionKeys(c, h);
      if keys == None { return None; }
      var (send, recv, isInitiator) := keys.value;
      var k := Keypair(made, send, recv, isInitiator, h.localIndex, h.remoteIndex);
      made := made + 1;
      SwapIndexForKeypair(h.localIndex, k);
      PutHandshake(pk, SpentHandshake(h));
      RotateKeypairs(pk, k);
      return Some(k);
    }

    method BeginSymmetricSession(pk: Bytes) returns (session: Option<Keypair>)
      requires pk in peers && Agree(Now())
      modifies this
      ensures (session, Now()) == BeginSession(c, old(Now()), pk) && Agree(Now())
    {
      RoomForKeypair(Now(), pk);
      BeginSessionAgrees(c, Now(), pk);
      session := DeriveSession(pk);
    }

    method ReceivedWithKeypair(pk: Bytes, k: Keypair) returns (done: bool)
      requires pk in peers && Agree(Now())
      modifies this`table, this`peers
      ensures (done, Now()) == ReceivedWith(old(Now()), pk, k) && Agree(Now())
    {
      ReceivedWithAgrees(Now(), pk, k);
      assert PeerAgrees(Now(), pk, peers[pk]);
      var s := peers[pk].keypairs;
      if s.next != Some(k) { return false; }
      DeleteKeypair(s.previous);
      PutSlots(pk, Slots(s.current, s.next, None));
      assert Live(s) - Live(Slots(s.current, s.next, None)) == AsSet(s.previous);
      return true;
    }

    method ExpireCurrentKeypairs(pk: Bytes)
      requires pk in peers
      modifies this`table, this`peers
      ensures Now() == Expire(old(Now()), pk)
      ensures old(Agree(Now())) ==> Agree(Now())
    {
      if Agree(Now()) {
        ExpireAgrees(Now(), pk);
      }
      Delete(peers[pk].handshake.localIndex);
      PutHandshake(pk, Clear(peers[pk].handshake));
    }

    method ClearKeypairs(pk: Bytes)
      requires pk in peers
      modifies this`table, this`peers
      ensures Now() == WithSlots(old(Now()), pk, Slots(None, None, None))
    {
      var s := peers[pk].keypairs;
      AllDropped(s, table);
      DeleteKeypair(s.previous);
      DeleteKeypair(s.current);
      DeleteKeypair(s.next);
      PutSlots(pk, Slots(None, None, None));
    }

    method ZeroAndFlushAll(pk: Bytes)
      requires pk in peers && Agree(Now())
      modifies this`table, this`peers
      ensures Now() == ZeroAll(old(Now()), pk) && Agree(Now())
      ensures peers[pk].keypairs == Slots(None, None, None) && peers[pk].handshake.localIndex == 0
    {
      ZeroAllAgrees(Now(), pk);
      ClearKeypairs(pk);
      ExpireCurrentKeypairs(pk);
    }
  }

  lemma RoomForKeypair(d: View, pk: Bytes)
    requires Agree(d) && pk in d.peers
    ensures SlotsDistinct(d.peers[pk].keypairs)
    ensures forall k :: k in Live(d.peers[pk].keypairs) ==> k.localIndex != d.peers[pk].handshake.localIndex
  {
  }

  lemma AllDropped(s: Slots, t: map<nat, Entry>)
    ensures t - Indices(AsSet(s.previous)) - Indices(AsSet(s.current)) - Indices(AsSet(s.next))
         == t - Indices(Live(s) - Live(Slots(None, None, None)))
  {
  }

  /** The deletions of the two rotation branches are those of the keypairs that leave. */
  lemma RotationDrops(s: Slots, k: Keypair, t: map<nat, Entry>)
    requires SlotsDistinct(s) && k !in Live(s)
    ensures t - Indices(Live(s) - Live(Rotated(s, k))) ==
      if k.isInitiator then (if s.next.Some? then t - Indices(AsSet(s.current)) else t) - Indices(AsSet(s.previous))
      else t - Indices(AsSet(s.next)) - Indices(AsSet(s.previous))
  {
  }
}
