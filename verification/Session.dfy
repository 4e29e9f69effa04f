/** Index table and keypair slots: what every handshake and keypair operation of a device
    does to them, as functions on a view of the device. Each operation is one atomic step. */
module Session {
  import opened Wrappers
  import opened Noise

  /** `id` is the identity of the keypair object. */
  datatype Keypair = Keypair(id: nat, sendKey: Bytes, recvKey: Bytes, isInitiator: bool, localIndex: nat,
                             remoteIndex: nat)

  datatype Slots = Slots(previous: Option<Keypair>, current: Option<Keypair>, next: Option<Keypair>)

  /** Peers are known by their public key. */
  datatype Peer = Peer(handshake: Handshake, keypairs: Slots)

  datatype Entry = HandshakeEntry(peer: Bytes) | KeypairEntry(peer: Bytes, keypair: Keypair)

  datatype View = View(table: map<nat, Entry>, peers: map<Bytes, Peer>, made: nat)

  function AsSet<T>(o: Option<T>): set<T> {
    if o.Some? then {o.value} else {}
  }

  function Live(s: Slots): set<Keypair> {
    AsSet(s.previous) + AsSet(s.current) + AsSet(s.next)
  }

  function Indices(ks: set<Keypair>): set<nat> {
    set k | k in ks :: k.localIndex
  }

  // ------------------------------------------------- operations

  /** The indices that the random generator yields until it fails, and the value that the
      failing draw returns together with its error. */
  datatype Draws = Draws(values: seq<nat>, leftover: nat)

  /** The first drawn index that is not in use; none if the generator fails before. */
  function FirstUnused(table: map<nat, Entry>, values: seq<nat>): Option<nat> {
    if values == [] then None
    else if values[0] !in table then Some(values[0])
    else FirstUnused(table, values[1..])
  }

  function SetHandshake(d: View, pk: Bytes, h: Handshake): View
    requires pk in d.peers
  {
    d.(peers := d.peers[pk := d.peers[pk].(handshake := h)])
  }

  function CreateInitiation(c: Primitives, me: Identity, d: View, pk: Bytes, eph: Bytes, now: nat,
                            draws: Draws): (Option<Initiation>, View)
    requires pk in d.peers
  {
    var h := d.peers[pk].handshake;
    var (sealed, h1) := BeginInitiation(c, me, h, eph, now);
    if sealed.Err? then (None, SetHandshake(d, pk, h1))
    else
      var table := d.table - {h.localIndex};
      match FirstUnused(table, draws.values)
      case None => (None, SetHandshake(d, pk, h1).(table := table))
      case Some(i) =>
        var (msg, h2) := FinishInitiation(c, h1, i, sealed.value.0, sealed.value.1);
        (Some(msg), SetHandshake(d, pk, h2).(table := table[i := HandshakeEntry(pk)]))
  }

  function ConsumeInitiation(c: Primitives, me: Identity, d: View, msg: Initiation, now: int): (Option<Bytes>, View) {
    match OpenStatic(c, me, msg)
    case None => (None, d)
    case Some((pk, hash3, ck2)) =>
      if pk !in d.peers then (None, d)
      else
        match AcceptInitiation(c, d.peers[pk].handshake, msg, hash3, ck2, now)
        case None => (None, d)
        case Some(h) => (Some(pk), SetHandshake(d, pk, h))
  }

  function CreateResponse(c: Primitives, d: View, pk: Bytes, eph: Bytes, draws: Draws): (Option<Response>, View)
    requires pk in d.peers
  {
    var h := d.peers[pk].handshake;
    if h.phase != InitiationConsumed then (None, d)
    else
      var table := d.table - {h.localIndex};
      match FirstUnused(table, draws.values)
      case None => (None, SetHandshake(d, pk, h.(localIndex := draws.leftover)).(table := table))
      case Some(i) =>
        var (msg, h1) := MakeResponse(c, h.(localIndex := i), eph);
        (Some(msg), SetHandshake(d, pk, h1).(table := table[i := HandshakeEntry(pk)]))
  }

  function ConsumeResponse(c: Primitives, me: Identity, d: View, msg: Response): (Option<Bytes>, View) {
    if msg.receiver !in d.table || d.table[msg.receiver].KeypairEntry? then (None, d)
    else if d.table[msg.receiver].peer !in d.peers then (None, d)
    else
      var pk := d.table[msg.receiver].peer;
      match AcceptResponse(c, me, d.peers[pk].handshake, msg)
      case None => (None, d)
      case Some(h) => (Some(pk), SetHandshake(d, pk, h))
  }

  /** An initiator starts to use the new keypair at once and keeps one older generation; a
      responder holds it as next until the initiator has used it. */
  function Rotated(s: Slots, k: Keypair): Slots {
    if k.isInitiator then Slots(if s.next.Some? then s.next else s.current, Some(k), None)
    else Slots(None, s.current, Some(k))
  }

  /** Change the slots of a peer; keypairs that leave them lose their table entries. */
  function WithSlots(d: View, pk: Bytes, s: Slots): View
    requires pk in d.peers
  {
    d.(table := d.table - Indices(Live(d.peers[pk].keypairs) - Live(s)),
       peers := d.peers[pk := d.peers[pk].(keypairs := s)])
  }

  function SwapIndex(table: map<nat, Entry>, i: nat, k: Keypair): map<nat, Entry> {
    if i in table then table[i := KeypairEntry(table[i].peer, k)] else table
  }

  function SpentHandshake(h: Handshake): Handshake {
    h.(chainKey := [], hash := [], localEphemeral := [], phase := Zeroed, localIndex := 0)
  }

  function BeginSession(c: Primitives, d: View, pk: Bytes): (Option<Keypair>, View)
    requires pk in d.peers
  {
    var h := d.peers[pk].handshake;
    match SessionKeys(c, h)
    case None => (None, d)
    case Some((send, recv, isInitiator)) =>
      var k := Keypair(d.made, send, recv, isInitiator, h.localIndex, h.remoteIndex);
      var d1 := SetHandshake(d, pk, SpentHandshake(h))
                  .(table := SwapIndex(d.table, h.localIndex, k), made := d.made + 1);
      (Some(k), WithSlots(d1, pk, Rotated(d.peers[pk].keypairs, k)))
  }

  function ReceivedWith(d: View, pk: Bytes, k: Keypair): (bool, View)
    requires pk in d.peers
  {
    var s := d.peers[pk].keypairs;
    if s.next != Some(k) then (false, d)
    else (true, WithSlots(d, pk, Slots(s.current, s.next, None)))
  }

  function Expire(d: View, pk: Bytes): View
    requires pk in d.peers
  {
    var h := d.peers[pk].handshake;
    SetHandshake(d, pk, Clear(h)).(table := d.table - {h.localIndex})
  }

  function ZeroAll(d: View, pk: Bytes): View
    requires pk in d.peers
  {
    Expire(WithSlots(d, pk, Slots(None, None, None)), pk)
  }

  // ------------------------------------------------- agreement of table and slots

  ghost predicate EntryAgrees(d: View, i: nat, e: Entry) {
    && i != 0 && e.peer in d.peers
    && match e
       case HandshakeEntry(pk) => d.peers[pk].handshake.localIndex == i
       case KeypairEntry(pk, k) => k.localIndex == i && k in Live(d.peers[pk].keypairs)
  }

  ghost predicate SlotsDistinct(s: Slots) {
    && (s.previous.Some? && s.current.Some? ==> s.previous.value.localIndex != s.current.value.localIndex)
    && (s.previous.Some? && s.next.Some? ==> s.previous.value.localIndex != s.next.value.localIndex)
    && (s.current.Some? && s.next.Some? ==> s.current.value.localIndex != s.next.value.localIndex)
  }

  /** Phases in which an index has been announced to the other side. */
  ghost predicate NeedsIndex(p: Phase) {
    p in {InitiationCreated, ResponseCreated, ResponseConsumed}
  }

  ghost predicate PeerAgrees(d: View, pk: Bytes, p: Peer) {
    && SlotsDistinct(p.keypairs)
    && (p.handshake.localIndex != 0 ==>
          p.handshake.localIndex in d.table && d.table[p.handshake.localIndex] == HandshakeEntry(pk))
    && (NeedsIndex(p.handshake.phase) ==> p.handshake.localIndex != 0)
    && forall k :: k in Live(p.keypairs) ==> k.localIndex in d.table && d.table[k.localIndex] == KeypairEntry(pk, k)
  }

  /** Every entry belongs to its peer's current handshake index or to one of its live
      keypairs, and every live keypair and every handshake index has exactly its entry. */
  ghost predicate Agree(d: View) {
    && (forall i :: i in d.table ==> EntryAgrees(d, i, d.table[i]))
    && (forall pk :: pk in d.peers ==> PeerAgrees(d, pk, d.peers[pk]))
  }

  // ------------------------------------------------- every step keeps the agreement

  /** The handshake changes but keeps its index. */
  lemma KeepIndex(d: View, pk: Bytes, h: Handshake)
    requires Agree(d) && pk in d.peers && h.localIndex == d.peers[pk].handshake.localIndex
    requires NeedsIndex(h.phase) ==> h.localIndex != 0
    ensures Agree(SetHandshake(d, pk, h))
  {
    var d' := SetHandshake(d, pk, h);
    forall i | i in d'.table
      ensures EntryAgrees(d', i, d'.table[i])
    {
      assert EntryAgrees(d, i, d.table[i]);
    }
    forall q | q in d'.peers
      ensures PeerAgrees(d', q, d'.peers[q])
    {
      assert PeerAgrees(d, q, d.peers[q]);
    }
  }

  ghost function Unindexed(d: View, pk: Bytes, h: Handshake): View
    requires pk in d.peers
  {
    SetHandshake(d, pk, h).(table := d.table - {d.peers[pk].handshake.localIndex})
  }

  lemma UnindexedPeer(d: View, pk: Bytes, h: Handshake, q: Bytes)
    requires Agree(d) && pk in d.peers && h.localIndex == 0 && !NeedsIndex(h.phase) && q in d.peers
    ensures PeerAgrees(Unindexed(d, pk, h), q, Unindexed(d, pk, h).peers[q])
  {
    assert PeerAgrees(d, q, d.peers[q]);
    NoForeignIndex(d, pk, q);
  }

  /** The handshake gives up its index. */
  lemma DropIndex(d: View, pk: Bytes, h: Handshake)
    requires Agree(d) && pk in d.peers && h.localIndex == 0 && !NeedsIndex(h.phase)
    ensures Agree(Unindexed(d, pk, h))
  {
    var d' := Unindexed(d, pk, h);
    forall i | i in d'.table
      ensures EntryAgrees(d', i, d'.table[i])
    {
      assert EntryAgrees(d, i, d.table[i]);
    }
    forall q | q in d'.peers
      ensures PeerAgrees(d', q, d'.peers[q])
    {
      UnindexedPeer(d, pk, h, q);
    }
  }

  /** No other peer uses the handshake index of `pk`, and no keypair does. */
  lemma NoForeignIndex(d: View, pk: Bytes, q: Bytes)
    requires Agree(d) && pk in d.peers && q in d.peers
    ensures var i := d.peers[pk].handshake.localIndex;
      && (q != pk && d.peers[q].handshake.localIndex != 0 ==> d.peers[q].handshake.localIndex != i)
      && (forall k :: k in Live(d.peers[q].keypairs) ==> k.localIndex != i && k.localIndex != 0)
  {
    assert PeerAgrees(d, pk, d.peers[pk]) && PeerAgrees(d, q, d.peers[q]);
    forall k | k in Live(d.peers[q].keypairs)
      ensures k.localIndex != d.peers[pk].handshake.localIndex && k.localIndex != 0
    {
      assert EntryAgrees(d, k.localIndex, d.table[k.localIndex]);
    }
  }

  /** The handshake replaces its index by an unused one. */
  lemma NewIndex(d: View, pk: Bytes, h: Handshake, i: nat)
    requires Agree(d) && pk in d.peers && h.localIndex == i != 0
    requires i !in d.table - {d.peers[pk].handshake.localIndex}
    ensures var table := d.table - {d.peers[pk].handshake.localIndex};
      Agree(SetHandshake(d, pk, h).(table := table[i := HandshakeEntry(pk)]))
  {
    var table := d.table - {d.peers[pk].handshake.localIndex};
    var d' := SetHandshake(d, pk, h).(table := table[i := HandshakeEntry(pk)]);
    assert PeerAgrees(d, pk, d.peers[pk]);
    forall j | j in d'.table
      ensures EntryAgrees(d', j, d'.table[j])
    {
      if j != i { assert EntryAgrees(d, j, d.table[j]); }
    }
    forall q | q in d'.peers
      ensures PeerAgrees(d', q, d'.peers[q])
    {
      assert PeerAgrees(d, q, d.peers[q]);
      NoForeignIndex(d, pk, q);
    }
  }

  /** Live keypairs are told apart by their index, across peers too. */
  lemma LiveByIndex(d: View, pk: Bytes, k: Keypair, q: Bytes, k': Keypair)
    requires Agree(d) && pk in d.peers && q in d.peers
    requires k in Live(d.peers[pk].keypairs) && k' in Live(d.peers[q].keypairs) && k.localIndex == k'.localIndex
    ensures k == k' && pk == q
  {
  }

  /** Keypairs leave the slots of a peer; exactly their entries go. */
  lemma ShrinkSlots(d: View, pk: Bytes, s: Slots)
    requires Agree(d) && pk in d.peers && SlotsDistinct(s) && Live(s) <= Live(d.peers[pk].keypairs)
    ensures Agree(WithSlots(d, pk, s))
  {
    var d' := WithSlots(d, pk, s);
    var gone := Live(d.peers[pk].keypairs) - Live(s);
    forall i | i in d'.table
      ensures EntryAgrees(d', i, d'.table[i])
    {
      assert EntryAgrees(d, i, d.table[i]);
    }
    forall q | q in d'.peers
      ensures PeerAgrees(d', q, d'.peers[q])
    {
      assert PeerAgrees(d, q, d.peers[q]);
      forall k, g | k in Live(d'.peers[q].keypairs) && g in gone
        ensures k.localIndex != g.localIndex
      {
        if k.localIndex == g.localIndex { LiveByIndex(d, q, k, pk, g); }
      }
      forall g | g in gone
        ensures d.peers[q].handshake.localIndex != g.localIndex
      {
        NoForeignIndex(d, q, pk);
      }
    }
  }

  ghost predicate RotatesIn(d: View, pk: Bytes, k: Keypair, s: Slots) {
    && pk in d.peers && d.peers[pk].handshake.localIndex == k.localIndex != 0
    && SlotsDistinct(s) && k in Live(s) && Live(s) <= Live(d.peers[pk].keypairs) + {k}
  }

  ghost function Promoted(d: View, pk: Bytes, h: Handshake, k: Keypair, s: Slots): View
    requires pk in d.peers
  {
    WithSlots(SetHandshake(d, pk, h).(table := SwapIndex(d.table, k.localIndex, k)), pk, s)
  }

  lemma PromotedEntries(d: View, pk: Bytes, h: Handshake, k: Keypair, s: Slots, i: nat)
    requires Agree(d) && RotatesIn(d, pk, k, s) && i in Promoted(d, pk, h, k, s).table
    ensures EntryAgrees(Promoted(d, pk, h, k, s), i, Promoted(d, pk, h, k, s).table[i])
  {
    assert PeerAgrees(d, pk, d.peers[pk]);
    assert EntryAgrees(d, i, d.table[i]);
  }

  /** An index that no leaving keypair has keeps its entry. */
  lemma PromotedTable(d: View, pk: Bytes, h: Handshake, k: Keypair, s: Slots, j: nat)
    requires pk in d.peers && j in d.table
    requires forall g :: g in Live(d.peers[pk].keypairs) && g !in Live(s) ==> g.localIndex != j
    ensures var t := Promoted(d, pk, h, k, s).table;
      j in t && t[j] == if j == k.localIndex then KeypairEntry(d.table[j].peer, k) else d.table[j]
  {
  }

  lemma PromotedKeypair(d: View, pk: Bytes, h: Handshake, k: Keypair, s: Slots, q: Bytes, x: Keypair)
    requires Agree(d) && RotatesIn(d, pk, k, s) && q in d.peers
    requires x in Live(Promoted(d, pk, h, k, s).peers[q].keypairs)
    ensures var t := Promoted(d, pk, h, k, s).table; x.localIndex in t && t[x.localIndex] == KeypairEntry(q, x)
  {
    assert PeerAgrees(d, pk, d.peers[pk]) && PeerAgrees(d, q, d.peers[q]);
    NoForeignIndex(d, pk, pk);
    NoForeignIndex(d, pk, q);
    forall g | g in Live(d.peers[pk].keypairs) && g !in Live(s)
      ensures g.localIndex != x.localIndex
    {
      if g.localIndex == x.localIndex && x != k { LiveByIndex(d, q, x, pk, g); }
    }
    PromotedTable(d, pk, h, k, s, x.localIndex);
  }

  lemma PromotedPeer(d: View, pk: Bytes, h: Handshake, k: Keypair, s: Slots, q: Bytes)
    requires Agree(d) && RotatesIn(d, pk, k, s) && h.localIndex == 0 && !NeedsIndex(h.phase) && q in d.peers
    ensures PeerAgrees(Promoted(d, pk, h, k, s), q, Promoted(d, pk, h, k, s).peers[q])
  {
    var d' := Promoted(d, pk, h, k, s);
    forall x | x in Live(d'.peers[q].keypairs)
      ensures x.localIndex in d'.table && d'.table[x.localIndex] == KeypairEntry(q, x)
    {
      PromotedKeypair(d, pk, h, k, s, q, x);
    }
    assert PeerAgrees(d, q, d.peers[q]);
    if q != pk && d.peers[q].handshake.localIndex != 0 {
      NoForeignIndex(d, q, pk);
      NoForeignIndex(d, pk, q);
      PromotedTable(d, pk, h, k, s, d.peers[q].handshake.localIndex);
    }
  }

  /** The handshake turns into a keypair that takes over its entry. */
  lemma PromoteHandshake(d: View, pk: Bytes, h: Handshake, k: Keypair, s: Slots)
    requires Agree(d) && RotatesIn(d, pk, k, s) && h.localIndex == 0 && !NeedsIndex(h.phase)
    ensures Agree(Promoted(d, pk, h, k, s))
  {
    var d' := Promoted(d, pk, h, k, s);
    forall i | i in d'.table
      ensures EntryAgrees(d', i, d'.table[i])
    {
      PromotedEntries(d, pk, h, k, s, i);
    }
    forall q | q in d'.peers
      ensures PeerAgrees(d', q, d'.peers[q])
    {
      PromotedPeer(d, pk, h, k, s, q);
    }
  }

  // ------------------------------------------------- operations and runs

  /** What the index of a new initiation must satisfy: an unused index was drawn and it is
      not zero; a generator that gives out is harmless only while no index is held. */
  predicate InitiationIndexOk(d: View, pk: Bytes, draws: Draws)
    requires pk in d.peers
  {
    var i := d.peers[pk].handshake.localIndex;
    match FirstUnused(d.table - {i}, draws.values)
    case None => i == 0
    case Some(j) => j != 0
  }

  /** The search ends at the first value that is not in use, and fails only if there is none. */
  lemma {:induction false} UnusedIsUnused(table: map<nat, Entry>, values: seq<nat>)
    ensures var r := FirstUnused(table, values);
      && (r == None <==> forall n :: 0 <= n < |values| ==> values[n] in table)
      && (r.Some? ==> r.value !in table && r.value in values)
      && (forall n :: 0 <= n < |values| && values[n] !in table && (forall k :: 0 <= k < n ==> values[k] in table) ==>
            r == Some(values[n]))
  {
    if values != [] && values[0] in table {
      UnusedIsUnused(table, values[1..]);
      forall n | 0 < n < |values|
        ensures values[n] == values[1..][n - 1]
      {
      }
      forall n | 0 <= n < |values| && values[n] !in table && (forall k :: 0 <= k < n ==> values[k] in table)
        ensures FirstUnused(table, values) == Some(values[n])
      {
        assert values[1..][n - 1] == values[n];
        assert forall k :: 0 <= k < n - 1 ==> values[1..][k] == values[k + 1];
      }
    }
  }

  /** The old index is deleted although no new one was drawn: harmless only if there was none. */
  lemma NoIndexDrawn(d: View, pk: Bytes, h: Handshake)
    requires Agree(d) && pk in d.peers && h.localIndex == d.peers[pk].handshake.localIndex
    requires NeedsIndex(h.phase) ==> NeedsIndex(d.peers[pk].handshake.phase)
    ensures Agree(SetHandshake(d, pk, h).(table := d.table - {h.localIndex})) <==> h.localIndex == 0
  {
    var d' := SetHandshake(d, pk, h).(table := d.table - {h.localIndex});
    assert PeerAgrees(d, pk, d.peers[pk]);
    if h.localIndex == 0 {
      assert 0 !in d.table;
      assert d'.table == d.table;
      KeepIndex(d, pk, h);
      assert d' == SetHandshake(d, pk, h);
    } else {
      assert !PeerAgrees(d', pk, d'.peers[pk]);
    }
  }

  /** Creating an initiation keeps the agreement exactly when the drawn index is usable. */
  lemma CreateInitiationAgrees(c: Primitives, me: Identity, d: View, pk: Bytes, eph: Bytes, now: nat, draws: Draws)
    requires Agree(d) && pk in d.peers
    ensures Agree(CreateInitiation(c, me, d, pk, eph, now, draws).1) <==>
      BeginInitiation(c, me, d.peers[pk].handshake, eph, now).0.Err? || InitiationIndexOk(d, pk, draws)
  {
    var h := d.peers[pk].handshake;
    var (sealed, h1) := BeginInitiation(c, me, h, eph, now);
    var d' := CreateInitiation(c, me, d, pk, eph, now, draws).1;
    assert PeerAgrees(d, pk, d.peers[pk]);
    assert h1.localIndex == h.localIndex && (NeedsIndex(h1.phase) ==> NeedsIndex(h.phase));
    var table := d.table - {h.localIndex};
    UnusedIsUnused(table, draws.values);
    if sealed.Err? {
      KeepIndex(d, pk, h1);
    } else {
      match FirstUnused(table, draws.values)
      case None => NoIndexDrawn(d, pk, h1);
      case Some(i) =>
        if i != 0 {
          NewIndex(d, pk, FinishInitiation(c, h1, i, sealed.value.0, sealed.value.1).1, i);
        } else {
          assert !EntryAgrees(d', 0, d'.table[0]);
        }
    }
  }

  /** What the index of a new response must satisfy: it is not zero, and if the generator
      fails its last value, which becomes the handshake's index all the same, is. */
  predicate ResponseIndexOk(d: View, pk: Bytes, draws: Draws)
    requires pk in d.peers
  {
    match FirstUnused(d.table - {d.peers[pk].handshake.localIndex}, draws.values)
    case None => draws.leftover == 0
    case Some(i) => i != 0
  }

  /** A failed draw leaves an index without an entry of this handshake. */
  lemma LeftoverHasNoEntry(d: View, pk: Bytes, h: Handshake)
    requires Agree(d) && pk in d.peers && h.localIndex != 0
    ensures !Agree(SetHandshake(d, pk, h).(table := d.table - {d.peers[pk].handshake.localIndex}))
  {
    var d' := SetHandshake(d, pk, h).(table := d.table - {d.peers[pk].handshake.localIndex});
    if h.localIndex in d.table {
      assert EntryAgrees(d, h.localIndex, d.table[h.localIndex]);
    }
    assert !PeerAgrees(d', pk, d'.peers[pk]);
  }

  /** Creating a response keeps the agreement exactly when the index it ends up with is usable. */
  lemma CreateResponseAgrees(c: Primitives, d: View, pk: Bytes, eph: Bytes, draws: Draws)
    requires Agree(d) && pk in d.peers
    ensures Agree(CreateResponse(c, d, pk, eph, draws).1) <==>
      d.peers[pk].handshake.phase != InitiationConsumed || ResponseIndexOk(d, pk, draws)
  {
    var h := d.peers[pk].handshake;
    var d' := CreateResponse(c, d, pk, eph, draws).1;
    if h.phase == InitiationConsumed {
      var table := d.table - {h.localIndex};
      UnusedIsUnused(table, draws.values);
      match FirstUnused(table, draws.values)
      case None =>
        if draws.leftover == 0 {
          DropIndex(d, pk, h.(localIndex := 0));
        } else {
          LeftoverHasNoEntry(d, pk, h.(localIndex := draws.leftover));
        }
      case Some(i) =>
        if i != 0 {
          NewIndex(d, pk, MakeResponse(c, h.(localIndex := i), eph).1, i);
        } else {
          assert !EntryAgrees(d', 0, d'.table[0]);
        }
    }
  }

  lemma BeginSessionAgrees(c: Primitives, d: View, pk: Bytes)
    requires Agree(d) && pk in d.peers
    ensures Agree(BeginSession(c, d, pk).1)
  {
    var h, s := d.peers[pk].handshake, d.peers[pk].keypairs;
    if SessionKeys(c, h).Some? {
      var k := BeginSession(c, d, pk).0.value;
      SessionIsPromotion(c, d, pk, k);
      RotationIsIn(c, d, pk, k);
      PromoteHandshake(d, pk, SpentHandshake(h), k, Rotated(s, k));
      MadeIsIrrelevant(Promoted(d, pk, SpentHandshake(h), k, Rotated(s, k)), d.made + 1);
    }
  }

  /** Both rotation branches put the new keypair into a slot and keep the others apart. */
  lemma RotationIsIn(c: Primitives, d: View, pk: Bytes, k: Keypair)
    requires Agree(d) && pk in d.peers && NeedsIndex(d.peers[pk].handshake.phase)
    requires k.localIndex == d.peers[pk].handshake.localIndex
    ensures RotatesIn(d, pk, k, Rotated(d.peers[pk].keypairs, k))
  {
    assert PeerAgrees(d, pk, d.peers[pk]);
    NoForeignIndex(d, pk, pk);
  }

  lemma SessionIsPromotion(c: Primitives, d: View, pk: Bytes, k: Keypair)
    requires pk in d.peers && BeginSession(c, d, pk).0 == Some(k)
    ensures k.localIndex == d.peers[pk].handshake.localIndex && NeedsIndex(d.peers[pk].handshake.phase)
    ensures BeginSession(c, d, pk).1 == Promoted(d, pk, SpentHandshake(d.peers[pk].handshake), k,
                                                 Rotated(d.peers[pk].keypairs, k)).(made := d.made + 1)
  {
  }

  /** The secrets of a used handshake are gone: transcript, chain key and own ephemeral key. */
  ghost predicate Forgets(h: Handshake) {
    h.hash == [] && h.chainKey == [] && h.localEphemeral == [] && h.phase == Zeroed && h.localIndex == 0
  }

  ghost predicate Erased(h: Handshake) {
    Forgets(h) && h.remoteEphemeral == []
  }

  /** The keypair `k` of `pk` is live and packets for it are found. */
  ghost predicate Reachable(d: View, pk: Bytes, k: Keypair) {
    && pk in d.peers && k in Live(d.peers[pk].keypairs)
    && k.localIndex in d.table && d.table[k.localIndex] == KeypairEntry(pk, k)
  }

  ghost predicate AllReachable(d: View, pk: Bytes, ks: set<Keypair>) {
    forall k :: k in ks ==> Reachable(d, pk, k)
  }

  lemma LiveAreReachable(d: View, pk: Bytes)
    requires Agree(d) && pk in d.peers
    ensures AllReachable(d, pk, Live(d.peers[pk].keypairs))
  {
    assert PeerAgrees(d, pk, d.peers[pk]);
  }

  /** When the initiator has used the next keypair, that one is current, and the one that was
      current stays reachable as the previous one, for packets still on their way. */
  lemma HandoverKeepsCurrent(d: View, pk: Bytes, k: Keypair)
    requires Agree(d) && pk in d.peers && d.peers[pk].keypairs.next == Some(k)
    ensures var s := d.peers[pk].keypairs; var (done, d') := ReceivedWith(d, pk, k);
      && done && pk in d'.peers && var s' := d'.peers[pk].keypairs;
      && s'.current == Some(k) && s'.previous == s.current && s'.next == None
      && Reachable(d', pk, k) && AllReachable(d', pk, AsSet(s.current))
      && (forall x :: x in AsSet(s.previous) ==> x.localIndex !in d'.table)
  {
    var s := d.peers[pk].keypairs;
    ReceivedWithAgrees(d, pk, k);
    LiveAreReachable(ReceivedWith(d, pk, k).1, pk);
    assert PeerAgrees(d, pk, d.peers[pk]);
  }

  /** Any other packet leaves slots and table alone. */
  lemma HandoverOnlyByNext(d: View, pk: Bytes, k: Keypair)
    requires pk in d.peers && d.peers[pk].keypairs.next != Some(k)
    ensures ReceivedWith(d, pk, k) == (false, d)
  {
  }

  /** Which generations survive a new session. The initiator uses it at once and keeps the next
      keypair if there is one, else the current one; the responder goes on with the current one
      and holds the new one as next. What survives stays reachable, what does not loses its entry,
      and the handshake cannot be used again. */
  lemma SessionKeepsOlder(c: Primitives, d: View, pk: Bytes)
    requires Agree(d) && pk in d.peers && BeginSession(c, d, pk).0.Some?
    ensures var s, h := d.peers[pk].keypairs, d.peers[pk].handshake; var (session, d') := BeginSession(c, d, pk);
      && pk in d'.peers && var s' := d'.peers[pk].keypairs;
      && (if h.phase == ResponseConsumed
          then session.value.isInitiator && s'.current == session && s'.next == None
               && s'.previous == (if s.next.Some? then s.next else s.current)
          else !session.value.isInitiator && s'.next == session && s'.current == s.current && s'.previous == None)
      && AllReachable(d', pk, Live(s'))
      && (forall x :: x in Live(s) && x !in Live(s') ==> x.localIndex !in d'.table)
      && BeginSession(c, d', pk).0 == None && Forgets(d'.peers[pk].handshake)
  {
    var k, s := BeginSession(c, d, pk).0.value, d.peers[pk].keypairs;
    BeginSessionAgrees(c, d, pk);
    LiveAreReachable(BeginSession(c, d, pk).1, pk);
    SessionIsPromotion(c, d, pk, k);
  }

  /** After expiry or zeroing no response to the old handshake is accepted, no session begins from
      it, and after zeroing no entry of the peer is left. */
  lemma ExpiredIsDead(c: Primitives, me: Identity, d: View, pk: Bytes, msg: Response)
    requires Agree(d) && pk in d.peers
    ensures ConsumeResponse(c, me, Expire(d, pk), msg).0 != Some(pk) && BeginSession(c, Expire(d, pk), pk).0 == None
    ensures ConsumeResponse(c, me, ZeroAll(d, pk), msg).0 != Some(pk) && BeginSession(c, ZeroAll(d, pk), pk).0 == None
    ensures forall i :: i in ZeroAll(d, pk).table ==> ZeroAll(d, pk).table[i].peer != pk
    ensures Live(Expire(d, pk).peers[pk].keypairs) == Live(d.peers[pk].keypairs)
    ensures Erased(Expire(d, pk).peers[pk].handshake) && Erased(ZeroAll(d, pk).peers[pk].handshake)
  {
    ZeroAllAgrees(d, pk);
    var d' := ZeroAll(d, pk);
    forall i | i in d'.table
      ensures d'.table[i].peer != pk
    {
      assert EntryAgrees(d', i, d'.table[i]);
    }
  }

  /** An accepted response belongs to the handshake that announced its receiver index. */
  lemma ResponseFindsItsHandshake(c: Primitives, me: Identity, d: View, msg: Response)
    requires Agree(d) && ConsumeResponse(c, me, d, msg).0.Some?
    ensures var pk := ConsumeResponse(c, me, d, msg).0.value;
      && pk in d.peers && d.peers[pk].handshake.localIndex == msg.receiver
      && d.peers[pk].handshake.phase == InitiationCreated
      && ConsumeResponse(c, me, d, msg).1.peers[pk].handshake.remoteIndex == msg.sender
  {
    assert EntryAgrees(d, msg.receiver, d.table[msg.receiver]);
  }

  lemma ConsumeInitiationAgrees(c: Primitives, me: Identity, d: View, msg: Initiation, now: int)
    requires Agree(d)
    ensures Agree(ConsumeInitiation(c, me, d, msg, now).1)
  {
    var (who, d') := ConsumeInitiation(c, me, d, msg, now);
    if who.Some? {
      assert PeerAgrees(d, who.value, d.peers[who.value]);
      KeepIndex(d, who.value, d'.peers[who.value].handshake);
    }
  }

  lemma ConsumeResponseAgrees(c: Primitives, me: Identity, d: View, msg: Response)
    requires Agree(d)
    ensures Agree(ConsumeResponse(c, me, d, msg).1)
  {
    var (who, d') := ConsumeResponse(c, me, d, msg);
    if who.Some? {
      assert PeerAgrees(d, who.value, d.peers[who.value]);
      KeepIndex(d, who.value, d'.peers[who.value].handshake);
    }
  }

  lemma ReceivedWithAgrees(d: View, pk: Bytes, k: Keypair)
    requires Agree(d) && pk in d.peers
    ensures Agree(ReceivedWith(d, pk, k).1)
  {
    var s := d.peers[pk].keypairs;
    if s.next == Some(k) {
      assert PeerAgrees(d, pk, d.peers[pk]);
      ShrinkSlots(d, pk, Slots(s.current, s.next, None));
    }
  }

  lemma ExpireAgrees(d: View, pk: Bytes)
    requires Agree(d) && pk in d.peers
    ensures Agree(Expire(d, pk))
  {
    DropIndex(d, pk, Clear(d.peers[pk].handshake));
  }

  lemma ZeroAllAgrees(d: View, pk: Bytes)
    requires Agree(d) && pk in d.peers
    ensures Agree(ZeroAll(d, pk))
  {
    ShrinkSlots(d, pk, Slots(None, None, None));
    ExpireAgrees(WithSlots(d, pk, Slots(None, None, None)), pk);
  }

  lemma MadeIsIrrelevant(d: View, made: nat)
    requires Agree(d)
    ensures Agree(d.(made := made))
  {
  }

  datatype Event =
    | CreatesInitiation(pk: Bytes, eph: Bytes, stamp: nat, draws: Draws)
    | ConsumesInitiation(initiation: Initiation, now: int)
    | CreatesResponse(pk: Bytes, eph: Bytes, draws: Draws)
    | ConsumesResponse(response: Response)
    | Begins(pk: Bytes)
    | Receives(pk: Bytes, keypair: Keypair)
    | Expires(pk: Bytes)
    | Zeroes(pk: Bytes)

  function Step(c: Primitives, me: Identity, d: View, ev: Event): View {
    match ev
    case CreatesInitiation(pk, eph, stamp, draws) =>
      if pk in d.peers then CreateInitiation(c, me, d, pk, eph, stamp, draws).1 else d
    case ConsumesInitiation(msg, now) => ConsumeInitiation(c, me, d, msg, now).1
    case CreatesResponse(pk, eph, draws) => if pk in d.peers then CreateResponse(c, d, pk, eph, draws).1 else d
    case ConsumesResponse(msg) => ConsumeResponse(c, me, d, msg).1
    case Begins(pk) => if pk in d.peers then BeginSession(c, d, pk).1 else d
    case Receives(pk, k) => if pk in d.peers then ReceivedWith(d, pk, k).1 else d
    case Expires(pk) => if pk in d.peers then Expire(d, pk) else d
    case Zeroes(pk) => if pk in d.peers then ZeroAll(d, pk) else d
  }

  /** The random index generator behaves: see the two exact conditions above. */
  ghost predicate GoodDraw(c: Primitives, me: Identity, d: View, ev: Event) {
    match ev
    case CreatesInitiation(pk, eph, stamp, draws) => pk in d.peers ==>
      BeginInitiation(c, me, d.peers[pk].handshake, eph, stamp).0.Err? || InitiationIndexOk(d, pk, draws)
    case CreatesResponse(pk, _, draws) => pk in d.peers ==>
      d.peers[pk].handshake.phase != InitiationConsumed || ResponseIndexOk(d, pk, draws)
    case _ => true
  }

  /** A step keeps the agreement if and only if it draws well. */
  lemma StepAgrees(c: Primitives, me: Identity, d: View, ev: Event)
    requires Agree(d)
    ensures Agree(Step(c, me, d, ev)) <==> GoodDraw(c, me, d, ev)
  {
    match ev
    case CreatesInitiation(pk, eph, stamp, draws) =>
      if pk in d.peers { CreateInitiationAgrees(c, me, d, pk, eph, stamp, draws); }
    case ConsumesInitiation(msg, now) => ConsumeInitiationAgrees(c, me, d, msg, now);
    case CreatesResponse(pk, eph, draws) =>
      if pk in d.peers { CreateResponseAgrees(c, d, pk, eph, draws); }
    case ConsumesResponse(msg) => ConsumeResponseAgrees(c, me, d, msg);
    case Begins(pk) =>
      if pk in d.peers { BeginSessionAgrees(c, d, pk); }
    case Receives(pk, k) =>
      if pk in d.peers { ReceivedWithAgrees(d, pk, k); }
    case Expires(pk) =>
      if pk in d.peers { ExpireAgrees(d, pk); }
    case Zeroes(pk) =>
      if pk in d.peers { ZeroAllAgrees(d, pk); }
  }

  ghost function RunOf(c: Primitives, me: Identity, d: View, evs: seq<Event>): View
    decreases |evs|
  {
    if evs == [] then d else RunOf(c, me, Step(c, me, d, evs[0]), evs[1..])
  }

  ghost predicate GoodDraws(c: Primitives, me: Identity, d: View, evs: seq<Event>)
    decreases |evs|
  {
    evs == [] || (GoodDraw(c, me, d, evs[0]) && GoodDraws(c, me, Step(c, me, d, evs[0]), evs[1..]))
  }

  /** A device without sessions: no keypairs, no handshake under way, an empty table. */
  ghost predicate Blank(d: View) {
    d.table == map[] && forall pk :: pk in d.peers ==>
      && d.peers[pk].keypairs == Slots(None, None, None)
      && d.peers[pk].handshake.localIndex == 0 && d.peers[pk].handshake.phase == Zeroed
  }

  lemma {:induction false} RunKeepsAgree(c: Primitives, me: Identity, d: View, evs: seq<Event>)
    requires Agree(d) && GoodDraws(c, me, d, evs)
    ensures Agree(RunOf(c, me, d, evs))
    decreases |evs|
  {
    if evs != [] {
      StepAgrees(c, me, d, evs[0]);
      RunKeepsAgree(c, me, Step(c, me, d, evs[0]), evs[1..]);
    }
  }

  /** In every reachable state table and slots agree. */
  lemma ReachableAgrees(c: Primitives, me: Identity, d: View, evs: seq<Event>)
    requires Blank(d) && GoodDraws(c, me, d, evs)
    ensures Agree(RunOf(c, me, d, evs))
  {
    RunKeepsAgree(c, me, d, evs);
  }

  ghost predicate Uses(p: Peer, i: nat) {
    i in Indices(Live(p.keypairs)) || (i != 0 && i == p.handshake.localIndex)
  }

  /** Nothing leaks: the indices in use are those of live keypairs and held handshake indices. */
  lemma NothingLeaks(d: View, i: nat)
    requires Agree(d)
    ensures i in d.table <==> exists pk :: pk in d.peers && Uses(d.peers[pk], i)
  {
    if i in d.table {
      assert EntryAgrees(d, i, d.table[i]);
      assert Uses(d.peers[d.table[i].peer], i);
    }
    forall pk | pk in d.peers && Uses(d.peers[pk], i)
      ensures i in d.table
    {
      assert PeerAgrees(d, pk, d.peers[pk]);
    }
  }

  // ------------------------------------------------- what unusable indices do

  /** The keypair `k` of `pk` is live, but no packet for it will be found. */
  ghost predicate Unreachable(d: View, pk: Bytes, k: Keypair) {
    pk in d.peers && k in Live(d.peers[pk].keypairs) && k.localIndex !in d.table
  }

  /** If index zero is drawn for a response, the session it leads to becomes unreachable as
      soon as some other, idle peer expires: clearing that peer deletes index zero. */
  lemma ZeroIndexIsLost(c: Primitives, me: Identity, d: View, pk: Bytes, q: Bytes, eph: Bytes, draws: Draws)
    requires pk in d.peers && q in d.peers && pk != q
    requires d.peers[pk].handshake.phase == InitiationConsumed && d.peers[q].handshake.localIndex == 0
    requires FirstUnused(d.table - {d.peers[pk].handshake.localIndex}, draws.values) == Some(0)
    ensures var d' := RunOf(c, me, d, [CreatesResponse(pk, eph, draws), Begins(pk), Expires(q)]);
      && pk in d'.peers && d'.peers[pk].keypairs.next.Some?
      && Unreachable(d', pk, d'.peers[pk].keypairs.next.value)
  {
    var d2 := ZeroTwoSteps(c, me, d, pk, eph, draws);
    LostByExpiry(c, me, d, CreatesResponse(pk, eph, draws), Begins(pk), d2, pk, q);
  }

  lemma ZeroTwoSteps(c: Primitives, me: Identity, d: View, pk: Bytes, eph: Bytes, draws: Draws) returns (d2: View)
    requires pk in d.peers && d.peers[pk].handshake.phase == InitiationConsumed
    requires FirstUnused(d.table - {d.peers[pk].handshake.localIndex}, draws.values) == Some(0)
    ensures d2 == Step(c, me, Step(c, me, d, CreatesResponse(pk, eph, draws)), Begins(pk))
    ensures d2.peers.Keys == d.peers.Keys && (forall q :: q in d.peers && q != pk ==> d2.peers[q] == d.peers[q])
    ensures d2.peers[pk].keypairs.next.Some? && d2.peers[pk].keypairs.next.value.localIndex == 0
  {
    var d1 := CreateResponse(c, d, pk, eph, draws).1;
    ZeroResponse(c, d, pk, eph, draws);
    ZeroSession(c, d1, pk);
    d2 := BeginSession(c, d1, pk).1;
  }

  /** Two steps lead to a session with index zero; then the idle peer `q` expires. */
  lemma LostByExpiry(c: Primitives, me: Identity, d: View, a: Event, b: Event, d2: View, pk: Bytes, q: Bytes)
    requires d2 == Step(c, me, Step(c, me, d, a), b)
    requires pk in d2.peers && q in d2.peers && pk != q && d2.peers[q].handshake.localIndex == 0
    requires d2.peers[pk].keypairs.next.Some? && d2.peers[pk].keypairs.next.value.localIndex == 0
    ensures var d' := RunOf(c, me, d, [a, b, Expires(q)]);
      && pk in d'.peers && d'.peers[pk].keypairs.next.Some?
      && Unreachable(d', pk, d'.peers[pk].keypairs.next.value)
  {
    ThreeSteps(c, me, d, a, b, Expires(q));
  }

  lemma ZeroResponse(c: Primitives, d: View, pk: Bytes, eph: Bytes, draws: Draws)
    requires pk in d.peers && d.peers[pk].handshake.phase == InitiationConsumed
    requires FirstUnused(d.table - {d.peers[pk].handshake.localIndex}, draws.values) == Some(0)
    ensures var d' := CreateResponse(c, d, pk, eph, draws).1;
      && d'.peers.Keys == d.peers.Keys && (forall q :: q in d.peers && q != pk ==> d'.peers[q] == d.peers[q])
      && d'.peers[pk].handshake.phase == ResponseCreated && d'.peers[pk].handshake.localIndex == 0
  {
  }

  /** A response with index zero leads to a keypair with index zero. */
  lemma ZeroSession(c: Primitives, d: View, pk: Bytes)
    requires pk in d.peers && d.peers[pk].handshake.phase == ResponseCreated && d.peers[pk].handshake.localIndex == 0
    ensures var d' := BeginSession(c, d, pk).1;
      && d'.peers.Keys == d.peers.Keys && (forall q :: q in d.peers && q != pk ==> d'.peers[q] == d.peers[q])
      && d'.peers[pk].keypairs.next.Some? && d'.peers[pk].keypairs.next.value.localIndex == 0
  {
  }

  lemma TwoSteps(c: Primitives, me: Identity, d: View, a: Event, b: Event)
    ensures RunOf(c, me, d, [a, b]) == Step(c, me, Step(c, me, d, a), b)
  {
    assert [a, b][1..] == [b] && [b][1..] == [];
    assert RunOf(c, me, Step(c, me, d, a), [b]) == RunOf(c, me, Step(c, me, Step(c, me, d, a), b), []);
  }

  lemma ThreeSteps(c: Primitives, me: Identity, d: View, a: Event, b: Event, e: Event)
    ensures RunOf(c, me, d, [a, b, e]) == Step(c, me, Step(c, me, Step(c, me, d, a), b), e)
  {
    assert [a, b, e][1..] == [b, e];
    TwoSteps(c, me, Step(c, me, d, a), b, e);
  }

  /** If the generator fails while a response is created, and leaves behind the index of a live
      keypair of some other peer, that keypair becomes unreachable when this peer expires. */
  lemma LeftoverIsLost(c: Primitives, me: Identity, d: View, pk: Bytes, q: Bytes, k: Keypair, eph: Bytes, draws: Draws)
    requires pk in d.peers && q in d.peers && pk != q && k in Live(d.peers[q].keypairs)
    requires d.peers[pk].handshake.phase == InitiationConsumed
    requires FirstUnused(d.table - {d.peers[pk].handshake.localIndex}, draws.values) == None
    requires draws.leftover == k.localIndex
    ensures Unreachable(RunOf(c, me, d, [CreatesResponse(pk, eph, draws), Expires(pk)]), q, k)
  {
    TwoSteps(c, me, d, CreatesResponse(pk, eph, draws), Expires(pk));
  }

  // ------------------------------------------------- no initiation is accepted twice

  ghost predicate Later(p: Peer, p': Peer) {
    && p'.handshake.lastTimestamp >= p.handshake.lastTimestamp
    && p'.handshake.lastInitiationConsumption >= p.handshake.lastInitiationConsumption
    && p'.handshake.precomputedStaticStatic == p.handshake.precomputedStaticStatic
  }

  lemma CreatingIsLater(c: Primitives, me: Identity, d: View, q: Bytes, eph: Bytes, stamp: nat, draws: Draws, pk: Bytes)
    requires pk in d.peers && q in d.peers
    ensures var d' := CreateInitiation(c, me, d, q, eph, stamp, draws).1;
      pk in d'.peers && Later(d.peers[pk], d'.peers[pk])
  {
  }

  lemma ConsumingIsLater(c: Primitives, me: Identity, d: View, msg: Initiation, now: int, pk: Bytes)
    requires pk in d.peers
    ensures var d' := ConsumeInitiation(c, me, d, msg, now).1;
      pk in d'.peers && Later(d.peers[pk], d'.peers[pk])
  {
  }

  lemma StepIsLater(c: Primitives, me: Identity, d: View, ev: Event, pk: Bytes)
    requires pk in d.peers
    ensures pk in Step(c, me, d, ev).peers && Later(d.peers[pk], Step(c, me, d, ev).peers[pk])
  {
    match ev
    case CreatesInitiation(q, eph, stamp, draws) =>
      if q in d.peers {
        CreatingIsLater(c, me, d, q, eph, stamp, draws, pk);
      }
    case ConsumesInitiation(msg, now) => ConsumingIsLater(c, me, d, msg, now, pk);
    case CreatesResponse(_, _, _) =>
    case ConsumesResponse(_) =>
    case Begins(_) =>
    case Receives(_, _) =>
    case Expires(_) =>
    case Zeroes(_) =>
  }

  lemma {:induction false} RunIsLater(c: Primitives, me: Identity, d: View, evs: seq<Event>, pk: Bytes)
    requires pk in d.peers
    ensures pk in RunOf(c, me, d, evs).peers && Later(d.peers[pk], RunOf(c, me, d, evs).peers[pk])
    decreases |evs|
  {
    if evs != [] {
      StepIsLater(c, me, d, evs[0], pk);
      RunIsLater(c, me, Step(c, me, d, evs[0]), evs[1..], pk);
    }
  }

  /** Once a device has accepted an initiation it refuses it for ever, whatever happens in
      between: timestamps of accepted initiations only move forward. */
  lemma InitiationAcceptedOnce(c: Primitives, me: Identity, d: View, msg: Initiation, now: int, evs: seq<Event>,
                               now': int)
    requires ConsumeInitiation(c, me, d, msg, now).0.Some?
    ensures ConsumeInitiation(c, me, RunOf(c, me, ConsumeInitiation(c, me, d, msg, now).1, evs), msg, now').0 == None
  {
    var (who, d1) := ConsumeInitiation(c, me, d, msg, now);
    RunIsLater(c, me, d1, evs, who.value);
  }

  /** Initiations of one peer are accepted further apart than the flood interval, and with rising
      timestamps, whatever happens in between. */
  lemma InitiationsApart(c: Primitives, me: Identity, d: View, msg: Initiation, now: int, evs: seq<Event>,
                         msg': Initiation, now': int)
    requires var (who, d1) := ConsumeInitiation(c, me, d, msg, now); var d2 := RunOf(c, me, d1, evs);
      who.Some? && ConsumeInitiation(c, me, d2, msg', now').0 == who
    ensures now' - now > HANDSHAKE_INITIATION_RATE
    ensures var (who, d1) := ConsumeInitiation(c, me, d, msg, now); var d2 := RunOf(c, me, d1, evs);
      var d3 := ConsumeInitiation(c, me, d2, msg', now').1;
      && who.value in d1.peers && who.value in d3.peers
      && d3.peers[who.value].handshake.lastTimestamp > d1.peers[who.value].handshake.lastTimestamp
  {
    var (who, d1) := ConsumeInitiation(c, me, d, msg, now);
    RunIsLater(c, me, d1, evs, who.value);
  }
}
