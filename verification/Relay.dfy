/** What a device does with one decrypted packet: process it, hand it to the tap device,
    forward it, or drop it (the decision inside `RoutineSequentialReceiver`). */
module Relay {
  import opened Walks

  newtype Usage = u: int | 0 <= u < 0x100

  const NORMAL_PACKET: Usage := 4
  const REGISTER: Usage := 5
  const SERVER_UPDATE: Usage := 6
  const PING_PACKET: Usage := 7
  const PONG_PACKET: Usage := 8
  const QUERY_PEER: Usage := 9
  const BROADCAST_PEER: Usage := 10

  predicate EdgeToEdge(u: Usage) {
    u == PING_PACKET || u == PONG_PACKET || u == QUERY_PEER || u == BROADCAST_PEER
  }

  predicate EdgeToSuper(u: Usage) {
    u == REGISTER || u == PONG_PACKET
  }

  datatype Forward = Stay | Through | Spread | Unicast(next: Vertex)

  datatype Verdict = Dropped | Verdict(process: bool, receive: bool, forward: Forward)

  /** The packet as the decision sees it: `next` is the route lookup for `dst`. */
  datatype Incoming = Incoming(usage: Usage, dst: Vertex, from: Vertex, ttl: nat, crc: nat, next: Vertex)

  /** Packets every member of the group is meant to see. */
  predicate ForEveryone(dst: Vertex) {
    dst == NODE_BROADCAST || dst == NODE_SPREAD
  }

  function ForwardOf(id: Vertex, p: Incoming): Forward {
    if p.ttl == 0 then Stay
    else if p.dst == NODE_BROADCAST then Through
    else if p.dst == NODE_SPREAD then Spread
    else if p.dst == id || p.dst == NODE_SUPER || p.dst == NODE_INVALID || p.next == NODE_INVALID then Stay
    else Unicast(p.next)
  }

  /** The verdict and the duplicate cache afterwards, as a function of the packet. */
  function VerdictOf(id: Vertex, isSuper: bool, disableRelay: bool, seen: set<nat>, p: Incoming): (Verdict, set<nat>) {
    if !(NORMAL_PACKET <= p.usage <= BROADCAST_PEER) then (Dropped, seen)
    else if isSuper then
      (if EdgeToSuper(p.usage) && p.dst == NODE_SUPER then Verdict(true, false, Stay) else Dropped, seen)
    else if p.usage == SERVER_UPDATE && p.from != NODE_SUPER then (Dropped, seen)
    else
      var mine := p.dst == id || ForEveryone(p.dst);
      var process := || (EdgeToEdge(p.usage) && mine)
                     || (p.usage == SERVER_UPDATE && (p.dst == id || p.dst == NODE_SUPER));
      var receive := p.usage == NORMAL_PACKET && mine;
      if disableRelay then (Verdict(process, receive, Stay), seen)
      else if p.dst == NODE_SPREAD then
        (if p.crc in seen then Dropped else Verdict(process, receive, ForwardOf(id, p)), seen + {p.crc})
      else (Verdict(process, receive, ForwardOf(id, p)), seen)
  }

  // ------------------------------------------------- what a verdict means

  /** The super node takes exactly registrations and pongs addressed to it, and forwards nothing. */
  lemma SuperNodeVerdict(id: Vertex, disableRelay: bool, seen: set<nat>, p: Incoming)
    ensures var (v, seen') := VerdictOf(id, true, disableRelay, seen, p);
      && seen' == seen
      && (v != Dropped <==> (p.usage == REGISTER || p.usage == PONG_PACKET) && p.dst == NODE_SUPER)
      && (v != Dropped ==> v == Verdict(true, false, Stay))
  {
  }

  /** An edge acts on a server update only if it comes from the super node and is meant for it. */
  lemma UpdatesOnlyFromSuperNode(id: Vertex, disableRelay: bool, seen: set<nat>, p: Incoming)
    requires p.usage == SERVER_UPDATE
    ensures var v := VerdictOf(id, false, disableRelay, seen, p).0;
      && (p.from != NODE_SUPER ==> v == Dropped)
      && (v.Verdict? && v.process ==> p.from == NODE_SUPER && (p.dst == id || p.dst == NODE_SUPER))
      && (p.from == NODE_SUPER && p.dst == NODE_SUPER ==> v == Verdict(true, false, Stay))
      && (v.Verdict? ==> !v.receive)
  {
  }

  /** What an edge does with any packet: frames go to the tap device, control messages between
      edges are processed, each only if addressed to it or to everyone; what is neither is at most
      passed on; and registrations, which only super nodes understand, are never acted on. */
  lemma EdgeVerdict(id: Vertex, disableRelay: bool, seen: set<nat>, p: Incoming)
    ensures var v := VerdictOf(id, false, disableRelay, seen, p).0;
      var mine := p.dst == id || p.dst == NODE_BROADCAST || p.dst == NODE_SPREAD;
      v.Verdict? ==>
        && NORMAL_PACKET <= p.usage <= BROADCAST_PEER
        && (v.receive <==> p.usage == NORMAL_PACKET && mine)
        && (p.usage in {PING_PACKET, PONG_PACKET, QUERY_PEER, BROADCAST_PEER} ==> (v.process <==> mine))
        && (p.usage in {NORMAL_PACKET, REGISTER} ==> !v.process)
  {
  }

  /** When a packet is passed on: never without time to live or with relaying disabled, never one
      that has arrived; and a packet for another node exactly if there is a route, to its next hop. */
  lemma ForwardVerdict(id: Vertex, disableRelay: bool, seen: set<nat>, p: Incoming)
    ensures var v := VerdictOf(id, false, disableRelay, seen, p).0;
      && (v.Verdict? && v.forward != Stay ==> !disableRelay && p.ttl > 0 && (p.dst == id ==> p.dst >= NODE_SPREAD))
      && (v.Verdict? && !disableRelay && p.ttl > 0 && p.dst < NODE_INVALID && p.dst != id ==>
            v.forward == if p.next != NODE_INVALID then Unicast(p.next) else Stay)
      && (v.Verdict? && v.forward.Through? ==> p.dst == NODE_BROADCAST)
      && (v.Verdict? && v.forward.Spread? ==> p.dst == NODE_SPREAD && p.crc !in seen)
  {
  }

  /** Only a spread packet touches the duplicate cache, and a duplicate one does nothing else. */
  lemma CacheVerdict(id: Vertex, isSuper: bool, disableRelay: bool, seen: set<nat>, p: Incoming)
    ensures var (v, seen') := VerdictOf(id, isSuper, disableRelay, seen, p);
      && (seen' != seen ==> seen' == seen + {p.crc} && p.dst == NODE_SPREAD && !disableRelay && !isSuper)
      && (p.dst == NODE_SPREAD && !disableRelay && !isSuper && p.crc in seen ==> v == Dropped && seen' == seen)
  {
  }

  // ------------------------------------------------- the duplicate cache

  /** Remembered checksums with the time they were entered. */
  type Cache = map<nat, int>

  function Remember(cache: Cache, crc: nat, now: int): Cache {
    if crc in cache then cache else cache[crc := now]
  }

  predicate MayEvict(cache: Cache, timeout: int, gone: set<nat>, now: int) {
    forall x :: x in gone && x in cache ==> cache[x] + timeout <= now
  }

  datatype CacheEvent = Check(crc: nat, time: int) | Forget(gone: set<nat>, time: int)

  ghost function CacheAfter(evs: seq<CacheEvent>): Cache {
    if evs == [] then map[]
    else AfterOne(CacheAfter(evs[..|evs| - 1]), evs[|evs| - 1])
  }

  ghost function AfterOne(cache: Cache, ev: CacheEvent): Cache {
    match ev
    case Check(crc, now) => Remember(cache, crc, now)
    case Forget(gone, _) => cache - gone
  }

  /** Time moves forward, and only entries as old as the timeout are forgotten. */
  ghost predicate CacheRun(timeout: int, evs: seq<CacheEvent>) {
    && (forall i, j :: 0 <= i < j < |evs| ==> evs[i].time <= evs[j].time)
    && (forall k {:trigger evs[k]} :: 0 <= k < |evs| && evs[k].Forget? ==>
          MayEvict(CacheAfter(evs[..k]), timeout, evs[k].gone, evs[k].time))
  }

  ghost predicate FirstTime(evs: seq<CacheEvent>, k: nat)
    requires k < |evs| && evs[k].Check?
  {
    evs[k].crc !in CacheAfter(evs[..k])
  }

  /** An accepted checksum stays in the cache until the timeout has passed. */
  lemma {:induction false} StaysCached(timeout: int, evs: seq<CacheEvent>, i: nat, j: nat)
    requires CacheRun(timeout, evs) && i < j <= |evs| && evs[i].Check? && FirstTime(evs, i)
    ensures CachedOrLate(CacheAfter(evs[..j]), evs[i].crc, evs[i].time, evs[j - 1].time, timeout)
    decreases j
  {
    assert CacheAfter(evs[..j]) == AfterOne(CacheAfter(evs[..j - 1]), evs[j - 1]) by {
      assert evs[..j][..j - 1] == evs[..j - 1] && evs[..j][j - 1] == evs[j - 1];
    }
    if i < j - 1 {
      StaysCached(timeout, evs, i, j - 1);
      StaysOne(CacheAfter(evs[..j - 1]), evs[j - 1], evs[i].crc, evs[i].time, evs[j - 2].time, timeout);
    }
  }

  /** The entry made at time `t` is there, or the timeout has passed since. */
  ghost predicate CachedOrLate(cache: Cache, crc: nat, t: int, now: int, timeout: int) {
    (crc in cache && cache[crc] == t) || now >= t + timeout
  }

  lemma StaysOne(cache: Cache, ev: CacheEvent, crc: nat, t: int, before: int, timeout: int)
    requires CachedOrLate(cache, crc, t, before, timeout) && before <= ev.time
    requires ev.Forget? ==> MayEvict(cache, timeout, ev.gone, ev.time)
    ensures CachedOrLate(AfterOne(cache, ev), crc, t, ev.time, timeout)
  {
  }

  /** The same checksum is accepted again only when the timeout has passed since; so a run
      shorter than the timeout accepts it once. */
  lemma AcceptedApart(timeout: int, evs: seq<CacheEvent>, i: nat, j: nat)
    requires CacheRun(timeout, evs) && i < j < |evs| && evs[i].Check? && evs[j].Check? && evs[i].crc == evs[j].crc
    requires FirstTime(evs, i) && FirstTime(evs, j)
    ensures evs[j].time >= evs[i].time + timeout
  {
    StaysCached(timeout, evs, i, j);
    assert evs[j - 1].time <= evs[j].time;
  }

  class Device {
    const id: Vertex
    const isSuper: bool
    const disableRelay: bool
    const timeout: int
    var dupData: Cache

    constructor (id: Vertex, isSuper: bool, disableRelay: bool, timeout: int)
      ensures this.id == id && this.isSuper == isSuper && this.disableRelay == disableRelay
      ensures this.timeout == timeout && dupData == map[]
    {
      this.id, this.isSuper, this.disableRelay, this.timeout, dupData := id, isSuper, disableRelay, timeout, map[];
    }

    /** The cache forgets entries when it likes, once they are as old as the timeout. */
    method Evict(gone: set<nat>, now: int)
      requires MayEvict(dupData, timeout, gone, now)
      modifies this`dupData
      ensures dupData == old(dupData) - gone
    {
      dupData := dupData - gone;
    }

    method CheckNoDup(crc: nat, now: int) returns (firstTime: bool)
      modifies this`dupData
      ensures firstTime == (crc !in old(dupData)) && dupData == Remember(old(dupData), crc, now)
      ensures dupData.Keys == old(dupData.Keys) + {crc}
    {
      firstTime := crc !in dupData;
      dupData := Remember(dupData, crc, now);
    }

    method Decide(p: Incoming, now: int) returns (v: Verdict)
      modifies this`dupData
      ensures (v, dupData.Keys) == VerdictOf(id, isSuper, disableRelay, old(dupData.Keys), p)
      ensures forall x :: x in old(dupData) ==> x in dupData && dupData[x] == old(dupData[x])
    {
      var process, receive, transfer := false, false, false;
      if !(NORMAL_PACKET <= p.usage <= BROADCAST_PEER) {
        return Dropped;
      }
      if isSuper {
        if EdgeToSuper(p.usage) {
          process := true;
        } else {
          return Dropped;
        }
        if p.dst == NODE_SUPER {
          process := true;
        } else {
          return Dropped;
        }
      } else {
        if p.usage == NORMAL_PACKET {
          if p.dst == id || p.dst == NODE_BROADCAST || p.dst == NODE_SPREAD { receive := true; }
        }
        if EdgeToEdge(p.usage) {
          if p.dst == id || p.dst == NODE_BROADCAST || p.dst == NODE_SPREAD { process := true; }
        }
        if p.usage == SERVER_UPDATE {
          if p.from == NODE_SUPER {
            if p.dst == id || p.dst == NODE_SUPER { process := true; }
          } else {
            return Dropped;
          }
        }
        if disableRelay {
          transfer := false;
        } else if p.dst == NODE_BROADCAST {
          transfer := true;
        } else if p.dst == NODE_SPREAD {
          var firstTime := CheckNoDup(p.crc, now);
          if firstTime { transfer := true; } else { return Dropped; }
        } else if p.dst == id || p.dst == NODE_SUPER || p.dst == NODE_INVALID {
          transfer := false;
        } else if p.next != NODE_INVALID {
          transfer := true;
        }
      }
      var forward := Stay;
      if transfer && p.ttl != 0 {
        if p.dst == NODE_BROADCAST {
          forward := Through;
        } else if p.dst == NODE_SPREAD {
          forward := Spread;
        } else if p.next != NODE_INVALID {
          forward := Unicast(p.next);
        }
      }
      return Verdict(process, receive, forward);
    }
  }
}
