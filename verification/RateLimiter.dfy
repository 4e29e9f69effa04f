/** The per-address token bucket of ratelimiter.go with its garbage collection. Times are
    nanoseconds; the clock is an argument and does not run backwards. */
module RateLimiter {
  import opened Wrappers

  const PACKET_COST: int := 50_000_000
  const MAX_TOKENS: int := 250_000_000
  const GARBAGE_COLLECT_TIME: int := 1_000_000_000

  datatype Entry = Entry(lastTime: int, tokens: int)

  datatype Address = IPv4(key: nat) | IPv6(key: nat)

  /** The answer for one packet and the entry of its address afterwards. */
  function Charge(e: Option<Entry>, now: int): (bool, Entry) {
    match e
    case None => (true, Entry(now, MAX_TOKENS - PACKET_COST))
    case Some(b) =>
      var filled := b.tokens + (now - b.lastTime);
      var tokens := if filled > MAX_TOKENS then MAX_TOKENS else filled;
      if tokens > PACKET_COST then (true, Entry(now, tokens - PACKET_COST)) else (false, Entry(now, tokens))
  }

  predicate Stale(e: Entry, now: int) {
    now - e.lastTime > GARBAGE_COLLECT_TIME
  }

  class Ratelimiter {
    var tableIPv4: map<nat, Entry>
    var tableIPv6: map<nat, Entry>

    ghost function Lookup(ip: Address): Option<Entry>
      reads this
    {
      match ip
      case IPv4(k) => if k in tableIPv4 then Some(tableIPv4[k]) else None
      case IPv6(k) => if k in tableIPv6 then Some(tableIPv6[k]) else None
    }

    constructor ()
      ensures forall ip :: Lookup(ip) == None
    {
      tableIPv4, tableIPv6 := map[], map[];
    }

    method Allow(ip: Address, now: int) returns (ok: bool)
      modifies this
      ensures ok == Charge(old(Lookup(ip)), now).0
      ensures forall x :: Lookup(x) == if x == ip then Some(Charge(old(Lookup(ip)), now).1) else old(Lookup(x))
    {
      var entry := match ip
        case IPv4(k) => if k in tableIPv4 then Some(tableIPv4[k]) else None
        case IPv6(k) => if k in tableIPv6 then Some(tableIPv6[k]) else None;
      if entry == None {
        Put(ip, Entry(now, MAX_TOKENS - PACKET_COST));
        return true;
      }
      var tokens := entry.value.tokens + (now - entry.value.lastTime);
      if tokens > MAX_TOKENS { tokens := MAX_TOKENS; }
      ok := tokens > PACKET_COST;
      if ok { tokens := tokens - PACKET_COST; }
      Put(ip, Entry(now, tokens));
    }

    method Put(ip: Address, e: Entry)
      modifies this
      ensures forall x :: Lookup(x) == if x == ip then Some(e) else old(Lookup(x))
    {
      match ip
      case IPv4(k) => tableIPv4 := tableIPv4[k := e];
      case IPv6(k) => tableIPv6 := tableIPv6[k := e];
    }

    method Cleanup(now: int) returns (empty: bool)
      modifies this
      ensures forall ip :: Lookup(ip) == Collected(old(Lookup(ip)), now)
      ensures empty <==> forall ip :: Lookup(ip) == None
    {
      tableIPv4 := Sweep(tableIPv4, now);
      tableIPv6 := Sweep(tableIPv6, now);
      empty := |tableIPv4| == 0 && |tableIPv6| == 0;
      if !empty {
        if |tableIPv4| != 0 {
          var k :| k in tableIPv4;
          assert Lookup(IPv4(k)) != None;
        } else {
          var k :| k in tableIPv6;
          assert Lookup(IPv6(k)) != None;
        }
      }
    }
  }

  ghost function Collected(e: Option<Entry>, now: int): Option<Entry> {
    if e.Some? && Stale(e.value, now) then None else e
  }

  /** A bucket is collected exactly if it has been idle for more than a second, and then it is full. */
  lemma CollectedWhen(e: Entry, now: int)
    ensures Collected(Some(e), now) == None <==> now - e.lastTime > 1_000_000_000
    ensures e.tokens >= 0 && Collected(Some(e), now) == None ==> Level(Some(e), now) == MAX_TOKENS
  {
  }

  method Sweep(table: map<nat, Entry>, now: int) returns (left: map<nat, Entry>)
    ensures forall k :: k in left <==> k in table && !Stale(table[k], now)
    ensures forall k :: k in left ==> left[k] == table[k]
  {
    left := table;
    var todo := table.Keys;
    while todo != {}
      invariant todo <= table.Keys
      invariant forall k :: k in left <==> k in table && (k in todo || !Stale(table[k], now))
      invariant forall k :: k in left ==> left[k] == table[k]
    {
      var k :| k in todo;
      if Stale(left[k], now) {
        left := left - {k};
      }
      todo := todo - {k};
    }
  }

  // ------------------------------------------------- runs

  datatype Event = Packet(ip: Address, time: int) | Collect(time: int)

  ghost predicate Monotone(tr: seq<Event>) {
    forall i, j :: 0 <= i < j < |tr| ==> tr[i].time <= tr[j].time
  }

  /** The bucket of `ip` after a run, with garbage collection or without. */
  ghost function After(tr: seq<Event>, ip: Address, collect: bool): Option<Entry> {
    if tr == [] then None
    else
      var e, last := After(tr[..|tr| - 1], ip, collect), tr[|tr| - 1];
      match last
      case Packet(x, t) => if x == ip then Some(Charge(e, t).1) else e
      case Collect(t) => if collect then Collected(e, t) else e
  }

  ghost predicate Answer(tr: seq<Event>, k: nat, collect: bool)
    requires k < |tr| && tr[k].Packet?
  {
    Charge(After(tr[..k], tr[k].ip, collect), tr[k].time).0
  }

  /** Tokens a bucket would hold at `now`; an address without a bucket has a full one. */
  ghost function Level(e: Option<Entry>, now: int): int {
    if e == None then MAX_TOKENS
    else if e.value.tokens + (now - e.value.lastTime) > MAX_TOKENS then MAX_TOKENS
    else e.value.tokens + (now - e.value.lastTime)
  }

  /** Only the level decides: having no bucket is the same as having a full one. */
  lemma ChargeByLevel(e: Option<Entry>, now: int)
    ensures var l := Level(e, now);
      Charge(e, now) == if l > PACKET_COST then (true, Entry(now, l - PACKET_COST)) else (false, Entry(now, l))
  {
  }

  ghost predicate Plausible(e: Option<Entry>, now: int) {
    e.Some? ==> 0 < e.value.tokens <= MAX_TOKENS && e.value.lastTime <= now
  }

  lemma {:induction false} RunIsPlausible(tr: seq<Event>, ip: Address, collect: bool, now: int)
    requires Monotone(tr) && forall i :: 0 <= i < |tr| ==> tr[i].time <= now
    ensures Plausible(After(tr, ip, collect), now)
  {
    if tr != [] {
      var front, t := tr[..|tr| - 1], tr[|tr| - 1].time;
      RunIsPlausible(front, ip, collect, t);
      ChargeByLevel(After(front, ip, collect), t);
    }
  }

  /** Collecting a stale bucket changes its level neither now nor later. */
  lemma CollectKeepsLevel(e: Option<Entry>, now: int, later: int)
    requires Plausible(e, now) && now <= later
    ensures Level(Collected(e, now), later) == Level(e, later)
  {
  }

  lemma {:induction false} SameLevel(tr: seq<Event>, ip: Address, now: int)
    requires Monotone(tr) && forall i :: 0 <= i < |tr| ==> tr[i].time <= now
    ensures Level(After(tr, ip, true), now) == Level(After(tr, ip, false), now)
  {
    if tr != [] {
      var front, last := tr[..|tr| - 1], tr[|tr| - 1];
      SameLevel(front, ip, now);
      SameLevel(front, ip, last.time);
      ChargeByLevel(After(front, ip, true), last.time);
      ChargeByLevel(After(front, ip, false), last.time);
      if last.Collect? {
        RunIsPlausible(front, ip, true, last.time);
        CollectKeepsLevel(After(front, ip, true), last.time, now);
      }
    }
  }

  /** Garbage collection is transparent: every packet gets the answer that a bucket which is
      never collected would give. */
  lemma CollectionIsTransparent(tr: seq<Event>, k: nat)
    requires Monotone(tr) && k < |tr| && tr[k].Packet?
    ensures Answer(tr, k, true) == Answer(tr, k, false)
  {
    SameLevel(tr[..k], tr[k].ip, tr[k].time);
    ChargeByLevel(After(tr[..k], tr[k].ip, true), tr[k].time);
    ChargeByLevel(After(tr[..k], tr[k].ip, false), tr[k].time);
  }

  // ------------------------------------------------- the rate

  /** Packets of `ip` allowed among the events from `i` up to but not including `j`. */
  ghost function Allowed(tr: seq<Event>, i: nat, j: nat, ip: Address): nat
    requires i <= j <= |tr|
  {
    if i == j then 0
    else Allowed(tr, i, j - 1, ip) + if tr[j - 1].Packet? && tr[j - 1].ip == ip && Answer(tr, j - 1, true) then 1 else 0
  }

  /** One event spends no more than the level loses against the time that passes. */
  lemma OneEvent(e: Option<Entry>, ev: Event, ip: Address, now: int)
    requires Plausible(e, ev.time) && ev.time <= now
    ensures var after := match ev
        case Packet(x, t) => if x == ip then Some(Charge(e, t).1) else e
        case Collect(t) => Collected(e, t);
      var spent := if ev.Packet? && ev.ip == ip && Charge(e, ev.time).0 then PACKET_COST else 0;
      spent + Level(after, now) <= Level(e, ev.time) + (now - ev.time) && Level(after, now) > 0
  {
    ChargeByLevel(e, ev.time);
    if ev.Collect? { CollectKeepsLevel(e, ev.time, now); }
  }

  /** What was spent since event `i` is covered by the level then and the time passed. */
  lemma {:induction false} Budget(tr: seq<Event>, i: nat, j: nat, ip: Address, now: int)
    requires Monotone(tr) && i < j <= |tr| && tr[j - 1].time <= now
    ensures PACKET_COST * Allowed(tr, i, j, ip) + Level(After(tr[..j], ip, true), now)
         <= MAX_TOKENS + (now - tr[i].time)
    ensures Level(After(tr[..j], ip, true), now) > 0
    decreases j
  {
    var last := tr[j - 1];
    assert tr[..j][..j - 1] == tr[..j - 1];
    RunIsPlausible(tr[..j - 1], ip, true, last.time);
    if i < j - 1 {
      Budget(tr, i, j - 1, ip, last.time);
    }
    OneEvent(After(tr[..j - 1], ip, true), last, ip, now);
  }

  /** Because a packet needs more than its cost, a bucket never runs empty, and the bound is
      strict: in an interval of length T fewer than 5 + T/50ms packets are allowed. */
  lemma RateBound(tr: seq<Event>, i: nat, j: nat, ip: Address)
    requires Monotone(tr) && i < j <= |tr|
    ensures PACKET_COST * Allowed(tr, i, j, ip) < MAX_TOKENS + (tr[j - 1].time - tr[i].time)
    ensures Allowed(tr, i, j, ip) <= 5 + (tr[j - 1].time - tr[i].time - 1) / PACKET_COST
    ensures tr[i].time == tr[j - 1].time ==> Allowed(tr, i, j, ip) <= 4
  {
    Budget(tr, i, j, ip, tr[j - 1].time);
    InUnits(Allowed(tr, i, j, ip), tr[j - 1].time - tr[i].time);
  }

  lemma InUnits(n: nat, t: int)
    ensures 50_000_000 * n < 250_000_000 + t ==> n <= 5 + (t - 1) / 50_000_000
  {
  }

  /** `n` packets of one address at one instant. */
  ghost function Burst(ip: Address, n: nat, now: int): seq<Event> {
    seq(n, _ => Packet(ip, now))
  }

  lemma {:induction false} BurstAfter(ip: Address, n: nat, now: int)
    requires n <= 5
    ensures After(Burst(ip, n, now), ip, true) ==
      if n == 0 then None else Some(Entry(now, MAX_TOKENS - (if n < 5 then n else 4) * PACKET_COST))
  {
    if n > 0 {
      BurstAfter(ip, n - 1, now);
      assert Burst(ip, n, now)[..n - 1] == Burst(ip, n - 1, now);
    }
  }

  /** The advertised burst of five is missed: of five packets at one instant from an address that
      was idle, exactly the first four are allowed. */
  lemma BurstOfFourOnly(ip: Address, now: int, k: nat)
    requires k < 5
    ensures Answer(Burst(ip, 5, now), k, true) <==> k < 4
  {
    BurstAfter(ip, k, now);
    assert Burst(ip, 5, now)[..k] == Burst(ip, k, now);
  }
}
