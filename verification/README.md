# EtherGuard VPN: a verified model of the routing, session and packet core

EtherGuard is a layer-2 VPN. Every node holds latencies of one-way links, computes
next-hop tables from them, relays Ethernet frames hop by hop, by routed broadcast or by
flooding, and protects each link with the WireGuard handshake and transport. This project
models those parts in Dafny and proves what they are for:

* **Routing.** The in-place triple loop over three nested tables, in any vertex order and
  with a finite "Infinity", yields shortest paths; following the next hops never loops,
  zero-weight cycles included, costs exactly the distance, and has exactly the bare distance
  without additional cost. The tie argument is a rank on the phase in which an entry was last
  improved (`FloydWarshall.Ranked`, `FloydWarshall.PhaseRanked`). With negative one-way
  latencies the cap can hide a path; for every vertex order it is proved exactly when it does.
  Recovery from a negative cycle always succeeds in the second pass.
* **Relaying.** Unicast packets travel the cheapest path and arrive exactly if the time to
  live allows it. A routed broadcast ends, reaches every reachable node, never returns to
  its source and, where shortest paths are unique, reaches each node once. A flood
  terminates, is processed at most once per node, and covers the group.
* **Sessions.** In every reachable state of a device with any number of peers the index
  table and the keypair slots agree; honest handshakes end with mirrored keys, whatever the
  devices do with other peers meanwhile, and an accepted message proves that its maker has the
  same transcript and secrets; an initiation is accepted at most once, whatever happens in
  between; rotation keeps the keypairs that packets on their way still need.
* **Transport.** The replay ring refines a plain set of counters; nonces are unique under
  any interleaving, and the margin below 2^64 is exactly sufficient.
* **Rate limiting, fake TCP, obfuscation, timers, latency damping**: transparency and rate
  bound of the token buckets, checksum validity and packet round trips, framing round
  trips and size bounds, cancellation of timers, exact medians.

## How to read it

Each `.dfy` file is one module of the same name. Code that updates state in place is a
class (`RouteGraph.Graph`, `Relay.Device`, `SessionDevice.Device`, `Replay.Filter`,
`RateLimiter.Ratelimiter`, `MedianFilter.FilterWindow`) or a method on arrays (`FakeTcp`)
whose postconditions tie it to functions; theorems are about those functions. Concurrent
code (`Flood`, `Broadcast`, `Nonce`, `Timers`) is a state machine over its atomic steps,
with theorems over all runs. `dafny verify dfyconfig.toml` checks the whole project.

Modelling decisions:

* Latencies are `real`s. A clock reading is an argument, one per call. Iteration over Go
  maps picks an arbitrary element each time, so results hold for every order.
* `RouteGraph.Graph.Calculate` is the source's `FloydWarshall`, split into the first rows
  (`InitTables`), the loop (`RouteTables.RelaxAll`) and the diagonal test
  (`NegativeDiagonal`). `UpToDate(now)` says that the installed tables are the routes of
  the graph at `now`; `Corrected` says that a recalculation changes no edge unless there
  is a negative cycle, and then sets exactly the negative weights to zero.
* A graph is `Tame` if weights are non-negative, or if there is no negative cycle and every
  simple path sums to less than Infinity (`Walks.NonNegativeIsTame`,
  `Walks.SignedIsTame`). Route theorems are stated for `Tame` graphs.
* The DH, KDF, AEAD, AES and CRC primitives are function parameters with their usual laws:
  commuting DH, opening what was sealed under the same key and associated data,
  deciphering what was enciphered. CRC is injective on the bodies in flight. What accepted
  messages prove about their makers (`Authenticity`, `Obfuscation.DecryptedWasEncrypted`) is
  stated over ideal primitives: no collisions, and only what was sealed opens.
* Each handshake or keypair method is one atomic step, and so are each critical section of a
  timer and each call of the rate limiter. 64-bit words of the replay ring are naturals;
  setting a bit is arithmetic (`Replay.BitOfOr`, `Replay.OrIsNew`).

## Where the code falls short of the plain promise

* The cap: with signed weights a prefix that reaches Infinity hides a cheaper path that
  continues with a negative edge. `FiniteInfinity.OptimalIffMatched` says exactly when an entry
  is optimal, for every graph and every vertex order: every walk below Infinity must be matched
  by one that the phases glue together from parts below Infinity.
  `FiniteInfinity.NothingLostInAnyOrder` derives a condition that does not depend on the order,
  and `FiniteInfinity.CapCanLoseAPath` a graph without negative cycles whose path of cost 70000
  is lost in one order and found in another.
* The cap, hop by hop: even an optimal entry below Infinity may not be delivered. The next hop may
  have no entry (`HopByHop.OptimalMayStop`), or lead back (`HopByHop.OptimalMayCircle`).
  `HopByHop.DeliversIffTight` says exactly when delivery works, as a test on the tables.
* Index zero means "no index" in a handshake, and is still passed to `Delete`; and when the
  random generator fails, `CreateMessageResponse` keeps the value returned with the error as the
  handshake's index. The agreement of table and slots survives `CreateMessageInitiation` and
  `CreateMessageResponse` exactly if the resulting index is usable
  (`Session.CreateInitiationAgrees`, `Session.CreateResponseAgrees`). The damage is shown on
  runs: `Exchange.ZeroIndexIsReached` takes a blank device to a live session that no packet can
  reach (`Session.ZeroIndexIsLost` for any state), `Session.LeftoverIsLost` does so with the index
  of some other peer's session.
* The nonce counter wraps exactly with more than 2^13 concurrent senders, and a nonce can be
  used twice exactly with more than 2^13 + 1 (`Nonce.WrapsIffTooMany`,
  `Nonce.ReuseIffTooMany`).
* The rate limiter compares with `>`, so a bucket never runs empty and a burst is at most four
  packets, one less than `packetsBurstable` (`RateLimiter.RateBound`,
  `RateLimiter.BurstOfFourOnly`).
* `Del` alone cancels a timer if and only if the expiration function was not running when it was
  called; it never lets a new run start (`Timers.DelAloneCancelsIff`). Only `DelSync` waits.

## Model

| member | source | states |
|---|---|---|
| Walks.NonNegativeIsTame | path/path.go:389-401 | with non-negative weights the comparison with Infinity never hides a path that costs less than Infinity |
| Walks.SignedIsTame | path/path.go:389-401 | the same for signed weights without negative cycles whose simple paths all sum to less than Infinity |
| FloydWarshall.InitialInvariant | path/path.go:366-388 | the first tables are sound, complete for direct edges, and ranked |
| FloydWarshall.RelaxIsSound | path/path.go:392-397 | an improvement stands for a real walk through k with the sum as cost, the sum of pings without additional cost, and the right first hop; the copied next hop exists |
| FloydWarshall.PhaseKeepsBound | path/path.go:389-401 | after the phase of k, updated in place, no allowed walk through k is cheaper than its entry |
| FloydWarshall.PhaseComplete | path/path.go:389-401 | a phase in any row and column order extends completeness to walks through k |
| FloydWarshall.PhaseRanked | path/path.go:389-401 | a phase keeps a rank that strictly falls along next hops, also on ties and zero-weight cycles |
| FloydWarshall.ShortestPaths | path/path.go:363-401 | dist is the minimum over all walks, or Infinity if none costs less; the route that next follows is one of the cheapest walks, and dist_noAC is the ping sum of that very route |
| FloydWarshall.SignedShortestPaths | path/path.go:363-423 | the same for signed weights whose simple paths sum to less than Infinity: tables that passed the diagonal test are optimal and loop-free |
| FloydWarshall.ImprovementFollows | path/path.go:392-397 | if an entry improves through k, so does the entry of its next hop towards k |
| FloydWarshall.ImprovedBare | path/path.go:395-395 | the bare distance written for an improved entry is the ping of its hop plus the bare distance from there |
| FloydWarshall.NonNegativeIsClean | path/path.go:402-403 | non-negative weights leave no negative diagonal entry |
| FloydWarshall.NegativeCycleTest | path/path.go:402-403 | a negative diagonal entry proves a negative cycle; a clean diagonal proves there is none when simple paths sum to less than Infinity |
| FloydWarshall.NextHopIsTight | path/path.go:392-397 | the distance equals the edge to the next hop plus the distance from there, and the rank falls |
| FloydWarshall.TableWalk | path/path.go:389-401 | following the next hops terminates; weights sum to exactly the distance, pings to the bare distance |
| FloydWarshall.RoutesReach | path/path.go:354-425 | for every pair below Infinity the installed table has a chain of real edges with exactly the two distances |
| FloydWarshall.ChainNeverReturns | path/path.go:430-433 | a chain that arrives visits no vertex twice |
| FloydWarshall.ChainIsUnique | path/path.go:427-447 | there is at most one chain between two vertices |
| FloydWarshall.StuckPrefix | path/path.go:431-439 | revisiting a vertex or missing an entry means that no chain exists |
| FloydWarshall.PathIsShortest | path/path.go:427-447 | any path the table yields follows real edges, and its weights and pings sum to dist and dist_noAC |
| FiniteInfinity.EntryIsFound | path/path.go:389-401 | a finite entry is the weight of a walk that the phases glue from parts below Infinity |
| FiniteInfinity.FoundIsBound | path/path.go:389-401 | no walk glued that way is cheaper than its entry |
| FiniteInfinity.OptimalIffMatched | path/path.go:389-401 | for every graph, signed or not, and every vertex order: no walk is cheaper than the entry if and only if every walk below Infinity is matched by a glued one |
| FiniteInfinity.RoutesOptimalIff | path/path.go:389-425 | the installed tables are optimal exactly under that condition for the order of their calculation |
| FiniteInfinity.LightIsFound | path/path.go:392-393 | a simple walk whose parts all stay below Infinity is found in every order |
| FiniteInfinity.NothingLostInAnyOrder | path/path.go:389-401 | without negative cycles and with simple paths below Infinity no order loses a path |
| FiniteInfinity.CapCanLoseAPath | path/path.go:392-393 | a graph without negative cycles: one vertex order leaves a path of cost 70000 at Infinity, another finds it |
| HopByHop.DeliversIffTight | path/path.go:427-447 | for sound tables over positive cycles, signed weights or not: every vertex below Infinity reaches a destination hop by hop at exactly its distance if and only if every distance is the weight of the next hop plus the distance from there |
| HopByHop.NoNegativeCycleIsClean | path/path.go:402-403 | without negative cycles the diagonal test passes in every order, whatever the cap does |
| HopByHop.OptimalMayStop | path/path.go:437-439 | a graph without negative cycles and an order that leave an optimal entry whose first hop has no entry, so Path fails |
| HopByHop.OptimalMayCircle | path/path.go:431-433 | a graph without negative cycles and an order that leave an optimal entry whose hops lead in a circle, so Path reports a cycle |
| RouteTables.RelaxPair | path/path.go:392-398 | one comparison and update of the three tables, all other entries unchanged, soundness kept |
| RouteTables.RelaxRow | path/path.go:391-399 | one row of a phase in any column order |
| RouteTables.RelaxPhase | path/path.go:390-400 | one phase in place, in any row order, although row and column k are being updated |
| RouteTables.RelaxAll | path/path.go:389-401 | all phases in any order turn first tables into routes whenever the diagonal is clean, and always into sound tables; clean tables are those of the phases in the order taken |
| EdgeWeights.FlooredBetween | path/path.go:340-352 | removing negative values between two passes sets exactly the negative weights to zero |
| EdgeWeights.FlooredIsNonNegative | path/path.go:340-352 | after removing negative values every weight is non-negative, since additional costs are |
| EdgeWeights.FlooredMeaning | path/path.go:340-352 | a negative weight becomes the additional cost alone, every other weight stays, and no edge appears |
| EdgeWeights.WeightRange | path/path.go:268-314 | weights never exceed Infinity; the remembered one is Infinity exactly without a link or if none below Infinity was remembered |
| EdgeWeights.SnapshotMeaning | path/path.go:268-292 | a calculation sees exactly the links that have not expired and whose ping plus additional cost is below Infinity; weight minus bare weight is the additional cost |
| EdgeWeights.WalkMeaning | path/path.go:377-383 | along any walk no link has expired, and the weights exceed the pings by the sum of the additional costs |
| EdgeWeights.ManualLatencyWins | path/path.go:190-205 | the most specific manual latency, in milliseconds, overrides the measured one, in the order source and destination, source, destination, any |
| EdgeWeights.AppliedMeaning | path/path.go:206-232 | a report sets ping, clamped cost and lifetime of its own link, keeps the remembered ping, and changes no other link |
| EdgeWeights.LastReportCounts | path/path.go:183-234 | after a list of reports every link holds the last report about it, and a link without one is as before |
| EdgeWeights.DiffersMeaning | path/path.go:86-109 | with jitter tolerance a report asks for an update exactly if it changes finiteness or leaves the tolerance, cool-down or not |
| EdgeWeights.MovedMeaning | path/path.go:186-234 | a list of reports asks for an update exactly if one of them does by itself |
| EdgeWeights.AppliedIsValid | path/path.go:206-232 | a latency report, whatever its cost field, keeps additional costs non-negative and edges among the vertices |
| EdgeWeights.EnterOneMore | path/path.go:186-234 | how one more report changes edges, vertices, the decision to update and the cool-down reset |
| EdgeWeights.SettledIsFresh | path/path.go:86-109 | after a calculation remembered and current weights agree on finiteness and within the tolerance |
| EdgeWeights.QuietIsFresh | path/path.go:111-125 | when no update is due they agree on finiteness whatever the cool-down, and within t + (r-1)*max outside it in super mode with jitter tolerance |
| EdgeWeights.QuietIffFresh | path/path.go:86-125 | with jitter tolerance no update is due if and only if the weights are fresh |
| EdgeWeights.QuietWhileCooling | path/path.go:90-94 | in every mode, during the cool-down no update is due if and only if remembered and current weights agree on finiteness |
| EdgeWeights.StaleOutsideCoolDown | path/path.go:95-108 | outside the cool-down: due exactly if finiteness or, between edges, the bucket has changed; in super mode without tolerance exactly if the size of the weight has not |
| EdgeWeights.ToleranceInMilliseconds | path/path.go:95-103 | the tolerance spelled out: the difference in milliseconds is at most t + (r-1) times the larger weight |
| RouteGraph.SecondPass | path/path.go:404-411 | the second pass runs on non-negative weights, so it never finds a negative diagonal and its tables are the result |
| RouteGraph.DiagonalFinding | path/path.go:402-403 | a negative diagonal entry needs a negative cycle and a negative weight |
| RouteGraph.Graph.constructor | path/path.go:59-73 | an empty graph with empty tables |
| RouteGraph.Graph.InitRow | path/path.go:367-387 | the first row of each table, and the old weights of its edges remembered |
| RouteGraph.Graph.EnterNeighbour | path/path.go:376-386 | one neighbour entered into the row exactly if its weight is finite, and its weight remembered |
| RouteGraph.Graph.InitTables | path/path.go:363-388 | the first tables are exactly the finite edges; every edge remembers its weight |
| RouteGraph.Graph.RemoveAllNegativeValue | path/path.go:340-352 | exactly the negative weights become zero; no weight is negative afterwards |
| RouteGraph.Graph.NegativeDiagonal | path/path.go:402-403 | true exactly if some diagonal entry is negative |
| RouteGraph.Graph.Calculate | path/path.go:354-425 | depth at most two; routes of the graph as it is afterwards; error exactly classified; the "again" error only when called that way on a negative cycle |
| RouteGraph.Graph.CalculateRoutes | path/path.go:138-138 | the ignored error never hides missing routes: a first call always ends in full routes and floors at most negative edges, and those only if there is a negative cycle |
| RouteGraph.Graph.CheckAnyShouldUpdate | path/path.go:111-125 | true exactly if some pair of vertices is due for an update |
| RouteGraph.Graph.NextHopsDiffer | path/path.go:141-151 | true exactly if some new entry differs from the installed lookup |
| RouteGraph.HopChanges | path/path.go:141-151 | a new or different next hop is a change, one that is gone is not |
| RouteGraph.Graph.Replace | path/path.go:139-153 | tables installed as given, change reported against the old ones |
| RouteGraph.Graph.Install | path/path.go:138-153 | after it the tables are the routes of the graph now |
| RouteGraph.Graph.RecalculateNhTable | path/path.go:127-156 | remembered weights are fresh afterwards in dynamic mode; tables are replaced exactly if an update was due, and never during the cool-down while finiteness agrees; the change report is exact; static mode changes nothing |
| RouteGraph.Graph.EnterPongs | path/path.go:183-234 | all reports entered in order; exact decision to update; cool-down reset exactly for a new source |
| RouteGraph.Graph.UpdateLatencyMulti | path/path.go:183-239 | new edges and vertices; recalculated exactly when asked and due, with fresh weights; the installed tables are the old ones or the routes now |
| RouteGraph.Graph.Isolate | path/path.go:159-165 | the vertex and every edge at it are gone, all other edges stay |
| RouteGraph.Graph.RemoveVirt | path/path.go:158-171 | the same, then an optional recalculation that leaves fresh weights and current routes |
| RouteGraph.Graph.FollowTable | path/path.go:430-446 | for any table: no error exactly if a chain exists, and then that chain; otherwise the visited prefix and the reason it stopped |
| RouteGraph.Graph.Path | path/path.go:427-447 | the same; and if the tables are up to date with a tame graph, every pair below Infinity gets a path without error over links that have not expired; weights and pings sum to the installed distances, which differ by the additional costs along it |
| RouteGraph.Graph.GetBoardcastList | path/path.go:491-497 | exactly the next hops of a node |
| RouteGraph.Graph.GetBoardcastThroughList | path/path.go:499-515 | exactly the next hops other than the incoming peer whose path from the source passes this node; errors exactly if some next hop has no path |
| Relay.Device.CheckNoDup | device/receivesendproc.go:163-170 | true exactly if the checksum is not cached; afterwards it is, with the time of its first entry |
| Relay.Device.Evict | device/device.go:373-373 | the cache may forget entries as old as the timeout, and no others |
| Relay.AcceptedApart | device/receivesendproc.go:163-170 | in every run of checks and evictions the same checksum is accepted twice only if the timeout lies in between |
| Relay.Device.Decide | device/receive.go:474-600 | process, receive, forward or drop, for every usage, destination, mode and time to live |
| Relay.SuperNodeVerdict | device/receive.go:481-497 | the super node takes exactly registrations and pongs addressed to it and forwards nothing |
| Relay.UpdatesOnlyFromSuperNode | device/receive.go:519-532 | an edge drops server updates that do not come from the super node and acts on none that is not meant for it |
| Relay.EdgeVerdict | device/receive.go:498-518 | frames are received and control messages between edges processed exactly if addressed to the device or to everyone |
| Relay.ForwardVerdict | device/receive.go:534-600 | nothing is passed on without time to live, with relaying disabled or after arrival; a packet for another node goes to its next hop exactly if there is one |
| Relay.CacheVerdict | device/receive.go:547-557 | only spread packets touch the duplicate cache, and a duplicate does nothing |
| Unicast.DecisionOnPath | device/receive.go:560-600 | a device on the path only passes the packet on, the last one only takes it |
| Unicast.TripFollowsPath | device/receive.go:570-600 | the devices a unicast packet visits are the path along the table, cut off by the time to live |
| Unicast.UnicastArrives | device/send.go:268-284 | the packet arrives exactly if the time to live covers the relays, and then the trip cost the distance |
| Unicast.EnoughTimeToLive | device/receive.go:570-600 | n - 2 suffices for every reachable destination |
| Flood.DeliveryIsDecided | device/receive.go:545-583 | a delivery follows the decision of the receiving device: the first copy is processed, remembered and relayed to all peers but source and sender while time to live remains; others change nothing |
| Flood.RelayedMeaning | device/receive.go:578-583 | a first copy with time to live is relayed to exactly the peers other than its source and its sender, with one less time to live |
| Flood.StepKeepsFlooding | device/receivesendproc.go:118-130 | every delivery, of any body, keeps the flood invariant, including coverage when the time to live suffices |
| Flood.LastStop | device/receive.go:571-572 | a copy that arrives first but without time to live finds everyone else already reached |
| Flood.FloodSafety | device/receive.go:545-583 | in every run each node processes a body at most once, the origin never, and no copy heads back to it |
| Flood.FloodCoverage | device/receivesendproc.go:118-130 | with initial time to live at least n - 2, at quiescence every node reachable from the origin has processed it exactly once |
| Flood.FloodTerminates | device/receivesendproc.go:163-170 | the number of deliveries in any run is bounded by a potential of its first state |
| Broadcast.DeliveryIsDecided | device/receive.go:543-577 | a delivery follows the decision of the receiving device: it receives the packet whatever its cache and table, and sends exactly the relayed copies with one less time to live |
| Broadcast.RelayMovesOut | path/path.go:499-515 | whoever a relay sends to is strictly farther from the source |
| Broadcast.NeverBackToSource | device/receivesendproc.go:132-148 | in every run no copy ever goes to the source |
| Broadcast.BroadcastCoverage | device/receivesendproc.go:103-148 | with time to live at least n - 2, when nothing is in flight every reachable node has received it |
| Broadcast.BroadcastTerminates | device/receive.go:564-577 | no run delivers more packets than a bound in the number of nodes and the time to live, whatever the tables |
| Broadcast.BroadcastCompletes | device/receivesendproc.go:103-148 | whatever has been delivered so far, the broadcast can be completed, and then every reachable node has it |
| Broadcast.OnlyBeforeSends | path/path.go:499-515 | with unique shortest paths only the predecessor on the path sends to a node |
| Broadcast.ExactlyOneCopy | device/receivesendproc.go:103-148 | with unique shortest paths every reachable node is sent exactly one copy |
| Noise.InitiationAgrees | device/noise-protocol.go:171-346 | an honest initiation is accepted, reveals the initiator's static key, and leaves both sides with the same hash and chain key |
| Noise.ResponseAgrees | device/noise-protocol.go:348-543 | an honest response is accepted, and the send key of each side is the receive key of the other with opposite initiator flags |
| Authenticity.AcceptedResponseAgrees | device/noise-protocol.go:414-508 | with ideal primitives: an accepted response was made for the same transcript, preshared key and shared secrets, and both sides end with the same hash and chain key |
| Authenticity.ForeignResponseIsRefused | device/noise-protocol.go:478-484 | a response made under a different preshared key, chain key or hash is never accepted |
| Authenticity.UnsealedResponseIsRefused | device/noise-protocol.go:480-483 | a response whose authenticator opens under no key is refused |
| Authenticity.AcceptedSessionsMirror | device/noise-protocol.go:513-543 | the sessions of an accepted response mirror each other, with different keys for the two directions |
| Authenticity.AcceptedInitiationAgrees | device/noise-protocol.go:243-346 | an accepted initiation was made for this responder by the holder of the secret the static keys share, with exactly these fields; the responder learns its key and its time |
| Authenticity.InitiationRefused | device/noise-protocol.go:264-322 | an initiation is refused if a field does not open, a secret is zero, its timestamp is not newer or it comes within the flood interval |
| Authenticity.InitiationNeedsSecrets | device/noise-protocol.go:186-222 | an initiation is made exactly if both shared secrets are not zero |
| Session.CreateInitiationAgrees | device/noise-protocol.go:171-241 | keeps the agreement if and only if it stops early or the drawn index is usable |
| Session.CreateResponseAgrees | device/noise-protocol.go:348-365 | keeps the agreement if and only if the phase is wrong, the drawn index is not zero, or the generator fails and leaves zero behind |
| Session.LeftoverHasNoEntry | device/noise-protocol.go:360-364 | a non-zero value left behind by a failing draw is an index without an entry of this handshake |
| Session.BeginSessionAgrees | device/noise-protocol.go:513-600 | deriving and rotating keypairs keeps the agreement unconditionally |
| Session.SessionKeepsOlder | device/noise-protocol.go:567-597 | which generations survive in each rotation branch: they stay reachable, the others lose their entries, the handshake is erased and cannot be used again |
| Session.HandoverKeepsCurrent | device/noise-protocol.go:602-619 | when the next keypair is used it becomes current, and the one that was current stays reachable as the previous one |
| Session.HandoverOnlyByNext | device/noise-protocol.go:605-611 | any other packet leaves slots and table alone |
| Session.ExpiredIsDead | device/peer.go:844-876 | after expiry or zeroing no response is accepted and no session begins from the old handshake, its secrets are erased, and after zeroing no entry of the peer is left |
| Session.ResponseFindsItsHandshake | device/noise-protocol.go:421-425 | an accepted response belongs to the handshake that announced its receiver index |
| Session.UnusedIsUnused | device/indextable.go:58-92 | the search ends at the first value not in use and fails only if there is none |
| Session.KeepIndex | device/noise-protocol.go:324-338 | a handshake that changes but keeps its index keeps the agreement |
| Session.DropIndex | device/peer.go:870-876 | giving up the handshake index removes exactly its entry |
| Session.NewIndex | device/noise-protocol.go:231-232 | replacing the handshake index by an unused one keeps the agreement |
| Session.ShrinkSlots | device/keypair.go:57-61 | keypairs leave the slots of a peer together with exactly their entries |
| Session.PromoteHandshake | device/noise-protocol.go:567-597 | the new keypair takes over the handshake's entry while displaced keypairs lose theirs |
| Session.StepAgrees | device/noise-protocol.go:171-619 | every operation of the session core keeps the agreement if and only if its index draw is good; six of the eight draw none |
| Session.ReachableAgrees | device/noise-protocol.go:513-619 | in every reachable state, with any number of peers, entries and slots agree |
| Session.LiveByIndex | device/indextable.go:58-92 | live keypairs of all peers have different indices |
| Session.NothingLeaks | device/peer.go:844-888 | an index has an entry if and only if some peer's live keypair or handshake uses it |
| Session.ZeroIndexIsLost | device/indextable.go:38-42 | from any state: a response with index zero, its session, and the expiry of an idle peer leave that session live but without an entry |
| Session.LeftoverIsLost | device/indextable.go:62-65 | from any state: a failing draw that leaves the index of some other peer's live keypair behind, and an expiry, leave that keypair without an entry |
| Session.InitiationAcceptedOnce | device/noise-protocol.go:304-336 | an accepted initiation is refused after any later run of operations, at any time |
| Session.InitiationsApart | device/noise-protocol.go:307-336 | initiations of one peer are accepted further apart than the flood interval and with rising timestamps, whatever happens in between |
| Exchange.InitiateSucceeds | device/noise-protocol.go:171-346 | on two devices in arbitrary states an honest, fresh initiation is sent and accepted, and the entry the response will be found by exists |
| Exchange.RespondSucceeds | device/noise-protocol.go:348-508 | the response is found by its index, accepted, and both handshakes derive mirrored keys |
| Session.NoIndexDrawn | device/noise-protocol.go:231-235 | when no index can be drawn the deleted entry breaks the agreement exactly if there was one |
| Exchange.ZeroIndexIsReached | device/noise-protocol.go:348-362 | a run from a blank responder with an honest, fresh initiation that ends with a live session whose index is not in the table |
| Exchange.UninterruptedExchange | device/noise-protocol.go:171-600 | on two devices in arbitrary states an honest exchange yields mirrored keys and indices in the right slots |
| Exchange.FirstPacketHandsOver | device/noise-protocol.go:602-619 | the first packet under the new keys makes the mirrored keypair current at the responder and keeps the older one reachable |
| Exchange.RunSpares | device/noise-protocol.go:171-619 | any run of operations on other peers leaves a peer's handshake, slots and table entry alone |
| Exchange.HonestExchange | device/noise-protocol.go:171-600 | the same exchange with arbitrary operations on other peers between the messages and before the sessions begin, on both devices |
| SessionDevice.Device.constructor | device/indextable.go:32-36 | a device without sessions is in agreement |
| SessionDevice.Device.Delete | device/indextable.go:38-42 | removes exactly one index |
| SessionDevice.Device.SwapIndexForKeypair | device/indextable.go:44-56 | an existing entry now holds the keypair; a missing one stays missing |
| SessionDevice.Device.NewIndexForHandshake | device/indextable.go:58-92 | retries to the first unused index and enters the handshake there; a failing draw enters nothing and returns the value left behind |
| SessionDevice.Device.DeleteKeypair | device/keypair.go:57-61 | removes the index of a keypair, if there is one |
| SessionDevice.Device.CreateMessageInitiation | device/noise-protocol.go:171-241 | the whole new state, on the early error paths too; the agreement is kept exactly under the stated condition |
| SessionDevice.Device.ConsumeMessageInitiation | device/noise-protocol.go:243-346 | the peer and the whole new state, or no change; the agreement is kept |
| SessionDevice.Device.CreateMessageResponse | device/noise-protocol.go:348-412 | the whole new state, the index of a failed draw included; the agreement is kept exactly under the stated condition |
| SessionDevice.Device.ConsumeMessageResponse | device/noise-protocol.go:414-508 | the peer found by index and the whole new state, or no change; the agreement is kept |
| SessionDevice.Device.RotateKeypairs | device/noise-protocol.go:572-597 | both rotation branches, with the entries of exactly the displaced keypairs deleted |
| SessionDevice.Device.DeriveSession | device/noise-protocol.go:513-600 | keys derived, handshake retired, index swapped, slots rotated |
| SessionDevice.Device.BeginSymmetricSession | device/noise-protocol.go:513-600 | the same, with the agreement kept |
| SessionDevice.Device.ReceivedWithKeypair | device/noise-protocol.go:602-619 | the awaited keypair becomes current exactly if it was the next one, with the agreement kept |
| SessionDevice.Device.ExpireCurrentKeypairs | device/peer.go:870-876 | the handshake is cleared and its index deleted; the agreement is kept |
| SessionDevice.Device.ZeroAndFlushAll | device/peer.go:844-868 | all slots and the handshake are emptied with their entries, with the agreement kept |
| Replay.BitOfOr | replay/replay.go:58-60 | setting a bit changes that bit only |
| Replay.OrIsNew | replay/replay.go:58-61 | the word changes exactly if the bit was clear |
| Replay.Advance | replay/replay.go:43-52 | clearing the words passed over, at most the whole ring, makes the ring agree with the set for the new window |
| Replay.Insert | replay/replay.go:56-61 | setting the bit adds the counter, and reports whether it was new |
| Replay.Filter.constructor | replay/replay.go:24-27 | a new filter has accepted nothing |
| Replay.Filter.Reset | replay/replay.go:30-33 | with stale words left in the ring it has accepted nothing |
| Replay.Filter.MoveForward | replay/replay.go:43-52 | the clearing loop keeps the accepted set |
| Replay.Filter.ValidateCounter | replay/replay.go:37-62 | answer and new state are those of a plain set of accepted counters |
| Replay.ExactAcceptance | replay/replay.go:37-62 | over any call sequence: true if and only if below the limit, not too far behind any accepted counter, and never accepted before |
| Replay.NeverTwice | replay/replay.go:37-62 | nothing is accepted twice, however many calls lie in between |
| Nonce.StepIsSafe | device/send.go:320-329 | every atomic step keeps nonces unique and below the limit, and the counter within its margin |
| Nonce.NoncesAreUnique | device/send.go:308-346 | in every interleaving with expiry, used nonces are distinct and below RejectAfterMessages |
| Nonce.WrapsIffTooMany | device/constants.go:16-16 | some run wraps the 64-bit counter if and only if there are more than 2^13 senders |
| Nonce.ReuseIffTooMany | device/peer.go:879-887 | some run uses a nonce twice if and only if there are more than 2^13 + 1 senders |
| Nonce.ExpiredEncryptsNothing | device/peer.go:877-887 | with at most 2^13 senders an expired keypair encrypts nothing more in any run, and no sender begins to use it |
| RateLimiter.Ratelimiter.Allow | ratelimiter/ratelimiter.go:109-172 | answer and new bucket of this address, all others unchanged |
| RateLimiter.Sweep | ratelimiter/ratelimiter.go:90-104 | exactly the stale entries are deleted |
| RateLimiter.Ratelimiter.Cleanup | ratelimiter/ratelimiter.go:86-107 | exactly the stale entries of both tables go; reports emptiness exactly |
| RateLimiter.CollectedWhen | ratelimiter/ratelimiter.go:92-94 | a bucket is collected exactly if it has been idle for more than a second, and then it is full |
| RateLimiter.ChargeByLevel | ratelimiter/ratelimiter.go:133-171 | no bucket answers like a full bucket: only the level decides |
| RateLimiter.CollectionIsTransparent | ratelimiter/ratelimiter.go:86-107 | every answer is the same as if buckets were never collected |
| RateLimiter.Budget | ratelimiter/ratelimiter.go:133-171 | what was spent is covered by a full bucket plus the time passed, and the bucket is never empty |
| RateLimiter.RateBound | ratelimiter/ratelimiter.go:133-171 | the strict bound: fewer than 5 + T/50ms packets of one address in any interval of length T, so at most four at one instant |
| RateLimiter.BurstOfFourOnly | ratelimiter/ratelimiter.go:164-171 | of five packets at one instant exactly the first four are allowed, although a burst of five is advertised |
| Checksum.FoldIsModulo | faketcp/packet.go:247-252 | adding carries back in yields what taking 65535 away repeatedly yields |
| Checksum.ResidueIsModulo | faketcp/packet.go:247-252 | that is the sum modulo 65535, with 65535 for its positive multiples |
| Checksum.LowIsModulo | faketcp/packet.go:230-230 | the 32-bit accumulator keeps the sum modulo 2^32 |
| Checksum.ChecksumCancels | faketcp/packet.go:248-252 | adding the complement to a sum gives checksum zero, even after 32-bit wrap-around |
| Checksum.ZeroMeansValid | faketcp/packet.go:248-252 | a checksum is zero exactly if the sum is a multiple of 65535 |
| Checksum.CancelsWith | faketcp/packet.go:75-78 | a total made of a sum and its checksum has checksum zero |
| Checksum.NoOverflow | faketcp/packet.go:229-247 | up to 65537 words the accumulator does not overflow |
| Checksum.AddWords | faketcp/packet.go:232-247 | the accumulator loop computes the word sum, odd lengths included, modulo 2^32 |
| Checksum.FoldSum | faketcp/packet.go:247-250 | the fold loop terminates with the folded sum |
| Checksum.CalculateChecksum | faketcp/packet.go:229-253 | the Internet checksum of pseudo-header and segment |
| Checksum.CalculateChecksumSimple | faketcp/packet.go:256-268 | the Internet checksum of a buffer |
| FakeTcp.SegmentRoundTrip | faketcp/packet.go:122-141 | parsing a built segment recovers ports, numbers, flags, window and exactly the payload, with or without options |
| FakeTcp.PacketRoundTrip | faketcp/packet.go:84-141 | parsing a built packet recovers all fields, for every pair of addresses of one family |
| FakeTcp.ParsedExactly | faketcp/packet.go:84-124 | a packet is parsed exactly if it is long enough for its headers, of IP version 4 or 6, and carries TCP |
| FakeTcp.PayloadIsSuffix | faketcp/packet.go:126-140 | the payload is what lies behind the data offset, empty if that is outside |
| FakeTcp.HeaderFields | faketcp/packet.go:144-175 | the length fields count the packet, it is not fragmented, and it lives 64 hops |
| FakeTcp.PseudoHeaderFields | faketcp/packet.go:204-226 | the pseudo-header holds both addresses, protocol 6 and the segment length |
| FakeTcp.SynOptions | faketcp/packet.go:187-195 | a SYN carries the window scale option; nothing is urgent |
| FakeTcp.SynBit | faketcp/packet.go:50-55 | options are added exactly if the SYN flag is set |
| FakeTcp.IPv4Forms | faketcp/packet.go:144-146 | the four-byte and the mapped form of an IPv4 address are the same address |
| FakeTcp.PatchFilledIn | faketcp/packet.go:75-78 | writing the checksum into its zero field makes the checksum of the whole zero |
| FakeTcp.SegmentChecksum | faketcp/packet.go:75-78 | the checksum over the finished pseudo-header and segment is zero |
| FakeTcp.IPv4Checksum | faketcp/packet.go:144-162 | the checksum over the finished IPv4 header is zero |
| FakeTcp.BuildIPv4Header | faketcp/packet.go:144-162 | writes the header with its checksum and nothing else |
| FakeTcp.BuildIPv6Header | faketcp/packet.go:165-175 | writes the header and nothing else |
| FakeTcp.BuildTCPHeader | faketcp/packet.go:178-201 | writes header, options and payload with a zero checksum behind what was there |
| FakeTcp.BuildPseudoHeader | faketcp/packet.go:204-226 | the buffer filled field by field is the pseudo-header for which the checksum is proved, in both address families |
| FakeTcp.FillTCPChecksum | faketcp/packet.go:75-78 | replaces the zero checksum by the one of the segment |
| FakeTcp.BuildTCPPacket | faketcp/packet.go:41-81 | for any addresses, missing ones included, the buffer is the packet for which round trip and checksum are proved |
| Obfuscation.Encrypt | obfuscation/zerooverhead.go:79-150 | fails exactly on control packets that are too long; what it returns decrypts to the packet; data keeps its length; control packets grow but not beyond the maximum |
| Obfuscation.Decrypt | obfuscation/zerooverhead.go:153-217 | the decryption function, all error cases included |
| Obfuscation.DataRoundTrip | obfuscation/zerooverhead.go:163-182 | data packets decrypt to themselves |
| Obfuscation.ControlRoundTrip | obfuscation/zerooverhead.go:184-217 | control packets decrypt to themselves for every padding and nonce |
| Obfuscation.DecryptedWasEncrypted | obfuscation/zerooverhead.go:153-217 | with ideal ciphers whatever decryption returns was encrypted: a control packet is the sealing of what is returned, with some padding and nonce |
| Obfuscation.NotAuthenticIsRefused | obfuscation/zerooverhead.go:186-201 | a control packet whose content does not open, or that is too short, is never returned |
| Obfuscation.ControlTypes | obfuscation/zerooverhead.go:17-22 | exactly six message types are control messages |
| Obfuscation.PaddingRoundTrip | obfuscation/zerooverhead.go:203-216 | the length trailer removes exactly the padding |
| Timers.StepIsOrderly | device/timers.go:26-65 | every step of every thread keeps the lock and counting invariant |
| Timers.RunsAtMostMods | device/timers.go:26-65 | in every interleaving runs never exceed Mod calls, and never overlap |
| Timers.DelSyncCancels | device/timers.go:60-65 | once DelSync is done nothing runs or starts until a later Mod |
| Timers.DelAloneCancelsIff | device/timers.go:53-58 | after any run, until the next Mod: Del lets no run start, whoever runs was running at the Del, and nothing ever runs if and only if nothing was running then |
| Timers.DelAloneMayLeaveARun | device/timers.go:53-58 | a run after which Del leaves the callback at work |
| Timers.ModLeadsToARun | device/timers.go:26-51 | after any run a Mod can be followed by a new callback that runs the expiration function |
| Timers.FiresAtMostMods | device/timers.go:26-51 | no more callbacks fire than Mod was called |
| Timers.SyncBeginStopsStarts | device/timers.go:60-62 | from the first Del of DelSync on nothing starts until a later Mod |
| MedianFilter.SortSorted | device/peer.go:314-318 | the window is ordered before its middle is taken |
| MedianFilter.SortCounts | device/peer.go:314-318 | ordering keeps how many samples satisfy any predicate |
| MedianFilter.MiddleIsMedian | device/peer.go:297-319 | the middle element is a sample with at most half of the others on either side |
| MedianFilter.MajorityBoundsMedian | device/peer.go:297-319 | if a strict majority lies in an interval, so does the median |
| MedianFilter.SuffixMeaning | device/peer.go:279-281 | the window is the end of the history, as long as it may be |
| MedianFilter.OddSuffixMeaning | device/peer.go:282-287 | the evaluated part is the longest odd suffix |
| MedianFilter.FilterWindow.Resize | device/peer.go:321-333 | keeps the newest samples |
| MedianFilter.FilterWindow.Filter | device/peer.go:297-319 | the median of the longest odd part on the chosen side, Infinity for none |
| MedianFilter.FilterWindow.Append | device/peer.go:278-281 | the window is the last 2r + 1 samples of the whole history |
| MedianFilter.FilterWindow.Evaluate | device/peer.go:282-294 | the exact median of the longest odd suffix, from three samples on |
| MedianFilter.FilterWindow.Push | device/peer.go:270-295 | over any sequence of samples: the window slides along the finite ones and the value is the median |

## Left out

- Relay.Device.CheckNoDup: the cache library is not part of this model; it is assumed to forget an entry no earlier than the timeout after it was entered.
- HopByHop.DeliversIffTight: cycles of weight zero are covered by `FloydWarshall.RoutesReach` on tame graphs only.
- RouteGraph.Graph.CheckAnyShouldUpdate: super mode without jitter tolerance is modelled as the code has it (path/path.go:105 reports an update when the values are equal), and no freshness beyond finiteness is claimed for it.
- RouteGraph.Graph.RecalculateNhTable: the power-law rounding of `GetWeightType` is an arbitrary function, so dynamic P2P mode gets no bound on the remaining difference beyond finiteness.
- Flood.FloodCoverage: holds for runs shorter than the duplicate timeout; expiry of cached checksums, and duplicates processed while `DisableRelay` is set, are not part of the flood.
- Broadcast.BroadcastCoverage: strictly positive weights, the same table on every node and no loss; nodes with diverging tables are not modelled.
- Unicast.UnicastArrives: assumes the same table on every node, and peers known for every next hop.
- Nonce.NoncesAreUnique: the send queue is abstract; dropping the oldest staged packet does not touch nonces.
- RateLimiter.Ratelimiter.Allow: is one atomic step, while the source releases the table lock between lookup and insertion (ratelimiter/ratelimiter.go:122-138), so that two concurrent first packets of an address both start a fresh bucket; times and tokens are unbounded integers, without overflow of 64-bit nanoseconds.
- FakeTcp.PacketRoundTrip: both addresses belong to one family, because a mixed pair has no well-formed packet.
- MedianFilter.FilterWindow.Filter: the library sort is an insertion sort function that returns the same ordered sequence.
- Exchange.HonestExchange: key generation does not fail; a failing random source for indices is modelled.
- Rounding, NaN and overflow of float64 latencies.
- Lock-free windows inside handshake methods, between reading under the read lock and writing under the write lock.
- Dual-stack failover and IPv6 recovery, socket binds, TAP devices, netlink, HTTP, YAML and JSON.
- Fake TCP sockets and their retries, sequence bookkeeping and time-outs.
- Cookies and MACs of handshake messages, endpoint roaming, the MAC address table, padding sizes.
- NTP averaging, configuration generation, logging and super-node management.
