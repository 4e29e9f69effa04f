/** Nonce assignment in `SendStagedPackets`: any number of concurrent senders and
    `ExpireCurrentKeypairs` share the 64-bit send counter of one keypair. Every atomic
    operation on the counter is one step. */
module Nonce {

  const WRAP: int := 0x1_0000_0000_0000_0000
  const REJECT_AFTER_MESSAGES: int := WRAP - 0x2000 - 1

  /** A sender is outside the loop, inside it (its check of the counter has passed), or has
      drawn a nonce that is too high and is about to store the limit back. */
  datatype Sender = Outside | Inside | Over

  /** `used` lists the nonces handed to encryption. */
  datatype State = State(counter: int, senders: seq<Sender>, used: seq<int>)

  datatype Event =
    | Check(i: nat)    // load the counter; enter the loop if it is below the limit
    | Draw(i: nat)     // atomic add of one; the nonce is the old value
    | Leave(i: nat)    // the staged queue is empty
    | Store(i: nat)    // store the limit and start over
    | Expire           // ExpireCurrentKeypairs stores the limit

  ghost predicate Enabled(s: State, ev: Event) {
    match ev
    case Check(i) => i < |s.senders| && s.senders[i] == Outside
    case Draw(i) => i < |s.senders| && s.senders[i] == Inside
    case Leave(i) => i < |s.senders| && s.senders[i] == Inside
    case Store(i) => i < |s.senders| && s.senders[i] == Over
    case Expire => true
  }

  ghost function Exec(s: State, ev: Event): State
    requires Enabled(s, ev)
  {
    match ev
    case Check(i) => if s.counter < REJECT_AFTER_MESSAGES then s.(senders := s.senders[i := Inside]) else s
    case Draw(i) =>
      var next := (s.counter + 1) % WRAP;
      if s.counter >= REJECT_AFTER_MESSAGES then s.(counter := next, senders := s.senders[i := Over])
      else s.(counter := next, used := s.used + [s.counter])
    case Leave(i) => s.(senders := s.senders[i := Outside])
    case Store(i) => s.(counter := REJECT_AFTER_MESSAGES, senders := s.senders[i := Outside])
    case Expire => s.(counter := REJECT_AFTER_MESSAGES)
  }

  ghost predicate Run(s: State, evs: seq<Event>)
    decreases |evs|
  {
    evs == [] || (Enabled(s, evs[0]) && Run(Exec(s, evs[0]), evs[1..]))
  }

  ghost function After(s: State, evs: seq<Event>): State
    requires Run(s, evs)
    decreases |evs|
  {
    if evs == [] then s else After(Exec(s, evs[0]), evs[1..])
  }

  ghost function Start(n: nat): State {
    State(0, seq(n, _ => Outside), [])
  }

  // ------------------------------------------------- how many senders are over

  ghost function Overs(ss: seq<Sender>): nat {
    if ss == [] then 0 else (if ss[0] == Over then 1 else 0) + Overs(ss[1..])
  }

  lemma {:induction false} OversUpdate(ss: seq<Sender>, i: nat, x: Sender)
    requires i < |ss|
    ensures Overs(ss[i := x]) == Overs(ss) - (if ss[i] == Over then 1 else 0) + (if x == Over then 1 else 0)
  {
    if i == 0 {
      assert ss[i := x][1..] == ss[1..];
    } else {
      OversUpdate(ss[1..], i - 1, x);
      assert ss[i := x][1..] == ss[1..][i - 1 := x];
    }
  }

  lemma {:induction false} OversBound(ss: seq<Sender>)
    ensures Overs(ss) <= |ss| && ((exists i :: 0 <= i < |ss| && ss[i] != Over) ==> Overs(ss) < |ss|)
  {
    if ss != [] {
      OversBound(ss[1..]);
      if i :| 0 <= i < |ss| && ss[i] != Over {
        if i > 0 { assert ss[1..][i - 1] != Over; }
      }
    }
  }

  // ------------------------------------------------- the invariant

  ghost predicate Increasing(used: seq<int>) {
    forall i, j :: 0 <= i < j < |used| ==> used[i] < used[j]
  }

  /** The counter exceeds the limit by at most one per sender that is over; with one sender
      more than the margin it may just have wrapped, but then every sender is over. */
  ghost predicate Safe(s: State) {
    && (forall k :: 0 <= k < |s.used| ==> 0 <= s.used[k] < REJECT_AFTER_MESSAGES)
    && Increasing(s.used)
    && ((0 <= s.counter < WRAP && s.counter <= REJECT_AFTER_MESSAGES + Overs(s.senders)
         && forall k :: 0 <= k < |s.used| ==> s.used[k] < s.counter)
        || (s.counter == 0 && Overs(s.senders) == |s.senders| == 0x2001))
  }

  lemma NextCounter(n: int)
    requires 0 <= n < WRAP
    ensures (n + 1) % WRAP == if n + 1 < WRAP then n + 1 else 0
  {
  }

  /** A sender that draws is not over itself, so the margin still has room. */
  lemma DrawIsSafe(s: State, i: nat)
    requires Safe(s) && Enabled(s, Draw(i)) && |s.senders| <= 0x2001
    ensures Safe(Exec(s, Draw(i)))
    ensures |s.senders| <= 0x2000 ==> s.counter + 1 < WRAP
  {
    OversBound(s.senders);
    OversUpdate(s.senders, i, Over);
    OversBound(s.senders[i := Over]);
    NextCounter(s.counter);
  }

  lemma StepIsSafe(s: State, ev: Event)
    requires Safe(s) && Enabled(s, ev) && |s.senders| <= 0x2001
    ensures Safe(Exec(s, ev))
    ensures |s.senders| <= 0x2000 && ev.Draw? ==> s.counter + 1 < WRAP
  {
    OversBound(s.senders);
    match ev
    case Check(i) => OversUpdate(s.senders, i, Inside);
    case Draw(i) => DrawIsSafe(s, i);
    case Leave(i) => OversUpdate(s.senders, i, Outside);
    case Store(i) => OversUpdate(s.senders, i, Outside);
    case Expire =>
  }

  lemma {:induction false} RunIsSafe(s: State, evs: seq<Event>)
    requires Safe(s) && |s.senders| <= 0x2001 && Run(s, evs)
    ensures Safe(After(s, evs)) && |After(s, evs).senders| == |s.senders|
    decreases |evs|
  {
    if evs != [] {
      StepIsSafe(s, evs[0]);
      RunIsSafe(Exec(s, evs[0]), evs[1..]);
    }
  }

  ghost predicate Reuses(s: State) {
    exists i, j :: 0 <= i < j < |s.used| && s.used[i] == s.used[j]
  }

  /** Up to 2^13 + 1 senders: every nonce handed to encryption is below the limit and no two
      are equal. */
  lemma NoncesAreUnique(n: nat, evs: seq<Event>)
    requires n <= 0x2001 && Run(Start(n), evs)
    ensures !Reuses(After(Start(n), evs))
    ensures var used := After(Start(n), evs).used; forall k :: 0 <= k < |used| ==> 0 <= used[k] < REJECT_AFTER_MESSAGES
  {
    OversBound(Start(n).senders);
    RunIsSafe(Start(n), evs);
  }

  /** Some draw of the run makes the 64-bit counter start again at zero. */
  ghost predicate Wraps(s: State, evs: seq<Event>)
    requires Run(s, evs)
    decreases |evs|
  {
    evs != [] && ((evs[0].Draw? && s.counter + 1 == WRAP) || Wraps(Exec(s, evs[0]), evs[1..]))
  }

  lemma {:induction false} SmallGroupNeverWraps(s: State, evs: seq<Event>)
    requires Safe(s) && |s.senders| <= 0x2000 && Run(s, evs)
    ensures !Wraps(s, evs)
    decreases |evs|
  {
    if evs != [] {
      StepIsSafe(s, evs[0]);
      SmallGroupNeverWraps(Exec(s, evs[0]), evs[1..]);
    }
  }

  // ------------------------------------------------- the margin is exact

  /** The first `k` senders have entered the loop. */
  ghost function Entered(n: nat, k: nat): State {
    State(0, seq(n, i => if i < k then Inside else Outside), [])
  }

  /** The limit was stored while `n` senders were inside; `k` of them have drawn since, and
      the last sender has used nonce zero before. */
  ghost function Drawn(n: nat, k: nat): State
    requires n > 0
  {
    State((REJECT_AFTER_MESSAGES + k) % WRAP, seq(n, i => if i < k then Over else Inside), [0])
  }

  lemma {:induction false} EnterAll(n: nat, k: nat) returns (evs: seq<Event>)
    requires k <= n
    ensures Run(Entered(n, k), evs) && After(Entered(n, k), evs) == Entered(n, n)
    decreases n - k
  {
    if k == n {
      evs := [];
    } else {
      var s := Entered(n, k);
      assert Exec(s, Check(k)).senders == Entered(n, k + 1).senders;
      var rest := EnterAll(n, k + 1);
      evs := [Check(k)] + rest;
      assert evs[1..] == rest;
    }
  }

  lemma DrawOne(n: nat, k: nat)
    requires k < n && k < 0x2001
    ensures Enabled(Drawn(n, k), Draw(k)) && Exec(Drawn(n, k), Draw(k)) == Drawn(n, k + 1)
    ensures k == 0x2000 ==> Drawn(n, k).counter + 1 == WRAP
  {
  }

  lemma {:induction false} DrawMany(n: nat, k: nat, m: nat) returns (evs: seq<Event>)
    requires n > 0 && k <= m <= n && m <= 0x2001
    ensures Run(Drawn(n, k), evs) && After(Drawn(n, k), evs) == Drawn(n, m)
    ensures k < m == 0x2001 ==> Wraps(Drawn(n, k), evs)
    decreases m - k
  {
    if k == m {
      evs := [];
    } else {
      DrawOne(n, k);
      var rest := DrawMany(n, k + 1, m);
      evs := [Draw(k)] + rest;
      assert evs[1..] == rest;
    }
  }

  lemma {:induction false} Join(s: State, a: seq<Event>, b: seq<Event>)
    requires Run(s, a) && Run(After(s, a), b)
    ensures Run(s, a + b) && After(s, a + b) == After(After(s, a), b)
    ensures Wraps(After(s, a), b) ==> Wraps(s, a + b)
    decreases |a|
  {
    if a == [] {
      assert a + b == b;
    } else {
      Join(Exec(s, a[0]), a[1..], b);
      assert (a + b)[1..] == a[1..] + b;
    }
  }

  lemma OneStep(s: State, ev: Event)
    requires Enabled(s, ev)
    ensures Run(s, [ev]) && After(s, [ev]) == Exec(s, ev)
  {
    assert [ev][1..] == [];
    assert After(Exec(s, ev), []) == Exec(s, ev);
  }

  /** A run in which the last sender uses nonce zero and then the limit is stored, with all
      senders inside the loop. */
  lemma Prepare(n: nat) returns (evs: seq<Event>)
    requires n > 0
    ensures Run(Start(n), evs) && After(Start(n), evs) == Drawn(n, 0)
  {
    var enter := EnterAll(n, 0);
    assert Start(n).senders == Entered(n, 0).senders;
    var rest := [Draw(n - 1), Expire];
    var s := Entered(n, n);
    assert rest[1..] == [Expire] && rest[1..][1..] == [];
    var s1 := Exec(s, Draw(n - 1));
    assert Exec(s1, Expire).senders == Drawn(n, 0).senders;
    OneStep(s1, Expire);
    Join(Start(n), enter, rest);
    evs := enter + rest;
  }

  ghost predicate WrappingRun(n: nat, evs: seq<Event>) {
    Run(Start(n), evs) && Wraps(Start(n), evs)
  }

  /** The counter never wraps exactly if there are at most 2^13 senders. */
  lemma WrapsIffTooMany(n: nat)
    ensures (exists evs :: WrappingRun(n, evs)) <==> n > 0x2000
  {
    if n > 0x2000 {
      var a := Prepare(n);
      var b := DrawMany(n, 0, 0x2001);
      Join(Start(n), a, b);
      assert WrappingRun(n, a + b);
    } else {
      OversBound(Start(n).senders);
      forall evs | Run(Start(n), evs)
        ensures !WrappingRun(n, evs)
      {
        SmallGroupNeverWraps(Start(n), evs);
      }
    }
  }

  ghost predicate ReusingRun(n: nat, evs: seq<Event>) {
    Run(Start(n), evs) && Reuses(After(Start(n), evs))
  }

  /** Once the counter has wrapped, the next sender draws a nonce that was used before. */
  lemma DrawAgain(n: nat)
    requires n > 0x2001
    ensures var s := Drawn(n, 0x2001); Run(s, [Draw(n - 1)]) && After(s, [Draw(n - 1)]).used == [0, 0]
  {
    var s := Drawn(n, 0x2001);
    assert Enabled(s, Draw(n - 1)) && s.counter == 0 && s.used == [0];
    OneStep(s, Draw(n - 1));
  }

  /** A nonce can be used twice exactly if there are more than 2^13 + 1 senders. */
  lemma ReuseIffTooMany(n: nat)
    ensures (exists evs :: ReusingRun(n, evs)) <==> n > 0x2001
  {
    if n > 0x2001 {
      var a := Prepare(n);
      var b := DrawMany(n, 0, 0x2001);
      Join(Start(n), a, b);
      var c := [Draw(n - 1)];
      DrawAgain(n);
      Join(Start(n), a + b, c);
      var last := After(Start(n), a + b + c);
      assert last.used[0] == last.used[1];
      assert ReusingRun(n, a + b + c);
    } else {
      forall evs | Run(Start(n), evs)
        ensures !ReusingRun(n, evs)
      {
        NoncesAreUnique(n, evs);
      }
    }
  }

  // ------------------------------------------------- after the keypair has expired

  /** No nonce has been used since `s`, and whoever was outside still is. */
  ghost predicate Closed(s: State, s': State) {
    && s'.counter >= REJECT_AFTER_MESSAGES && s'.used == s.used && |s'.senders| == |s.senders|
    && forall i :: 0 <= i < |s.senders| && s.senders[i] == Outside ==> s'.senders[i] == Outside
  }

  lemma ClosedStep(s: State, s': State, ev: Event)
    requires Safe(s') && Closed(s, s') && Enabled(s', ev) && |s.senders| <= 0x2000
    ensures Closed(s, Exec(s', ev))
  {
    if ev.Draw? {
      DrawIsSafe(s', ev.i);
      NextCounter(s'.counter);
    }
  }

  lemma {:induction false} StaysClosed(s: State, s': State, evs: seq<Event>)
    requires Safe(s') && Closed(s, s') && Run(s', evs) && |s.senders| <= 0x2000
    ensures Closed(s, After(s', evs))
    decreases |evs|
  {
    if evs != [] {
      ClosedStep(s, s', evs[0]);
      StepIsSafe(s', evs[0]);
      StaysClosed(s, Exec(s', evs[0]), evs[1..]);
    }
  }

  /** With at most 2^13 senders, an expired keypair encrypts nothing more, and no sender begins to
      use it. */
  lemma ExpiredEncryptsNothing(n: nat, before: seq<Event>, evs: seq<Event>)
    requires n <= 0x2000 && Run(Start(n), before) && Run(Exec(After(Start(n), before), Expire), evs)
    ensures var s := After(Start(n), before); Closed(s, After(Exec(s, Expire), evs))
  {
    OversBound(Start(n).senders);
    RunIsSafe(Start(n), before);
    var s := After(Start(n), before);
    StepIsSafe(s, Expire);
    StaysClosed(s, Exec(s, Expire), evs);
  }
}
