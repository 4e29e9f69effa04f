/** The anti-replay filter of replay.go (section 2 of RFC 6479): a ring of 64-bit words that
    must agree with the plain set of accepted counters. */
module Replay {

  const BLOCK_BITS: int := 64
  const RING_BLOCKS: int := 128
  const WINDOW_SIZE: int := (RING_BLOCKS - 1) * BLOCK_BITS

  // ------------------------------------------------- words and their bits

  /** Bit `i` of a word, counted from the least significant one. */
  predicate Bit(w: nat, i: nat) {
    if i == 0 then w % 2 == 1 else Bit(w / 2, i - 1)
  }

  /** The word with bit `i` set as well: `w | 1 << i`. */
  function Or(w: nat, i: nat): nat {
    if i == 0 then (if w % 2 == 1 then w else w + 1) else w % 2 + 2 * Or(w / 2, i - 1)
  }

  lemma {:induction false} BitOfOr(w: nat, i: nat, j: nat)
    ensures Bit(Or(w, i), j) <==> i == j || Bit(w, j)
  {
    if i > 0 && j > 0 {
      BitOfOr(w / 2, i - 1, j - 1);
    }
  }

  lemma {:induction false} OrIsNew(w: nat, i: nat)
    ensures Or(w, i) != w <==> !Bit(w, i)
  {
    if i > 0 {
      OrIsNew(w / 2, i - 1);
    }
  }

  lemma {:induction false} ZeroHasNoBits(i: nat)
    ensures !Bit(0, i)
  {
    if i > 0 {
      ZeroHasNoBits(i - 1);
    }
  }

  // ------------------------------------------------- the set it stands for

  /** The highest accepted counter (zero if none) and all accepted counters. */
  datatype History = History(last: int, accepted: set<int>)

  /** The counter is new and not too far behind. */
  ghost predicate Fits(h: History, counter: int, limit: int) {
    counter < limit && h.last - counter <= WINDOW_SIZE && counter !in h.accepted
  }

  ghost function Validate(h: History, counter: int, limit: int): (bool, History) {
    if Fits(h, counter, limit)
    then (true, History(if counter > h.last then counter else h.last, h.accepted + {counter}))
    else (false, h)
  }

  ghost predicate Bounded(h: History) {
    h.last >= 0 && forall a :: a in h.accepted ==> 0 <= a <= h.last
  }

  ghost predicate Sane(h: History) {
    Bounded(h) && if h.accepted == {} then h.last == 0 else h.last in h.accepted
  }

  /** Word `b % 128` holds the bits of block `b`, for the 128 blocks that end with the last. */
  ghost predicate BlockAgrees(h: History, words: seq<nat>, b: int)
    requires |words| == RING_BLOCKS
  {
    forall i {:trigger Bit(words[b % RING_BLOCKS], i)} :: 0 <= i < BLOCK_BITS ==>
      (Bit(words[b % RING_BLOCKS], i) <==> b * BLOCK_BITS + i in h.accepted)
  }

  ghost predicate RingAgrees(h: History, words: seq<nat>)
    requires |words| == RING_BLOCKS
  {
    forall b {:trigger BlockAgrees(h, words, b)} ::
      0 <= b && h.last / BLOCK_BITS - RING_BLOCKS < b <= h.last / BLOCK_BITS ==>
      BlockAgrees(h, words, b)
  }

  // ------------------------------------------------- moving the window forward

  /** The words of the blocks from `lo` up to but not including `hi` are cleared, others kept. */
  ghost predicate Cleared(words: seq<nat>, words': seq<nat>, lo: int, hi: int) {
    && |words| == RING_BLOCKS && |words'| == RING_BLOCKS
    && (forall b {:trigger words'[b % RING_BLOCKS]} :: lo <= b < hi ==> words'[b % RING_BLOCKS] == 0)
    && (forall r :: 0 <= r < RING_BLOCKS && words'[r] != words[r] ==> exists b :: lo <= b < hi && b % RING_BLOCKS == r)
  }

  lemma SlotsApart(a: int, b: int)
    requires 0 < b - a < RING_BLOCKS
    ensures a % RING_BLOCKS != b % RING_BLOCKS
  {
  }

  /** After clearing, the ring agrees with the same set for the window that ends at `counter`. */
  lemma Advance(h: History, words: seq<nat>, words': seq<nat>, counter: int)
    requires Bounded(h) && |words| == RING_BLOCKS && RingAgrees(h, words) && counter > h.last
    requires var cur, top := h.last / BLOCK_BITS, counter / BLOCK_BITS;
      Cleared(words, words', cur + 1, (if top - cur > RING_BLOCKS then cur + RING_BLOCKS else top) + 1)
    ensures RingAgrees(h.(last := counter), words')
  {
    var cur, top := h.last / BLOCK_BITS, counter / BLOCK_BITS;
    var hi := (if top - cur > RING_BLOCKS then cur + RING_BLOCKS else top) + 1;
    forall b | 0 <= b && top - RING_BLOCKS < b <= top
      ensures BlockAgrees(h.(last := counter), words', b)
    {
      if b > cur {
        FreshBlock(h, words, words', cur, top, hi, b);
      } else {
        assert words'[b % RING_BLOCKS] == words[b % RING_BLOCKS] by {
          if words'[b % RING_BLOCKS] != words[b % RING_BLOCKS] {
            var b' :| cur + 1 <= b' < hi && b' % RING_BLOCKS == b % RING_BLOCKS;
            SlotsApart(b, b');
          }
        }
        assert BlockAgrees(h, words, b);
      }
    }
  }

  lemma FreshBlock(h: History, words: seq<nat>, words': seq<nat>, cur: int, top: int, hi: int, b: int)
    requires Bounded(h) && cur == h.last / BLOCK_BITS && cur < b <= top && top - RING_BLOCKS < b
    requires hi == (if top - cur > RING_BLOCKS then cur + RING_BLOCKS else top) + 1
    requires Cleared(words, words', cur + 1, hi)
    ensures BlockAgrees(h, words', b)
  {
    var b' := if b < hi then b else cur + 1 + (b - cur - 1) % RING_BLOCKS;
    assert b' % RING_BLOCKS == b % RING_BLOCKS by { SameSlot(b, cur + 1); }
    assert words'[b' % RING_BLOCKS] == 0;
    forall i | 0 <= i < BLOCK_BITS
      ensures !Bit(words'[b % RING_BLOCKS], i) && b * BLOCK_BITS + i !in h.accepted
    {
      ZeroHasNoBits(i);
    }
  }

  lemma SameSlot(b: int, lo: int)
    requires lo <= b
    ensures (lo + (b - lo) % RING_BLOCKS) % RING_BLOCKS == b % RING_BLOCKS
  {
  }

  /** Setting the bit of `counter` in its word adds it to the set the ring stands for. */
  lemma Insert(h: History, words: seq<nat>, counter: int)
    requires Bounded(h) && |words| == RING_BLOCKS && RingAgrees(h, words)
    requires 0 <= counter <= h.last && h.last - counter <= WINDOW_SIZE
    ensures var r := counter / BLOCK_BITS % RING_BLOCKS; var w := Or(words[r], counter % BLOCK_BITS);
      && (w != words[r] <==> counter !in h.accepted)
      && RingAgrees(h.(accepted := h.accepted + {counter}), words[r := w])
  {
    var block, i := counter / BLOCK_BITS, counter % BLOCK_BITS;
    var r := block % RING_BLOCKS;
    var h', words' := h.(accepted := h.accepted + {counter}), words[r := Or(words[r], i)];
    assert BlockAgrees(h, words, block);
    assert Bit(words[block % RING_BLOCKS], i) <==> block * BLOCK_BITS + i in h.accepted;
    OrIsNew(words[r], i);
    forall b | 0 <= b && h.last / BLOCK_BITS - RING_BLOCKS < b <= h.last / BLOCK_BITS
      ensures BlockAgrees(h', words', b)
    {
      assert BlockAgrees(h, words, b);
      InsertBlock(h, words, counter, b);
    }
  }

  lemma InsertBlock(h: History, words: seq<nat>, counter: int, b: int)
    requires |words| == RING_BLOCKS && counter >= 0 && b >= 0 && BlockAgrees(h, words, b)
    requires -RING_BLOCKS < b - counter / BLOCK_BITS < RING_BLOCKS
    ensures var r := counter / BLOCK_BITS % RING_BLOCKS;
      BlockAgrees(h.(accepted := h.accepted + {counter}), words[r := Or(words[r], counter % BLOCK_BITS)], b)
  {
    var block, i := counter / BLOCK_BITS, counter % BLOCK_BITS;
    var words' := words[block % RING_BLOCKS := Or(words[block % RING_BLOCKS], i)];
    if b != block {
      if b < block { SlotsApart(b, block); } else { SlotsApart(block, b); }
    }
    forall j | 0 <= j < BLOCK_BITS
      ensures Bit(words'[b % RING_BLOCKS], j) <==> b * BLOCK_BITS + j in h.accepted + {counter}
    {
      assert Bit(words[b % RING_BLOCKS], j) <==> b * BLOCK_BITS + j in h.accepted;
      assert b * BLOCK_BITS + j == counter <==> b == block && j == i;
      if b == block { BitOfOr(words[b % RING_BLOCKS], i, j); }
    }
  }

  // ------------------------------------------------- the filter

  class Filter {
    var last: int
    const ring: array<nat>
    /** Counters accepted since the last reset. */
    ghost var accepted: set<int>

    ghost predicate Valid()
      reads this, ring
    {
      ring.Length == RING_BLOCKS && Sane(Past()) && RingAgrees(Past(), ring[..])
    }

    ghost function Past(): History
      reads this
    {
      History(last, accepted)
    }

    constructor ()
      ensures Valid() && Past() == History(0, {}) && fresh(ring)
    {
      last, accepted := 0, {};
      ring := new nat[RING_BLOCKS](_ => 0);
      new;
      EmptyRingAgrees(ring[..]);
    }

    /** Only one word is cleared: whatever the others hold, they lie ahead of the window. */
    method Reset()
      requires ring.Length == RING_BLOCKS
      modifies this, ring
      ensures Valid() && Past() == History(0, {})
    {
      last := 0;
      ring[0] := 0;
      accepted := {};
      EmptyRingAgrees(ring[..]);
    }

    /** The answer and the new history are those of the plain set. */
    method ValidateCounter(counter: int, limit: int) returns (ok: bool)
      requires Valid() && 0 <= counter
      modifies this, ring
      ensures Valid() && (ok, Past()) == Validate(old(Past()), counter, limit)
    {
      if counter >= limit { return false; }
      if counter > last {
        MoveForward(counter);
      } else if last - counter > WINDOW_SIZE {
        return false;
      }
      Insert(Past(), ring[..], counter);
      var r := counter / BLOCK_BITS % RING_BLOCKS;
      var word := Or(ring[r], counter % BLOCK_BITS);
      ok := word != ring[r];
      ring[r] := word;
      if !ok { assert accepted + {counter} == accepted; }
      accepted := accepted + {counter};
    }

    /** Clear the words of the blocks the window moves over; at most the whole ring. */
    method MoveForward(counter: int)
      requires Valid() && counter > last
      modifies this`last, ring
      ensures last == counter && ring.Length == RING_BLOCKS
      ensures RingAgrees(Past(), ring[..])
    {
      var current := last / BLOCK_BITS;
      var diff := counter / BLOCK_BITS - current;
      if diff > RING_BLOCKS { diff := RING_BLOCKS; }
      ghost var words := ring[..];
      var i := current + 1;
      while i <= current + diff
        invariant current + 1 <= i <= current + diff + 1
        invariant Cleared(words, ring[..], current + 1, i)
        modifies ring
      {
        ring[i % RING_BLOCKS] := 0;
        i := i + 1;
      }
      Advance(Past(), words, ring[..], counter);
      last := counter;
    }
  }

  lemma EmptyRingAgrees(words: seq<nat>)
    requires |words| == RING_BLOCKS && words[0] == 0
    ensures RingAgrees(History(0, {}), words)
  {
    forall i: nat
      ensures !Bit(0, i)
    {
      ZeroHasNoBits(i);
    }
  }

  // ------------------------------------------------- whole runs

  datatype Call = Call(counter: nat, limit: int)

  ghost function RunOf(h: History, calls: seq<Call>): History {
    if calls == [] then h
    else var before := RunOf(h, calls[..|calls| - 1]);
         Validate(before, calls[|calls| - 1].counter, calls[|calls| - 1].limit).1
  }

  lemma {:induction false} RunIsSane(h: History, calls: seq<Call>)
    requires Sane(h)
    ensures Sane(RunOf(h, calls)) && h.accepted <= RunOf(h, calls).accepted
  {
    if calls != [] {
      RunIsSane(h, calls[..|calls| - 1]);
    }
  }

  /** After a reset and any calls, a counter is accepted exactly if it is below the limit, was
      not accepted before, and no accepted counter is more than the window ahead of it. */
  lemma {:induction false} ExactAcceptance(calls: seq<Call>, counter: nat, limit: int)
    ensures var h := RunOf(History(0, {}), calls);
      Validate(h, counter, limit).0 <==>
        counter < limit && counter !in h.accepted && forall a :: a in h.accepted ==> a - counter <= WINDOW_SIZE
  {
    RunIsSane(History(0, {}), calls);
  }

  /** Nothing is accepted twice, however many calls lie in between. */
  lemma {:induction false} NeverTwice(h: History, counter: nat, limit: int, calls: seq<Call>, limit': int)
    requires Sane(h) && Validate(h, counter, limit).0
    ensures !Validate(RunOf(Validate(h, counter, limit).1, calls), counter, limit').0
  {
    RunIsSane(Validate(h, counter, limit).1, calls);
  }
}
