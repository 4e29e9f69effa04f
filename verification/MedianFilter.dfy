/** The damping filter of peer.go: a sliding window of latency samples whose value is the
    median of the longest odd suffix. */
module MedianFilter {
  import opened Walks

  // ------------------------------------------------- sorting

  ghost predicate Sorted(s: seq<real>) {
    forall i, j :: 0 <= i < j < |s| ==> s[i] <= s[j]
  }

  function Insert(x: real, s: seq<real>): (r: seq<real>)
    ensures |r| == |s| + 1
  {
    if s == [] || x <= s[0] then [x] + s else [s[0]] + Insert(x, s[1..])
  }

  /** The ascending rearrangement that the library sort yields. */
  function Sort(s: seq<real>): (r: seq<real>)
    ensures |r| == |s|
  {
    if s == [] then [] else Insert(s[0], Sort(s[1..]))
  }

  lemma {:induction false} InsertSorted(x: real, s: seq<real>)
    requires Sorted(s)
    ensures Sorted(Insert(x, s))
    ensures Insert(x, s)[0] == if s == [] || x <= s[0] then x else s[0]
  {
    if s != [] && x > s[0] {
      InsertSorted(x, s[1..]);
      var rest := Insert(x, s[1..]);
      assert s[0] <= rest[0];
    }
  }

  lemma {:induction false} SortSorted(s: seq<real>)
    ensures Sorted(Sort(s))
  {
    if s != [] {
      SortSorted(s[1..]);
      InsertSorted(s[0], Sort(s[1..]));
    }
  }

  // ------------------------------------------------- counting

  /** How many elements satisfy a predicate. */
  ghost function Count(s: seq<real>, p: real -> bool): nat {
    if s == [] then 0 else (if p(s[0]) then 1 else 0) + Count(s[1..], p)
  }

  lemma {:induction false} InsertCounts(x: real, s: seq<real>, p: real -> bool)
    ensures Count(Insert(x, s), p) == Count(s, p) + if p(x) then 1 else 0
  {
    if s == [] || x <= s[0] {
      assert ([x] + s)[1..] == s;
    } else {
      InsertCounts(x, s[1..], p);
      assert ([s[0]] + Insert(x, s[1..]))[1..] == Insert(x, s[1..]);
    }
  }

  /** Sorting rearranges: every predicate holds of as many elements as before. */
  lemma {:induction false} SortCounts(s: seq<real>, p: real -> bool)
    ensures Count(Sort(s), p) == Count(s, p)
  {
    if s != [] {
      SortCounts(s[1..], p);
      InsertCounts(s[0], Sort(s[1..]), p);
    }
  }

  /** Nothing outside the first `k` elements counts, so at most `k` do; and vice versa. */
  lemma {:induction false} CountPrefix(s: seq<real>, p: real -> bool, k: nat)
    requires k <= |s| && forall i :: k <= i < |s| ==> !p(s[i])
    ensures Count(s, p) <= k
    decreases |s|
  {
    if s != [] {
      if k == 0 {
        CountPrefix(s[1..], p, 0);
      } else {
        CountPrefix(s[1..], p, k - 1);
      }
    }
  }

  lemma {:induction false} CountSuffix(s: seq<real>, p: real -> bool, k: nat)
    requires k <= |s| && forall i :: 0 <= i < k ==> !p(s[i])
    ensures Count(s, p) <= |s| - k
    decreases |s|
  {
    if s != [] {
      CountSuffix(s[1..], p, if k == 0 then 0 else k - 1);
    }
  }

  lemma {:induction false} CountMember(s: seq<real>, p: real -> bool)
    ensures Count(s, p) > 0 <==> exists i :: 0 <= i < |s| && p(s[i])
  {
    if s != [] {
      CountMember(s[1..], p);
      if i :| 0 <= i < |s| && p(s[i]) {
        if i > 0 { assert p(s[1..][i - 1]); }
      }
      if i :| 0 <= i < |s[1..]| && p(s[1..][i]) {
        assert p(s[i + 1]);
      }
    }
  }

  lemma {:induction false} CountImplies(s: seq<real>, p: real -> bool, q: real -> bool)
    requires forall x :: p(x) ==> q(x)
    ensures Count(s, p) <= Count(s, q)
  {
    if s != [] {
      CountImplies(s[1..], p, q);
    }
  }

  // ------------------------------------------------- medians

  /** An element with less than half of the elements below it and less than half above it. */
  ghost predicate IsMedian(v: real, w: seq<real>) {
    && Count(w, x => x == v) > 0
    && 2 * Count(w, x => x < v) < |w| && 2 * Count(w, x => x > v) < |w|
  }

  lemma MiddleOfSorted(s: seq<real>)
    requires Sorted(s) && |s| % 2 == 1
    ensures IsMedian(s[|s| / 2], s)
  {
    var k := |s| / 2;
    var v := s[k];
    CountMember(s, x => x == v);
    CountPrefix(s, x => x < v, k);
    CountSuffix(s, x => x > v, k + 1);
  }

  lemma MiddleIsMedian(w: seq<real>)
    requires |w| % 2 == 1
    ensures IsMedian(Sort(w)[|w| / 2], w)
  {
    var v := Sort(w)[|w| / 2];
    SortSorted(w);
    MiddleOfSorted(Sort(w));
    SortCounts(w, x => x == v);
    SortCounts(w, x => x < v);
    SortCounts(w, x => x > v);
  }

  /** If a strict majority of the samples lies in an interval, so does the median. */
  lemma MajorityBoundsMedian(v: real, w: seq<real>, a: real, b: real)
    requires IsMedian(v, w) && 2 * Count(w, x => a <= x <= b) > |w|
    ensures a <= v <= b
  {
    if v < a {
      CountImplies(w, x => a <= x <= b, x => x > v);
    } else if v > b {
      CountImplies(w, x => a <= x <= b, x => x < v);
    }
  }

  // ------------------------------------------------- the window

  function Suffix(s: seq<real>, n: nat): seq<real> {
    if |s| <= n then s else s[|s| - n..]
  }

  /** The last `n` samples, or all if there are fewer. */
  lemma SuffixMeaning(s: seq<real>, n: nat)
    ensures |Suffix(s, n)| == if |s| < n then |s| else n
    ensures |Suffix(s, n)| <= |s| && s == s[..|s| - |Suffix(s, n)|] + Suffix(s, n)
  {
  }

  /** The longest suffix of odd length, which drops at most the oldest sample. */
  lemma OddSuffixMeaning(s: seq<real>)
    requires s != []
    ensures var w := OddSuffix(s); |w| % 2 == 1 && |w| >= |s| - 1 && (s == w || s == [s[0]] + w)
  {
  }

  function OddSuffix(s: seq<real>): seq<real> {
    if |s| % 2 == 0 && s != [] then s[1..] else s
  }

  /** Appending to a full window and dropping its oldest sample slides it along. */
  lemma SuffixSlides(h: seq<real>, n: nat, e: real)
    requires n > 0
    ensures var w := Suffix(h, n) + [e]; Suffix(h + [e], n) == if |w| > n then w[1..] else w
  {
  }

  class FilterWindow {
    var size: int
    var element: seq<real>
    var value: real
    /** The finite samples pushed so far. */
    ghost var history: seq<real>

    /** The window is the last 2r + 1 finite samples. */
    ghost predicate InStep(radius: nat)
      reads this
    {
      element == Suffix(history, 2 * radius + 1)
    }

    constructor ()
      ensures history == [] && forall r: nat :: InStep(r)
    {
      size, element, value, history := 0, [], 0.0, [];
    }

    method Resize(s: nat)
      modifies this`size, this`element
      ensures size == s
      ensures |old(element)| <= s ==> element == old(element)
      ensures old(size) != s ==> element == Suffix(old(element), s)
    {
      if size == s { return; }
      size := s;
      if |element| > size {
        element := element[|element| - size..];
      }
    }

    /** `direction` says which end of an even window is dropped: 1 the last sample, 2 the first. */
    method Filter(w: seq<real>, direction: int) returns (v: real)
      ensures w == [] ==> v == INFINITY
      ensures |w| % 2 == 1 ==> IsMedian(v, w)
      ensures |w| % 2 == 0 && |w| > 0 && direction == 2 ==> IsMedian(v, w[1..])
      ensures |w| % 2 == 0 && |w| > 0 && direction == 1 ==> IsMedian(v, w[..|w| - 1])
    {
      if |w| == 0 { return INFINITY; }
      var odd := w;
      if |w| % 2 == 0 {
        if direction == 1 { odd := w[..|w| - 1]; } else if direction == 2 { odd := w[1..]; }
      }
      var elemlen := if |w| % 2 == 0 then |w| - 1 else |w|;
      if elemlen < 3 {
        if |odd| == 1 { MiddleIsMedian(odd); }
        return odd[0];
      }
      var pivot := (elemlen + 1) / 2 - 1;
      var sorted := Sort(odd[..elemlen]);
      if |odd| == elemlen {
        assert odd[..elemlen] == odd;
        MiddleIsMedian(odd);
      }
      return sorted[pivot];
    }

    /** The last 2r + 1 samples with `e` appended. */
    method Append(e: real, radius: nat)
      requires InStep(radius) && size == 2 * radius + 1
      modifies this`element, this`history
      ensures InStep(radius) && history == old(history) + [e]
    {
      SuffixSlides(history, 2 * radius + 1, e);
      element := element + [e];
      if |element| > size {
        element := element[1..];
      }
      history := history + [e];
    }

    method Evaluate(e: real) returns (v: real)
      requires element != []
      ensures if |element| >= 3 then IsMedian(v, OddSuffix(element)) else v == e
    {
      var elemlen, window := |element|, element;
      if elemlen % 2 == 0 {
        window := window[1..];
        elemlen := elemlen - 1;
      }
      if elemlen < 3 {
        return e;
      }
      v := Filter(window, 2);
    }

    /** With a fixed radius of at least one the window stays in step with the samples; radius
        zero switches the filter off and stores nothing. */
    method Push(e: real, radius: nat) returns (v: real)
      requires radius >= 1 ==> InStep(radius)
      modifies this
      ensures v == value && (radius >= 1 ==> InStep(radius))
      ensures history == if e < INFINITY && radius >= 1 then old(history) + [e] else old(history)
      ensures e >= INFINITY || radius == 0 ==> value == e
      ensures e < INFINITY && radius >= 1 ==> if |element| >= 3 then IsMedian(value, OddSuffix(element)) else value == e
    {
      Resize(2 * radius + 1);
      if size < 3 || e >= INFINITY {
        value := e;
        return value;
      }
      Append(e, radius);
      value := Evaluate(e);
      return value;
    }
  }
}
