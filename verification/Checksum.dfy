/** The Internet checksum (section 1 of RFC 1071) as packet.go computes it, with a 32-bit
    accumulator that wraps. */
module Checksum {
  import opened BigEndian

  // ------------------------------------------------- sums of 16-bit words

  /** The big-endian 16-bit words of `s`, an odd last byte padded with zero, added up. */
  ghost function WordSum(s: Bytes): nat {
    if |s| == 0 then 0
    else if |s| == 1 then Word(s[0], 0)
    else Word(s[0], s[1]) + WordSum(s[2..])
  }

  lemma {:induction false} WordSumSplit(s: Bytes, k: nat, w: nat)
    requires k == 2 * w <= |s|
    ensures WordSum(s) == WordSum(s[..k]) + WordSum(s[k..])
    decreases k
  {
    if k == 0 {
      assert s[..0] == [] && s[0..] == s;
    } else {
      WordSumSplit(s[2..], k - 2, w - 1);
      assert s[2..][..k - 2] == s[..k][2..] && s[2..][k - 2..] == s[k..];
    }
  }

  lemma {:induction false} WordSumBound(s: Bytes, words: nat)
    requires |s| <= 2 * words
    ensures WordSum(s) <= 0xFFFF * words
  {
    if |s| >= 2 {
      WordSumBound(s[2..], words - 1);
    }
  }

  /** Replacing a word at an even offset changes the sum by the difference. */
  lemma WordSumReplace(s: Bytes, k: nat, hi: byte, lo: byte)
    requires k % 2 == 0 && k + 2 <= |s| && s[k] == 0 && s[k + 1] == 0
    ensures WordSum(s[k := hi][k + 1 := lo]) == WordSum(s) + Word(hi, lo)
  {
    var t := s[k := hi][k + 1 := lo];
    WordSumSplit(s, k, k / 2);
    WordSumSplit(t, k, k / 2);
    assert t[..k] == s[..k];
    assert t[k..][2..] == s[k..][2..];
  }

  // ------------------------------------------------- folding

  /** Carries are added back in until 16 bits are left. */
  ghost function Fold(s: nat): (r: nat)
    ensures r <= 0xFFFF
    decreases s
  {
    if s <= 0xFFFF then s else Fold(s % U16 + s / U16)
  }

  /** What is left of a sum when 0xFFFF is taken away until 16 bits are left: its representative
      modulo 0xFFFF in 1..0xFFFF, or zero. */
  ghost function Residue(s: nat): (r: nat)
    ensures r <= 0xFFFF
  {
    if s <= 0xFFFF then s else Residue(s - 0xFFFF)
  }

  lemma {:induction false} ResidueIsModulo(s: nat)
    requires s > 0
    ensures Residue(s) > 0 && (Residue(s) == 0xFFFF <==> s % 0xFFFF == 0) && Residue(s) % 0xFFFF == s % 0xFFFF
  {
    if s > 0xFFFF {
      ResidueIsModulo(s - 0xFFFF);
      OneLess(s);
    }
  }

  lemma OneLess(s: nat)
    requires s >= 0xFFFF
    ensures s % 0xFFFF == (s - 0xFFFF) % 0xFFFF
  {
  }

  lemma {:induction false} ResidueDrops(a: nat, k: nat)
    requires a > 0
    ensures Residue(a + k * 0xFFFF) == Residue(a)
    decreases k
  {
    if k > 0 {
      ResidueDrops(a, k - 1);
      assert a + k * 0xFFFF - 0xFFFF == a + (k - 1) * 0xFFFF;
    }
  }

  /** Folding yields the same: adding the carries back in keeps the sum modulo 0xFFFF. */
  lemma {:induction false} FoldIsModulo(s: nat)
    ensures Fold(s) == Residue(s)
    decreases s
  {
    if s > 0xFFFF {
      var lo, hi := s % U16, s / U16;
      FoldIsModulo(lo + hi);
      assert s == lo + hi + hi * 0xFFFF;
      ResidueDrops(lo + hi, hi);
    }
  }

  /** What a 32-bit accumulator keeps of a sum. */
  function Low(sum: nat): (r: nat)
    ensures r < U32
  {
    if sum < U32 then sum else Low(sum - U32)
  }

  lemma {:induction false} LowIsModulo(sum: nat)
    ensures Low(sum) == sum % U32
  {
    if sum >= U32 {
      LowIsModulo(sum - U32);
    }
  }

  lemma {:induction false} AddLow(a: nat, b: nat)
    ensures Low(Low(a) + b) == Low(a + b)
  {
    if a >= U32 {
      AddLow(a - U32, b);
      assert a + b - U32 == a - U32 + b;
    }
  }

  /** The checksum of data whose words add up to `sum`. */
  ghost function Complement(sum: nat): nat {
    0xFFFF - Residue(Low(sum))
  }

  /** Adding the checksum makes the folded sum all ones, whatever the accumulator lost: the
      addition itself can never carry out of 32 bits. */
  lemma ChecksumCancels(sum: nat)
    ensures 0 <= Complement(sum) <= 0xFFFF
    ensures Complement(sum + Complement(sum)) == 0
  {
    var s, c := Low(sum), Complement(sum);
    ResidueCancels(s, 0x1_0001);
    AddLow(sum, c);
  }

  /** A sum and its complement add up to a multiple of 0xFFFF, no more than the next one. */
  lemma {:induction false} ResidueCancels(s: nat, q: nat)
    requires q > 0 && s <= q * 0xFFFF
    ensures var total := s + (0xFFFF - Residue(s)); total <= q * 0xFFFF && Residue(total) == 0xFFFF
    decreases s
  {
    if s > 0xFFFF {
      ResidueCancels(s - 0xFFFF, q - 1);
    }
  }

  /** Without overflow a zero result means what section 1 of RFC 1071 asks for: the words add
      up to zero in ones' complement arithmetic. */
  lemma ZeroMeansValid(sum: nat)
    requires 0 < sum < U32
    ensures Complement(sum) == 0 <==> sum % 0xFFFF == 0
  {
    ResidueIsModulo(sum);
  }

  // ------------------------------------------------- the loops

  method AddWords(start: int, data: Bytes) returns (sum: int)
    requires 0 <= start < U32
    ensures sum == Low(start + WordSum(data))
  {
    sum := start;
    Nothing(start);
    var i := 0;
    ghost var w := 0;
    while i < |data| - 1
      invariant 0 <= i == 2 * w <= |data|
      invariant sum == Low(start + WordSum(data[..i]))
    {
      AddStep(start, data, i, w);
      sum := Low(sum + Word(data[i], data[i + 1]));
      i, w := i + 2, w + 1;
    }
    AddTail(start, data, i, w);
    if |data| % 2 == 1 {
      sum := Low(sum + Word(data[|data| - 1], 0));
    }
  }

  lemma Nothing(start: nat)
    requires start < U32
    ensures start == Low(start + WordSum([]))
  {
  }

  lemma AddStep(start: nat, data: Bytes, i: nat, w: nat)
    requires i == 2 * w && i + 2 <= |data|
    ensures Low(Low(start + WordSum(data[..i])) + Word(data[i], data[i + 1])) == Low(start + WordSum(data[..i + 2]))
  {
    WordSumStep(data, i, w);
    LowOfTotal(start + WordSum(data[..i]), Word(data[i], data[i + 1]), start + WordSum(data[..i + 2]));
  }

  lemma LowOfTotal(a: nat, b: nat, total: nat)
    requires total == a + b
    ensures Low(Low(a) + b) == Low(total)
  {
    AddLow(a, b);
  }

  /** A last odd byte counts as the high half of a word. */
  lemma AddTail(start: nat, data: Bytes, i: nat, w: nat)
    requires i == 2 * w && i <= |data| <= i + 1
    ensures |data| % 2 == |data| - i
    ensures |data| == i ==> WordSum(data[..i]) == WordSum(data)
    ensures |data| > i ==> Low(Low(start + WordSum(data[..i])) + Word(data[i], 0)) == Low(start + WordSum(data))
  {
    Parity(|data|, w);
    if |data| > i {
      LastByte(data, i, w);
      LowOfTotal(start + WordSum(data[..i]), Word(data[i], 0), start + WordSum(data));
    } else {
      assert data[..i] == data;
    }
  }

  lemma LastByte(data: Bytes, i: nat, w: nat)
    requires i == 2 * w && |data| == i + 1
    ensures WordSum(data) == WordSum(data[..i]) + Word(data[i], 0)
  {
    WordSumSplit(data, i, w);
    assert data[i..] == [data[i]];
  }

  lemma Parity(n: nat, w: nat)
    requires 2 * w <= n <= 2 * w + 1
    ensures n % 2 == n - 2 * w
  {
  }

  lemma WordSumStep(data: Bytes, i: nat, w: nat)
    requires i == 2 * w && i + 2 <= |data|
    ensures WordSum(data[..i + 2]) == WordSum(data[..i]) + Word(data[i], data[i + 1])
  {
    WordSumSplit(data[..i + 2], i, w);
    assert data[..i + 2][..i] == data[..i] && data[..i + 2][i..][2..] == [];
  }

  method FoldSum(start: int) returns (sum: int)
    requires 0 <= start < U32
    ensures sum == Fold(start) && 0 <= sum <= 0xFFFF
  {
    sum := start;
    while sum > 0xFFFF
      invariant 0 <= sum && Fold(sum) == Fold(start)
      decreases sum
    {
      sum := sum % U16 + sum / U16;
    }
  }

  method CalculateChecksum(pseudoHeader: Bytes, segment: Bytes) returns (c: int)
    requires |pseudoHeader| % 2 == 0
    ensures c == Complement(WordSum(pseudoHeader) + WordSum(segment))
  {
    var sum := AddWords(0, pseudoHeader);
    AddLow(WordSum(pseudoHeader), WordSum(segment));
    sum := AddWords(sum, segment);
    FoldIsModulo(sum);
    sum := FoldSum(sum);
    c := 0xFFFF - sum;
  }

  method CalculateChecksumSimple(data: Bytes) returns (c: int)
    ensures c == Complement(WordSum(data))
  {
    var sum := AddWords(0, data);
    FoldIsModulo(sum);
    sum := FoldSum(sum);
    c := 0xFFFF - sum;
  }

  /** Whoever adds the checksum of a sum to it gets a total with checksum zero. */
  lemma CancelsWith(sum: nat, c: nat, total: nat)
    requires c == Complement(sum) && total == sum + c
    ensures Complement(total) == 0
  {
    ChecksumCancels(sum);
  }

  /** How many words hold `p` and `q` bytes, the first an even number. */
  lemma WordCounts(p: nat, q: nat, words: nat)
    requires p % 2 == 0 && (p + q + 1) / 2 <= words
    ensures p == 2 * (p / 2) && q <= 2 * (words - p / 2) && p / 2 <= words
  {
  }

  lemma WordsFit(x: nat, y: nat, a: nat, words: nat)
    requires x <= 0xFFFF * a && a <= words <= 0x1_0001 && y <= 0xFFFF * (words - a)
    ensures x + y < U32
  {
  }

  /** Up to 65537 words the 32-bit accumulator is exact. */
  lemma NoOverflow(pseudoHeader: Bytes, segment: Bytes)
    requires |pseudoHeader| % 2 == 0 && (|pseudoHeader| + |segment| + 1) / 2 <= 0x1_0001
    ensures WordSum(pseudoHeader) + WordSum(segment) < U32
  {
    var a := |pseudoHeader| / 2;
    WordCounts(|pseudoHeader|, |segment|, 0x1_0001);
    WordSumBound(pseudoHeader, a);
    WordSumBound(segment, 0x1_0001 - a);
    WordsFit(WordSum(pseudoHeader), WordSum(segment), a, 0x1_0001);
  }
}
