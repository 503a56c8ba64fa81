/**
 Choosing the content of a trained dictionary.

 Every position of the training bytes hashes to a slot of a frequency table.  A
 window over the positions is worth the summed frequency of the distinct slots
 it covers.  `SelectSegment` slides a window along one epoch, keeping its worth
 up to date, and `BuildContent` takes the best window of each epoch in turn.
 */
module DictBuilder {
  import opened Common

  const PRIME_6_BYTES := 227_718_039_650_203
  const PRIME_8_BYTES := 0xCF1B_BCDC_B7A5_6463
  const HASH_READ_LENGTH: nat := 8
  const MAX_ZERO_SCORE_RUN: nat := 10

  // ----- the frequency table

  /** A 64-bit product of the eight bytes, or of the first six of them. */
  function HashOf(value: nat, d: nat): (hashed: nat)
    ensures hashed < U64_MODULUS
  {
    (if d == 6 then value * 65536 % U64_MODULUS * PRIME_6_BYTES else value * PRIME_8_BYTES) % U64_MODULUS
  }

  function Shifted(x: nat, low: nat): nat
    requires 0 < low
  {
    x / low
  }

  /** The slot of the substring at `pos`: the hash's top `f` bits. */
  function HashToIndex(bytes: seq<byte>, pos: nat, f: nat, d: nat): nat
    requires pos + HASH_READ_LENGTH <= |bytes| && f <= 64
  {
    Shifted(HashOf(Le(bytes[pos..pos + HASH_READ_LENGTH]), d), Pow2(64 - f))
  }

  lemma HighBits(x: nat, low: nat, high: nat)
    requires 0 < low && x < high * low
    ensures x / low < high
  {
    Times(Min(high, x / low), x / low, low);
  }

  /** Every slot is one of the table's 2^f. */
  lemma SlotIsInTable(bytes: seq<byte>, pos: nat, f: nat, d: nat)
    requires pos + HASH_READ_LENGTH <= |bytes| && f <= 64
    ensures HashToIndex(bytes, pos, f, d) < Pow2(f)
  {
    hide HashOf;
    hide Pow2;
    hide Le;
    Pow2Of64();
    Pow2Adds(f, 64 - f);
    HighBits(HashOf(Le(bytes[pos..pos + HASH_READ_LENGTH]), d), Pow2(64 - f), Pow2(f));
  }

  /** With six-byte substrings, the last two of the eight bytes that are read make no difference. */
  lemma SixBytesDecide(bytes: seq<byte>, pos: nat, other: nat, f: nat)
    requires pos + HASH_READ_LENGTH <= |bytes| && other + HASH_READ_LENGTH <= |bytes| && f <= 64
    requires bytes[pos..pos + 6] == bytes[other..other + 6]
    ensures HashToIndex(bytes, pos, f, 6) == HashToIndex(bytes, other, f, 6)
  {
    SixOfEight(bytes[pos..pos + 6], bytes[pos + 6..pos + 8]);
    SixOfEight(bytes[other..other + 6], bytes[other + 6..other + 8]);
    assert bytes[pos..pos + 8] == bytes[pos..pos + 6] + bytes[pos + 6..pos + 8];
    assert bytes[other..other + 8] == bytes[other..other + 6] + bytes[other + 6..other + 8];
  }

  lemma SixOfEight(six: seq<byte>, two: seq<byte>)
    requires |six| == 6
    ensures HashOf(Le(six + two), 6) == HashOf(Le(six), 6)
  {
    hide Le;
    LeOfBoth(six, two);
    Range48();
    var low, high := Le(six), Le(two);
    assert (low + 0x1_0000_0000_0000 * high) * 65536 == high * U64_MODULUS + low * 65536;
    WholeTurns(low * 65536, high);
  }

  lemma Range48()
    ensures Range(6) == 0x1_0000_0000_0000
  {
  }

  lemma WholeTurns(n: nat, turns: nat)
    ensures (turns * U64_MODULUS + n) % U64_MODULUS == n % U64_MODULUS
  {
    Divided(turns * U64_MODULUS + n, turns + n / U64_MODULUS, n % U64_MODULUS, U64_MODULUS);
  }

  lemma LeOfEight()
    ensures Le([1, 2, 3, 4, 5, 6, 7, 8]) == 0x807060504030201
  {
    hide Le;
    var s: seq<byte> := [1, 2, 3, 4, 5, 6, 7, 8];
    LeOfBoth(s[..4], s[4..]);
    assert s[..4] + s[4..] == s && s[..4] == [1, 2, 3, 4] && s[4..] == [5, 6, 7, 8];
    LeOfFour(s[..4]);
    LeOfFour(s[4..]);
    assert Range(4) == 0x1_0000_0000;
  }

  lemma HashIs(value: nat, shifted: nat, hashed: nat)
    requires shifted == value * 65536 % U64_MODULUS && hashed == shifted * PRIME_6_BYTES % U64_MODULUS
    ensures HashOf(value, 6) == hashed
  {
  }

  lemma HashedBySix()
    ensures HashOf(0x807060504030201, 6) == 0x1031212CF59B0000
  {
    hide HashOf;
    HashIs(0x807060504030201, 0x605040302010000, 0x1031212CF59B0000);
  }

  lemma HashedByEight()
    ensures HashOf(0x807060504030201, 8) == 0xFD547ABCBB972A63
  {
  }

  /** What two hashes come to, by the primes of the format. */
  lemma HashVectors()
    ensures HashToIndex([1, 2, 3, 4, 5, 6, 7, 8], 0, 20, 6) == 66322
    ensures HashToIndex([1, 2, 3, 4, 5, 6, 7, 8], 0, 20, 8) == 1037639
  {
    hide Le;
    hide Pow2;
    var s: seq<byte> := [1, 2, 3, 4, 5, 6, 7, 8];
    assert s[0..8] == s;
    LeOfEight();
    Power44();
    hide HashOf;
    HashedBySix();
    HashedByEight();
  }

  lemma Power44()
    ensures Pow2(64 - 20) == 0x1000_0000_0000
  {
    Pow2Of32();
    hide Pow2;
    Pow2Adds(32, 12);
    Power12();
  }

  lemma Power12()
    ensures Pow2(12) == 4096
  {
  }

  function Sum(freqs: seq<nat>): nat {
    if freqs == [] then 0 else Sum(freqs[..|freqs| - 1]) + freqs[|freqs| - 1]
  }

  /** The summed frequency of the slots in `present`. */
  function Worth(freqs: seq<nat>, present: set<nat>): (w: nat)
    ensures w <= Sum(freqs)
  {
    if freqs == [] then 0
    else
      var last := |freqs| - 1;
      Worth(freqs[..last], present) + (if last in present then freqs[last] else 0)
  }

  lemma {:induction false} WorthOfNone(freqs: seq<nat>)
    ensures Worth(freqs, {}) == 0
  {
    if freqs != [] {
      WorthOfNone(freqs[..|freqs| - 1]);
    }
  }

  /** Slots past the table's end are worth nothing. */
  lemma {:induction false} WorthIgnoresOthers(freqs: seq<nat>, present: set<nat>, slot: nat)
    requires |freqs| <= slot
    ensures Worth(freqs, present + {slot}) == Worth(freqs, present)
  {
    if freqs != [] {
      WorthIgnoresOthers(freqs[..|freqs| - 1], present, slot);
    }
  }

  lemma {:induction false} WorthOfOneMore(freqs: seq<nat>, present: set<nat>, slot: nat)
    requires slot < |freqs| && slot !in present
    ensures Worth(freqs, present + {slot}) == Worth(freqs, present) + freqs[slot]
  {
    var last := |freqs| - 1;
    if slot == last {
      WorthIgnoresOthers(freqs[..last], present, slot);
    } else {
      WorthOfOneMore(freqs[..last], present, slot);
    }
  }

  lemma {:induction false} SumOfOneMore(freqs: seq<nat>, slot: nat)
    requires slot < |freqs|
    ensures Sum(freqs[slot := freqs[slot] + 1]) == Sum(freqs) + 1
  {
    var last := |freqs| - 1;
    var more := freqs[slot := freqs[slot] + 1];
    if slot == last {
      assert more[..last] == freqs[..last];
    } else {
      assert more[..last] == freqs[..last][slot := freqs[slot] + 1];
      SumOfOneMore(freqs[..last], slot);
    }
  }

  lemma {:induction false} SumOfZeros(freqs: seq<nat>)
    requires forall i :: 0 <= i < |freqs| ==> freqs[i] == 0
    ensures Sum(freqs) == 0
  {
    if freqs != [] {
      SumOfZeros(freqs[..|freqs| - 1]);
    }
  }

  /** Lowering entries lowers the sum. */
  lemma {:induction false} SumOfLess(less: seq<nat>, freqs: seq<nat>)
    requires |less| == |freqs| && forall i :: 0 <= i < |less| ==> less[i] <= freqs[i]
    ensures Sum(less) <= Sum(freqs)
  {
    if less != [] {
      SumOfLess(less[..|less| - 1], freqs[..|freqs| - 1]);
    }
  }

  // ----- windows

  /** How often a slot occurs among the positions from `b` up to `e`. */
  function Count(slots: seq<nat>, b: nat, e: nat, slot: nat): (n: nat)
    requires b <= e <= |slots|
    ensures n <= e - b
  {
    if b == e then 0 else Count(slots, b, e - 1, slot) + (if slots[e - 1] == slot then 1 else 0)
  }

  lemma {:induction false} CountFromTheLeft(slots: seq<nat>, b: nat, e: nat, slot: nat)
    requires b < e <= |slots|
    ensures Count(slots, b, e, slot) == Count(slots, b + 1, e, slot) + (if slots[b] == slot then 1 else 0)
  {
    if b + 1 < e {
      CountFromTheLeft(slots, b, e - 1, slot);
    }
  }

  function Present(slots: seq<nat>, b: nat, e: nat): set<nat>
    requires b <= e <= |slots|
  {
    set i | b <= i < e :: slots[i]
  }

  lemma {:induction false} CountedIsPresent(slots: seq<nat>, b: nat, e: nat, slot: nat)
    requires b <= e <= |slots|
    ensures 0 < Count(slots, b, e, slot) <==> slot in Present(slots, b, e)
  {
    if b < e {
      CountedIsPresent(slots, b, e - 1, slot);
      assert Present(slots, b, e) == Present(slots, b, e - 1) + {slots[e - 1]};
    }
  }

  /** What a window is worth: each distinct slot it covers, once. */
  function Score(freqs: seq<nat>, slots: seq<nat>, b: nat, e: nat): (w: nat)
    requires b <= e <= |slots|
    ensures w <= Sum(freqs)
  {
    Worth(freqs, Present(slots, b, e))
  }

  lemma ScoreOfOneMore(freqs: seq<nat>, slots: seq<nat>, b: nat, e: nat)
    requires b <= e < |slots| && slots[e] < |freqs|
    ensures Score(freqs, slots, b, e + 1)
         == Score(freqs, slots, b, e) + (if Count(slots, b, e, slots[e]) == 0 then freqs[slots[e]] else 0)
  {
    var before := Present(slots, b, e);
    assert Present(slots, b, e + 1) == before + {slots[e]};
    CountedIsPresent(slots, b, e, slots[e]);
    if slots[e] in before {
      assert before + {slots[e]} == before;
    } else {
      WorthOfOneMore(freqs, before, slots[e]);
    }
  }

  lemma ScoreOfOneLess(freqs: seq<nat>, slots: seq<nat>, b: nat, e: nat)
    requires b < e <= |slots| && slots[b] < |freqs|
    ensures Score(freqs, slots, b, e)
         == Score(freqs, slots, b + 1, e) + (if Count(slots, b + 1, e, slots[b]) == 0 then freqs[slots[b]] else 0)
  {
    var after := Present(slots, b + 1, e);
    assert Present(slots, b, e) == after + {slots[b]};
    CountedIsPresent(slots, b + 1, e, slots[b]);
    if slots[b] in after {
      assert after + {slots[b]} == after;
    } else {
      WorthOfOneMore(freqs, after, slots[b]);
    }
  }

  // ----- one epoch

  datatype Segment = Segment(begin: nat, end: nat, score: nat)

  /** The window that ends at `e`: at most `width` positions, none before the epoch. */
  function WindowStart(begin: nat, e: nat, width: nat): (b: nat)
    requires begin <= e
    ensures begin <= b <= e
  {
    Max(begin, e - width)
  }

  function WindowScore(freqs: seq<nat>, slots: seq<nat>, begin: nat, e: nat, width: nat): nat
    requires begin <= e <= |slots|
  {
    Score(freqs, slots, WindowStart(begin, e, width), e)
  }

  /** `best` is the first of the windows ending in (begin, end] that no other beats; none when all are worth nothing. */
  ghost predicate IsEarliestBest(freqs: seq<nat>, slots: seq<nat>, begin: nat, end: nat, width: nat, best: Segment)
    requires begin <= end <= |slots|
  {
    && (forall e :: begin < e <= end ==> WindowScore(freqs, slots, begin, e, width) <= best.score)
    && (if best.score == 0 then best == Segment(0, 0, 0)
        else
          && begin < best.end <= end && best.begin == WindowStart(begin, best.end, width)
          && best.score == WindowScore(freqs, slots, begin, best.end, width)
          && (forall e :: begin < e < best.end ==> WindowScore(freqs, slots, begin, e, width) < best.score))
  }

  /** There is only one such window, so a search that returns one returns that one. */
  lemma EarliestBestIsUnique(freqs: seq<nat>, slots: seq<nat>, begin: nat, end: nat, width: nat, a: Segment, b: Segment)
    requires begin <= end <= |slots|
    requires IsEarliestBest(freqs, slots, begin, end, width, a) && IsEarliestBest(freqs, slots, begin, end, width, b)
    ensures a == b
  {
    if a.score != 0 {
      assert WindowScore(freqs, slots, begin, a.end, width) <= b.score;
    }
    if b.score != 0 {
      assert WindowScore(freqs, slots, begin, b.end, width) <= a.score;
    }
  }

  /** The counters hold the occurrences within a window. */
  ghost predicate Counts(segmentFreqs: seq<nat>, slots: seq<nat>, b: nat, e: nat)
    requires b <= e <= |slots|
  {
    forall slot :: 0 <= slot < |segmentFreqs| ==> segmentFreqs[slot] == Count(slots, b, e, slot)
  }

  lemma CountsOneMore(segmentFreqs: seq<nat>, slots: seq<nat>, b: nat, e: nat)
    requires b <= e < |slots| && slots[e] < |segmentFreqs| && Counts(segmentFreqs, slots, b, e)
    ensures Counts(segmentFreqs[slots[e] := segmentFreqs[slots[e]] + 1], slots, b, e + 1)
  {
  }

  lemma CountsOneLess(segmentFreqs: seq<nat>, slots: seq<nat>, b: nat, e: nat)
    requires b < e <= |slots| && slots[b] < |segmentFreqs| && Counts(segmentFreqs, slots, b, e)
    ensures 0 < segmentFreqs[slots[b]]
    ensures Counts(segmentFreqs[slots[b] := segmentFreqs[slots[b]] - 1], slots, b + 1, e)
    ensures segmentFreqs[slots[b]] - 1 == Count(slots, b + 1, e, slots[b])
  {
    forall slot | 0 <= slot < |segmentFreqs|
      ensures Count(slots, b, e, slot) == Count(slots, b + 1, e, slot) + (if slots[b] == slot then 1 else 0)
    {
      CountFromTheLeft(slots, b, e, slot);
    }
  }

  // A wrapping addition and subtraction of 32-bit words.
  function WrappingAdd(a: nat, b: nat): nat { (a + b) % U32_MODULUS }
  function WrappingSub(a: nat, b: nat): nat { (a - b) % U32_MODULUS }

  lemma WrappingIsExact(freqs: seq<nat>, a: nat, b: nat)
    requires Sum(freqs) < U32_MODULUS
    ensures a + b <= Sum(freqs) ==> WrappingAdd(a, b) == a + b
    ensures b <= a <= Sum(freqs) ==> WrappingSub(a, b) == a - b
  {
  }

  /** The slot of every position, as the table sees it. */
  ghost predicate InTable(slots: seq<nat>, size: nat) {
    forall i :: 0 <= i < |slots| ==> slots[i] < size
  }

  /** The window with its counters and its worth, while it slides. */
  ghost predicate Tracks(freqs: array<nat>, segmentFreqs: array<nat>, slots: seq<nat>, active: Segment)
    requires active.begin <= active.end <= |slots|
    reads freqs, segmentFreqs
  {
    && Counts(segmentFreqs[..], slots, active.begin, active.end)
    && active.score == Score(freqs[..], slots, active.begin, active.end)
  }

  /** Let the position after the window in. */
  method TakeIn(slots: seq<nat>, freqs: array<nat>, segmentFreqs: array<nat>, active: Segment) returns (next: Segment)
    requires freqs != segmentFreqs && freqs.Length == segmentFreqs.Length && InTable(slots, freqs.Length)
    requires Sum(freqs[..]) < U32_MODULUS
    requires active.begin <= active.end < |slots| && Tracks(freqs, segmentFreqs, slots, active)
    modifies segmentFreqs
    ensures next.begin == active.begin && next.end == active.end + 1 && Tracks(freqs, segmentFreqs, slots, next)
  {
    var index := slots[active.end];
    CountsOneMore(segmentFreqs[..], slots, active.begin, active.end);
    ScoreOfOneMore(freqs[..], slots, active.begin, active.end);
    var score := active.score;
    if segmentFreqs[index] == 0 {
      WrappingIsExact(freqs[..], score, freqs[index]);
      score := WrappingAdd(score, freqs[index]);
    }
    segmentFreqs[index] := segmentFreqs[index] + 1;
    next := Segment(active.begin, active.end + 1, score);
  }

  /** Let the window's first position out. */
  method LetOut(slots: seq<nat>, freqs: array<nat>, segmentFreqs: array<nat>, active: Segment) returns (next: Segment)
    requires freqs != segmentFreqs && freqs.Length == segmentFreqs.Length && InTable(slots, freqs.Length)
    requires Sum(freqs[..]) < U32_MODULUS
    requires active.begin < active.end <= |slots| && Tracks(freqs, segmentFreqs, slots, active)
    modifies segmentFreqs
    ensures next.begin == active.begin + 1 && next.end == active.end && Tracks(freqs, segmentFreqs, slots, next)
  {
    var removed := slots[active.begin];
    CountsOneLess(segmentFreqs[..], slots, active.begin, active.end);
    ScoreOfOneLess(freqs[..], slots, active.begin, active.end);
    segmentFreqs[removed] := segmentFreqs[removed] - 1;
    var score := active.score;
    if segmentFreqs[removed] == 0 {
      WrappingIsExact(freqs[..], score, freqs[removed]);
      score := WrappingSub(score, freqs[removed]);
    }
    next := Segment(active.begin + 1, active.end, score);
  }

  /** One more window has been seen. */
  lemma StillEarliestBest(freqs: seq<nat>, slots: seq<nat>, begin: nat, end: nat, width: nat, best: Segment, seen: Segment)
    requires begin < end <= |slots| && IsEarliestBest(freqs, slots, begin, end - 1, width, best)
    requires seen == Segment(WindowStart(begin, end, width), end, WindowScore(freqs, slots, begin, end, width))
    ensures IsEarliestBest(freqs, slots, begin, end, width, if seen.score > best.score then seen else best)
  {
  }

  /** Slide a window of `width` positions over the epoch; the counters end as they began, all zero. */
  method BestWindow(slots: seq<nat>, freqs: array<nat>, segmentFreqs: array<nat>, begin: nat, end: nat, width: nat)
    returns (best: Segment)
    requires freqs != segmentFreqs && freqs.Length == segmentFreqs.Length && InTable(slots, freqs.Length)
    requires Sum(freqs[..]) < U32_MODULUS
    requires begin <= end <= |slots| && 0 < width
    requires forall i :: 0 <= i < segmentFreqs.Length ==> segmentFreqs[i] == 0
    modifies segmentFreqs
    ensures IsEarliestBest(freqs[..], slots, begin, end, width, best)
    ensures forall i :: 0 <= i < segmentFreqs.Length ==> segmentFreqs[i] == 0
  {
    hide Counts;
    best := Segment(0, 0, 0);
    var active := Segment(begin, begin, 0);
    NoCounts(segmentFreqs[..], slots, begin);
    assert Present(slots, begin, begin) == {};
    WorthOfNone(freqs[..]);
    while active.end < end
      invariant begin <= active.begin <= active.end <= end && active.begin == WindowStart(begin, active.end, width)
      invariant Tracks(freqs, segmentFreqs, slots, active)
      invariant IsEarliestBest(freqs[..], slots, begin, active.end, width, best)
    {
      active := TakeIn(slots, freqs, segmentFreqs, active);
      if active.end - active.begin == width + 1 {
        active := LetOut(slots, freqs, segmentFreqs, active);
      }
      StillEarliestBest(freqs[..], slots, begin, active.end, width, best, active);
      if active.score > best.score {
        best := active;
      }
    }
    while active.begin < end
      invariant active.begin <= active.end == end
      invariant Counts(segmentFreqs[..], slots, active.begin, end)
    {
      CountsOneLess(segmentFreqs[..], slots, active.begin, end);
      var removed := slots[active.begin];
      segmentFreqs[removed] := segmentFreqs[removed] - 1;
      active := active.(begin := active.begin + 1);
    }
    NoCounts(segmentFreqs[..], slots, end);
  }

  lemma NoCounts(segmentFreqs: seq<nat>, slots: seq<nat>, at: nat)
    requires at <= |slots|
    ensures Counts(segmentFreqs, slots, at, at) <==> forall i :: 0 <= i < |segmentFreqs| ==> segmentFreqs[i] == 0
  {
  }

  /** The frequencies once the slots in `taken` have been given out. */
  ghost predicate Without(freqs: seq<nat>, taken: set<nat>, before: seq<nat>) {
    && |freqs| == |before|
    && forall slot :: 0 <= slot < |freqs| ==> freqs[slot] == if slot in taken then 0 else before[slot]
  }

  method ZeroSlots(slots: seq<nat>, freqs: array<nat>, begin: nat, end: nat)
    requires begin <= end <= |slots| && InTable(slots, freqs.Length)
    modifies freqs
    ensures Without(freqs[..], Present(slots, begin, end), old(freqs[..]))
  {
    for pos := begin to end
      invariant Without(freqs[..], Present(slots, begin, pos), old(freqs[..]))
    {
      assert Present(slots, begin, pos + 1) == Present(slots, begin, pos) + {slots[pos]};
      freqs[slots[pos]] := 0;
    }
  }

  /** The best window of an epoch, whose slots are then worth nothing to later epochs. */
  method SelectSegment(slots: seq<nat>, freqs: array<nat>, segmentFreqs: array<nat>, begin: nat, end: nat, k: nat, d: nat)
    returns (best: Segment)
    requires freqs != segmentFreqs && freqs.Length == segmentFreqs.Length && InTable(slots, freqs.Length)
    requires Sum(freqs[..]) < U32_MODULUS
    requires begin <= end <= |slots| && 0 < d <= k
    requires forall i :: 0 <= i < segmentFreqs.Length ==> segmentFreqs[i] == 0
    modifies freqs, segmentFreqs
    ensures IsEarliestBest(old(freqs[..]), slots, begin, end, k - d + 1, best)
    ensures best.begin <= best.end <= |slots|
    ensures Without(freqs[..], Present(slots, best.begin, best.end), old(freqs[..]))
    ensures forall i :: 0 <= i < segmentFreqs.Length ==> segmentFreqs[i] == 0
    ensures Sum(freqs[..]) <= Sum(old(freqs[..]))
  {
    var dmersInK := k - d + 1;
    best := BestWindow(slots, freqs, segmentFreqs, begin, end, dmersInK);
    hide IsEarliestBest;
    BestIsWithin(freqs[..], slots, begin, end, dmersInK, best);
    ZeroSlots(slots, freqs, best.begin, best.end);
    SumOfLess(freqs[..], old(freqs[..]));
  }

  lemma BestIsWithin(freqs: seq<nat>, slots: seq<nat>, begin: nat, end: nat, width: nat, best: Segment)
    requires begin <= end <= |slots| && IsEarliestBest(freqs, slots, begin, end, width, best)
    ensures best.begin <= best.end <= |slots|
    ensures best.score == 0 || (begin <= best.begin && best.end <= end && best.end - best.begin <= width)
  {
  }

  // ----- the training bytes

  /** Samples laid end to end: sample `i` is the bytes between offset `i` and offset `i + 1`. */
  datatype Corpus = Corpus(bytes: seq<byte>, offsets: seq<nat>) {
    ghost predicate Valid() {
      && 0 < |offsets| && offsets[0] == 0
      && (forall i, j :: 0 <= i <= j < |offsets| ==> offsets[i] <= offsets[j])
      && offsets[|offsets| - 1] == |bytes|
    }

    function Count(): nat
      requires 0 < |offsets|
    {
      |offsets| - 1
    }
  }

  /** The positions counted between `start` and `end`: one every `stride`, with room to read. */
  function Starts(start: nat, end: nat, readLength: nat, stride: nat): (positions: seq<nat>)
    requires 0 < readLength && 0 < stride
    ensures forall i :: 0 <= i < |positions| ==> positions[i] + readLength <= end
    ensures |positions| <= Max(end - start, 0)
    decreases Max(end - start, 0)
  {
    if start + readLength > end then [] else [start] + Starts(start + stride, end, readLength, stride)
  }

  /** The positions counted in the first `n` samples. */
  function TrainStarts(corpus: Corpus, n: nat, readLength: nat, stride: nat): (positions: seq<nat>)
    requires corpus.Valid() && n < |corpus.offsets| && 0 < readLength && 0 < stride
    ensures forall i :: 0 <= i < |positions| ==> positions[i] + readLength <= corpus.offsets[n]
    ensures |positions| <= corpus.offsets[n]
  {
    if n == 0 then []
    else TrainStarts(corpus, n - 1, readLength, stride) + Starts(corpus.offsets[n - 1], corpus.offsets[n], readLength, stride)
  }

  predicate Readable(bytes: seq<byte>, positions: seq<nat>) {
    forall i :: 0 <= i < |positions| ==> positions[i] + HASH_READ_LENGTH <= |bytes|
  }

  /** The slots of some positions. */
  function SlotsAt(bytes: seq<byte>, f: nat, d: nat, positions: seq<nat>): (slots: seq<nat>)
    requires f <= 64 && Readable(bytes, positions)
    ensures |slots| == |positions|
  {
    seq(|positions|, i requires 0 <= i < |positions| => HashToIndex(bytes, positions[i], f, d))
  }

  lemma SlotsAtOneMore(bytes: seq<byte>, f: nat, d: nat, positions: seq<nat>, next: nat)
    requires f <= 64 && Readable(bytes, positions) && next + HASH_READ_LENGTH <= |bytes|
    ensures Readable(bytes, positions + [next])
    ensures SlotsAt(bytes, f, d, positions + [next]) == SlotsAt(bytes, f, d, positions) + [HashToIndex(bytes, next, f, d)]
  {
  }

  lemma {:induction false} CountOfPrefix(slots: seq<nat>, last: nat, n: nat, slot: nat)
    requires n <= |slots|
    ensures Count(slots + [last], 0, n, slot) == Count(slots, 0, n, slot)
  {
    if n != 0 {
      CountOfPrefix(slots, last, n - 1, slot);
    }
  }

  /** The table counts the slots in `seen`. */
  ghost predicate Tallies(freqs: seq<nat>, seen: seq<nat>) {
    Counts(freqs, seen, 0, |seen|) && Sum(freqs) == |seen|
  }

  lemma TalliesOneMore(freqs: seq<nat>, seen: seq<nat>, slot: nat)
    requires slot < |freqs| && Tallies(freqs, seen)
    ensures Tallies(freqs[slot := freqs[slot] + 1], seen + [slot])
  {
    SumOfOneMore(freqs, slot);
    forall other | 0 <= other < |freqs|
      ensures Count(seen + [slot], 0, |seen| + 1, other) == Count(seen, 0, |seen|, other) + (if other == slot then 1 else 0)
    {
      CountOfPrefix(seen, slot, |seen|, other);
    }
  }

  datatype FrequencyContext = FrequencyContext(
    corpus: Corpus,
    trainSamples: nat,
    dmers: nat,                    // how many positions segments are chosen from
    freqs: seq<nat>,
    d: nat,
    f: nat)
  {
    ghost predicate Valid() {
      && corpus.Valid() && trainSamples < |corpus.offsets| && 0 < d && f <= 64
      && 0 < dmers && dmers + Max(d, HASH_READ_LENGTH) - 1 == corpus.offsets[trainSamples]
      && |corpus.bytes| < U32_MODULUS
      && |freqs| == Pow2(f) && Sum(freqs) <= |corpus.bytes|
    }

    /** The slot of every position. */
    function Slots(): (slots: seq<nat>)
      requires Valid()
      ensures |slots| == dmers
      ensures forall i :: 0 <= i < dmers && i + HASH_READ_LENGTH <= |corpus.bytes| ==>
                slots[i] == HashToIndex(corpus.bytes, i, f, d)
    {
      var bytes := corpus.bytes;
      seq(dmers, i requires 0 <= i < dmers && i + HASH_READ_LENGTH <= |bytes| => HashToIndex(bytes, i, f, d))
    }
  }

  /** Count one position every `stride` bytes of the sample between `start` and `end`. */
  method CountSample(bytes: seq<byte>, from: nat, end: nat, readLength: nat, stride: nat, d: nat, f: nat, freqs: array<nat>,
                     ghost done: seq<nat>)
    requires HASH_READ_LENGTH <= readLength && 0 < stride && end <= |bytes| && f <= 64
    requires freqs.Length == Pow2(f) && Readable(bytes, done)
    requires Tallies(freqs[..], SlotsAt(bytes, f, d, done))
    modifies freqs
    ensures Readable(bytes, done + Starts(from, end, readLength, stride))
    ensures Tallies(freqs[..], SlotsAt(bytes, f, d, done + Starts(from, end, readLength, stride)))
  {
    hide Tallies;
    hide SlotsAt;
    hide HashToIndex;
    var start: nat := from;
    ghost var counted: seq<nat> := done;
    ghost var all := done + Starts(from, end, readLength, stride);
    while start + readLength <= end
      invariant Readable(bytes, counted) && Tallies(freqs[..], SlotsAt(bytes, f, d, counted))
      invariant counted + Starts(start, end, readLength, stride) == all
      decreases end + stride - start
    {
      var slot := HashToIndex(bytes, start, f, d);
      SlotIsInTable(bytes, start, f, d);
      SlotsAtOneMore(bytes, f, d, counted, start);
      TalliesOneMore(freqs[..], SlotsAt(bytes, f, d, counted), slot);
      Regroup(counted, [start], Starts(start + stride, end, readLength, stride));
      freqs[slot] := freqs[slot] + 1;
      counted := counted + [start];
      start := start + stride;
    }
    assert counted + [] == counted;
  }

  /** Before the first sample nothing is counted. */
  lemma NothingCounted(corpus: Corpus, freqs: seq<nat>, d: nat, f: nat, readLength: nat, stride: nat)
    requires corpus.Valid() && f <= 64 && 0 < readLength && 0 < stride
    requires forall i :: 0 <= i < |freqs| ==> freqs[i] == 0
    ensures Readable(corpus.bytes, TrainStarts(corpus, 0, readLength, stride))
    ensures Tallies(freqs, SlotsAt(corpus.bytes, f, d, TrainStarts(corpus, 0, readLength, stride)))
  {
    SumOfZeros(freqs);
  }

  lemma NextSample(corpus: Corpus, n: nat, readLength: nat, stride: nat)
    requires corpus.Valid() && n + 1 < |corpus.offsets| && 0 < readLength && 0 < stride
    ensures corpus.offsets[n + 1] <= |corpus.bytes|
    ensures TrainStarts(corpus, n + 1, readLength, stride)
         == TrainStarts(corpus, n, readLength, stride)
            + Starts(corpus.offsets[n], corpus.offsets[n + 1], readLength, stride)
  {
  }

  lemma TalliesFit(freqs: seq<nat>, corpus: Corpus, n: nat, readLength: nat, stride: nat, d: nat, f: nat)
    requires corpus.Valid() && n < |corpus.offsets| && 0 < readLength && 0 < stride && f <= 64
    requires Readable(corpus.bytes, TrainStarts(corpus, n, readLength, stride))
    requires Tallies(freqs, SlotsAt(corpus.bytes, f, d, TrainStarts(corpus, n, readLength, stride)))
    ensures Sum(freqs) <= |corpus.bytes|
  {
  }

  /** The table of one `d`: refused for want of samples or bytes, otherwise it counts the training positions. */
  method Build(corpus: Corpus, d: nat, f: nat, trainSamples: nat, testSamples: nat, skip: nat)
    returns (context: Option<FrequencyContext>)
    requires corpus.Valid() && trainSamples <= corpus.Count() && 0 < d && f <= 31
    ensures var readLength := Max(d, HASH_READ_LENGTH);
            context.Some? <==> && readLength <= |corpus.bytes| < U32_MODULUS - 1
                               && 5 <= trainSamples && 1 <= testSamples && readLength <= corpus.offsets[trainSamples]
    ensures context.Some? ==>
              var c, readLength := context.value, Max(d, HASH_READ_LENGTH);
              var positions := TrainStarts(corpus, trainSamples, readLength, skip + 1);
              && c.Valid() && c.corpus == corpus && c.trainSamples == trainSamples && c.d == d && c.f == f
              && Readable(corpus.bytes, positions)
              && Tallies(c.freqs, SlotsAt(corpus.bytes, f, d, positions))
  {
    hide Tallies;
    hide SlotsAt;
    hide TrainStarts;
    hide Readable;
    hide Pow2;
    var trainingBytes := corpus.offsets[trainSamples];
    var readLength := Max(d, HASH_READ_LENGTH);
    if |corpus.bytes| < readLength || |corpus.bytes| >= U32_MODULUS - 1 {
      return None;
    }
    if trainSamples < 5 || testSamples < 1 || trainingBytes < readLength {
      return None;
    }
    var freqs := new nat[Pow2(f)](_ => 0);
    NothingCounted(corpus, freqs[..], d, f, readLength, skip + 1);
    ghost var bytes := corpus.bytes;
    for index := 0 to trainSamples
      invariant Readable(bytes, TrainStarts(corpus, index, readLength, skip + 1))
      invariant Tallies(freqs[..], SlotsAt(bytes, f, d, TrainStarts(corpus, index, readLength, skip + 1)))
    {
      NextSample(corpus, index, readLength, skip + 1);
      CountSample(corpus.bytes, corpus.offsets[index], corpus.offsets[index + 1], readLength, skip + 1, d, f, freqs,
                  TrainStarts(corpus, index, readLength, skip + 1));
    }
    TalliesFit(freqs[..], corpus, trainSamples, readLength, skip + 1, d, f);
    return Some(FrequencyContext(corpus, trainSamples, trainingBytes - readLength + 1, freqs[..], d, f));
  }

  // ----- epochs

  datatype Epochs = Epochs(count: nat, size: nat)

  function ComputeEpochs(maxDictSize: nat, dmers: nat, k: nat, passes: nat): (e: Epochs)
    requires 0 < k && 0 < passes && 0 < dmers
  {
    var minEpochSize := Min(k * 10, U32_MODULUS - 1);
    var count := Max(maxDictSize / k / passes, 1);
    var size := dmers / count;
    if size >= minEpochSize then Epochs(count, size)
    else
      var size := Min(minEpochSize, dmers);
      Epochs(dmers / size, size)
  }

  /** There is an epoch, none is empty, and together they lie within the positions. */
  predicate Cover(epochs: Epochs, dmers: nat) {
    0 < epochs.count && 0 < epochs.size && epochs.count * epochs.size <= dmers
  }

  /** The capacity as the program keeps it, in 32 bits. */
  function AsU32(n: nat): (r: u32)
    ensures n < U32_MODULUS ==> r == n
    ensures exists wraps: nat :: n == Wrapped(r, wraps)
  {
    assert n == Wrapped(n % U32_MODULUS, n / U32_MODULUS);
    n % U32_MODULUS
  }

  function Wrapped(r: u32, wraps: nat): nat {
    r + U32_MODULUS * wraps
  }

  /** A quotient, by what it is for. */
  lemma Quotient(n: nat, m: nat)
    requires 0 < m
    ensures n / m * m <= n < (n / m + 1) * m && m * (n / m) <= n
    ensures n < m * (n / m + 1)
  {
    assert n == m * (n / m) + n % m;
  }

  lemma QuotientOfQuotient(n: nat, a: nat, b: nat)
    requires 0 < a && 0 < b
    ensures n / a / b * a * b <= n < (n / a / b + 1) * a * b
  {
    var q, r := n / a, n / a / b;
    Quotient(n, a);
    Quotient(q, b);
    Times(r * b, q, a);
    Times(q + 1, (r + 1) * b, a);
    assert r * b * a == r * a * b && (r + 1) * b * a == (r + 1) * a * b;
  }

  /** Ten segments, as far as 32 bits go. */
  function TenSegments(k: nat): nat {
    Min(10 * k, U32_MODULUS - 1)
  }

  /** As many epochs as there are segments in the dictionary for each pass, and at least one. */
  predicate Wanted(n: nat, maxDictSize: nat, k: nat, passes: nat) {
    n * k * passes <= maxDictSize < (n + 1) * k * passes || (n == 1 && maxDictSize < k * passes)
  }

  /** Dividing `whole` into `count` parts of `size` leaves less than one more byte for each. */
  predicate LongestParts(whole: nat, count: nat, size: nat) {
    count * size <= whole < count * (size + 1)
  }

  /** Of parts of `size` there are as many as `whole` has room for. */
  predicate MostParts(whole: nat, count: nat, size: nat) {
    count * size <= whole < (count + 1) * size
  }

  /**
   The wanted number of epochs, as long as they can be, if that leaves each of them ten segments;
   otherwise epochs of ten segments, or of everything there is, as many as there are.
   */
  ghost predicate WellDivided(e: Epochs, wanted: nat, dmers: nat, k: nat) {
    if wanted * TenSegments(k) <= dmers then e.count == wanted && LongestParts(dmers, wanted, e.size)
    else e.size == Min(TenSegments(k), dmers) && MostParts(dmers, e.count, e.size)
  }

  lemma WantedIs(maxDictSize: nat, k: nat, passes: nat)
    requires 0 < k && 0 < passes
    ensures Wanted(Max(maxDictSize / k / passes, 1), maxDictSize, k, passes)
  {
    QuotientOfQuotient(maxDictSize, k, passes);
    if maxDictSize / k / passes == 0 {
      assert (0 + 1) * k * passes == k * passes;
    }
  }

  /** Parts of `least` fit `count` times exactly when the longest `count` parts are that long. */
  lemma PartsFit(whole: nat, count: nat, least: nat)
    requires 0 < count
    ensures whole / count >= least <==> count * least <= whole
  {
    Quotient(whole, count);
    if whole / count >= least {
      Times(least, whole / count, count);
    } else {
      Times(whole / count + 1, least, count);
    }
  }

  lemma QuotientIsPositive(n: nat, m: nat)
    requires 0 < m <= n
    ensures 0 < n / m
  {
    Quotient(n, m);
  }

  /** The epochs are as they should be, and lie within the positions. */
  lemma EpochsCover(maxDictSize: nat, dmers: nat, k: nat, passes: nat)
    requires 0 < k && 0 < passes && 0 < dmers
    ensures Cover(ComputeEpochs(maxDictSize, dmers, k, passes), dmers)
    ensures exists wanted :: Wanted(wanted, maxDictSize, k, passes)
                             && WellDivided(ComputeEpochs(maxDictSize, dmers, k, passes), wanted, dmers, k)
  {
    hide Wanted;
    var count := Max(maxDictSize / k / passes, 1);
    WantedIs(maxDictSize, k, passes);
    PartsFit(dmers, count, TenSegments(k));
    Quotient(dmers, count);
    if dmers / count < TenSegments(k) {
      var size := Min(TenSegments(k), dmers);
      Quotient(dmers, size);
      QuotientIsPositive(dmers, size);
    }
  }

  function Product(n: nat, k: nat, passes: nat): nat {
    n * k * passes
  }

  lemma ProductsGrow(m: nat, n: nat, k: nat, passes: nat)
    requires m <= n
    ensures Product(m, k, passes) <= Product(n, k, passes)
  {
    Times(m, n, k);
    Times(m * k, n * k, passes);
  }

  lemma WantedIn(n: nat, maxDictSize: nat, k: nat, passes: nat)
    ensures Wanted(n, maxDictSize, k, passes)
       <==> || Product(n, k, passes) <= maxDictSize < Product(n + 1, k, passes)
            || (n == 1 && maxDictSize < Product(1, k, passes))
  {
    assert Product(1, k, passes) == k * passes;
  }

  /** No smaller number is wanted, so there is only one, and the division is determined. */
  lemma WantedIsUnique(m: nat, n: nat, maxDictSize: nat, k: nat, passes: nat)
    requires 0 < m < n && Wanted(n, maxDictSize, k, passes)
    ensures !Wanted(m, maxDictSize, k, passes)
  {
    hide Wanted;
    hide Product;
    WantedIn(m, maxDictSize, k, passes);
    WantedIn(n, maxDictSize, k, passes);
    ProductsGrow(m + 1, n, k, passes);
    ProductsGrow(1, n, k, passes);
  }

  // ----- the content

  /** What one epoch gave: its best segment, and how many of its bytes were copied. */
  datatype Visit = Visit(segment: Segment, size: nat)

  ghost predicate InRange(context: FrequencyContext, visits: seq<Visit>) {
    forall i :: 0 <= i < |visits| ==>
      && visits[i].segment.begin <= visits[i].segment.end <= context.dmers
      && visits[i].segment.begin + visits[i].size <= |context.corpus.bytes|
  }

  /** The slots the visits have given out. */
  ghost function TakenBy(context: FrequencyContext, visits: seq<Visit>): set<nat>
    requires context.Valid() && InRange(context, visits)
    decreases |visits|
  {
    if visits == [] then {}
    else
      var last := visits[|visits| - 1].segment;
      TakenBy(context, visits[..|visits| - 1]) + Present(context.Slots(), last.begin, last.end)
  }

  /** The frequencies with the slots in `taken` zeroed. */
  function LeftBy(freqs: seq<nat>, taken: set<nat>): (left: seq<nat>)
    ensures |left| == |freqs|
  {
    seq(|freqs|, i requires 0 <= i < |freqs| => if i in taken then 0 else freqs[i])
  }

  lemma LeftByMore(freqs: seq<nat>, taken: set<nat>, more: set<nat>, left: seq<nat>)
    requires Without(left, more, LeftBy(freqs, taken))
    ensures left == LeftBy(freqs, taken + more)
  {
  }

  lemma LeftByNone(freqs: seq<nat>)
    ensures LeftBy(freqs, {}) == freqs
  {
  }

  /** The copied bytes, the latest visit's first. */
  ghost function Copied(context: FrequencyContext, visits: seq<Visit>): (bytes: seq<byte>)
    requires InRange(context, visits)
    ensures |bytes| == Used(visits)
    decreases |visits|
  {
    if visits == [] then []
    else
      var last := visits[|visits| - 1];
      context.corpus.bytes[last.segment.begin..last.segment.begin + last.size] + Copied(context, visits[..|visits| - 1])
  }

  ghost function Used(visits: seq<Visit>): nat {
    if visits == [] then 0 else Used(visits[..|visits| - 1]) + visits[|visits| - 1].size
  }

  /** How many visits running, up to the last, had nothing to give. */
  ghost function ZeroRun(visits: seq<Visit>): nat {
    if visits == [] || visits[|visits| - 1].segment.score != 0 then 0 else ZeroRun(visits[..|visits| - 1]) + 1
  }

  /** The dictionary is full, ten epochs running had nothing to give, or a segment did not fit. */
  ghost predicate Finished(capacity: nat, visits: seq<Visit>) {
    || capacity <= Used(visits)
    || ZeroRun(visits) >= 10
    || (visits != [] && visits[|visits| - 1].segment.score != 0 && visits[|visits| - 1].size == 0)
  }

  /** How much of a segment is copied into `room` bytes: what it covers, cut short, but not to less than a substring. */
  ghost function Fitted(segment: Segment, d: nat, room: nat): nat
    requires segment.begin <= segment.end && 0 < d
  {
    var size := Min(segment.end - segment.begin + d - 1, room);
    if segment.score == 0 || size < d then 0 else size
  }

  function EpochStart(epoch: nat, epochs: Epochs): nat {
    epoch * epochs.size
  }

  /** The next epoch in turn gave its earliest best window, by what the visits before had left. */
  ghost predicate GoodVisit(context: FrequencyContext, freqs: seq<nat>, epochs: Epochs, width: nat, capacity: nat,
                            earlier: seq<Visit>, visit: Visit)
    requires context.Valid() && InRange(context, earlier) && 0 < epochs.count
  {
    var begin := EpochStart(|earlier| % epochs.count, epochs);
    && begin + epochs.size <= context.dmers
    && IsEarliestBest(LeftBy(freqs, TakenBy(context, earlier)), context.Slots(), begin, begin + epochs.size, width, visit.segment)
    && visit.segment.begin <= visit.segment.end <= context.dmers
    && visit.size == Fitted(visit.segment, context.d, Max(capacity - Used(earlier), 0))
    && visit.segment.begin + visit.size <= context.corpus.offsets[context.trainSamples] <= |context.corpus.bytes|
  }

  /** Every visit was good when it was made, and none came after the end. */
  ghost predicate GoodVisits(context: FrequencyContext, freqs: seq<nat>, epochs: Epochs, width: nat, capacity: nat,
                             visits: seq<Visit>)
    requires context.Valid() && InRange(context, visits) && 0 < epochs.count
    decreases |visits|
  {
    visits != [] ==>
      var earlier := visits[..|visits| - 1];
      && GoodVisits(context, freqs, epochs, width, capacity, earlier) && !Finished(capacity, earlier)
      && GoodVisit(context, freqs, epochs, width, capacity, earlier, visits[|visits| - 1])
  }

  /** One visit more, part by part. */
  lemma OneMoreVisit(context: FrequencyContext, freqs: seq<nat>, epochs: Epochs, width: nat, capacity: nat,
                     visits: seq<Visit>, visit: Visit)
    requires context.Valid() && 0 < epochs.count && InRange(context, visits)
    requires GoodVisits(context, freqs, epochs, width, capacity, visits) && !Finished(capacity, visits)
    requires GoodVisit(context, freqs, epochs, width, capacity, visits, visit)
    ensures InRange(context, visits + [visit]) && GoodVisits(context, freqs, epochs, width, capacity, visits + [visit])
    ensures TakenBy(context, visits + [visit])
         == TakenBy(context, visits) + Present(context.Slots(), visit.segment.begin, visit.segment.end)
    ensures Copied(context, visits + [visit])
         == context.corpus.bytes[visit.segment.begin..visit.segment.begin + visit.size] + Copied(context, visits)
    ensures Used(visits + [visit]) == Used(visits) + visit.size
    ensures ZeroRun(visits + [visit]) == if visit.segment.score == 0 then ZeroRun(visits) + 1 else 0
  {
    hide IsEarliestBest;
    hide Present;
    hide LeftBy;
    hide FrequencyContext.Slots;
    assert (visits + [visit])[..|visits|] == visits;
  }

  lemma {:induction false} GoodPrefix(context: FrequencyContext, freqs: seq<nat>, epochs: Epochs, width: nat, capacity: nat,
                                      visits: seq<Visit>, n: nat)
    requires context.Valid() && 0 < epochs.count && InRange(context, visits) && n <= |visits|
    requires GoodVisits(context, freqs, epochs, width, capacity, visits)
    ensures InRange(context, visits[..n]) && GoodVisits(context, freqs, epochs, width, capacity, visits[..n])
    ensures n < |visits| ==> !Finished(capacity, visits[..n])
                             && GoodVisit(context, freqs, epochs, width, capacity, visits[..n], visits[n])
    decreases |visits|
  {
    hide GoodVisit;
    hide Finished;
    if n == |visits| {
      assert visits[..n] == visits;
    } else {
      var earlier := visits[..|visits| - 1];
      GoodPrefix(context, freqs, epochs, width, capacity, earlier, n);
      assert earlier[..n] == visits[..n];
    }
  }

  lemma SameVisit(context: FrequencyContext, freqs: seq<nat>, epochs: Epochs, width: nat, capacity: nat,
                  earlier: seq<Visit>, a: Visit, b: Visit)
    requires context.Valid() && 0 < epochs.count && InRange(context, earlier)
    requires GoodVisit(context, freqs, epochs, width, capacity, earlier, a)
    requires GoodVisit(context, freqs, epochs, width, capacity, earlier, b)
    ensures a == b
  {
    hide IsEarliestBest;
    hide LeftBy;
    hide TakenBy;
    hide EpochStart;
    hide FrequencyContext.Slots;
    var begin := EpochStart(|earlier| % epochs.count, epochs);
    EarliestBestIsUnique(LeftBy(freqs, TakenBy(context, earlier)), context.Slots(), begin, begin + epochs.size, width,
                         a.segment, b.segment);
  }

  lemma OneMoreTaken<T>(s: seq<T>, n: nat)
    requires 0 < n <= |s|
    ensures s[..n] == s[..n - 1] + [s[n - 1]]
  {
  }

  lemma {:induction false} VisitsAgree(context: FrequencyContext, freqs: seq<nat>, epochs: Epochs, width: nat, capacity: nat,
                                       v: seq<Visit>, w: seq<Visit>, n: nat)
    requires context.Valid() && 0 < epochs.count && InRange(context, v) && InRange(context, w) && n <= |v| && n <= |w|
    requires GoodVisits(context, freqs, epochs, width, capacity, v) && GoodVisits(context, freqs, epochs, width, capacity, w)
    ensures v[..n] == w[..n]
  {
    if n != 0 {
      hide GoodVisits;
      hide GoodVisit;
      hide Finished;
      hide InRange;
      VisitsAgree(context, freqs, epochs, width, capacity, v, w, n - 1);
      GoodPrefix(context, freqs, epochs, width, capacity, v, n - 1);
      GoodPrefix(context, freqs, epochs, width, capacity, w, n - 1);
      SameVisit(context, freqs, epochs, width, capacity, v[..n - 1], v[n - 1], w[n - 1]);
      OneMoreTaken(v, n);
      OneMoreTaken(w, n);
    }
  }

  /** The visits, and with them the content, are determined by the table and the sizes. */
  lemma ContentIsDetermined(context: FrequencyContext, freqs: seq<nat>, epochs: Epochs, width: nat, capacity: nat,
                            v: seq<Visit>, w: seq<Visit>)
    requires context.Valid() && 0 < epochs.count && InRange(context, v) && InRange(context, w)
    requires GoodVisits(context, freqs, epochs, width, capacity, v) && GoodVisits(context, freqs, epochs, width, capacity, w)
    requires Finished(capacity, v) && Finished(capacity, w)
    ensures v == w
  {
    hide GoodVisits;
    hide GoodVisit;
    hide Finished;
    var n := Min(|v|, |w|);
    VisitsAgree(context, freqs, epochs, width, capacity, v, w, n);
    GoodPrefix(context, freqs, epochs, width, capacity, v, n);
    GoodPrefix(context, freqs, epochs, width, capacity, w, n);
    assert v[..|v|] == v && w[..|w|] == w;
  }

  lemma SlotsAreInTable(context: FrequencyContext)
    requires context.Valid()
    ensures InTable(context.Slots(), Pow2(context.f))
  {
    forall i | 0 <= i < context.dmers
      ensures context.Slots()[i] < Pow2(context.f)
    {
      SlotIsInTable(context.corpus.bytes, i, context.f, context.d);
    }
  }

  lemma EpochIsWithin(epoch: nat, epochs: Epochs, dmers: nat)
    requires epoch < epochs.count && Cover(epochs, dmers)
    ensures epoch * epochs.size == EpochStart(epoch, epochs) && EpochStart(epoch, epochs) + epochs.size <= dmers
  {
    Times(epoch + 1, epochs.count, epochs.size);
  }

  /** Copy in front of what is there. */
  method CopyBefore(content: array<byte>, tail: nat, chunk: seq<byte>)
    requires |chunk| <= tail <= content.Length
    modifies content
    ensures content[tail - |chunk|..] == chunk + old(content[tail..])
    ensures forall i :: 0 <= i < tail - |chunk| ==> content[i] == old(content[i])
  {
    forall i | 0 <= i < |chunk| {
      content[tail - |chunk| + i] := chunk[i];
    }
  }

  /** Choose from one epoch, by what the visits so far have left. */
  method TakeSegment(context: FrequencyContext, freqs: array<nat>, segmentFreqs: array<nat>, epochs: Epochs, epoch: nat, k: nat,
                     ghost initial: seq<nat>, ghost taken: set<nat>)
    returns (segment: Segment)
    requires context.Valid() && context.d <= k
    requires freqs != segmentFreqs && freqs.Length == segmentFreqs.Length == Pow2(context.f)
    requires freqs[..] == LeftBy(initial, taken) && Sum(freqs[..]) < U32_MODULUS
    requires forall i :: 0 <= i < segmentFreqs.Length ==> segmentFreqs[i] == 0
    requires epoch < epochs.count && Cover(epochs, context.dmers)
    modifies freqs, segmentFreqs
    ensures forall i :: 0 <= i < segmentFreqs.Length ==> segmentFreqs[i] == 0
    ensures Sum(freqs[..]) < U32_MODULUS
    ensures var begin := EpochStart(epoch, epochs);
            && begin + epochs.size <= context.dmers
            && IsEarliestBest(LeftBy(initial, taken), context.Slots(), begin, begin + epochs.size, k - context.d + 1, segment)
            && segment.begin <= segment.end <= context.dmers
            && freqs[..] == LeftBy(initial, taken + Present(context.Slots(), segment.begin, segment.end))
  {
    hide Pow2;
    hide FrequencyContext.Slots;
    hide Present;
    hide EpochStart;
    hide IsEarliestBest;
    var begin := epoch * epochs.size;
    EpochIsWithin(epoch, epochs, context.dmers);
    SlotsAreInTable(context);
    segment := SelectSegment(context.Slots(), freqs, segmentFreqs, begin, begin + epochs.size, k, context.d);
    LeftByMore(initial, taken, Present(context.Slots(), segment.begin, segment.end), freqs[..]);
  }

  /** The visits, the slots they took, and the bytes they filled. */
  ghost predicate Chosen(context: FrequencyContext, freqs: seq<nat>, epochs: Epochs, width: nat, capacity: nat,
                         visits: seq<Visit>, taken: set<nat>, filled: seq<byte>)
    requires context.Valid() && 0 < epochs.count
  {
    && InRange(context, visits) && GoodVisits(context, freqs, epochs, width, capacity, visits)
    && taken == TakenBy(context, visits) && filled == Copied(context, visits)
  }

  /** One visit more; what it copies lies in the training bytes. */
  lemma ChosenMore(context: FrequencyContext, freqs: seq<nat>, epochs: Epochs, width: nat, capacity: nat,
                   visits: seq<Visit>, taken: set<nat>, filled: seq<byte>, segment: Segment) returns (visit: Visit)
    requires context.Valid() && 0 < epochs.count && !Finished(capacity, visits)
    requires Chosen(context, freqs, epochs, width, capacity, visits, taken, filled)
    requires var begin := EpochStart(|visits| % epochs.count, epochs);
             && begin + epochs.size <= context.dmers
             && IsEarliestBest(LeftBy(freqs, taken), context.Slots(), begin, begin + epochs.size, width, segment)
    requires segment.begin <= segment.end <= context.dmers
    ensures visit == Visit(segment, Fitted(segment, context.d, capacity - |filled|))
    ensures segment.begin + visit.size <= |context.corpus.bytes|
    ensures var chunk := context.corpus.bytes[segment.begin..segment.begin + visit.size];
            Chosen(context, freqs, epochs, width, capacity, visits + [visit],
                   taken + Present(context.Slots(), segment.begin, segment.end), chunk + filled)
    ensures Used(visits + [visit]) == |filled| + visit.size
    ensures ZeroRun(visits + [visit]) == if segment.score == 0 then ZeroRun(visits) + 1 else 0
    ensures Finished(capacity, visits + [visit])
       <==> || capacity <= |filled| + visit.size || ZeroRun(visits + [visit]) >= 10
            || (segment.score != 0 && visit.size == 0)
  {
    hide IsEarliestBest;
    hide Present;
    hide TakenBy;
    hide LeftBy;
    hide EpochStart;
    visit := Visit(segment, Fitted(segment, context.d, capacity - |filled|));
    OneMoreVisit(context, freqs, epochs, width, capacity, visits, visit);
  }

  lemma NoVisits(context: FrequencyContext, freqs: seq<nat>, epochs: Epochs, width: nat, capacity: nat)
    requires context.Valid() && 0 < epochs.count
    ensures Chosen(context, freqs, epochs, width, capacity, [], {}, []) && ZeroRun([]) == 0 && Used([]) == 0
    ensures Finished(capacity, []) <==> capacity == 0
    ensures LeftBy(freqs, {}) == freqs
  {
    LeftByNone(freqs);
  }

  lemma OneTimeMore(q: nat, count: nat)
    ensures (q + 1) * count + 0 == q * count + count
  {
  }

  lemma Split(n: nat, count: nat)
    requires 0 < count
    ensures n == n / count * count + n % count && n % count < count
  {
  }

  lemma InTurn(n: nat, count: nat)
    requires 0 < count
    ensures (n % count + 1) % count == (n + 1) % count
  {
    Split(n, count);
    var q, r := n / count, n % count;
    if r + 1 == count {
      OneTimeMore(q, count);
      Divided(n + 1, q + 1, 0, count);
    } else {
      Divided(n + 1, q, r + 1, count);
    }
  }

  /** Copy as much of a segment as there is room for in front of what is there, unless not even one substring fits. */
  method Place(context: FrequencyContext, content: array<byte>, tail: nat, segment: Segment) returns (copied: bool, newTail: nat)
    requires context.Valid() && tail <= content.Length && segment.score != 0
    requires segment.begin <= segment.end <= context.dmers
    modifies content
    ensures newTail == tail - Fitted(segment, context.d, tail) && copied == (newTail < tail)
    ensures segment.begin + (tail - newTail) <= |context.corpus.bytes|
    ensures content[newTail..] == context.corpus.bytes[segment.begin..segment.begin + (tail - newTail)] + old(content[tail..])
    ensures forall i :: 0 <= i < newTail ==> content[i] == old(content[i])
  {
    var size := Min(segment.end - segment.begin + context.d - 1, tail);
    if size < context.d {
      assert context.corpus.bytes[segment.begin..segment.begin] + content[tail..] == content[tail..];
      return false, tail;
    }
    newTail := tail - size;
    CopyBefore(content, tail, context.corpus.bytes[segment.begin..segment.begin + size]);
    return true, newTail;
  }

  /**
   One segment from each epoch in turn, filling the content from the back, until it is full,
   ten epochs running have nothing to give, or a segment no longer fits.
   */
  method BuildContent(context: FrequencyContext, freqs: array<nat>, segmentFreqs: array<nat>, content: array<byte>, k: nat)
    returns (tail: nat, ghost visits: seq<Visit>, ghost taken: set<nat>)
    requires context.Valid() && context.d <= k
    requires freqs != segmentFreqs && freqs.Length == segmentFreqs.Length == Pow2(context.f)
    requires Sum(freqs[..]) < U32_MODULUS
    requires forall i :: 0 <= i < segmentFreqs.Length ==> segmentFreqs[i] == 0
    modifies freqs, segmentFreqs, content
    ensures tail <= content.Length && content[..tail] == old(content[..tail])
    ensures var epochs := ComputeEpochs(AsU32(content.Length), context.dmers, k, 1);
            && 0 < epochs.count
            && Chosen(context, old(freqs[..]), epochs, k - context.d + 1, content.Length, visits, taken, content[tail..])
    ensures Finished(content.Length, visits)
    ensures freqs[..] == LeftBy(old(freqs[..]), taken)
    ensures forall i :: 0 <= i < segmentFreqs.Length ==> segmentFreqs[i] == 0
  {
    hide AsU32;
    hide ComputeEpochs;
    hide WellDivided;
    hide Wanted;
    hide IsEarliestBest;
    hide Chosen;
    hide Present;
    hide LeftBy;
    hide EpochStart;
    hide Finished;
    hide Used;
    hide ZeroRun;
    hide Pow2;
    hide FrequencyContext.Slots;
    ghost var initial, width := freqs[..], k - context.d + 1;
    tail := content.Length;
    var epochs := ComputeEpochs(AsU32(content.Length), context.dmers, k, 1);
    EpochsCover(AsU32(content.Length), context.dmers, k, 1);
    hide Cover;
    var zeroScoreRun: nat, epoch: nat := 0, 0;
    visits, taken := [], {};
    NoVisits(context, initial, epochs, width, content.Length);
    assert content[tail..] == [];
    while tail > 0
      invariant tail <= content.Length && forall i :: 0 <= i < tail ==> content[i] == old(content[i])
      invariant epoch < epochs.count && epoch == |visits| % epochs.count
      invariant zeroScoreRun == ZeroRun(visits) < MAX_ZERO_SCORE_RUN && tail == content.Length - Used(visits)
      invariant tail > 0 <==> !Finished(content.Length, visits)
      invariant Chosen(context, initial, epochs, width, content.Length, visits, taken, content[tail..])
      invariant freqs[..] == LeftBy(initial, taken) && Sum(freqs[..]) < U32_MODULUS
      invariant forall i :: 0 <= i < segmentFreqs.Length ==> segmentFreqs[i] == 0
      decreases tail, MAX_ZERO_SCORE_RUN - zeroScoreRun
    {
      var segment := TakeSegment(context, freqs, segmentFreqs, epochs, epoch, k, initial, taken);
      ghost var filled := content[tail..];
      ghost var visit := ChosenMore(context, initial, epochs, width, content.Length, visits, taken, filled, segment);
      InTurn(|visits|, epochs.count);
      epoch := (epoch + 1) % epochs.count;
      visits, taken := visits + [visit], taken + Present(context.Slots(), segment.begin, segment.end);
      if segment.score == 0 {
        assert context.corpus.bytes[segment.begin..segment.begin] + filled == filled;
        zeroScoreRun := zeroScoreRun + 1;
        if zeroScoreRun >= MAX_ZERO_SCORE_RUN {
          break;
        }
        continue;
      }
      zeroScoreRun := 0;
      var copied: bool;
      copied, tail := Place(context, content, tail, segment);
      if !copied {
        break;
      }
    }
  }
}
