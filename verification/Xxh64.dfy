/**
 The frame checksum, fed in pieces.

 The state keeps four lanes and up to 31 bytes it has not yet mixed in.  The
 reference runs over the whole content at once: whole 32-byte stripes into the
 lanes, the rest at the end.  However the content is cut, the state stands for
 the same content, so the digest depends on the content alone.

 Nothing of this depends on the arithmetic of the mixing, so the state carries
 its mixing functions as a value; `Xxh64Mixer` is the program's.
 */
module Xxh64 {
  import opened Common

  // A 64-bit word, on which the program's operations wrap around.
  type word = x: int | 0 <= x < U64_MODULUS

  const PRIME64_1: word := 0x9E37_79B1_85EB_CA87
  const PRIME64_2: word := 0xC2B2_AE3D_27D4_EB4F
  const PRIME64_3: word := 0x1656_67B1_9E37_79F9
  const PRIME64_4: word := 0x85EB_CA77_C2B2_AE63
  const PRIME64_5: word := 0x27D4_EB2F_1656_67C5

  const STRIPE: nat := 32

  datatype Lanes = Lanes(v1: word, v2: word, v3: word, v4: word)

  function Wrap(n: int): word {
    n % U64_MODULUS
  }

  function RotateLeft(x: word, n: nat): word
    requires n < 64
  {
    Wrap(x * Pow2(n) + x / Pow2(64 - n))
  }

  function ShiftRight(x: word, n: nat): word {
    Wrap(x / Pow2(n))
  }

  function Xor(a: word, b: word): word {
    (a as bv64 ^ b as bv64) as word
  }

  function ReadLe(s: seq<byte>): word {
    Wrap(Le(s))
  }

  function Round(acc: word, lane: word): word {
    Wrap(RotateLeft(Wrap(acc + lane * PRIME64_2), 31) * PRIME64_1)
  }

  function MergeRound(acc: word, value: word): word {
    Wrap(Xor(acc, Round(0, value)) * PRIME64_1 + PRIME64_4)
  }

  function Avalanche(hash: word): word {
    var a := Wrap(Xor(hash, ShiftRight(hash, 33)) * PRIME64_2);
    var b := Wrap(Xor(a, ShiftRight(a, 29)) * PRIME64_3);
    Xor(b, ShiftRight(b, 32))
  }

  function InitialLanes(seed: word): Lanes {
    Lanes(Wrap(seed + PRIME64_1 + PRIME64_2), Wrap(seed + PRIME64_2), seed, Wrap(seed - PRIME64_1))
  }

  function ConsumeChunk(v: Lanes, stripe: seq<byte>): Lanes
    requires |stripe| == STRIPE
  {
    Lanes(Round(v.v1, ReadLe(stripe[..8])), Round(v.v2, ReadLe(stripe[8..16])),
          Round(v.v3, ReadLe(stripe[16..24])), Round(v.v4, ReadLe(stripe[24..])))
  }

  function MergeLanes(v: Lanes): word {
    var value := Wrap(RotateLeft(v.v1, 1) + RotateLeft(v.v2, 7) + RotateLeft(v.v3, 12) + RotateLeft(v.v4, 18));
    MergeRound(MergeRound(MergeRound(MergeRound(value, v.v1), v.v2), v.v3), v.v4)
  }

  function MixEight(hash: word, eight: seq<byte>): word {
    Wrap(RotateLeft(Xor(hash, Round(0, ReadLe(eight))), 27) * PRIME64_1 + PRIME64_4)
  }

  function MixFour(hash: word, four: seq<byte>): word {
    Wrap(RotateLeft(Xor(hash, Wrap(ReadLe(four) * PRIME64_1)), 23) * PRIME64_2 + PRIME64_3)
  }

  function MixOne(hash: word, b: byte): word {
    Wrap(RotateLeft(Xor(hash, Wrap(b as int * PRIME64_5)), 11) * PRIME64_1)
  }

  /** The arithmetic of one hash. */
  datatype Mixer = Mixer(
    initial: Lanes,                        // the lanes before any stripe
    short: word,                           // where contents below one stripe start
    consume: (Lanes, seq<byte>) -> Lanes,  // one stripe into the lanes
    merge: Lanes -> word,
    length: (word, word) -> word,          // the content's length into the hash
    eight: (word, seq<byte>) -> word,
    four: (word, seq<byte>) -> word,
    one: (word, byte) -> word,
    avalanche: word -> word)

  function Xxh64Mixer(seed: word): Mixer {
    Mixer(InitialLanes(seed), Wrap(seed + PRIME64_5),
          (v, s) => if |s| == STRIPE then ConsumeChunk(v, s) else v,
          v => MergeLanes(v), (hash, n) => Wrap(hash as int + n as int),
          (hash, s) => MixEight(hash, s), (hash, s) => MixFour(hash, s), (hash, b) => MixOne(hash, b),
          hash => Avalanche(hash))
  }

  // ----- the reference digest

  /** The lanes after the first `n` stripes of `s`. */
  function Stripes(m: Mixer, s: seq<byte>, n: nat): Lanes
    requires STRIPE * n <= |s|
  {
    if n == 0 then m.initial else m.consume(Stripes(m, s, n - 1), s[STRIPE * (n - 1)..STRIPE * n])
  }

  /** The bytes left after the last whole stripe: in eights, then at most one four, then singly. */
  function MixEights(m: Mixer, hash: word, t: seq<byte>): word
    decreases |t|
  {
    if |t| >= 8 then MixEights(m, m.eight(hash, t[..8]), t[8..])
    else if |t| >= 4 then MixOnes(m, m.four(hash, t[..4]), t[4..])
    else MixOnes(m, hash, t)
  }

  function MixOnes(m: Mixer, hash: word, t: seq<byte>): word
    decreases |t|
  {
    if t == [] then hash else MixOnes(m, m.one(hash, t[0]), t[1..])
  }

  function Digest(m: Mixer, s: seq<byte>): word {
    var n := |s| / STRIPE;
    var start := if Wrap(|s|) >= STRIPE then m.merge(Stripes(m, s, n)) else m.short;
    m.avalanche(MixEights(m, m.length(start, Wrap(|s|)), s[STRIPE * n..]))
  }

  lemma {:induction false} StripesOfPrefix(m: Mixer, s: seq<byte>, more: seq<byte>, n: nat)
    requires STRIPE * n <= |s|
    ensures Stripes(m, s + more, n) == Stripes(m, s, n)
  {
    if n != 0 {
      StripesOfPrefix(m, s, more, n - 1);
      assert (s + more)[STRIPE * (n - 1)..STRIPE * n] == s[STRIPE * (n - 1)..STRIPE * n];
    }
  }

  lemma WrapAdd(a: nat, b: nat)
    ensures Wrap(Wrap(a) + b) == Wrap(a + b)
  {
  }

  /** What is not yet in the lanes grows by the input. */
  lemma Carry(content: seq<byte>, input: seq<byte>, n: nat)
    requires STRIPE * n <= |content|
    ensures (content + input)[STRIPE * n..] == content[STRIPE * n..] + input
  {
  }

  /** The next stripe, and what follows it. */
  lemma TakeStripe(s: seq<byte>, n: nat, stripe: seq<byte>, rest: seq<byte>)
    requires STRIPE * n <= |s| && s[STRIPE * n..] == stripe + rest && |stripe| == STRIPE
    ensures STRIPE * (n + 1) <= |s|
    ensures s[STRIPE * n..STRIPE * (n + 1)] == stripe && s[STRIPE * (n + 1)..] == rest
  {
    assert s[STRIPE * n..STRIPE * (n + 1)] == s[STRIPE * n..][..STRIPE];
    assert s[STRIPE * (n + 1)..] == s[STRIPE * n..][STRIPE..];
  }

  // ----- the state

  class Xxh64State {
    const mixer: Mixer
    var totalLen: word
    var lanes: Lanes
    const buffered: array<byte>
    var bufferedLen: nat

    /** Everything fed in since the state was made, and how many stripes of it are in the lanes. */
    ghost var content: seq<byte>
    ghost var stripes: nat

    ghost predicate Valid()
      reads this, buffered
    {
      && buffered.Length == STRIPE
      && totalLen == Wrap(|content|)
      && bufferedLen < STRIPE && STRIPE * stripes + bufferedLen == |content|
      && lanes == Stripes(mixer, content, stripes)
      && buffered[..bufferedLen] == content[STRIPE * stripes..]
    }

    constructor (mixer: Mixer)
      ensures Valid() && content == [] && this.mixer == mixer && fresh(buffered)
    {
      this.mixer := mixer;
      totalLen := 0;
      lanes := mixer.initial;
      buffered := new byte[STRIPE](_ => 0);
      bufferedLen := 0;
      content := [];
      stripes := 0;
    }

    /** Start over, as a new state would. */
    method Reset()
      requires buffered.Length == STRIPE
      modifies this
      ensures Valid() && content == []
    {
      totalLen, lanes, bufferedLen := 0, mixer.initial, 0;
      content, stripes := [], 0;
    }

    method CopyIn(at: nat, bytes: seq<byte>)
      requires at + |bytes| <= buffered.Length
      modifies buffered
      ensures buffered[..at + |bytes|] == old(buffered[..at]) + bytes
    {
      forall i | 0 <= i < |bytes| {
        buffered[at + i] := bytes[i];
      }
    }

    /** With nothing buffered: the lanes hold `stripes` stripes of the content and `rest` follows. */
    ghost predicate Between(rest: seq<byte>)
      reads this
    {
      && STRIPE * stripes <= |content| && content[STRIPE * stripes..] == rest
      && lanes == Stripes(mixer, content, stripes)
    }

    /** Mix in every whole stripe of `input`. */
    method ConsumeStripes(input: seq<byte>) returns (rest: seq<byte>)
      requires Between(input)
      modifies this`lanes, this`stripes
      ensures |rest| < STRIPE && Between(rest)
    {
      rest := input;
      while |rest| >= STRIPE
        invariant Between(rest)
      {
        TakeStripe(content, stripes, rest[..STRIPE], rest[STRIPE..]);
        lanes := mixer.consume(lanes, rest[..STRIPE]);
        rest := rest[STRIPE..];
        stripes := stripes + 1;
      }
    }

    /** Count the input; it is content from here on, though nothing is buffered or mixed in yet. */
    method Count(input: seq<byte>)
      requires Valid()
      modifies this`totalLen, this`content
      ensures content == old(content) + input && totalLen == Wrap(|content|)
      ensures lanes == Stripes(mixer, content, stripes)
      ensures content[STRIPE * stripes..] == buffered[..bufferedLen] + input
    {
      WrapAdd(|content|, |input|);
      totalLen := Wrap(totalLen + |input|);
      StripesOfPrefix(mixer, content, input, stripes);
      Carry(content, input, stripes);
      content := content + input;
    }

    /** Complete the buffered stripe with the front of `input` and mix it in. */
    method FillStripe(input: seq<byte>) returns (rest: seq<byte>)
      requires buffered.Length == STRIPE && 0 < bufferedLen < STRIPE <= bufferedLen + |input|
      requires Between(buffered[..bufferedLen] + input)
      modifies this`lanes, this`stripes, buffered
      ensures Between(rest)
    {
      var fill := STRIPE - bufferedLen;
      rest := input[fill..];
      assert buffered[..bufferedLen] + input == (buffered[..bufferedLen] + input[..fill]) + rest;
      CopyIn(bufferedLen, input[..fill]);
      var chunk := buffered[..];
      assert chunk == buffered[..bufferedLen + fill];
      TakeStripe(content, stripes, chunk, rest);
      lanes := mixer.consume(lanes, chunk);
      stripes := stripes + 1;
    }

    /** Mix in every whole stripe of what is buffered and `input`, and buffer the rest. */
    method MixIn(input: seq<byte>)
      requires buffered.Length == STRIPE && bufferedLen < STRIPE <= bufferedLen + |input|
      requires Between(buffered[..bufferedLen] + input)
      modifies this`lanes, this`stripes, this`bufferedLen, buffered
      ensures bufferedLen < STRIPE && Between(buffered[..bufferedLen])
    {
      hide Stripes;
      var rest := input;
      if bufferedLen != 0 {
        rest := FillStripe(input);
      } else {
        assert buffered[..0] + input == input;
      }
      rest := ConsumeStripes(rest);
      CopyIn(0, rest);
      bufferedLen := |rest|;
      assert buffered[..0] + rest == rest;
    }

    method Update(input: seq<byte>)
      requires Valid()
      modifies this, buffered
      ensures Valid() && content == old(content) + input
    {
      hide Wrap;
      hide Stripes;
      Count(input);
      if bufferedLen + |input| < STRIPE {
        CopyIn(bufferedLen, input);
        bufferedLen := bufferedLen + |input|;
      } else {
        MixIn(input);
      }
    }

    /** The bytes after the last whole stripe. */
    method MixTail(start: word, input: seq<byte>) returns (hash: word)
      ensures hash == MixEights(mixer, start, input)
    {
      hash := start;
      var index := 0;
      while index + 8 <= |input|
        invariant 0 <= index <= |input|
        invariant MixEights(mixer, hash, input[index..]) == MixEights(mixer, start, input)
      {
        assert input[index..][..8] == input[index..index + 8] && input[index..][8..] == input[index + 8..];
        hash := mixer.eight(hash, input[index..index + 8]);
        index := index + 8;
      }
      if index + 4 <= |input| {
        assert input[index..][..4] == input[index..index + 4] && input[index..][4..] == input[index + 4..];
        hash := mixer.four(hash, input[index..index + 4]);
        index := index + 4;
      }
      while index < |input|
        invariant 0 <= index <= |input|
        invariant MixOnes(mixer, hash, input[index..]) == MixEights(mixer, start, input)
      {
        assert input[index..][1..] == input[index + 1..];
        hash := mixer.one(hash, input[index]);
        index := index + 1;
      }
    }

    method DigestNow() returns (hash: word)
      requires Valid()
      ensures hash == Digest(mixer, content)
    {
      hide Stripes;
      hide Wrap;
      hide MixEights;
      assert stripes == |content| / STRIPE;
      hash := if totalLen >= STRIPE then mixer.merge(lanes) else mixer.short;
      hash := MixTail(mixer.length(hash, totalLen), buffered[..bufferedLen]);
      hash := mixer.avalanche(hash);
    }
  }

  /** The hash of a whole content, as the one-shot decoder takes it. */
  method HashOf(mixer: Mixer, input: seq<byte>) returns (hash: word)
    ensures hash == Digest(mixer, input)
  {
    var state := new Xxh64State(mixer);
    state.Update(input);
    assert [] + input == input;
    hash := state.DigestNow();
  }

  /** However the content is cut, feeding the pieces gives the digest of the whole. */
  method DigestOfPieces(pieces: seq<seq<byte>>, mixer: Mixer) returns (hash: word)
    ensures hash == Digest(mixer, Concat(pieces))
  {
    var state := new Xxh64State(mixer);
    var i := 0;
    while i < |pieces|
      invariant 0 <= i <= |pieces| && fresh(state) && fresh(state.buffered)
      invariant state.Valid() && state.mixer == mixer
      invariant state.content + Concat(pieces[i..]) == Concat(pieces)
    {
      assert pieces[i..][1..] == pieces[i + 1..];
      Regroup(state.content, pieces[i], Concat(pieces[i + 1..]));
      state.Update(pieces[i]);
      i := i + 1;
    }
    assert state.content + [] == state.content;
    hash := state.DigestNow();
  }
}
