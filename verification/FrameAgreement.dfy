/**
 The walk against the decoder.

 Where the decoder accepts, the walk has found each frame where the decoder's
 cursor did, and its bound holds.  The walk also names the empty skippable
 frames, which is what a caller needs to know how many pushes a stream takes.
 */
module FrameAgreement {
  import opened Common
  import opened BlockSpec
  import opened FrameFormat
  import opened Resumable
  import opened StreamMachine
  import opened StreamRuns
  import opened FrameOutcome
  import opened FrameWalk

  /** How much input was left each time the decoder's run stood before a frame. */
  function FrameStarts<T>(cfg: Config<T>, m: Machine<T>, input: seq<byte>): seq<nat> {
    Stops(Turns(Repaired, cfg), Rank(), AtBoundary(), m, input)
  }

  function Less(n: nat, used: nat): nat {
    if used <= n then n - used else 0
  }

  /** How much of `n` bytes of input is left before each of the frames the walk found. */
  function WalkStarts(infos: seq<FrameSizeInfo>, n: nat): seq<nat>
    decreases |infos|
  {
    if infos == [] then [] else [n] + WalkStarts(infos[1..], Less(n, infos[0].compressedSize))
  }

  /** How much is left after each empty skippable frame the walk found: no frame is shorter, and no other as short. */
  function WalkEmptyEnds(infos: seq<FrameSizeInfo>, n: nat): seq<nat>
    decreases |infos|
  {
    if infos == [] then []
    else
      var left := Less(n, infos[0].compressedSize);
      (if infos[0].compressedSize == SKIPPABLE_HEADER_SIZE then [left] else []) + WalkEmptyEnds(infos[1..], left)
  }

  // ----- one turn

  /** From `m` on `a` the decoder does what it does from `n` on `b`. */
  ghost predicate SameFrom<T>(cfg: Config<T>, m: Machine<T>, a: seq<byte>, n: Machine<T>, b: seq<byte>) {
    && Outcome(cfg, m, a) == Outcome(cfg, n, b)
    && FrameStarts(cfg, m, a) == FrameStarts(cfg, n, b)
    && EmptyEnds(cfg, m, a) == EmptyEnds(cfg, n, b)
  }

  /** Inside a frame the input is only accepted by going on. */
  lemma GoesOn<T>(cfg: Config<T>, m: Machine<T>, input: seq<byte>)
    requires cfg.Valid() && m.Valid() && Outcome(cfg, m, input).Some? && m.phase != AtFrameHeader
    ensures var t := Step(Repaired, cfg, m, input);
            && t.Turn? && t.go && t.next.Valid() && t.consumed <= |input|
            && (m.phase != InSkippable(0) ==> SameFrom(cfg, m, input, t.next, After(input, t.consumed)))
            && Outcome(cfg, m, input) == Outcome(cfg, t.next, After(input, t.consumed))
  {
    OutcomeOfTurn(cfg, m, input);
    TurnIsSound(Repaired, cfg, m, input);
    assert Turns(Repaired, cfg)(m, input) == Step(Repaired, cfg, m, input);
  }

  /** The parser of compressed blocks wants at least one byte. */
  ghost predicate NeedsPayload<T(!new)>(cfg: Config<T>) {
    forall entropy: T, n: nat :: cfg.parse(entropy, [], n) == None
  }

  /** A block yields at most its frame's maximum, and nothing unless it has a payload. */
  lemma BlockYield<T(!new)>(cfg: Config<T>, total: seq<byte>, f: OpenFrame<T>, block: BlockHeader, payload: seq<byte>)
    requires f.start <= |total| && f.reps.Valid() && |payload| == block.PayloadSize()
    requires DecodeBlock(cfg, total, f, block, payload).Some?
    ensures var grown := DecodeBlock(cfg, total, f, block, payload).value.0;
            && |total| <= |grown| <= |total| + f.header.blockSizeMax
            && (NeedsPayload(cfg) && payload == [] ==> |grown| == |total|)
  {
    if block.blockType == Compressed {
      var section := cfg.parse(f.entropy, payload, f.header.blockSizeMax);
      ExecBlockLength(Frame(f.start, f.header.windowSize, cfg.Content()), f.header.blockSizeMax,
                      section.value.literals, section.value.commands, total, f.reps, OutputLimit(0, cfg.maxOutputSize), None);
    }
  }

  // ----- the blocks of a frame

  /** What follows the last block. */
  function AfterLast<T>(f: OpenFrame<T>, total: seq<byte>, decoded: bool): Machine<T> {
    if f.header.checksum then Machine(AtChecksum(f), total, decoded) else Machine(AtFrameHeader, total, true)
  }

  /** The most that `n` bytes of blocks yield: a block that yields anything takes four. */
  function Expansion(n: nat, blockSizeMax: nat): nat {
    n / 4 * blockSizeMax
  }

  lemma ExpansionGrows(n: nat, more: nat, max: nat)
    requires n <= more
    ensures Expansion(n, max) <= Expansion(more, max)
  {
    Times(n / 4, more / 4, max);
  }

  /** What one block yields and what the others do, against the bounds on their sum. */
  lemma YieldsAdd(first: nat, rest: nat, size: nat, used: nat, blocks: nat, max: nat)
    requires first <= max && rest <= Yield(blocks, max)
    ensures first + rest <= Yield(blocks + 1, max)
    ensures (size < 4 ==> first == 0) && rest <= Expansion(used, max) ==> first + rest <= Expansion(size + used, max)
  {
    assert (blocks + 1) * max == blocks * max + max;
    if (size < 4 ==> first == 0) && rest <= Expansion(used, max) {
      var own := if size < 4 then 0 else 1;
      Times(own + used / 4, (size + used) / 4, max);
      assert (own + used / 4) * max == own * max + used / 4 * max;
    }
  }

  /** One block of an accepted input, header and payload. */
  lemma OneBlock<T(!new)>(cfg: Config<T>, f: OpenFrame<T>, total: seq<byte>, decoded: bool, input: seq<byte>)
    returns (block: BlockHeader, grown: seq<byte>, after: OpenFrame<T>)
    requires cfg.Valid() && f.start <= |total| && f.reps.Valid()
    requires Outcome(cfg, Machine(AtBlockHeader(f), total, decoded), input).Some?
    ensures var size := BLOCK_HEADER_SIZE + block.PayloadSize();
            && ParseBlockHeader(input) == Good(block) && size <= |input|
            && |total| <= |grown| <= |total| + f.header.blockSizeMax
            && (NeedsPayload(cfg) && size < 4 ==> |grown| == |total|)
            && after.header == f.header && after.start == f.start && after.reps.Valid()
            && BlockDone(grown, decoded, after, block.lastBlock, size).Turn?
            && SameFrom(cfg, Machine(AtBlockHeader(f), total, decoded), input,
                        BlockDone(grown, decoded, after, block.lastBlock, size).next, After(input, size))
  {
    hide NeedsPayload;
    hide DecodeBlock;
    hide Outcome;
    hide FrameStarts;
    hide EmptyEnds;
    hide After;
    var m := Machine(AtBlockHeader(f), total, decoded);
    GoesOn(cfg, m, input);
    block := ParseBlockHeader(input).value;
    var at, rest := Machine(InBlock(f, block), total, decoded), After(input, BLOCK_HEADER_SIZE);
    GoesOn(cfg, at, rest);
    var payload := rest[..block.PayloadSize()];
    BlockYield(cfg, total, f, block, payload);
    AfterTwice(input, BLOCK_HEADER_SIZE, block.PayloadSize());
    var done := DecodeBlock(cfg, total, f, block, payload).value;
    grown, after := done.0, done.1;
  }

  /** From a block header on: the walk and the decoder agree on where the blocks end, and on how much they may yield. */
  lemma {:induction false} BlocksAgree<T(!new)>(cfg: Config<T>, f: OpenFrame<T>, total: seq<byte>, decoded: bool, input: seq<byte>)
    returns (after: OpenFrame<T>, grown: seq<byte>)
    requires cfg.Valid() && f.start <= |total| && f.reps.Valid()
    requires Outcome(cfg, Machine(AtBlockHeader(f), total, decoded), input).Some?
    ensures BlockRun(input).Some?
    ensures var (used, blocks) := BlockRun(input).value;
            && SameFrom(cfg, Machine(AtBlockHeader(f), total, decoded), input, AfterLast(after, grown, decoded), input[used..])
            && |grown| - |total| <= Yield(blocks, f.header.blockSizeMax)
            && (NeedsPayload(cfg) ==> |grown| - |total| <= Expansion(used, f.header.blockSizeMax))
    ensures |total| <= |grown| && after.header == f.header && after.start == f.start && after.reps.Valid()
    ensures f.header.checksum || f.header.contentSize == None || f.header.contentSize.value == |grown| - f.start
    decreases |input|
  {
    hide Outcome;
    hide FrameStarts;
    hide EmptyEnds;
    hide ParseBlockHeader;
    hide NeedsPayload;
    hide Yield;
    hide Expansion;
    var block, first, next := OneBlock(cfg, f, total, decoded, input);
    var size := BLOCK_HEADER_SIZE + block.PayloadSize();
    var max := f.header.blockSizeMax;
    if block.lastBlock {
      after, grown := next, first;
      YieldsAdd(|first| - |total|, 0, size, 0, 0, max);
    } else {
      after, grown := BlocksAgree(cfg, next, first, decoded, input[size..]);
      var (used, blocks) := BlockRun(input[size..]).value;
      AfterSlice(input, size, used);
      YieldsAdd(|first| - |total|, |grown| - |first|, size, used, blocks, max);
    }
  }

  // ----- a frame

  /** Before a frame, with input left, the input is only accepted by going on; the run counts the place. */
  lemma Enters<T>(cfg: Config<T>, m: Machine<T>, input: seq<byte>)
    requires cfg.Valid() && m.phase == AtFrameHeader && input != [] && Outcome(cfg, m, input).Some?
    ensures var t := FrameTurn(cfg, m, input);
            && t.Turn? && t.go && t.next.Valid() && t.consumed <= |input|
            && Outcome(cfg, m, input) == Outcome(cfg, t.next, input[t.consumed..])
            && FrameStarts(cfg, m, input) == [|input|] + FrameStarts(cfg, t.next, input[t.consumed..])
            && EmptyEnds(cfg, m, input) == EmptyEnds(cfg, t.next, input[t.consumed..])
  {
    assert m.Valid();
    OutcomeOfTurn(cfg, m, input);
    TurnIsSound(Repaired, cfg, m, input);
    assert Turns(Repaired, cfg)(m, input) == Step(Repaired, cfg, m, input);
  }

  /** What the walk and the decoder agree on about the frame at the front of an accepted input. */
  ghost predicate FrameAgrees<T>(cfg: Config<T>, m: Machine<T>, input: seq<byte>, info: FrameSizeInfo, next: Machine<T>)
    requires info.compressedSize <= |input|
  {
    var rest := input[info.compressedSize..];
    && next.phase == AtFrameHeader && |m.total| <= |next.total|
    && Outcome(cfg, m, input) == Outcome(cfg, next, rest)
    && FrameStarts(cfg, m, input) == [|input|] + FrameStarts(cfg, next, rest)
    && EmptyEnds(cfg, m, input)
       == (if !cfg.magicless && info.compressedSize == SKIPPABLE_HEADER_SIZE then [|rest|] else []) + EmptyEnds(cfg, next, rest)
    && (|next.total| - |m.total| <= U64_MAX ==> |next.total| - |m.total| <= info.decompressedBound)
  }

  /** A skippable frame's body is passed in one turn, and an empty one's is counted. */
  lemma PassesSkippable<T>(cfg: Config<T>, m: Machine<T>, size: nat, rest: seq<byte>)
    requires cfg.Valid() && m.phase == AtFrameHeader && Outcome(cfg, m.(phase := InSkippable(size)), rest).Some?
    ensures size <= |rest|
    ensures var inside := m.(phase := InSkippable(size));
            && Outcome(cfg, inside, rest) == Outcome(cfg, m, After(rest, size))
            && FrameStarts(cfg, inside, rest) == FrameStarts(cfg, m, After(rest, size))
            && EmptyEnds(cfg, inside, rest) == (if size == 0 then [|rest|] else []) + EmptyEnds(cfg, m, After(rest, size))
  {
    var inside := m.(phase := InSkippable(size));
    OutcomeOfSkippable(cfg, inside, rest);
    GoesOn(cfg, inside, rest);
    assert inside.(phase := AtFrameHeader) == m;
    if size == 0 {
      assert rest[0..] == rest;
      assert Turns(Repaired, cfg)(inside, rest) == Turn(m, 0, true);
    }
  }

  lemma SkippableAgrees<T>(cfg: Config<T>, m: Machine<T>, input: seq<byte>, v: nat, size: nat)
    requires cfg.Valid() && m.phase == AtFrameHeader && input != [] && Outcome(cfg, m, input).Some?
    requires ParseFrameHeader(input, cfg.magicless) == Good(Skippable(v, size))
    ensures Info(input, cfg.magicless).Some? && FrameAgrees(cfg, m, input, Info(input, cfg.magicless).value, m)
  {
    hide Outcome;
    hide FrameStarts;
    hide EmptyEnds;
    hide After;
    hide ParseFrameHeader;
    Enters(cfg, m, input);
    PassesSkippable(cfg, m, size, input[SKIPPABLE_HEADER_SIZE..]);
    AfterSlice(input, SKIPPABLE_HEADER_SIZE, size);
    MagiclessHasNoSkippable(input, cfg.magicless);
  }

  lemma MagiclessHasNoSkippable(input: seq<byte>, magicless: bool)
    ensures var r := ParseFrameHeader(input, magicless); r.Good? && r.value.Skippable? ==> !magicless
  {
  }

  lemma EndAgrees<T>(cfg: Config<T>, f: OpenFrame<T>, total: seq<byte>, decoded: bool, input: seq<byte>)
    requires cfg.Valid() && f.start <= |total| && f.reps.Valid() && f.header.checksum
    requires Outcome(cfg, Machine(AtChecksum(f), total, decoded), input).Some?
    ensures 4 <= |input|
    ensures f.header.contentSize == None || f.header.contentSize.value == |total| - f.start
    ensures SameFrom(cfg, Machine(AtChecksum(f), total, decoded), input, Machine(AtFrameHeader, total, true), input[4..])
  {
    hide ContentChecksum;
    GoesOn(cfg, Machine(AtChecksum(f), total, decoded), input);
  }

  lemma ZstandardAgrees<T(!new)>(cfg: Config<T>, m: Machine<T>, input: seq<byte>, h: ZstandardHeader) returns (next: Machine<T>)
    requires cfg.Valid() && m.phase == AtFrameHeader && input != [] && Outcome(cfg, m, input).Some?
    requires ParseFrameHeader(input, cfg.magicless) == Good(Zstandard(h))
    ensures Info(input, cfg.magicless).Some? && FrameAgrees(cfg, m, input, Info(input, cfg.magicless).value, next)
    ensures NeedsPayload(cfg) ==> |next.total| - |m.total| <= Expansion(|input| - h.headerSize, h.blockSizeMax)
    ensures h.contentSize.Some? ==> |next.total| - |m.total| == h.contentSize.value
  {
    hide Outcome;
    hide FrameStarts;
    hide EmptyEnds;
    hide NeedsPayload;
    hide ParseFrameHeader;
    hide Yield;
    hide Expansion;
    hide BlockRun;
    hide Opens;
    hide DecodeBlock;
    Enters(cfg, m, input);
    var f, rest := OpenedFrame(cfg, |m.total|, h), input[h.headerSize..];
    var after, grown := BlocksAgree(cfg, f, m.total, m.decodedAFrame, rest);
    var (used, blocks) := BlockRun(rest).value;
    next := Machine(AtFrameHeader, grown, true);
    AfterSlice(input, h.headerSize, used);
    if h.checksum {
      EndAgrees(cfg, after, grown, m.decodedAFrame, rest[used..]);
      AfterSlice(input, h.headerSize + used, 4);
    }
    ExpansionGrows(used, |rest|, h.blockSizeMax);
  }

  lemma OneFrame<T(!new)>(cfg: Config<T>, m: Machine<T>, input: seq<byte>) returns (info: FrameSizeInfo, next: Machine<T>)
    requires cfg.Valid() && m.phase == AtFrameHeader && input != [] && Outcome(cfg, m, input).Some?
    ensures Info(input, cfg.magicless) == Some(info) && FrameAgrees(cfg, m, input, info, next)
  {
    hide Outcome;
    hide FrameStarts;
    hide EmptyEnds;
    hide Info;
    hide ParseFrameHeader;
    hide FrameAgrees;
    Enters(cfg, m, input);
    next := m;
    match ParseFrameHeader(input, cfg.magicless) {
      case Good(Skippable(v, size)) => SkippableAgrees(cfg, m, input, v, size);
      case Good(Zstandard(h)) => next := ZstandardAgrees(cfg, m, input, h);
    }
    info := Info(input, cfg.magicless).value;
  }

  /** At the end of an accepted input there are no more frames. */
  lemma EndOfInput<T>(cfg: Config<T>, m: Machine<T>)
    requires m.phase == AtFrameHeader
    ensures Outcome(cfg, m, []) == Some(m.total) && FrameStarts(cfg, m, []) == [] && EmptyEnds(cfg, m, []) == []
  {
    assert m.Valid() && Turns(Repaired, cfg)(m, []) == Turn(m, 0, false);
  }

  lemma WalkFirst(input: seq<byte>, magicless: bool, info: FrameSizeInfo)
    requires input != [] && Info(input, magicless) == Some(info)
    requires Walk(input[info.compressedSize..], magicless).Some?
    ensures Walk(input, magicless).Some?
    ensures var infos, rest := Walk(input, magicless).value, Walk(input[info.compressedSize..], magicless).value;
            var left := |input| - info.compressedSize;
            && WalkStarts(infos, |input|) == [|input|] + WalkStarts(rest, left)
            && WalkEmptyEnds(infos, |input|)
               == (if info.compressedSize == SKIPPABLE_HEADER_SIZE then [left] else []) + WalkEmptyEnds(rest, left)
            && BoundSum(infos) == info.decompressedBound + BoundSum(rest)
  {
    var rest := Walk(input[info.compressedSize..], magicless).value;
    assert ([info] + rest)[1..] == rest;
  }

  /** The input's frames, by the walk and by the decoder. */
  lemma {:induction false} RunAgrees<T(!new)>(cfg: Config<T>, m: Machine<T>, input: seq<byte>)
    requires cfg.Valid() && m.phase == AtFrameHeader && Outcome(cfg, m, input).Some?
    ensures Walk(input, cfg.magicless).Some?
    ensures var infos, out := Walk(input, cfg.magicless).value, Outcome(cfg, m, input).value;
            && FrameStarts(cfg, m, input) == WalkStarts(infos, |input|)
            && EmptyEnds(cfg, m, input) == (if cfg.magicless then [] else WalkEmptyEnds(infos, |input|))
            && |m.total| <= |out| && (|out| - |m.total| <= U64_MAX ==> |out| - |m.total| <= BoundSum(infos))
    decreases |input|
  {
    hide Outcome;
    hide FrameStarts;
    hide EmptyEnds;
    hide Info;
    if input == [] {
      EndOfInput(cfg, m);
    } else {
      var info, next := OneFrame(cfg, m, input);
      RunAgrees(cfg, next, input[info.compressedSize..]);
      WalkFirst(input, cfg.magicless, info);
    }
  }

  // ----- whole inputs

  /** On an accepted input the walk finds the frames where the decoder does, and its bound holds. */
  lemma WalkAgrees<T(!new)>(cfg: Config<T>, src: seq<byte>)
    requires cfg.Valid() && Decoded(cfg, src).Some?
    ensures Walk(src, cfg.magicless).Some?
    ensures WalkStarts(Walk(src, cfg.magicless).value, |src|) == FrameStarts(cfg, Initial(), src)
    ensures var bound := Bound(src, cfg.magicless);
            |Decoded(cfg, src).value| <= U64_MAX && bound.Some? ==> |Decoded(cfg, src).value| <= bound.value
  {
    DecodedIsOutcome(cfg, src);
    RunAgrees(cfg, Initial(), src);
    BoundIsTheSum(0, Walk(src, cfg.magicless).value);
  }

  /** Where the walk says the empty skippable frames end; a magicless input has none. */
  function EmptyFrames(src: seq<byte>, magicless: bool): seq<nat> {
    var frames := Walk(src, magicless);
    if magicless || frames == None then [] else WalkEmptyEnds(frames.value, |src|)
  }

  /** Whether a stream needs more calls than it gets can be told from the walk alone. */
  lemma StreamAgreesByTheWalk<T(!new)>(cfg: Config<T>, chunks: seq<seq<byte>>)
    requires cfg.Valid()
    ensures var src := Concat(chunks);
            Streamed(AsWritten, cfg, chunks)
            == if EnoughCalls(AfterCalls(EmptyFrames(src, cfg.magicless), chunks)) then Decoded(cfg, src) else None
  {
    var src := Concat(chunks);
    WrittenStreamAgrees(cfg, chunks);
    if Decoded(cfg, src).Some? {
      DecodedIsOutcome(cfg, src);
      RunAgrees(cfg, Initial(), src);
    }
  }

  predicate NoEmptyFrame(infos: seq<FrameSizeInfo>) {
    forall i :: 0 <= i < |infos| ==> infos[i].compressedSize != SKIPPABLE_HEADER_SIZE
  }

  lemma {:induction false} NoEmptyEnds(infos: seq<FrameSizeInfo>, n: nat)
    requires NoEmptyFrame(infos)
    ensures WalkEmptyEnds(infos, n) == []
    decreases |infos|
  {
    if infos != [] {
      NoEmptyEnds(infos[1..], Less(n, infos[0].compressedSize));
    }
  }

  lemma {:induction false} NoStopsNeedNoCalls(chunks: seq<seq<byte>>)
    ensures AfterCalls([], chunks) == []
    decreases |chunks|
  {
    if chunks != [] {
      NoStopsNeedNoCalls(chunks[1..]);
    }
  }

  /** Without an empty skippable frame, every chunking decodes as the whole does. */
  lemma StreamAgreesWithoutEmptyFrames<T(!new)>(cfg: Config<T>, chunks: seq<seq<byte>>)
    requires cfg.Valid()
    requires var frames := Walk(Concat(chunks), cfg.magicless);
             frames.Some? ==> NoEmptyFrame(frames.value)
    ensures Streamed(AsWritten, cfg, chunks) == Decoded(cfg, Concat(chunks))
  {
    hide NoEmptyFrame;
    hide Walk;
    hide Streamed;
    hide Decoded;
    var src := Concat(chunks);
    StreamAgreesByTheWalk(cfg, chunks);
    var frames := Walk(src, cfg.magicless);
    if frames.Some? {
      NoEmptyEnds(frames.value, |src|);
    }
    NoStopsNeedNoCalls(chunks);
  }

  /**
   The room the one-shot decoder reserves for a declared size, limited by what the rest of
   the input could expand to, is all the room an acceptable frame of that size needs.
   */
  lemma ReserveCoversTheFrame<T(!new)>(cfg: Config<T>, m: Machine<T>, input: seq<byte>, h: ZstandardHeader)
    requires cfg.Valid() && NeedsPayload(cfg) && m.phase == AtFrameHeader && input != []
    requires ParseFrameHeader(input, cfg.magicless) == Good(Zstandard(h)) && h.contentSize.Some?
    requires Outcome(cfg, m, input).Some?
    ensures Min(h.contentSize.value, Expansion(|input| - h.headerSize, h.blockSizeMax)) == h.contentSize.value
  {
    var next := ZstandardAgrees(cfg, m, input, h);
  }
}
