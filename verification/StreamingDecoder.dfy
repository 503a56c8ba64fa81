/**
 The streaming decoder: one buffer that is the caller's output queue and the
 match history at once, compacted as the caller drains it.

 Each method of the loop takes the turn of `StreamMachine` for the loop's state,
 on a history of which the buffer holds only the end.  So a call to `Push` runs
 the machine, whatever has been drained so far and whatever has been dropped.
 */
module StreamingDecoding {
  import opened Common
  import opened Repcodes
  import opened BlockSpec
  import opened Compaction
  import opened FrameFormat
  import opened Xxh64
  import opened Resumable
  import opened StreamMachine
  import opened StreamRuns
  import opened CompressedBlock
  import OneShotDecoder

  datatype DecoderState =
    | FrameHeaderState
    | SkippableState(remaining: nat)
    | BlockHeaderState
    | BlockPayloadState(header: BlockHeader)
    | FrameChecksumState

  datatype FrameDecodeState<T> = FrameDecodeState(
    header: ZstandardHeader,
    entropy: T,
    reps: Reps,
    outputSize: nat,                // what the frame has produced
    start: nat)                     // where its bytes begin in the buffer
  {
    /** Of what the frame has produced, a buffer of `len` bytes holds all, or more than a window. */
    predicate Held(len: nat, produced: nat) {
      && start <= len && len - start <= outputSize <= produced && reps.Valid()
      && (len - start == outputSize || len - start > header.windowSize)
    }

    /** The frame's end of everything decoded. */
    function Content(total: seq<byte>): seq<byte>
      requires outputSize <= |total|
    {
      total[|total| - outputSize..]
    }

    function Abstract(produced: nat): OpenFrame<T>
      requires outputSize <= produced
    {
      OpenFrame(header, entropy, reps, produced - outputSize)
    }
  }

  /** A frame's end of the buffer is the end of what the frame has produced. */
  lemma HeldIsTheEnd<T>(f: FrameDecodeState<T>, gone: seq<byte>, output: seq<byte>, earlier: seq<byte>, total: seq<byte>)
    requires gone + output == earlier + total && f.Held(|output|, |total|)
    ensures StandsFor(output[f.start..], f.Content(total), f.header.windowSize)
  {
    var held, content := output[f.start..], f.Content(total);
    assert held == (gone + output)[|gone| + f.start..];
    assert content == (earlier + total)[|earlier| + |total| - f.outputSize..];
  }

  lemma ContentGrows<T>(f: FrameDecodeState<T>, total: seq<byte>, more: seq<byte>)
    requires f.outputSize <= |total|
    ensures f.(outputSize := f.outputSize + |more|).Content(total + more) == f.Content(total) + more
  {
  }

  /** Moving the boundary between what is gone and what is held moves nothing else. */
  lemma SameSplit(gone: seq<byte>, output: seq<byte>, n: nat, pos: nat)
    requires n <= pos <= |output|
    ensures gone + output[..n] + output[n..] == gone + output
    ensures gone + output[..n] + output[n..][..pos - n] == gone + output[..pos]
    ensures output[n..][pos - n..] == output[pos..]
  {
  }

  /** The turn on a Zstandard frame's header. */
  lemma OpeningTurn<T>(cfg: Config<T>, total: seq<byte>, decoded: bool, header: ZstandardHeader, unread: seq<byte>)
    requires unread != [] && !(cfg.singleFrame && decoded)
    requires ParseFrameHeader(unread, cfg.magicless) == Good(Zstandard(header))
    ensures FrameTurn(cfg, Machine(AtFrameHeader, total, decoded), unread)
         == if !Opens(cfg, |total|, header) then Reject
            else Turn(Machine(AtBlockHeader(OpenedFrame(cfg, |total|, header)), total, decoded), header.headerSize, true)
  {
  }

  /** The turn on a block, from the parts of the machine. */
  lemma PayloadTurn<T>(cfg: Config<T>, f: OpenFrame<T>, block: BlockHeader, total: seq<byte>, decoded: bool, unread: seq<byte>)
    requires f.start <= |total| && f.reps.Valid()
    ensures var m, size := Machine(InBlock(f, block), total, decoded), block.PayloadSize();
            var d := if |unread| < size then None else DecodeBlock(cfg, total, f, block, unread[..size]);
            BlockTurn(cfg, m, unread)
            == if |unread| < size then Turn(m, 0, false)
               else if d == None then Reject else BlockDone(d.value.0, decoded, d.value.1, block.lastBlock, size)
  {
  }

  /** A run is a turn and the run from there. */
  lemma OneTurn<T>(cfg: Config<T>, m: Machine<T>, unread: seq<byte>)
    requires cfg.Valid() && m.Valid()
    ensures var t := Step(AsWritten, cfg, m, unread);
            if t.Reject? then RunMachine(AsWritten, cfg, m, unread) == None
            else
              && t.consumed <= |unread| && t.next.Valid()
              && (t.go ==> Advances(Rank(), m, unread, t))
              && RunMachine(AsWritten, cfg, m, unread)
                 == if t.go then RunMachine(AsWritten, cfg, t.next, After(unread, t.consumed))
                    else Some((t.next, After(unread, t.consumed)))
  {
    TurnIsSound(AsWritten, cfg, m, unread);
    assert Turns(AsWritten, cfg)(m, unread) == Step(AsWritten, cfg, m, unread);
  }

  /** A run ends with no less than its first turn did. */
  lemma NoLessThanNext<T>(cfg: Config<T>, m: Machine<T>, unread: seq<byte>)
    requires cfg.Valid() && m.Valid()
    ensures var t, r := Step(AsWritten, cfg, m, unread), RunMachine(AsWritten, cfg, m, unread);
            t.Turn? && r.Some? ==> |t.next.total| <= |r.value.0.total|
  {
    hide Step;
    hide RunMachine;
    OneTurn(cfg, m, unread);
    var t := Step(AsWritten, cfg, m, unread);
    if t.Turn? && t.go {
      RunGrows(AsWritten, cfg, t.next, After(unread, t.consumed));
    }
  }

  class StreamingDecoder<T(!new)> {
    const cfg: Config<T>
    var input: seq<byte>
    var inputPos: nat
    var output: seq<byte>
    var outputPos: nat
    var state: DecoderState
    var currentFrame: Option<FrameDecodeState<T>>
    var totalOutputSize: nat
    var receivedInput: bool
    var finishedInput: bool
    var inputDropped: nat
    var decodedAFrame: bool
    const hash: Xxh64State          // the open frame's checksum, if it has one

    ghost var inputGone: seq<byte>  // what input compaction has dropped
    ghost var earlier: seq<byte>    // the output of the streams before this one
    ghost var total: seq<byte>      // everything this stream has decoded
    ghost var gone: seq<byte>       // what output compaction has dropped
    ghost var moved: nat            // how many bytes it has moved to do so

    /** Everything pushed. */
    ghost function Pushed(): seq<byte>
      reads `input, `inputGone
    {
      inputGone + input
    }

    /** Everything written to the output, by this stream and by those before it. */
    ghost function Written(): seq<byte>
      reads `output, `gone
    {
      gone + output
    }

    /** Everything the caller has taken. */
    ghost function Delivered(): seq<byte>
      requires outputPos <= |output|
      reads `output, `outputPos, `gone
    {
      gone + output[..outputPos]
    }

    function PendingOutput(): seq<byte>
      requires outputPos <= |output|
      reads `output, `outputPos
    {
      output[outputPos..]
    }

    /** Pushed and not yet consumed. */
    function UnconsumedInput(): (unread: seq<byte>)
      requires inputPos <= |input|
      reads `input, `inputPos
      ensures |unread| == |input| - inputPos
    {
      input[inputPos..]
    }

    function StreamInputPos(): nat
      reads `inputPos, `inputDropped
    {
      inputDropped + inputPos
    }

    /** The buffer is sound as a queue and as the open frame's history, and what was dropped pays for what was moved. */
    ghost predicate Drainable()
      reads `output, `outputPos, `totalOutputSize, `earlier, `total, `gone, `moved, `currentFrame
    {
      && outputPos <= |output| && totalOutputSize == |total| && Written() == earlier + total && moved <= |gone|
      && (currentFrame.Some? ==> currentFrame.value.Held(|output|, totalOutputSize))
    }

    /** In every sound state what is held of the open frame stands for all it has produced. */
    lemma HeldStandsFor()
      requires Drainable() && currentFrame.Some?
      ensures var f := currentFrame.value;
              f.start <= |output| && f.outputSize <= |total|
              && StandsFor(output[f.start..], f.Content(total), f.header.windowSize)
    {
      HeldIsTheEnd(currentFrame.value, gone, output, earlier, total);
    }

    /** How much of the streams before this one is still in the buffer. */
    ghost function Leftover(): nat
      reads `earlier, `gone
    {
      Max(|earlier| - |gone|, 0)
    }

    /** With those bytes counted, `produced` bytes of this stream would exceed the cap. */
    ghost predicate Overcharged(produced: nat)
      reads `earlier, `gone
    {
      0 < Leftover() && !OutputLimit(Leftover(), cfg.maxOutputSize).Allows(produced)
    }

    ghost predicate InputValid()
      reads `input, `inputPos, `inputDropped, `inputGone, `receivedInput
    {
      && inputPos <= |input| && inputDropped == |inputGone|
      && (receivedInput <==> Pushed() != [])
    }

    /** A frame is open in the states that are about one. */
    predicate StateValid()
      reads `state, `currentFrame
    {
      && (state.BlockHeaderState? || state.BlockPayloadState? || state.FrameChecksumState? <==> currentFrame.Some?)
      && (state.FrameChecksumState? ==> currentFrame.value.header.checksum)
    }

    /** The checksum has seen what the open frame has produced. */
    ghost predicate ChecksumValid()
      requires Drainable()
      reads `output, `outputPos, `totalOutputSize, `earlier, `total, `gone, `moved, `currentFrame, hash, hash.buffered
    {
      && hash.Valid() && hash.mixer == cfg.mixer
      && (currentFrame.Some? && currentFrame.value.header.checksum ==> hash.content == currentFrame.value.Content(total))
    }

    ghost predicate Valid()
      reads this, hash, hash.buffered
    {
      cfg.Valid() && InputValid() && Drainable() && ChecksumValid() && StateValid()
    }

    /** The machine this decoder is at. */
    ghost function Abstract(): (m: Machine<T>)
      requires Drainable() && StateValid()
      reads `output, `outputPos, `totalOutputSize, `earlier, `total, `gone, `moved, `currentFrame, `state, `decodedAFrame
      ensures m.Valid()
    {
      var phase := match state
        case FrameHeaderState => AtFrameHeader
        case SkippableState(n) => InSkippable(n)
        case BlockHeaderState => AtBlockHeader(currentFrame.value.Abstract(totalOutputSize))
        case BlockPayloadState(b) => InBlock(currentFrame.value.Abstract(totalOutputSize), b)
        case FrameChecksumState => AtChecksum(currentFrame.value.Abstract(totalOutputSize));
      Machine(phase, total, decodedAFrame)
    }

    constructor (cfg: Config<T>)
      requires cfg.Valid()
      ensures Valid() && Drainable() && this.cfg == cfg && fresh(hash) && fresh(hash.buffered) && !finishedInput
      ensures Abstract() == Initial() && Pushed() == [] && Delivered() == [] && UnconsumedInput() == [] && earlier == []
    {
      this.cfg := cfg;
      hash := new Xxh64State(cfg.mixer);
      input, inputPos, output, outputPos := [], 0, [], 0;
      state, currentFrame := FrameHeaderState, None;
      totalOutputSize, receivedInput, finishedInput, inputDropped, decodedAFrame := 0, false, false, 0, false;
      inputGone, earlier, total, gone, moved := [], [], [], [], 0;
    }

    // ----- compaction

    /** The machine and the input are as they were: at most the frame's place in the buffer has changed. */
    twostate predicate OnlyBufferMoved()
      reads this
    {
      && unchanged(`input, `inputPos, `inputDropped, `inputGone, `state, `decodedAFrame, `receivedInput, `finishedInput)
      && unchanged(`totalOutputSize, `earlier, `total) && Written() == old(Written()) && |old(gone)| <= |gone|
      && (if currentFrame == None then old(currentFrame) == None
          else old(currentFrame.Some?) && currentFrame == Some(old(currentFrame.value).(start := currentFrame.value.start)))
    }

    twostate lemma StillTheSame()
      requires old(Valid()) && Drainable() && OnlyBufferMoved() && unchanged(hash) && unchanged(hash.buffered)
      ensures Valid() && Abstract() == old(Abstract()) && UnconsumedInput() == old(UnconsumedInput())
    {
    }

    /** Drop the first `n` bytes of the output, which are drained and out of reach. */
    method DropFront(n: nat)
      requires Drainable() && n <= outputPos && |output| - n <= n
      requires currentFrame.Some? ==> |output| - n > currentFrame.value.header.windowSize
      modifies this`output, this`outputPos, this`gone, this`moved, this`currentFrame
      ensures Drainable() && OnlyBufferMoved()
      ensures PendingOutput() == old(PendingOutput()) && Delivered() == old(Delivered())
      ensures output == old(output[n..])
    {
      SameSplit(gone, output, n, outputPos);
      if currentFrame.Some? {
        currentFrame := Some(currentFrame.value.(start := Max(currentFrame.value.start - n, 0)));
      }
      moved := moved + (|output| - n);
      gone := gone + output[..n];
      output := output[n..];
      outputPos := outputPos - n;
    }

    function RetainForMatches(): nat
      reads this
    {
      if currentFrame == None then 0 else currentFrame.value.header.windowSize + 1
    }

    method CompactOutput()
      requires Drainable()
      modifies this`output, this`outputPos, this`gone, this`moved, this`currentFrame
      ensures Drainable() && OnlyBufferMoved()
      ensures PendingOutput() == old(PendingOutput()) && Delivered() == old(Delivered())
      ensures currentFrame.Some? ==> |output| <= 2 * Max(|PendingOutput()|, currentFrame.value.header.windowSize + 1)
      ensures currentFrame == None && PendingOutput() == [] ==> output == []
    {
      var retain := RetainForMatches();
      var droppable := Min(outputPos, Max(|output| - retain, 0));
      if droppable == 0 {
        return;
      }
      if droppable == |output| || (currentFrame.Some? && droppable * 2 >= |output|) {
        DropFront(droppable);
      }
    }

    /** A frame is opening: no match can reach behind it. */
    method CompactBetweenFrames()
      requires Drainable() && currentFrame == None
      modifies this`output, this`outputPos, this`gone, this`moved, this`currentFrame
      ensures Drainable() && OnlyBufferMoved()
      ensures outputPos == 0 || 2 * outputPos < |output|
      ensures PendingOutput() == old(PendingOutput()) && Delivered() == old(Delivered())
    {
      if outputPos != 0 && outputPos * 2 >= |output| {
        DropFront(outputPos);
      }
    }

    // ----- draining

    /** The caller was handed the front of the queue, and nothing else changed. */
    twostate predicate Delivers(bytes: seq<byte>)
      requires old(Drainable())
      reads this
    {
      && Drainable() && OnlyBufferMoved()
      && Delivered() == old(Delivered()) + bytes && bytes + PendingOutput() == old(PendingOutput())
    }

    /** Hand the first `count` pending bytes over. */
    method Deliver(count: nat) returns (bytes: seq<byte>)
      requires Drainable() && count <= |PendingOutput()|
      modifies this`outputPos
      ensures Drainable() && outputPos == old(outputPos) + count
      ensures bytes == old(PendingOutput()[..count])
      ensures Delivered() == old(Delivered()) + bytes && bytes + PendingOutput() == old(PendingOutput())
    {
      bytes := output[outputPos..outputPos + count];
      assert output[outputPos..][..count] == bytes;
      assert output[..outputPos] + bytes == output[..outputPos + count];
      assert bytes + output[outputPos + count..] == output[outputPos..];
      Regroup(gone, output[..outputPos], bytes);
      outputPos := outputPos + count;
    }

    method ConsumeOutput(count: nat)
      requires Drainable() && count <= |PendingOutput()|
      modifies this`output, this`outputPos, this`gone, this`moved, this`currentFrame
      ensures Delivers(old(PendingOutput()[..count]))
      ensures currentFrame.Some? ==> |output| <= 2 * Max(|PendingOutput()|, currentFrame.value.header.windowSize + 1)
    {
      var bytes := Deliver(count);
      CompactOutput();
    }

    /** Copy as much of the queue as fits into `dst`. */
    method Read(dst: array<byte>) returns (count: nat)
      requires Drainable() && dst != hash.buffered
      modifies this`output, this`outputPos, this`gone, this`moved, this`currentFrame, dst
      ensures count == Min(dst.Length, |old(PendingOutput())|)
      ensures Delivers(dst[..count]) && dst[count..] == old(dst[count..])
    {
      count := Min(dst.Length, |PendingOutput()|);
      if count == 0 {
        return;
      }
      var pending := PendingOutput();
      forall i | 0 <= i < count {
        dst[i] := pending[i];
      }
      assert dst[..count] == pending[..count];
      ConsumeOutput(count);
    }

    method TakeOutput() returns (out: seq<byte>)
      requires Drainable()
      modifies this`output, this`outputPos, this`gone, this`moved, this`currentFrame
      ensures Delivers(out) && PendingOutput() == []
      ensures currentFrame.Some? ==> |output| <= 2 * (currentFrame.value.header.windowSize + 1)
      ensures currentFrame == None ==> output == []
    {
      if outputPos == 0 && currentFrame == None {
        out := output;
        assert gone + output == gone + output + [];
        gone := gone + output;
        output := [];
        return;
      }
      out := Deliver(|output| - outputPos);
      CompactOutput();
    }

    // ----- the loop's turns

    /** What the caller has pushed and taken is as it was. */
    twostate predicate KeepsQueue()
      requires old(outputPos <= |output|)
      reads this
    {
      && Drainable() && Pushed() == old(Pushed()) && Delivered() == old(Delivered())
      && unchanged(`receivedInput, `finishedInput, `earlier) && |old(gone)| <= |gone|
    }

    /** The decoder is at machine `m`, with `unread` in sight. */
    ghost predicate At(m: Machine<T>, unread: seq<byte>)
      requires Valid()
      reads this, hash, hash.buffered
    {
      m == Abstract() && unread == UnconsumedInput()
    }

    /**
     With `unread` in sight, this was turn `t` of the machine; or `progress` is None and the machine rejects,
     or would go on to more than the cap leaves beside what earlier streams left behind.
     */
    ghost predicate Took(t: Turn<Machine<T>>, unread: seq<byte>, progress: Option<bool>)
      reads this, hash, hash.buffered
    {
      if progress == None then t.Reject? || Overcharged(|t.next.total|)
      else
        Valid() && t.Turn? && t.go == progress.value && t.consumed <= |unread| && At(t.next, After(unread, t.consumed))
    }

    method CompactInput()
      requires InputValid()
      modifies this`input, this`inputPos, this`inputDropped, this`inputGone
      ensures InputValid() && UnconsumedInput() == old(UnconsumedInput())
      ensures StreamInputPos() == old(StreamInputPos()) && Pushed() == old(Pushed())
      ensures inputPos == 0 || (inputPos < 4096 && 2 * inputPos < |input|)
    {
      if inputPos == 0 {
        return;
      }
      SameSplit(inputGone, input, inputPos, inputPos);
      if inputPos == |input| {
        inputDropped := inputDropped + inputPos;
        inputGone := inputGone + input[..inputPos];
        input := [];
        inputPos := 0;
        return;
      }
      if inputPos >= 4096 || inputPos * 2 >= |input| {
        inputDropped := inputDropped + inputPos;
        inputGone := inputGone + input[..inputPos];
        input := input[inputPos..];
        inputPos := 0;
      }
    }

    method Advance(n: nat)
      requires Valid() && n <= |UnconsumedInput()|
      modifies this`inputPos
      ensures Valid() && UnconsumedInput() == After(old(UnconsumedInput()), n)
      ensures Abstract() == old(Abstract())
    {
      hide Xxh64State.Valid;
      hide After;
      AfterSlice(input, inputPos, n);
      inputPos := inputPos + n;
    }

    method ProcessSkippableFrame(ghost m: Machine<T>, ghost unread: seq<byte>) returns (progress: Option<bool>)
      requires Valid() && At(m, unread) && state.SkippableState?
      modifies this`inputPos, this`state
      ensures Took(SkippableTurn(AsWritten, m, unread), unread, progress)
      ensures KeepsQueue() && progress.Some?
    {
      hide UnconsumedInput;
      hide After;
      hide Xxh64State.Valid;
      var consumed := Min(|input| - inputPos, state.remaining);
      Advance(consumed);
      var left := state.remaining - consumed;
      state := if left == 0 then FrameHeaderState else SkippableState(left);
      return Some(consumed != 0);
    }

    method ProcessBlockHeader(ghost m: Machine<T>, ghost unread: seq<byte>) returns (progress: Option<bool>)
      requires Valid() && At(m, unread) && state.BlockHeaderState?
      modifies this`inputPos, this`state
      ensures Took(BlockHeaderTurn(m, unread), unread, progress)
      ensures KeepsQueue()
    {
      hide UnconsumedInput;
      hide After;
      hide Xxh64State.Valid;
      hide ParseBlockHeader;
      if |input| - inputPos < BLOCK_HEADER_SIZE {
        return Some(false);
      }
      var header := ParseBlockHeader(UnconsumedInput());
      if header.Bad? {
        return None;
      }
      Advance(BLOCK_HEADER_SIZE);
      state := BlockPayloadState(header.value);
      return Some(true);
    }

    /** Start a frame at the end of the buffer. */
    method OpenFrame(header: ZstandardHeader)
      requires Drainable() && ChecksumValid() && cfg.Valid() && currentFrame == None
      modifies this`currentFrame, hash
      ensures Drainable() && ChecksumValid() && currentFrame.Some?
      ensures currentFrame.value.Abstract(totalOutputSize) == OpenedFrame(cfg, totalOutputSize, header)
    {
      if header.checksum {
        hash.Reset();
      }
      var entropy, reps := cfg.initialEntropy, Reps(1, 4, 8);
      if cfg.dictionary.Some? {
        entropy, reps := cfg.dictionary.value.entropy, cfg.dictionary.value.reps;
      }
      currentFrame := Some(FrameDecodeState(header, entropy, reps, 0, |output|));
    }

    /** Open a frame, or refuse to. */
    method StartFrame(header: ZstandardHeader) returns (ok: bool)
      requires cfg.Valid() && Drainable() && ChecksumValid() && currentFrame == None
      modifies this`output, this`outputPos, this`gone, this`moved, this`currentFrame, hash
      ensures Drainable() && ChecksumValid() && ok == Opens(cfg, totalOutputSize, header) == currentFrame.Some?
      ensures unchanged(`earlier, `total) && |old(gone)| <= |gone| && Delivered() == old(Delivered())
      ensures ok ==> currentFrame.value.Abstract(totalOutputSize) == OpenedFrame(cfg, totalOutputSize, header)
    {
      hide Xxh64State.Valid;
      CompactBetweenFrames();
      if header.dictionaryId.Some? && (cfg.dictionary == None || cfg.dictionary.value.id != header.dictionaryId.value) {
        return false;
      }
      if cfg.maxWindowSize.Some? && header.windowSize > cfg.maxWindowSize.value {
        return false;
      }
      if header.contentSize.Some? && cfg.maxOutputSize.Some?
         && totalOutputSize + header.contentSize.value > cfg.maxOutputSize.value {
        return false;
      }
      OpenFrame(header);
      return true;
    }

    /** Take a header off the input and open its frame, or refuse to. */
    method OpenBehind(header: ZstandardHeader) returns (ok: bool)
      requires Valid() && state.FrameHeaderState? && header.headerSize <= |UnconsumedInput()|
      modifies this`inputPos, this`state, this`output, this`outputPos, this`gone, this`moved, this`currentFrame, hash
      ensures KeepsQueue() && ok == Opens(cfg, |total|, header)
      ensures ok ==>
                && Valid() && UnconsumedInput() == After(old(UnconsumedInput()), header.headerSize)
                && Abstract() == Machine(AtBlockHeader(OpenedFrame(cfg, |total|, header)), total, decodedAFrame)
    {
      hide UnconsumedInput;
      hide After;
      hide Xxh64State.Valid;
      hide Opens;
      hide OpenedFrame;
      Advance(header.headerSize);
      ok := StartFrame(header);
      if ok {
        state := BlockHeaderState;
      }
    }

    method EnterFrame(header: ZstandardHeader, ghost m: Machine<T>, ghost unread: seq<byte>) returns (progress: Option<bool>)
      requires Valid() && At(m, unread) && state.FrameHeaderState? && !(cfg.singleFrame && decodedAFrame)
      requires UnconsumedInput() != [] && ParseFrameHeader(UnconsumedInput(), cfg.magicless) == Good(Zstandard(header))
      modifies this`inputPos, this`state, this`output, this`outputPos, this`gone, this`moved, this`currentFrame, hash
      ensures Took(FrameTurn(cfg, m, unread), unread, progress)
      ensures KeepsQueue()
    {
      hide UnconsumedInput;
      hide After;
      hide Valid;
      hide ParseFrameHeader;
      hide Opens;
      hide FrameTurn;
      hide OpenedFrame;
      OpeningTurn(cfg, total, decodedAFrame, header, unread);
      var ok := OpenBehind(header);
      return if ok then Some(true) else None;
    }

    method ProcessFrameHeader(ghost m: Machine<T>, ghost unread: seq<byte>) returns (progress: Option<bool>)
      requires Valid() && At(m, unread) && state.FrameHeaderState?
      modifies this`inputPos, this`state, this`output, this`outputPos, this`gone, this`moved, this`currentFrame, hash
      ensures Took(FrameTurn(cfg, m, unread), unread, progress)
      ensures KeepsQueue()
    {
      hide UnconsumedInput;
      hide After;
      hide Xxh64State.Valid;
      hide ParseFrameHeader;
      hide Opens;
      if inputPos == |input| {
        return Some(false);
      }
      if cfg.singleFrame && decodedAFrame {
        return None;
      }
      match ParseFrameHeader(UnconsumedInput(), cfg.magicless)
      case Eof => return Some(false);
      case Bad => return None;
      case Good(Skippable(_, size)) =>
        if cfg.singleFrame {
          return None;
        }
        Advance(SKIPPABLE_HEADER_SIZE);
        state := SkippableState(size);
        return Some(true);
      case Good(Zstandard(header)) =>
        progress := EnterFrame(header, m, unread);
    }

    /** What the cap leaves, counted from the buffer's length; it counts what earlier streams left there too. */
    function LimitHere(): (limit: OutputLimit)
      requires Drainable()
      reads this
      ensures limit.maxOutputSize == cfg.maxOutputSize && limit.producedBefore + |output| == Leftover() + |total|
    {
      assert |gone| + |output| == |Written()| == |earlier| + |total|;
      OutputLimit(Max(totalOutputSize - |output|, 0), cfg.maxOutputSize)
    }

    /** What one block appends to the buffer, and the tables and distances after it. */
    method BlockOutput(f: FrameDecodeState<T>, block: BlockHeader, payload: seq<byte>)
      returns (r: Option<(seq<byte>, T, Reps)>)
      requires cfg.Valid() && Drainable() && currentFrame == Some(f) && |payload| == block.PayloadSize()
      ensures r.Some? ==> r.value.2.Valid()
      ensures var d := StreamMachine.DecodeBlock(cfg, total, f.Abstract(totalOutputSize), block, payload);
              if d == None || Overcharged(|d.value.0|) then r == None
              else r.Some? && d == Some((total + r.value.0, f.Abstract(totalOutputSize).(entropy := r.value.1, reps := r.value.2)))
    {
      hide ExecBlock;
      hide LimitHere;
      var limit := LimitHere();
      var oversized := block.blockSize > f.header.blockSizeMax;
      match block.blockType
      case Raw =>
        if oversized || !limit.Allows(|output| + |payload|) {
          return None;
        }
        return Some((payload, f.entropy, f.reps));
      case Rle =>
        if oversized || !limit.Allows(|output| + block.blockSize) {
          return None;
        }
        return Some((seq(block.blockSize, _ => payload[0]), f.entropy, f.reps));
      case Compressed =>
        var section := cfg.parse(f.entropy, payload, f.header.blockSizeMax);
        if section == None {
          return None;
        }
        r := CompressedOutput(f, section.value, limit);
    }

    /**
     A compressed block on the buffer does what it would do on everything decoded, with what earlier
     streams left in the buffer charged to the cap.
     */
    lemma BlockOnBuffer(f: FrameDecodeState<T>, section: Section<T>, limit: OutputLimit) returns (more: seq<byte>)
      requires Drainable() && currentFrame == Some(f)
      requires limit.maxOutputSize == cfg.maxOutputSize && limit.producedBefore + |output| == Leftover() + |total|
      ensures f.start <= |output| && f.outputSize <= totalOutputSize == |total| && f.reps.Valid()
      ensures var d := ExecBlock(Frame(totalOutputSize - f.outputSize, f.header.windowSize, cfg.Content()), f.header.blockSizeMax,
                                 section.literals, section.commands, total, f.reps, OutputLimit(0, cfg.maxOutputSize), None);
              var k := ExecBlock(Frame(f.start, f.header.windowSize, cfg.Content()), f.header.blockSizeMax,
                                 section.literals, section.commands, output, f.reps, limit, None);
              if d == None || Overcharged(|d.value.0|) then k == None
              else k.Some? && d == Some((total + more, k.value.1)) && k.value.0 == output + more
    {
      hide ExecBlock;
      hide StandsFor;
      HeldStandsFor();
      var whole := Frame(totalOutputSize - f.outputSize, f.header.windowSize, cfg.Content());
      var frame := Frame(f.start, f.header.windowSize, cfg.Content());
      var charged := OutputLimit(Leftover(), cfg.maxOutputSize);
      more := BlockOnCompacted(whole, total, frame, output, f.header.blockSizeMax,
                               section.literals, section.commands, f.reps, charged, limit);
      ChargeOnlyRejects(whole, f.header.blockSizeMax, section.literals, section.commands, total, f.reps,
                        Leftover(), cfg.maxOutputSize, None);
    }

    method CompressedOutput(f: FrameDecodeState<T>, section: Section<T>, limit: OutputLimit)
      returns (r: Option<(seq<byte>, T, Reps)>)
      requires cfg.Valid() && Drainable() && currentFrame == Some(f)
      requires limit.maxOutputSize == cfg.maxOutputSize && limit.producedBefore + |output| == Leftover() + |total|
      ensures r.Some? ==> r.value.2.Valid() && r.value.1 == section.entropy
      ensures var d := ExecBlock(Frame(totalOutputSize - f.outputSize, f.header.windowSize, cfg.Content()), f.header.blockSizeMax,
                                 section.literals, section.commands, total, f.reps, OutputLimit(0, cfg.maxOutputSize), None);
              if d == None || Overcharged(|d.value.0|) then r == None
              else r.Some? && d == Some((total + r.value.0, r.value.2))
    {
      hide ExecBlock;
      hide Overcharged;
      ghost var more := BlockOnBuffer(f, section, limit);
      var dictionary := if cfg.dictionary == None then None else Some(cfg.dictionary.value.content);
      var executed := ExecBlock(Frame(f.start, f.header.windowSize, dictionary), f.header.blockSizeMax,
                                section.literals, section.commands, output, f.reps, limit, None);
      if executed == None {
        return None;
      }
      assert (output + more)[|output|..] == more;
      return Some((executed.value.0[|output|..], section.entropy, executed.value.1));
    }

    /** Append what a block produced, and count and hash it. */
    method Absorb(more: seq<byte>, entropy: T, reps: Reps)
      requires Drainable() && ChecksumValid() && StateValid() && currentFrame.Some? && reps.Valid()
      modifies this`output, this`total, this`currentFrame, this`totalOutputSize, hash, hash.buffered
      ensures Drainable() && ChecksumValid() && StateValid()
      ensures total == old(total) + more && Delivered() == old(Delivered())
      ensures currentFrame.Some? && currentFrame.value.Abstract(totalOutputSize)
                                    == old(currentFrame.value.Abstract(totalOutputSize)).(entropy := entropy, reps := reps)
    {
      var f := currentFrame.value;
      ContentGrows(f, total, more);
      Regroup(gone, output, more);
      Regroup(earlier, total, more);
      assert (output + more)[..outputPos] == output[..outputPos];
      output := output + more;
      total := total + more;
      totalOutputSize := totalOutputSize + |more|;
      currentFrame := Some(f.(entropy := entropy, reps := reps, outputSize := f.outputSize + |more|));
      if f.header.checksum {
        hash.Update(more);
      }
    }

    method DecodeBlock(block: BlockHeader, payload: seq<byte>) returns (ok: bool)
      requires cfg.Valid() && Drainable() && ChecksumValid() && StateValid() && currentFrame.Some?
      requires |payload| == block.PayloadSize()
      modifies this`output, this`total, this`currentFrame, this`totalOutputSize, hash, hash.buffered
      ensures Drainable() && ChecksumValid() && StateValid() && currentFrame.Some?
      ensures Delivered() == old(Delivered())
      ensures var d := StreamMachine.DecodeBlock(cfg, old(total), old(currentFrame.value.Abstract(totalOutputSize)), block, payload);
              if d == None || Overcharged(|d.value.0|) then !ok
              else ok && d == Some((total, currentFrame.value.Abstract(totalOutputSize)))
    {
      hide Xxh64State.Valid;
      hide StreamMachine.DecodeBlock;
      var r := BlockOutput(currentFrame.value, block, payload);
      if r == None {
        return false;
      }
      var (more, entropy, reps) := r.value;
      Absorb(more, entropy, reps);
      return true;
    }

    /** Close the frame; its size must be the one it declared. */
    method FinishFrame() returns (ok: bool)
      requires Drainable() && currentFrame.Some?
      modifies this`currentFrame, this`decodedAFrame
      ensures Drainable() && currentFrame == None
      ensures var f := old(currentFrame.value); ok <==> (f.header.contentSize.Some? ==> f.header.contentSize.value == f.outputSize)
      ensures ok ==> decodedAFrame
    {
      var frame := currentFrame.value;
      currentFrame := None;
      if frame.header.contentSize.Some? && frame.outputSize != frame.header.contentSize.value {
        return false;
      }
      decodedAFrame := true;
      return true;
    }

    /** The state after a decoded block. */
    method EndBlock(last: bool, ghost consumed: nat) returns (ok: bool)
      requires Drainable() && ChecksumValid() && currentFrame.Some?
      modifies this`state, this`currentFrame, this`decodedAFrame
      ensures Drainable()
      ensures var t := BlockDone(total, old(decodedAFrame), old(currentFrame.value.Abstract(totalOutputSize)), last, consumed);
              if ok then StateValid() && ChecksumValid() && t == Turn(Abstract(), consumed, true) else t.Reject?
    {
      hide Xxh64State.Valid;
      ok := true;
      if !last {
        state := BlockHeaderState;
      } else if currentFrame.value.header.checksum {
        state := FrameChecksumState;
      } else {
        ok := FinishFrame();
        state := FrameHeaderState;
      }
    }

    /** One block, and where it leads. */
    method RunBlock(block: BlockHeader, payload: seq<byte>) returns (ok: bool)
      requires Valid() && currentFrame.Some? && |payload| == block.PayloadSize()
      modifies this`state, this`decodedAFrame, this`output, this`total, this`currentFrame, this`totalOutputSize, hash, hash.buffered
      ensures KeepsQueue() && UnconsumedInput() == old(UnconsumedInput())
      ensures var d := StreamMachine.DecodeBlock(cfg, old(total), old(currentFrame.value.Abstract(totalOutputSize)), block, payload);
              if d == None || Overcharged(|d.value.0|) then !ok
              else
                var t := BlockDone(d.value.0, old(decodedAFrame), d.value.1, block.lastBlock, |payload|);
                if ok then Valid() && t == Turn(Abstract(), |payload|, true) else t.Reject?
    {
      hide UnconsumedInput;
      hide Xxh64State.Valid;
      hide StreamMachine.DecodeBlock;
      hide BlockDone;
      ok := DecodeBlock(block, payload);
      if ok {
        ok := EndBlock(block.lastBlock, |payload|);
      }
    }

    /** The machine's turn on the block the decoder is at. */
    lemma PayloadTurnHere(m: Machine<T>, unread: seq<byte>)
      requires Valid() && At(m, unread) && state.BlockPayloadState?
      ensures currentFrame.Some? && currentFrame.value.outputSize <= totalOutputSize
      ensures currentFrame.value.Abstract(totalOutputSize).start <= |total| && currentFrame.value.reps.Valid()
      ensures var f, block := currentFrame.value.Abstract(totalOutputSize), state.header;
              var size := block.PayloadSize();
              var d := if |unread| < size then None else StreamMachine.DecodeBlock(cfg, total, f, block, unread[..size]);
              BlockTurn(cfg, m, unread)
              == if |unread| < size then Turn(m, 0, false)
                 else if d == None then Reject else BlockDone(d.value.0, decodedAFrame, d.value.1, block.lastBlock, size)
    {
      hide StreamMachine.DecodeBlock;
      hide BlockDone;
      PayloadTurn(cfg, currentFrame.value.Abstract(totalOutputSize), state.header, total, decodedAFrame, unread);
    }

    method ProcessBlockPayload(ghost m: Machine<T>, ghost unread: seq<byte>) returns (progress: Option<bool>)
      requires Valid() && At(m, unread) && state.BlockPayloadState?
      modifies this`inputPos, this`state, this`decodedAFrame, this`output, this`total, this`currentFrame, this`totalOutputSize,
               hash, hash.buffered
      ensures Took(BlockTurn(cfg, m, unread), unread, progress)
      ensures KeepsQueue()
    {
      hide UnconsumedInput;
      hide After;
      hide Xxh64State.Valid;
      hide StreamMachine.DecodeBlock;
      hide BlockDone;
      hide BlockTurn;
      hide ChecksumValid;
      hide Abstract;
      hide FrameDecodeState.Abstract;
      var header := state.header;
      var size := header.PayloadSize();
      PayloadTurnHere(m, unread);
      if |input| - inputPos < size {
        return Some(false);
      }
      var payload := UnconsumedInput()[..size];
      Advance(size);
      var ok := RunBlock(header, payload);
      return if ok then Some(true) else None;
    }

    /** The low half of the digest of what the frame has produced. */
    method ActualChecksum() returns (digest: nat)
      requires hash.Valid()
      ensures digest == ContentChecksum(hash.mixer, hash.content)
    {
      var whole := hash.DigestNow();
      digest := whole % U32_MODULUS;
    }

    /** Close the frame if it carried the right checksum. */
    method EndFrame(expected: nat) returns (ok: bool)
      requires Drainable() && ChecksumValid() && StateValid() && state.FrameChecksumState?
      modifies this`state, this`currentFrame, this`decodedAFrame
      ensures Drainable()
      ensures var f := old(currentFrame.value);
              if cfg.verifyChecksum && ContentChecksum(cfg.mixer, f.Content(total)) != expected then !ok
              else
                var t := StreamMachine.FinishFrame(total, f.Abstract(totalOutputSize), 4);
                if ok then StateValid() && ChecksumValid() && t == Turn(Abstract(), 4, true) else t.Reject?
    {
      hide Xxh64State.Valid;
      hide ContentChecksum;
      if cfg.verifyChecksum {
        var actual := ActualChecksum();
        if actual != expected {
          return false;
        }
      }
      ok := FinishFrame();
      if ok {
        state := FrameHeaderState;
      }
    }

    method ProcessFrameChecksum(ghost m: Machine<T>, ghost unread: seq<byte>) returns (progress: Option<bool>)
      requires Valid() && At(m, unread) && state.FrameChecksumState?
      modifies this`inputPos, this`state, this`decodedAFrame, this`currentFrame
      ensures Took(ChecksumTurn(cfg, m, unread), unread, progress)
      ensures KeepsQueue()
    {
      hide UnconsumedInput;
      hide After;
      hide Xxh64State.Valid;
      hide ContentChecksum;
      hide StreamMachine.FinishFrame;
      hide Le;
      if |input| - inputPos < 4 {
        return Some(false);
      }
      var expected := Le(UnconsumedInput()[..4]);
      Advance(4);
      var ok := EndFrame(expected);
      return if ok then Some(true) else None;
    }

    /** The turn of whatever state the decoder is in. */
    method TakeTurn(ghost m: Machine<T>, ghost unread: seq<byte>) returns (progress: Option<bool>)
      requires Valid() && At(m, unread)
      modifies this, hash, hash.buffered
      ensures Took(Step(AsWritten, cfg, m, unread), unread, progress)
      ensures KeepsQueue()
    {
      hide UnconsumedInput;
      hide After;
      hide Xxh64State.Valid;
      hide FrameTurn;
      hide SkippableTurn;
      hide BlockHeaderTurn;
      hide BlockTurn;
      hide ChecksumTurn;
      match state
      case FrameHeaderState => progress := ProcessFrameHeader(m, unread);
      case SkippableState(_) => progress := ProcessSkippableFrame(m, unread);
      case BlockHeaderState => progress := ProcessBlockHeader(m, unread);
      case BlockPayloadState(_) => progress := ProcessBlockPayload(m, unread);
      case FrameChecksumState => progress := ProcessFrameChecksum(m, unread);
    }

    /** Compacting the input changes nothing the machine sees. */
    method CompactAfterTurn(ghost m: Machine<T>, ghost unread: seq<byte>)
      requires Valid() && At(m, unread)
      modifies this`input, this`inputPos, this`inputDropped, this`inputGone
      ensures Valid() && At(m, unread) && KeepsQueue()
    {
      hide UnconsumedInput;
      hide After;
      hide Xxh64State.Valid;
      CompactInput();
    }

    /** A turn, and after it the input is compacted. */
    method NextTurn(ghost m: Machine<T>, ghost unread: seq<byte>) returns (progress: Option<bool>)
      requires Valid() && m.Valid() && At(m, unread)
      modifies this, hash, hash.buffered
      ensures Took(Step(AsWritten, cfg, m, unread), unread, progress)
      ensures KeepsQueue()
    {
      hide UnconsumedInput;
      hide After;
      hide Step;
      hide Valid;
      hide At;
      hide Drainable;
      progress := TakeTurn(m, unread);
      if progress == Some(true) {
        ghost var t := Step(AsWritten, cfg, m, unread);
        CompactAfterTurn(t.next, After(unread, t.consumed));
      }
    }

    /** Take turns while they make progress: the machine's run on what is there. */
    method Process() returns (ok: bool)
      requires Valid()
      modifies this, hash, hash.buffered
      ensures Ran(RunMachine(AsWritten, cfg, old(Abstract()), old(UnconsumedInput())), ok)
      ensures KeepsQueue()
    {
      hide UnconsumedInput;
      hide After;
      ghost var m, unread := Abstract(), UnconsumedInput();
      hide Valid;
      hide At;
      hide Drainable;
      hide Step;
      hide RunMachine;
      ghost var whole := RunMachine(AsWritten, cfg, m, unread);
      while true
        invariant Valid() && At(m, unread) && m.Valid() && RunMachine(AsWritten, cfg, m, unread) == whole
        invariant KeepsQueue()
        decreases |unread|, Rank()(m)
      {
        OneTurn(cfg, m, unread);
        NoLessThanNext(cfg, m, unread);
        ghost var t := Step(AsWritten, cfg, m, unread);
        var progress := NextTurn(m, unread);
        if progress == None {
          return false;
        }
        m, unread := t.next, After(unread, t.consumed);
        if !progress.value {
          return true;
        }
      }
    }

    /** What a run came to: where it stopped, that it was rejected, or that it exceeds the cap beside what was left over. */
    ghost predicate Ran(r: Option<(Machine<T>, seq<byte>)>, ok: bool)
      reads this, hash, hash.buffered
    {
      if ok then r.Some? && Valid() && At(r.value.0, r.value.1)
      else r == None || Overcharged(|r.value.0.total|)
    }

    method Push(src: seq<byte>) returns (ok: bool)
      requires Valid()
      modifies this, hash, hash.buffered
      ensures Drainable() && Delivered() == old(Delivered())
      ensures finishedInput == old(finishedInput) && unchanged(`earlier) && Leftover() <= old(Leftover())
      ensures if finishedInput then !ok && Pushed() == old(Pushed())
              else Pushed() == old(Pushed()) + src
                   && Ran(RunMachine(AsWritten, cfg, old(Abstract()), old(UnconsumedInput()) + src), ok)
    {
      hide RunMachine;
      hide Xxh64State.Valid;
      if finishedInput {
        return false;
      }
      assert (input + src)[inputPos..] == input[inputPos..] + src;
      Regroup(inputGone, input, src);
      receivedInput := receivedInput || src != [];
      input := input + src;
      ok := Process();
    }

    method FinishStatus() returns (ok: bool)
      requires Valid()
      ensures ok <==> Pushed() != [] && Accepting(Abstract(), UnconsumedInput())
    {
      return receivedInput && currentFrame == None && state == FrameHeaderState && inputPos == |input|;
    }

    /** No more input: the stream must end at the end of a frame. */
    method Finish() returns (ok: bool)
      requires Valid()
      modifies this, hash, hash.buffered
      ensures Drainable() && Delivered() == old(Delivered()) && Pushed() == old(Pushed())
      ensures finishedInput && unchanged(`earlier) && Leftover() <= old(Leftover())
      ensures var r := if old(finishedInput) then Some((old(Abstract()), old(UnconsumedInput())))
                       else RunMachine(AsWritten, cfg, old(Abstract()), old(UnconsumedInput()));
              if ok then r.Some? && Pushed() != [] && Accepting(r.value.0, r.value.1) && Valid() && At(r.value.0, r.value.1)
              else r == None || Pushed() == [] || !Accepting(r.value.0, r.value.1) || Overcharged(|r.value.0.total|)
    {
      hide RunMachine;
      hide UnconsumedInput;
      hide Xxh64State.Valid;
      if !finishedInput {
        finishedInput := true;
        var ran := Process();
        if !ran {
          return false;
        }
      }
      ok := FinishStatus();
    }

    /** An empty input, and the first frame's header next. */
    method ResetInput()
      requires currentFrame == None
      modifies this`input, this`inputPos, this`inputDropped, this`inputGone, this`receivedInput, this`finishedInput,
               this`state, this`decodedAFrame
      ensures InputValid() && Pushed() == [] && !finishedInput
      ensures StateValid() && state == FrameHeaderState && !decodedAFrame
    {
      input, inputPos, inputDropped, inputGone := [], 0, 0, [];
      receivedInput, finishedInput := false, false;
      state, decodedAFrame := FrameHeaderState, false;
    }

    /** Whatever has not been taken stays in the queue, ahead of what the next stream will write. */
    method ResetOutput()
      requires Drainable()
      modifies this`currentFrame, this`totalOutputSize, this`earlier, this`total
      ensures Drainable() && currentFrame == None && total == [] && earlier == old(Written()) && Leftover() == |output|
      ensures Delivered() == old(Delivered()) && PendingOutput() == old(PendingOutput())
    {
      assert Written() + [] == Written();
      currentFrame, totalOutputSize, earlier, total := None, 0, Written(), [];
    }

    /** The decoder as new, with its queue as it was. */
    method ResetState()
      requires Valid()
      modifies this
      ensures Valid() && Abstract() == Initial() && Pushed() == [] && !finishedInput
      ensures Delivered() == old(Delivered()) && PendingOutput() == old(PendingOutput()) && earlier == old(Written())
      ensures Leftover() == |output|
    {
      hide Xxh64State.Valid;
      hide Leftover;
      hide Written;
      ResetOutput();
      ResetInput();
    }

    /** Ready for another stream, whose output will follow what is still in the queue. */
    method Reset() returns (ok: bool)
      requires Valid()
      modifies this
      ensures ok <==> old(Pushed()) != [] && Accepting(old(Abstract()), old(UnconsumedInput()))
      ensures if ok then
                && Valid() && Abstract() == Initial() && Pushed() == [] && !finishedInput
                && Delivered() == old(Delivered()) && PendingOutput() == old(PendingOutput())
                && earlier == old(Written()) && Leftover() == |output|
              else unchanged(this)
    {
      hide Xxh64State.Valid;
      hide UnconsumedInput;
      hide Accepting;
      ok := FinishStatus();
      if ok {
        ResetState();
      }
    }
  }

  // ----- a client

  /** The first of the chunks still to push. */
  lemma NextChunk<T>(cfg: Config<T>, m: Machine<T>, rest: seq<byte>, chunks: seq<seq<byte>>, i: nat)
    requires i < |chunks|
    ensures PushAll(Turns(AsWritten, cfg), Rank(), m, rest, chunks[i..])
         == match RunMachine(AsWritten, cfg, m, rest + chunks[i])
            case None => None
            case Some((next, left)) => PushAll(Turns(AsWritten, cfg), Rank(), next, left, chunks[i + 1..])
    ensures Concat(chunks[i..]) == chunks[i] + Concat(chunks[i + 1..])
  {
    assert chunks[i..][1..] == chunks[i + 1..];
  }

  lemma NoMoreChunks<T>(cfg: Config<T>, m: Machine<T>, rest: seq<byte>, chunks: seq<seq<byte>>)
    ensures PushAll(Turns(AsWritten, cfg), Rank(), m, rest, chunks[|chunks|..]) == Some((m, rest))
    ensures Concat(chunks[|chunks|..]) == []
  {
  }

  lemma AllChunks(chunks: seq<seq<byte>>)
    ensures chunks[0..] == chunks && [] + Concat(chunks) == Concat(chunks)
  {
  }

  /** Push one chunk and read up to `amount` bytes. */
  method PushAndRead<T(!new)>(decoder: StreamingDecoder<T>, chunk: seq<byte>, amount: nat) returns (bytes: Option<seq<byte>>)
    requires decoder.Valid() && !decoder.finishedInput && decoder.earlier == []
    modifies decoder, decoder.hash, decoder.hash.buffered
    ensures decoder.earlier == []
    ensures var r := RunMachine(AsWritten, decoder.cfg, old(decoder.Abstract()), old(decoder.UnconsumedInput()) + chunk);
            if bytes == None then r == None
            else
              && r.Some? && decoder.Valid() && decoder.Drainable() && decoder.At(r.value.0, r.value.1) && !decoder.finishedInput
              && decoder.Pushed() == old(decoder.Pushed()) + chunk
              && decoder.Delivered() == old(decoder.Delivered()) + bytes.value
  {
    hide RunMachine;
    hide Xxh64State.Valid;
    var ok := decoder.Push(chunk);
    if !ok {
      return None;
    }
    label Pushed:
    var dst := new byte[amount](_ => 0);
    var n := decoder.Read(dst);
    decoder.StillTheSame@Pushed();
    return Some(dst[..n]);
  }

  /** No more input: take what is left. */
  method FinishAndTake<T(!new)>(decoder: StreamingDecoder<T>) returns (bytes: Option<seq<byte>>)
    requires decoder.Valid() && !decoder.finishedInput && decoder.earlier == []
    modifies decoder, decoder.hash, decoder.hash.buffered
    ensures var r := RunMachine(AsWritten, decoder.cfg, old(decoder.Abstract()), old(decoder.UnconsumedInput()));
            if r.Some? && old(decoder.Pushed()) != [] && Accepting(r.value.0, r.value.1)
            then bytes.Some? && old(decoder.Delivered()) + bytes.value == r.value.0.total
            else bytes == None
  {
    hide RunMachine;
    hide Xxh64State.Valid;
    var ok := decoder.Finish();
    if !ok {
      return None;
    }
    var rest := decoder.TakeOutput();
    assert decoder.output[..decoder.outputPos] == decoder.output;
    assert [] + decoder.total == decoder.total;
    return Some(rest);
  }

  /** Push the chunks, read as much as `amounts` says after each, finish, and take what is left. */
  method DecodeInChunks<T(!new)>(cfg: Config<T>, chunks: seq<seq<byte>>, amounts: seq<nat>) returns (out: Option<seq<byte>>)
    requires cfg.Valid() && |amounts| == |chunks|
    ensures out == Streamed(AsWritten, cfg, chunks)
  {
    hide RunMachine;
    hide StreamingDecoder.Valid;
    hide Concat;
    hide PushAll;
    AllChunks(chunks);
    var decoder := new StreamingDecoder(cfg);
    var got: seq<byte>, i := [], 0;
    ghost var step := Turns(AsWritten, cfg);
    ghost var m: Machine<T>, left: seq<byte> := Initial(), [];
    while i < |chunks|
      invariant 0 <= i <= |chunks| && decoder.Valid() && decoder.Drainable() && decoder.cfg == cfg && !decoder.finishedInput
      invariant fresh(decoder) && fresh(decoder.hash) && fresh(decoder.hash.buffered)
      invariant decoder.At(m, left) && decoder.earlier == []
      invariant PushAll(step, Rank(), m, left, chunks[i..]) == PushAll(step, Rank(), Initial(), [], chunks)
      invariant decoder.Pushed() + Concat(chunks[i..]) == Concat(chunks)
      invariant got == decoder.Delivered()
    {
      NextChunk(cfg, m, left, chunks, i);
      Regroup(decoder.Pushed(), chunks[i], Concat(chunks[i + 1..]));
      var bytes := PushAndRead(decoder, chunks[i], amounts[i]);
      if bytes == None {
        return None;
      }
      ghost var stopped := RunMachine(AsWritten, cfg, m, left + chunks[i]).value;
      m, left := stopped.0, stopped.1;
      got := got + bytes.value;
      i := i + 1;
    }
    NoMoreChunks(cfg, m, left, chunks);
    var rest := FinishAndTake(decoder);
    return if rest == None then None else Some(got + rest.value);
  }

  /** One input, decoded whole and decoded in pieces: the same, when there are calls enough to get past its empty frames. */
  method DecodeBothWays<H(!new), C(!new), D(!new), S(!new)>(
      codec: Codec<H, C, D, S>, cfg: Config<Entropy<H, C, D>>, chunks: seq<seq<byte>>, amounts: seq<nat>)
    returns (whole: Option<seq<byte>>, streamed: Option<seq<byte>>)
    requires OneShotDecoder.ConfigFor(codec, cfg) && OneShotDecoder.BelowSentinel(cfg.maxWindowSize, None)
    requires |amounts| == |chunks|
    ensures streamed == if EnoughCalls(AfterCalls(EmptyEnds(cfg, Initial(), Concat(chunks)), chunks)) then whole else None
  {
    whole := OneShotDecoder.DecodeAll(Concat(chunks), codec, cfg);
    streamed := DecodeInChunks(cfg, chunks, amounts);
    WrittenStreamAgrees(cfg, chunks);
  }
}
