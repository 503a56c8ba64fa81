/**
 The streaming encoder: how the pushed bytes are cut into blocks, how the buffer
 that matches reach into is compacted, and how the output queue is drained.

 What a block encodes to is a function of everything encoded before it; where
 the splitter would end a block is any function of what it is shown.
 */
module StreamingEncoding {
  import opened Common
  import opened Xxh64

  const MAX_DECLARABLE_WINDOW_SIZE: nat := 0x800_0000

  // ----- sizes

  datatype Params = Params(
    maxHistoryBytes: nat,
    rebasePeriod: nat,              // the cycle of the match finder's position tables
    optimal: bool,                  // the optimal parsers take full blocks
    blockSize: nat,
    pledged: Option<nat>,           // the content size announced in advance
    checksum: bool)
  {
    predicate Valid() {
      0 < maxHistoryBytes && 0 < rebasePeriod
    }

    /** How far back a match may reach. */
    function HistoryLimit(): nat {
      Min(maxHistoryBytes, MAX_DECLARABLE_WINDOW_SIZE)
    }

    function BlockSize(): (size: nat)
      ensures 0 < size
    {
      var window := Max(if pledged.Some? then Min(HistoryLimit(), pledged.value) else HistoryLimit(), 1);
      Min(Max(blockSize, 1024), window)
    }

    /** What the buffer may hold beyond the history before it is compacted. */
    function HistorySlack(): nat {
      if rebasePeriod >= HistoryLimit() * 2 + BlockSize() then HistoryLimit() else Max(HistoryLimit(), rebasePeriod)
    }

    function FrameCapacity(): nat {
      HistoryLimit() + HistorySlack() + BlockSize()
    }

    /** How full the input buffer must be before `push` encodes it. */
    function PushTarget(): nat {
      BlockSize() + (if pledged == Some(BlockSize()) then 1 else 0)
    }

    /** How much of `want` bytes to drop: whole cycles, if there is one. */
    function AlignedDrop(want: nat): (n: nat)
      requires Valid()
      ensures n <= want
    {
      if rebasePeriod > want then want else want - want % rebasePeriod
    }
  }

  /** The window is the history, as far as a header may declare one. */
  lemma HistoryIsDeclarable(p: Params)
    ensures p.HistoryLimit() == if p.maxHistoryBytes <= 0x800_0000 then p.maxHistoryBytes else 0x800_0000
  {
  }

  /** A block fits the window, the pledge and the requested size, which counts as 1024 at least; nothing larger does. */
  predicate BlockFits(p: Params, n: nat) {
    && 0 < n <= p.HistoryLimit() && (n <= p.blockSize || n <= 1024)
    && (p.pledged.Some? ==> n <= p.pledged.value || n == 1)
  }

  lemma BlockSizeIsLargest(p: Params)
    requires p.Valid()
    ensures BlockFits(p, p.BlockSize())
    ensures forall n: nat :: BlockFits(p, n) ==> n <= p.BlockSize()
  {
  }

  /** Three windows and two blocks at most. */
  lemma CapacityIsBounded(p: Params)
    requires p.Valid()
    ensures p.BlockSize() <= p.HistoryLimit() <= MAX_DECLARABLE_WINDOW_SIZE
    ensures p.FrameCapacity() <= 3 * p.HistoryLimit() + 2 * p.BlockSize()
  {
  }

  lemma SamePhase(position: int, dropped: int, cycles: int, period: nat)
    requires 0 < period && dropped == cycles * period
    ensures (position - dropped) % period == position % period
  {
    var q, r := position / period, position % period;
    assert position - dropped == (q - cycles) * period + r;
    Divided(position - dropped, q - cycles, r, period);
  }

  /** Every position is where it was in its cycle. */
  ghost predicate KeepsPhase(period: nat, dropped: nat)
    requires 0 < period
  {
    forall position: int {:trigger position % period} :: (position - dropped) % period == position % period
  }

  lemma WholeCyclesKeepPhase(period: nat, cycles: nat)
    requires 0 < period
    ensures KeepsPhase(period, cycles * period)
  {
    forall position: int
      ensures (position - cycles * period) % period == position % period
    {
      SamePhase(position, cycles * period, cycles, period);
    }
  }

  lemma WholeCycles(n: nat, period: nat)
    requires 0 < period <= n
    ensures 0 < n - n % period == n / period * period && n % period < period
  {
    var q := n / period;
    assert n == q * period + n % period;
  }

  /** A drop takes all it may when that is less than a cycle, and otherwise all but part of one. */
  lemma AlignedDropIs(p: Params, want: nat)
    requires p.Valid()
    ensures var n := p.AlignedDrop(want);
            if p.rebasePeriod > want then n == want
            else 0 < n <= want < n + p.rebasePeriod && KeepsPhase(p.rebasePeriod, n)
  {
    hide KeepsPhase;
    if p.rebasePeriod <= want {
      WholeCycles(want, p.rebasePeriod);
      WholeCyclesKeepPhase(p.rebasePeriod, want / p.rebasePeriod);
    }
  }

  /**
   Dropping what a full buffer can spare leaves the history, and either keeps every position
   where it was in its cycle or meets a cycle that the whole buffer does not fill.
   */
  lemma DropIsSafe(p: Params, len: nat)
    requires p.Valid() && p.HistoryLimit() + p.HistorySlack() < len <= p.FrameCapacity()
    ensures var dropped := p.AlignedDrop(len - p.HistoryLimit());
            && 0 < dropped && p.HistoryLimit() <= len - dropped <= p.HistoryLimit() + p.HistorySlack()
            && (KeepsPhase(p.rebasePeriod, dropped) || len <= p.rebasePeriod)
  {
    hide KeepsPhase;
    hide Params.AlignedDrop;
    hide Params.BlockSize;
    AlignedDropIs(p, len - p.HistoryLimit());
  }

  // ----- blocks

  datatype Block = Block(content: seq<byte>, last: bool)

  function ContentOf(blocks: seq<Block>): seq<byte> {
    if blocks == [] then [] else ContentOf(blocks[..|blocks| - 1]) + blocks[|blocks| - 1].content
  }

  lemma ContentOfMore(blocks: seq<Block>, block: Block)
    ensures ContentOf(blocks + [block]) == ContentOf(blocks) + block.content
  {
    assert (blocks + [block])[..|blocks|] == blocks;
  }

  /** No block is too big, and none is flagged as the last unless the frame is finished; then only the last is. */
  ghost predicate WellCut(blocks: seq<Block>, blockSize: nat, finished: bool) {
    && (forall i :: 0 <= i < |blocks| ==> |blocks[i].content| <= blockSize)
    && (forall i :: 0 <= i < |blocks| ==> (blocks[i].last <==> finished && i == |blocks| - 1))
    && (finished ==> blocks != [])
  }

  lemma CutOneMore(blocks: seq<Block>, blockSize: nat, block: Block)
    requires WellCut(blocks, blockSize, false) && |block.content| <= blockSize
    ensures WellCut(blocks + [block], blockSize, block.last)
  {
  }

  /** The block encoder and the splitter. */
  datatype Coder = Coder(
    header: seq<byte>,
    encode: (seq<Block>, Block) -> seq<byte>,  // the blocks so far and the next
    split: (seq<byte>, int) -> nat)            // the buffered input and the bytes saved so far

  /** The bytes the blocks encode to. */
  function EncodedBytes(coder: Coder, blocks: seq<Block>): seq<byte> {
    if blocks == [] then []
    else
      var earlier, last := blocks[..|blocks| - 1], blocks[|blocks| - 1];
      EncodedBytes(coder, earlier) + coder.encode(earlier, last)
  }

  lemma EncodedOneMore(coder: Coder, blocks: seq<Block>, block: Block)
    ensures EncodedBytes(coder, blocks + [block]) == EncodedBytes(coder, blocks) + coder.encode(blocks, block)
  {
    assert (blocks + [block])[..|blocks|] == blocks;
  }

  /** The low half of the digest, least significant byte first. */
  function Trailer(digest: word): seq<byte> {
    [(digest % 256) as byte, (digest / 256 % 256) as byte, (digest / 65536 % 256) as byte, (digest / 16777216 % 256) as byte]
  }

  /** A frame: the header, the blocks, and the checksum if there is one. */
  function FrameBytes(coder: Coder, blocks: seq<Block>, checksum: bool, mixer: Mixer, content: seq<byte>): seq<byte> {
    coder.header + EncodedBytes(coder, blocks) + (if checksum then Trailer(Digest(mixer, content)) else [])
  }

  /** A frame that has not begun is its header. */
  lemma NothingYet(params: Params, coder: Coder, mixer: Mixer)
    ensures WellCut([], params.BlockSize(), false) && ContentOf([]) == []
    ensures FrameBytes(coder, [], false, mixer, []) == coder.header
  {
    assert EncodedBytes(coder, []) == [];
  }

  class StreamingEncoder {
    const params: Params
    const coder: Coder
    const hash: Xxh64State
    var bufferedInput: seq<byte>
    var frame: seq<byte>
    var output: seq<byte>
    var outputPos: nat
    var savings: int
    var contentLen: nat
    var finished: bool
    var blocks: seq<Block>          // what the block encoder's tables have seen: this frame's blocks

    ghost var frameGone: seq<byte>  // what compaction dropped from the front of `frame`
    ghost var before: seq<byte>     // the output of earlier frames
    ghost var gone: seq<byte>       // what was dropped from the front of `output`
    ghost var moved: nat            // how many bytes that moved

    /** Everything pushed into this frame. */
    ghost function Pushed(): seq<byte>
      reads `blocks, `bufferedInput
    {
      ContentOf(blocks) + bufferedInput
    }

    /** Everything written, and how much of it the caller has taken. */
    ghost function Written(): seq<byte>
      reads `gone, `output
    {
      gone + output
    }

    ghost function Delivered(): seq<byte>
      requires outputPos <= |output|
      reads `gone, `output, `outputPos
    {
      gone + output[..outputPos]
    }

    function PendingOutput(): seq<byte>
      requires outputPos <= |output|
      reads `output, `outputPos
    {
      output[outputPos..]
    }

    /** The blocks are well cut, and what is buffered is less than it takes to cut another. */
    ghost predicate CutValid()
      reads `blocks, `bufferedInput, `finished, `contentLen
    {
      && WellCut(blocks, params.BlockSize(), finished)
      && |bufferedInput| < params.PushTarget() && (finished ==> bufferedInput == [])
      && contentLen == |Pushed()|
    }

    /** The frame buffer is the end of what was encoded, and within its capacity. */
    ghost predicate FrameValid()
      reads `blocks, `frame, `frameGone
    {
      frameGone + frame == ContentOf(blocks) && |frame| <= params.FrameCapacity()
    }

    ghost predicate QueueValid()
      reads `output, `outputPos, `gone, `moved
    {
      outputPos <= |output| && moved <= |gone|
    }

    ghost predicate HashValid()
      reads `blocks, `bufferedInput, hash, hash.buffered
    {
      hash.Valid() && (params.checksum ==> hash.content == Pushed())
    }

    /** The header, the blocks, and the checksum once the frame is finished. */
    ghost function Frame(): seq<byte>
      reads `blocks, `bufferedInput, `finished
    {
      FrameBytes(coder, blocks, finished && params.checksum, hash.mixer, Pushed())
    }

    ghost predicate Valid()
      reads this, hash, hash.buffered
    {
      && params.Valid() && CutValid() && FrameValid() && QueueValid() && HashValid()
      && Written() == before + Frame()
    }

    constructor (params: Params, coder: Coder, mixer: Mixer)
      requires params.Valid()
      ensures Valid() && this.params == params && this.coder == coder && fresh(hash) && fresh(hash.buffered)
      ensures !finished && Pushed() == [] && blocks == [] && Delivered() == [] && before == [] && hash.mixer == mixer
    {
      hide Xxh64State.Valid;
      hide WellCut;
      hide ContentOf;
      hide FrameBytes;
      NothingYet(params, coder, mixer);
      this.params := params;
      this.coder := coder;
      hash := new Xxh64State(mixer);
      bufferedInput, frame, savings, contentLen, finished := [], [], 0, 0, false;
      output, outputPos := coder.header, 0;
      blocks, frameGone, before, gone, moved := [], [], [], [], 0;
    }

    // ----- the frame buffer

    /** Drop history that has scrolled out of the window. */
    method CompactFrame()
      requires params.Valid() && FrameValid() && params.HistoryLimit() + params.HistorySlack() < |frame|
      modifies this`frame, this`frameGone
      ensures FrameValid() && params.HistoryLimit() <= |frame| <= params.HistoryLimit() + params.HistorySlack()
      ensures var dropped := |old(frame)| - |frame|;
              && 0 < dropped && frame == old(frame)[dropped..]
              && dropped == params.AlignedDrop(|old(frame)| - params.HistoryLimit())
              && (|old(frame)| <= params.rebasePeriod || KeepsPhase(params.rebasePeriod, dropped))
    {
      hide KeepsPhase;
      hide Params.AlignedDrop;
      hide Params.HistoryLimit;
      hide Params.HistorySlack;
      var dropped := params.AlignedDrop(|frame| - params.HistoryLimit());
      DropIsSafe(params, |frame|);
      hide ContentOf;
      assert frameGone + frame[..dropped] + frame[dropped..] == frameGone + frame;
      frameGone := frameGone + frame[..dropped];
      frame := frame[dropped..];
    }

    // ----- blocks

    /** The state between blocks, or after the one flagged as the last. */
    ghost predicate SoFar(flagged: bool)
      reads `blocks, `frame, `frameGone, `output, `outputPos, `gone, `moved, `before
    {
      && params.Valid() && WellCut(blocks, params.BlockSize(), flagged) && FrameValid() && QueueValid()
      && Written() == before + (coder.header + EncodedBytes(coder, blocks))
    }

    method Enqueue(bytes: seq<byte>)
      requires QueueValid()
      modifies this`output
      ensures QueueValid() && Delivered() == old(Delivered()) && Written() == old(Written()) + bytes
      ensures |output| == |old(output)| + |bytes|
    {
      Regroup(gone, output, bytes);
      assert (output + bytes)[..outputPos] == output[..outputPos];
      output := output + bytes;
    }

    /** Append to the output what the next block encodes to. */
    method Emit(block: Block) returns (size: nat)
      requires QueueValid() && Written() == before + (coder.header + EncodedBytes(coder, blocks))
      modifies this`output, this`blocks
      ensures QueueValid() && Delivered() == old(Delivered()) && blocks == old(blocks) + [block]
      ensures Written() == before + (coder.header + EncodedBytes(coder, blocks))
      ensures size == |output| - |old(output)|
    {
      hide EncodedBytes;
      EncodedOneMore(coder, blocks, block);
      var bytes := coder.encode(blocks, block);
      Regroup(before, coder.header + EncodedBytes(coder, blocks), bytes);
      Regroup(coder.header, EncodedBytes(coder, blocks), bytes);
      Enqueue(bytes);
      blocks := blocks + [block];
      size := |bytes|;
    }

    /** Move a block's worth of input behind the history. */
    method ExtendFrame(take: nat) returns (content: seq<byte>)
      requires params.Valid() && FrameValid() && take <= |bufferedInput| && take <= params.BlockSize()
      modifies this`frame, this`frameGone, this`bufferedInput
      ensures content == old(bufferedInput)[..take] && content + bufferedInput == old(bufferedInput)
      ensures frameGone + frame == ContentOf(blocks) + content && |frame| <= params.FrameCapacity()
    {
      hide ContentOf;
      if |frame| > params.HistoryLimit() + params.HistorySlack() {
        CompactFrame();
      }
      content := bufferedInput[..take];
      Regroup(frameGone, frame, content);
      frame := frame + content;
      bufferedInput := bufferedInput[take..];
    }

    /** Encode the first `take` buffered bytes as one block. */
    method EncodeBufferedBlock(take: nat, last: bool)
      requires SoFar(false) && take <= |bufferedInput| && take <= params.BlockSize()
      modifies this`frame, this`frameGone, this`bufferedInput, this`output, this`savings, this`blocks
      ensures SoFar(last) && Pushed() == old(Pushed()) && Delivered() == old(Delivered())
      ensures blocks == old(blocks) + [Block(old(bufferedInput)[..take], last)]
      ensures bufferedInput == old(bufferedInput)[take..]
      ensures savings - old(savings) == take - (|output| - |old(output)|)
    {
      hide WellCut;
      hide EncodedBytes;
      hide Params.FrameCapacity;
      hide Params.BlockSize;
      var content := ExtendFrame(take);
      var block := Block(content, last);
      CutOneMore(blocks, params.BlockSize(), block);
      ContentOfMore(blocks, block);
      Regroup(ContentOf(blocks), content, bufferedInput);
      hide ContentOf;
      var size := Emit(block);
      savings := savings + (take - size);
    }

    /** Where the splitter ends the next block: after one byte at least, and within a block. */
    function NextBlockSize(): (n: nat)
      requires bufferedInput != []
      reads `bufferedInput, `savings
      ensures 0 < n <= |bufferedInput| && n <= params.BlockSize()
    {
      var available := Min(|bufferedInput|, params.BlockSize());
      if params.optimal then available else Max(1, Min(coder.split(bufferedInput, savings), available))
    }

    /** A full buffer goes out as one block or two. */
    method EncodeBufferedChunk()
      requires SoFar(false) && |bufferedInput| == params.PushTarget()
      modifies this`frame, this`frameGone, this`bufferedInput, this`output, this`savings, this`blocks
      ensures SoFar(false) && Pushed() == old(Pushed()) && Delivered() == old(Delivered())
      ensures bufferedInput == [] && |old(blocks)| < |blocks| <= |old(blocks)| + 2
      ensures var n := |blocks[|old(blocks)|].content|;
              var wanted := coder.split(old(bufferedInput), old(savings));
              && n <= params.BlockSize()
              && (params.optimal ==> n == params.BlockSize())
              && (!params.optimal && 1 <= wanted <= params.BlockSize() ==> n == wanted)
              && (|blocks| == |old(blocks)| + 1 <==> n == |old(bufferedInput)|)
    {
      hide SoFar;
      hide ContentOf;
      var n := NextBlockSize();
      EncodeBufferedBlock(n, false);
      if bufferedInput != [] {
        EncodeBufferedBlock(|bufferedInput|, false);
      }
    }

    /** Before the frame is finished it has no trailer. */
    lemma FrameSoFar()
      requires !finished
      ensures Frame() == coder.header + EncodedBytes(coder, blocks)
    {
    }

    /** Take input in, a target's worth at a time. */
    method Absorb(src: seq<byte>)
      requires SoFar(false) && |bufferedInput| < params.PushTarget()
      modifies this`frame, this`frameGone, this`bufferedInput, this`output, this`savings, this`blocks
      ensures SoFar(false) && |bufferedInput| < params.PushTarget()
      ensures Pushed() == old(Pushed()) + src && Delivered() == old(Delivered())
      ensures old(blocks) == [] && |Pushed()| < params.PushTarget() ==> blocks == []
    {
      hide WellCut;
      hide EncodedBytes;
      hide FrameValid;
      hide ContentOf;
      hide Params.PushTarget;
      var target := params.PushTarget();
      var rest := src;
      assert Pushed() + src == old(Pushed()) + src;
      ghost var whole := Pushed() + src;
      while rest != []
        invariant SoFar(false) && |bufferedInput| < target && Delivered() == old(Delivered())
        invariant Pushed() + rest == whole
        invariant old(blocks) == [] && |whole| < target ==> blocks == []
      {
        ghost var pushed := Pushed();
        var take := Min(target - |bufferedInput|, |rest|);
        TakeSome(ContentOf(blocks), bufferedInput, rest, take);
        if old(blocks) == [] && |whole| < target {
          NoContent();
        }
        bufferedInput := bufferedInput + rest[..take];
        rest := rest[take..];
        if |bufferedInput| == target {
          EncodeBufferedChunk();
        }
      }
      assert Pushed() + [] == Pushed();
    }

    method Push(src: seq<byte>) returns (ok: bool)
      requires Valid()
      modifies this, hash, hash.buffered
      ensures Valid() && Delivered() == old(Delivered()) && before == old(before) && finished == old(finished)
      ensures ok <==> !finished
      ensures Pushed() == if ok then old(Pushed()) + src else old(Pushed())
      ensures old(blocks) == [] && |Pushed()| < params.PushTarget() && !finished ==> blocks == []
      ensures |bufferedInput| < params.BlockSize()
              || (params.pledged == Some(params.BlockSize()) && |bufferedInput| == params.BlockSize())
    {
      BufferedIsLess();
      if finished {
        return false;
      }
      hide WellCut;
      hide EncodedBytes;
      hide ContentOf;
      hide Xxh64State.Valid;
      hide Frame;
      hide FrameValid;
      hide SoFar;
      hide Params.PushTarget;
      SoFarHolds();
      if params.checksum {
        hash.Update(src);
      }
      contentLen := contentLen + |src|;
      Absorb(src);
      StillValid();
      BufferedIsLess();
      return true;
    }

    /** Send what is buffered as one block. */
    method Flush() returns (ok: bool)
      requires Valid()
      modifies this`frame, this`frameGone, this`bufferedInput, this`output, this`savings, this`blocks
      ensures Valid() && Delivered() == old(Delivered()) && Pushed() == old(Pushed())
      ensures ok <==> !finished
      ensures ok ==> bufferedInput == []
      ensures blocks == if ok && old(bufferedInput) != [] then old(blocks) + [Block(old(bufferedInput), false)] else old(blocks)
    {
      if finished {
        return false;
      }
      ok := true;
      if bufferedInput != [] {
        hide WellCut;
        hide EncodedBytes;
        hide ContentOf;
        hide Xxh64State.Valid;
        hide Frame;
        hide FrameValid;
        hide SoFar;
        SoFarHolds();
        All(bufferedInput);
        EncodeBufferedBlock(|bufferedInput|, false);
        StillValid();
      }
    }

    /** Less than a block is held back, or exactly the pledged one. */
    lemma BufferedIsLess()
      requires CutValid()
      ensures |bufferedInput| < params.BlockSize()
              || (params.pledged == Some(params.BlockSize()) && |bufferedInput| == params.BlockSize())
    {
    }

    lemma SoFarHolds()
      requires Valid() && !finished
      ensures SoFar(false) && |bufferedInput| <= params.BlockSize()
    {
      FrameSoFar();
    }

    lemma StillValid()
      requires SoFar(false) && !finished && HashValid() && |bufferedInput| < params.PushTarget() && contentLen == |Pushed()|
      ensures Valid()
    {
      FrameSoFar();
    }

    /** After the last block, the checksum. */
    method Close()
      requires SoFar(true) && HashValid() && bufferedInput == [] && !finished && contentLen == |Pushed()|
      modifies this`output, this`finished
      ensures Valid() && finished && Delivered() == old(Delivered())
    {
      hide WellCut;
      hide EncodedBytes;
      hide ContentOf;
      hide FrameValid;
      hide Trailer;
      hide Digest;
      var trailer := [];
      if params.checksum {
        var digest := hash.DigestNow();
        trailer := Trailer(digest);
      }
      hide Xxh64State.Valid;
      Regroup(before, coder.header + EncodedBytes(coder, blocks), trailer);
      Enqueue(trailer);
      finished := true;
    }

    /** The last block, flagged, and the checksum; refused when the content is not as long as was pledged. */
    method Finish() returns (ok: bool)
      requires Valid()
      modifies this`frame, this`frameGone, this`bufferedInput, this`output, this`savings, this`blocks, this`finished
      ensures Valid() && Delivered() == old(Delivered()) && Pushed() == old(Pushed())
      ensures ok <==> old(finished) || params.pledged == None || params.pledged.value == |Pushed()|
      ensures ok ==> finished
      ensures blocks == if ok && !old(finished) then old(blocks) + [Block(old(bufferedInput), true)] else old(blocks)
    {
      if finished {
        return true;
      }
      if params.pledged.Some? && params.pledged.value != contentLen {
        return false;
      }
      hide WellCut;
      hide EncodedBytes;
      hide ContentOf;
      hide Xxh64State.Valid;
      hide Frame;
      hide FrameValid;
      hide SoFar;
      SoFarHolds();
      All(bufferedInput);
      EncodeBufferedBlock(|bufferedInput|, true);
      Close();
      return true;
    }

    /** The buffers of a frame that has not begun. */
    method ClearFrame()
      modifies this`bufferedInput, this`frame, this`savings, this`contentLen, this`blocks, this`frameGone, this`finished
      ensures bufferedInput == [] && CutValid() && FrameValid() && Pushed() == [] && blocks == []
      ensures Frame() == coder.header && !finished
    {
      NothingYet(params, coder, hash.mixer);
      bufferedInput, frame, savings, contentLen, blocks, frameGone, finished := [], [], 0, 0, [], [], false;
    }

    /** Begin another frame behind what is still in the queue. */
    method Reset() returns (ok: bool)
      requires Valid()
      modifies this, hash
      ensures Valid() && Delivered() == old(Delivered())
      ensures ok <==> old(finished)
      ensures if ok then !finished && Pushed() == [] && blocks == [] && before == old(Written())
              else blocks == old(blocks) && Pushed() == old(Pushed()) && before == old(before)
    {
      if !finished {
        return false;
      }
      hide Xxh64State.Valid;
      hide CutValid;
      hide FrameValid;
      hide Pushed;
      hide Frame;
      ClearFrame();
      before := Written();
      Enqueue(coder.header);
      hash.Reset();
      return true;
    }

    // ----- the output queue

    /** The caller took the front of the queue; what was written is what it was. */
    twostate predicate Delivers(bytes: seq<byte>)
      requires old(QueueValid())
      reads `output, `outputPos, `gone, `moved
    {
      && QueueValid() && Written() == old(Written())
      && Delivered() == old(Delivered()) + bytes && bytes + PendingOutput() == old(PendingOutput())
    }

    /** Reclaim what has been drained; what was dropped pays for what was moved. */
    method CompactOutput()
      requires QueueValid()
      modifies this`output, this`outputPos, this`gone, this`moved
      ensures Delivers([])
      ensures |output| <= 2 * |PendingOutput()|
    {
      assert Delivered() + [] == Delivered() && [] + PendingOutput() == PendingOutput();
      if outputPos == 0 {
        return;
      }
      if outputPos == |output| || outputPos * 2 >= |output| {
        QueueSplit(gone, output, outputPos);
        moved := moved + (|output| - outputPos);
        gone := gone + output[..outputPos];
        output := output[outputPos..];
        outputPos := 0;
      }
    }

    /** Hand the first `count` pending bytes over. */
    method Deliver(count: nat) returns (bytes: seq<byte>)
      requires QueueValid() && count <= |PendingOutput()|
      modifies this`outputPos
      ensures Delivers(bytes) && bytes == old(PendingOutput())[..count] && outputPos == old(outputPos) + count
    {
      bytes := output[outputPos..outputPos + count];
      QueueTake(gone, output, outputPos, count);
      outputPos := outputPos + count;
    }

    method ConsumeOutput(count: nat)
      requires QueueValid() && count <= |PendingOutput()|
      modifies this`output, this`outputPos, this`gone, this`moved
      ensures Delivers(old(PendingOutput())[..count])
      ensures |output| <= 2 * |PendingOutput()|
    {
      var bytes := Deliver(count);
      assert bytes + [] == bytes;
      Regroup(old(Delivered()), bytes, []);
      CompactOutput();
    }

    /** Copy as much of the queue as fits into `dst`. */
    method Read(dst: array<byte>) returns (count: nat)
      requires QueueValid()
      modifies this`output, this`outputPos, this`gone, this`moved, dst
      ensures count == Min(dst.Length, |old(PendingOutput())|)
      ensures Delivers(dst[..count]) && dst[count..] == old(dst[count..])
    {
      count := Min(dst.Length, |PendingOutput()|);
      if count == 0 {
        assert Delivered() + [] == Delivered() && [] + PendingOutput() == PendingOutput();
        return;
      }
      var pending := PendingOutput();
      forall i | 0 <= i < count {
        dst[i] := pending[i];
      }
      assert dst[..count] == pending[..count];
      ConsumeOutput(count);
    }

    method TakeOutput() returns (out: seq<byte>)
      requires QueueValid()
      modifies this`output, this`outputPos, this`gone, this`moved
      ensures Delivers(out) && PendingOutput() == [] && output == []
    {
      out := output[outputPos..];
      assert gone + output[..outputPos] + out == gone + output == gone + output + [];
      assert gone + output + [][..0] == gone + output;
      gone := gone + output;
      output := [];
      outputPos := 0;
    }

    lemma QueueIsValid()
      requires Valid()
      ensures QueueValid()
    {
    }

    /** Draining leaves the encoder itself alone. */
    twostate lemma StillSound(bytes: seq<byte>)
      requires old(Valid()) && Delivers(bytes)
      requires unchanged(`blocks, `bufferedInput, `frame, `frameGone, `finished, `contentLen, `before)
      requires unchanged(hash) && unchanged(hash.buffered)
      ensures Valid() && Pushed() == old(Pushed())
    {
      hide Xxh64State.Valid;
      hide WellCut;
      hide ContentOf;
    }
  }

  lemma QueueSplit(gone: seq<byte>, output: seq<byte>, n: nat)
    requires n <= |output|
    ensures gone + output[..n] + output[n..] == gone + output
    ensures gone + output[..n] + output[n..][..0] == gone + output[..n]
    ensures output[n..][0..] == output[n..]
  {
  }

  lemma QueueTake(gone: seq<byte>, output: seq<byte>, pos: nat, n: nat)
    requires pos + n <= |output|
    ensures gone + output[..pos + n] == gone + output[..pos] + output[pos..pos + n]
    ensures output[pos..pos + n] + output[pos + n..] == output[pos..]
    ensures output[pos..][..n] == output[pos..pos + n]
  {
  }

  lemma All<T>(s: seq<T>)
    ensures s[..|s|] == s && s[|s|..] == []
  {
  }

  lemma NoContent()
    ensures ContentOf([]) == []
  {
  }

  lemma TakeSome(content: seq<byte>, buffered: seq<byte>, rest: seq<byte>, take: nat)
    requires take <= |rest|
    ensures content + (buffered + rest[..take]) + rest[take..] == content + buffered + rest
  {
    assert rest[..take] + rest[take..] == rest;
    Regroup(content, buffered, rest[..take]);
    Regroup(content + buffered, rest[..take], rest[take..]);
  }

  /** What is drained is all there is. */
  lemma Drained(gone: seq<byte>, output: seq<byte>, pos: nat)
    requires pos <= |output| && output[pos..] == []
    ensures gone + output[..pos] == gone + output
  {
  }

  // ----- a client

  /** What a client asks of an encoder before it finishes the frame. */
  datatype Request = Push(bytes: seq<byte>) | Flush | Read(size: nat) | Take {
    function Bytes(): seq<byte> {
      if Push? then bytes else []
    }
  }

  /** Everything a run of requests pushes. */
  function PushedBy(requests: seq<Request>): seq<byte> {
    if requests == [] then [] else PushedBy(requests[..|requests| - 1]) + requests[|requests| - 1].Bytes()
  }

  lemma PushedByMore(requests: seq<Request>, i: nat)
    requires i < |requests|
    ensures PushedBy(requests[..i + 1]) == PushedBy(requests[..i]) + requests[i].Bytes()
  {
    assert requests[..i + 1][..i] == requests[..i];
  }

  /** What a finished frame looks like from outside; if it was never flushed, a pledge of one block was kept as one. */
  ghost predicate IsFrameOf(params: Params, blocks: seq<Block>, content: seq<byte>, unflushed: bool) {
    && WellCut(blocks, params.BlockSize(), true) && ContentOf(blocks) == content
    && (params.pledged == Some(params.BlockSize()) && unflushed ==> blocks == [Block(content, true)])
  }

  /** An encoder on its first frame, into which `content` went and from which `taken` came. */
  ghost predicate Holds(encoder: StreamingEncoder, content: seq<byte>, taken: seq<byte>, unflushed: bool, finished: bool)
    reads encoder, encoder.hash, encoder.hash.buffered
  {
    && encoder.Valid() && encoder.finished == finished && encoder.Pushed() == content
    && encoder.before == [] && encoder.Delivered() == taken
    && (unflushed && !finished && |content| < encoder.params.PushTarget() ==> encoder.blocks == [])
  }

  /** Drain up to `size` bytes. */
  method ReadSome(encoder: StreamingEncoder, size: nat, ghost content: seq<byte>, ghost taken: seq<byte>, ghost unflushed: bool)
    returns (bytes: seq<byte>)
    requires Holds(encoder, content, taken, unflushed, false)
    modifies encoder
    ensures Holds(encoder, content, taken + bytes, unflushed, false)
  {
    hide StreamingEncoder.Valid;
    hide StreamingEncoder.Pushed;
    hide StreamingEncoder.Written;
    hide StreamingEncoder.Delivered;
    hide StreamingEncoder.PendingOutput;
    hide Params.PushTarget;
    encoder.QueueIsValid();
    label Before:
    var dst := new byte[size](_ => 0);
    var count := encoder.Read(dst);
    bytes := dst[..count];
    encoder.StillSound@Before(bytes);
  }

  method TakeSoFar(encoder: StreamingEncoder, ghost content: seq<byte>, ghost taken: seq<byte>, ghost unflushed: bool)
    returns (bytes: seq<byte>)
    requires Holds(encoder, content, taken, unflushed, false)
    modifies encoder
    ensures Holds(encoder, content, taken + bytes, unflushed, false)
  {
    hide StreamingEncoder.Valid;
    hide StreamingEncoder.Pushed;
    hide StreamingEncoder.Written;
    hide StreamingEncoder.Delivered;
    hide StreamingEncoder.PendingOutput;
    hide Params.PushTarget;
    encoder.QueueIsValid();
    bytes := encoder.TakeOutput();
    encoder.StillSound(bytes);
  }

  /** Do what is asked; `bytes` is what came out. */
  method Serve(encoder: StreamingEncoder, request: Request, ghost content: seq<byte>, ghost taken: seq<byte>,
               ghost unflushed: bool)
    returns (bytes: seq<byte>)
    requires Holds(encoder, content, taken, unflushed, false)
    modifies encoder, encoder.hash, encoder.hash.buffered
    ensures Holds(encoder, content + request.Bytes(), taken + bytes, unflushed && request != Flush, false)
  {
    hide StreamingEncoder.Valid;
    hide StreamingEncoder.Pushed;
    hide Params.PushTarget;
    assert content + [] == content && taken + [] == taken;
    match request
    case Push(src) =>
      var ok := encoder.Push(src);
      return [];
    case Flush =>
      var ok := encoder.Flush();
      return [];
    case Read(size) =>
      bytes := ReadSome(encoder, size, content, taken, unflushed);
    case Take =>
      bytes := TakeSoFar(encoder, content, taken, unflushed);
  }

  /** Close the frame, and check that what was held back for it went out as one block. */
  method Conclude(encoder: StreamingEncoder, ghost content: seq<byte>, ghost taken: seq<byte>, ghost unflushed: bool)
    returns (ok: bool)
    requires Holds(encoder, content, taken, unflushed, false)
    modifies encoder
    ensures ok <==> encoder.params.pledged == None || encoder.params.pledged.value == |content|
    ensures ok ==> Holds(encoder, content, taken, unflushed, true)
                   && IsFrameOf(encoder.params, encoder.blocks, content, unflushed)
  {
    hide WellCut;
    hide ContentOf;
    hide Xxh64State.Valid;
    hide StreamingEncoder.Frame;
    hide Params.BlockSize;
    ghost var buffered, blocks := encoder.bufferedInput, encoder.blocks;
    ok := encoder.Finish();
    if ok && unflushed && |content| < encoder.params.PushTarget() {
      NoContent();
      assert blocks == [] && [] + buffered == buffered;
      assert blocks + [Block(content, true)] == [Block(content, true)];
    }
    All(ContentOf(encoder.blocks));
  }

  /** With what is pending, the frame has been taken. */
  method TakeRest(encoder: StreamingEncoder, ghost content: seq<byte>, ghost taken: seq<byte>, ghost unflushed: bool)
    returns (rest: seq<byte>)
    requires Holds(encoder, content, taken, unflushed, true)
    modifies encoder
    ensures taken + rest == FrameBytes(encoder.coder, old(encoder.blocks), encoder.params.checksum, encoder.hash.mixer, content)
  {
    hide WellCut;
    hide ContentOf;
    hide Xxh64State.Valid;
    hide FrameBytes;
    hide StreamingEncoder.CutValid;
    assert [] + encoder.Frame() == encoder.Frame();
    rest := encoder.TakeOutput();
    Drained(encoder.gone, encoder.output, encoder.outputPos);
  }

  /**
   Any run of pushes, flushes and drains, then a finish: what came out, in order, is the frame,
   and its blocks cut what was pushed.
   */
  method EncodeByRequests(params: Params, coder: Coder, mixer: Mixer, requests: seq<Request>)
    returns (frame: Option<seq<byte>>, ghost blocks: seq<Block>)
    requires params.Valid()
    ensures frame.Some? <==> params.pledged == None || params.pledged.value == |PushedBy(requests)|
    ensures frame.Some? ==>
              && IsFrameOf(params, blocks, PushedBy(requests), Flush !in requests)
              && frame.value == FrameBytes(coder, blocks, params.checksum, mixer, PushedBy(requests))
  {
    hide StreamingEncoder.Valid;
    hide StreamingEncoder.Pushed;
    hide PushedBy;
    hide FrameBytes;
    hide IsFrameOf;
    hide Params.PushTarget;
    var encoder := new StreamingEncoder(params, coder, mixer);
    var taken: seq<byte>, i := [], 0;
    ghost var content: seq<byte>, unflushed := [], true;
    NothingPushed(requests);
    while i < |requests|
      invariant 0 <= i <= |requests| && fresh(encoder) && fresh(encoder.hash) && fresh(encoder.hash.buffered)
      invariant encoder.params == params && encoder.coder == coder && encoder.hash.mixer == mixer
      invariant Holds(encoder, content, taken, unflushed, false)
      invariant content == PushedBy(requests[..i]) && (unflushed <==> Flush !in requests[..i])
    {
      PushedByMore(requests, i);
      var bytes := Serve(encoder, requests[i], content, taken, unflushed);
      content, taken, unflushed := content + requests[i].Bytes(), taken + bytes, unflushed && requests[i] != Flush;
      i := i + 1;
    }
    All(requests);
    blocks := [];
    var finished := Conclude(encoder, content, taken, unflushed);
    if !finished {
      return None, blocks;
    }
    blocks := encoder.blocks;
    var rest := TakeRest(encoder, content, taken, unflushed);
    return Some(taken + rest), blocks;
  }

  lemma NothingPushed(requests: seq<Request>)
    ensures PushedBy(requests[..0]) == []
  {
  }
}
