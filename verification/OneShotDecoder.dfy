/**
 The one-shot decoder: a cursor over the whole input, loops over its frames and
 their blocks, and the stages that turn a block into output.

 It writes to a buffer that grows or to a caller's slice.  Either way it accepts
 exactly the inputs that the machine's run accepts and whose output fits, and
 leaves exactly that output.
 */
module OneShotDecoder {
  import opened Common
  import opened Repcodes
  import opened BlockSpec
  import opened DecodeOutput
  import opened FrameFormat
  import opened Xxh64
  import opened StreamMachine
  import opened FrameOutcome
  import opened CompressedBlock
  import Executor
  import L = Literals
  import T = SequenceTables

  class Cursor {
    const src: seq<byte>
    var pos: nat

    ghost predicate Valid()
      reads this
    {
      pos <= |src|
    }

    function Remaining(): seq<byte>
      requires Valid()
      reads this
    {
      src[pos..]
    }

    /** The most that what remains can decode to: an RLE block is the densest. */
    function ExpansionBound(blockSizeMax: nat): (bound: nat)
      requires Valid()
      reads this
      ensures 4 * bound <= (|src| - pos) * blockSizeMax <= 4 * bound + 3 * blockSizeMax
    {
      var n := |src| - pos;
      assert n == n / 4 * 4 + n % 4 && n % 4 <= 3;
      Times(n % 4, 3, blockSizeMax);
      assert n * blockSizeMax == n / 4 * blockSizeMax * 4 + n % 4 * blockSizeMax;
      n / (BLOCK_HEADER_SIZE + 1) * blockSizeMax
    }

    constructor (src: seq<byte>)
      ensures Valid() && this.src == src && pos == 0
    {
      this.src := src;
      pos := 0;
    }

    /** The next `n` bytes, or nothing and no movement when there are fewer. */
    method ReadExact(n: nat) returns (bytes: Option<seq<byte>>)
      requires Valid()
      modifies this
      ensures Valid()
      ensures if n <= |old(Remaining())|
              then bytes == Some(old(Remaining())[..n]) && Remaining() == old(Remaining())[n..] && pos == old(pos) + n
              else bytes == None && pos == old(pos)
    {
      if n > |src| - pos {
        return None;
      }
      bytes := Some(src[pos..pos + n]);
      assert src[pos..][..n] == src[pos..pos + n];
      pos := pos + n;
    }
  }

  method SkipSkippableFrame<T>(cursor: Cursor, size: nat, ghost cfg: Config<T>, ghost m: Machine<T>) returns (ok: bool)
    requires cfg.Valid() && cursor.Valid() && m.phase == AtFrameHeader
    requires !cfg.singleFrame && cursor.Remaining() != []
    requires exists v :: ParseFrameHeader(cursor.Remaining(), cfg.magicless) == Good(Skippable(v, size))
    modifies cursor
    ensures cursor.Valid() && (ok ==> cursor.pos > old(cursor.pos))
    ensures Outcome(cfg, m, old(cursor.Remaining())) == if ok then Outcome(cfg, m, cursor.Remaining()) else None
  {
    ghost var input := cursor.Remaining();
    OutcomeOfTurn(cfg, m, input);
    OutcomeOfSkippable(cfg, m.(phase := InSkippable(size)), input[SKIPPABLE_HEADER_SIZE..]);
    var skipped := cursor.ReadExact(SKIPPABLE_HEADER_SIZE + size);
    ok := skipped.Some?;
    if ok {
      assert input[SKIPPABLE_HEADER_SIZE..][size..] == input[SKIPPABLE_HEADER_SIZE + size..];
      assert m.(phase := InSkippable(size)).(phase := AtFrameHeader) == m;
    }
  }

  // ----- the stages of a frame

  /** What the blocks of a frame leave each other, kept in place. */
  datatype Stages<!H(!new), !C(!new), !D(!new), !S(!new)> = Stages(
    literals: L.LiteralsDecoder<H>,
    tables: T.SequenceTablesState<C, D, S>,
    reps: RepeatOffsets)

  /** The stages are where frame `f` is. */
  ghost predicate At<H(!new), C(!new), D(!new), S(!new)>(codec: Codec<H, C, D, S>, stages: Stages<H, C, D, S>,
                                                        f: OpenFrame<Entropy<H, C, D>>)
    reads stages.literals, stages.tables, stages.tables.ll, stages.tables.of, stages.tables.ml, stages.reps
  {
    && stages.literals.huffman == codec.huffman && stages.tables.Valid(codec.builders)
    && EntropyOf(stages.literals, stages.tables) == f.entropy && stages.reps.values == f.reps
  }

  /** A part's table before a frame's first block: the dictionary's, or none. */
  predicate Untouched<C, D>(source: Option<T.Source<C, D>>) {
    source.Some? ==> source.value.FromDictionary?
  }

  function TableGiven<C, D>(source: Option<T.Source<C, D>>): (table: Option<D>)
    requires Untouched(source)
    ensures T.Given(table) == source
  {
    if source == None then None else Some(source.value.table)
  }

  predicate Opening<H, C, D>(e: Entropy<H, C, D>) {
    Untouched(e.sources.literalLengths) && Untouched(e.sources.offsets) && Untouched(e.sources.matchLengths)
  }

  /** The options are for this codec: its parser, and tables that come from a dictionary or not at all. */
  ghost predicate ConfigFor<H(!new), C(!new), D(!new), S(!new)>(codec: Codec<H, C, D, S>, cfg: Config<Entropy<H, C, D>>) {
    && cfg.Valid() && cfg.parse == Parser(codec) && Opening(cfg.initialEntropy)
    && (cfg.dictionary.Some? ==> Opening(cfg.dictionary.value.entropy))
  }

  /** A window, or a destination, below the distance that stands for an invalid one. */
  predicate BelowSentinel(window: Option<nat>, capacity: Option<nat>) {
    || (window.Some? && window.value < OFFSET_SENTINEL)
    || (capacity.Some? && capacity.value + BLOCK_SIZE_MAX < OFFSET_SENTINEL)
  }

  /** The tables and distances a frame begins with: the dictionary's, or none and 1, 4 and 8. */
  method OpenStages<H(!new), C(!new), D(!new), S(!new)>(codec: Codec<H, C, D, S>, cfg: Config<Entropy<H, C, D>>,
                                                        ghost header: ZstandardHeader, ghost start: nat)
    returns (stages: Stages<H, C, D, S>)
    requires ConfigFor(codec, cfg)
    ensures At(codec, stages, OpenedFrame(cfg, start, header)) && fresh(stages.literals) && fresh(stages.reps)
    ensures fresh(stages.tables.ll) && fresh(stages.tables.of) && fresh(stages.tables.ml)
  {
    var entropy, values := cfg.initialEntropy, Reps(1, 4, 8);
    if cfg.dictionary.Some? {
      entropy, values := cfg.dictionary.value.entropy, cfg.dictionary.value.reps;
    }
    var literals := new L.LiteralsDecoder(codec.huffman, entropy.table);
    var sources := entropy.sources;
    var tables := new T.SequenceTablesState(codec.builders, TableGiven(sources.literalLengths), TableGiven(sources.offsets),
                                            TableGiven(sources.matchLengths));
    var reps := new RepeatOffsets(values);
    stages := Stages(literals, tables, reps);
  }

  // ----- blocks

  /** A compressed block, through the stages. */
  method CompressedBlockInto<H(!new), C(!new), D(!new), S(!new)>(
      codec: Codec<H, C, D, S>, cfg: Config<Entropy<H, C, D>>, header: ZstandardHeader, start: nat, block: BlockHeader,
      payload: seq<byte>, stages: Stages<H, C, D, S>, out: DecodeOut, ghost f: OpenFrame<Entropy<H, C, D>>)
    returns (ok: bool)
    requires ConfigFor(codec, cfg) && At(codec, stages, f) && f.reps.Valid() && f.header == header && f.start == start
    requires out.Valid() && start <= out.len && block.blockType == Compressed && |payload| == block.PayloadSize()
    requires header.blockSizeMax <= BLOCK_SIZE_MAX && BelowSentinel(Some(header.windowSize), out.Capacity())
    modifies stages.literals, stages.tables.ll, stages.tables.of, stages.tables.ml, stages.reps, out, out.buf
    ensures out.Valid() && out.SameDestination()
    ensures var d := DecodeBlock(cfg, old(out.Contents()), f, block, payload);
            if d == None || !Fits(old(out.Capacity()), 0, |d.value.0|) then !ok
            else ok && out.Contents() == d.value.0 && At(codec, stages, d.value.1)
  {
    hide ExecBlock;
    hide ParseBlock;
    hide T.SequenceTablesState.Valid;
    var frame := Frame(start, header.windowSize,
                       if cfg.dictionary == None then None else Some(cfg.dictionary.value.content));
    var limit := OutputLimit(0, cfg.maxOutputSize);
    ghost var parsed := ParseBlock(codec, f.entropy, payload, header.blockSizeMax);
    if parsed.Some? {
      RoomOnlyRejects(frame, header.blockSizeMax, parsed.value.literals, parsed.value.commands, out.Contents(), f.reps,
                      limit, out.Capacity());
    }
    ok := DecodeCompressedBlock(codec, payload, header.blockSizeMax, frame, stages.literals, stages.tables, stages.reps,
                                out, limit);
  }

  /** A stored block or a repeated byte. */
  method PlainBlockInto<T>(cfg: Config<T>, block: BlockHeader, payload: seq<byte>, out: DecodeOut, ghost f: OpenFrame<T>)
    returns (ok: bool)
    requires out.Valid() && f.start <= out.len && f.reps.Valid()
    requires block.blockType != Compressed && |payload| == block.PayloadSize() && block.blockSize <= f.header.blockSizeMax
    modifies out, out.buf
    ensures out.Valid() && out.SameDestination()
    ensures var d := DecodeBlock(cfg, old(out.Contents()), f, block, payload);
            if d == None || !Fits(old(out.Capacity()), 0, |d.value.0|) then !ok
            else ok && d.value == (out.Contents(), f)
  {
    var limit := OutputLimit(0, cfg.maxOutputSize);
    if !limit.Allows(out.len + block.blockSize) {
      return false;
    }
    if block.blockType == Raw {
      ok := out.Append(payload);
    } else {
      ok := out.AppendRepeated(payload[0], block.blockSize);
    }
  }

  /** The payload of one block, decoded onto the output. */
  method DecodePayload<H(!new), C(!new), D(!new), S(!new)>(
      cursor: Cursor, codec: Codec<H, C, D, S>, cfg: Config<Entropy<H, C, D>>, header: ZstandardHeader, start: nat,
      block: BlockHeader, stages: Stages<H, C, D, S>, out: DecodeOut, ghost f: OpenFrame<Entropy<H, C, D>>,
      ghost decoded: bool)
    returns (ok: bool, ghost after: OpenFrame<Entropy<H, C, D>>)
    requires ConfigFor(codec, cfg) && cursor.Valid()
    requires At(codec, stages, f) && f.reps.Valid() && f.header == header && f.start == start
    requires out.Valid() && start <= out.len
    requires header.blockSizeMax <= BLOCK_SIZE_MAX && BelowSentinel(Some(header.windowSize), out.Capacity())
    modifies cursor, stages.literals, stages.tables.ll, stages.tables.of, stages.tables.ml, stages.reps, out, out.buf
    ensures cursor.Valid() && cursor.pos >= old(cursor.pos) && out.Valid() && out.SameDestination()
    ensures ok ==> At(codec, stages, after) && after.reps.Valid() && after.header == header && after.start == start <= out.len
    ensures Fitting(Outcome(cfg, Machine(InBlock(f, block), old(out.Contents()), decoded), old(cursor.Remaining())),
                    old(out.Capacity()))
         == if !ok then None
            else Fitting(AfterBlock(cfg, after, block.lastBlock, out.Contents(), decoded, cursor.Remaining()), out.Capacity())
  {
    hide Outcome;
    hide AfterBlock;
    hide DecodeBlock;
    hide ConfigFor;
    hide At;
    assert cfg.Valid() by { ConfigIsValid(codec, cfg); }
    after := f;
    hide Fitting;
    hide BelowSentinel;
    ghost var before := out.Contents();
    FittingBlock(cfg, f, block, before, decoded, cursor.Remaining(), out.Capacity());
    if block.blockType != Compressed && block.blockSize > header.blockSizeMax {
      TooLongIsRejected(cfg, before, f, block);
      return false, after;
    }
    var payload := cursor.ReadExact(block.PayloadSize());
    if payload == None {
      return false, after;
    }
    ghost var d := DecodeBlock(cfg, before, f, block, payload.value);
    if d.Some? {
      after := d.value.1;
    }
    if block.blockType == Compressed {
      ok := CompressedBlockInto(codec, cfg, header, start, block, payload.value, stages, out, f);
    } else {
      ok := PlainBlockInto(cfg, block, payload.value, out, f);
    }
  }

  lemma ConfigIsValid<H(!new), C(!new), D(!new), S(!new)>(codec: Codec<H, C, D, S>, cfg: Config<Entropy<H, C, D>>)
    requires ConfigFor(codec, cfg)
    ensures cfg.Valid()
  {
  }

  /** A stored block or a repeated byte longer than a block may be is rejected whatever its payload. */
  lemma TooLongIsRejected<T>(cfg: Config<T>, total: seq<byte>, f: OpenFrame<T>, block: BlockHeader)
    requires f.start <= |total| && f.reps.Valid() && block.blockType != Compressed && block.blockSize > f.header.blockSizeMax
    ensures forall payload: seq<byte> :: |payload| == block.PayloadSize() ==> DecodeBlock(cfg, total, f, block, payload) == None
  {
  }

  /** The blocks of one frame, up to and with the last. */
  method DecodeBlocks<H(!new), C(!new), D(!new), S(!new)>(
      cursor: Cursor, codec: Codec<H, C, D, S>, cfg: Config<Entropy<H, C, D>>, header: ZstandardHeader, start: nat,
      stages: Stages<H, C, D, S>, out: DecodeOut, ghost begun: OpenFrame<Entropy<H, C, D>>, ghost decoded: bool)
    returns (ok: bool, ghost end: OpenFrame<Entropy<H, C, D>>)
    requires ConfigFor(codec, cfg) && cursor.Valid()
    requires At(codec, stages, begun) && begun.reps.Valid() && begun.header == header && begun.start == start
    requires out.Valid() && start <= out.len
    requires header.blockSizeMax <= BLOCK_SIZE_MAX && BelowSentinel(Some(header.windowSize), out.Capacity())
    modifies cursor, stages.literals, stages.tables.ll, stages.tables.of, stages.tables.ml, stages.reps, out, out.buf
    ensures cursor.Valid() && cursor.pos >= old(cursor.pos) && out.Valid() && out.SameDestination()
    ensures ok ==> end.reps.Valid() && end.header == header && end.start == start <= out.len
    ensures Fitting(Outcome(cfg, Machine(AtBlockHeader(begun), old(out.Contents()), decoded), old(cursor.Remaining())),
                    old(out.Capacity()))
         == if !ok then None
            else Fitting(AfterBlock(cfg, end, true, out.Contents(), decoded, cursor.Remaining()), out.Capacity())
  {
    hide Outcome;
    hide DecodeBlock;
    hide ConfigFor;
    hide At;
    hide ParseBlockHeader;
    ConfigIsValid(codec, cfg);
    ghost var whole := Fitting(Outcome(cfg, Machine(AtBlockHeader(begun), out.Contents(), decoded), cursor.Remaining()),
                               out.Capacity());
    end := begun;
    while true
      invariant cursor.Valid() && cursor.pos >= old(cursor.pos) && out.Valid() && out.SameDestination()
      invariant At(codec, stages, end) && end.reps.Valid() && end.header == header && end.start == start <= out.len
      invariant Fitting(Outcome(cfg, Machine(AtBlockHeader(end), out.Contents(), decoded), cursor.Remaining()), out.Capacity())
             == whole
      invariant out.Capacity() == old(out.Capacity())
      decreases |cursor.src| - cursor.pos
    {
      ghost var input := cursor.Remaining();
      OutcomeOfTurn(cfg, Machine(AtBlockHeader(end), out.Contents(), decoded), input);
      var headerBytes := cursor.ReadExact(BLOCK_HEADER_SIZE);
      if headerBytes == None {
        return false, end;
      }
      HeaderFromItsBytes(input);
      var parsed := ParseBlockHeader(headerBytes.value);
      if parsed.Bad? {
        return false, end;
      }
      var block := parsed.value;
      ok, end := DecodePayload(cursor, codec, cfg, header, start, block, stages, out, end, decoded);
      if !ok || block.lastBlock {
        return;
      }
    }
  }

  method FrameChecksum(mixer: Mixer, content: seq<byte>) returns (low: nat)
    ensures low == ContentChecksum(mixer, content)
  {
    var hash := HashOf(mixer, content);
    low := hash % U32_MODULUS;
  }

  /** What follows a frame's last block: its checksum, if it has one, and the check of its size. */
  method DecodeFrameEnd<T>(cursor: Cursor, cfg: Config<T>, header: ZstandardHeader, start: nat, out: seq<byte>,
                           ghost frame: OpenFrame<T>, ghost decoded: bool)
    returns (ok: bool)
    requires cfg.Valid() && cursor.Valid() && frame.header == header && frame.start == start <= |out| && frame.reps.Valid()
    modifies cursor
    ensures cursor.Valid() && cursor.pos >= old(cursor.pos)
    ensures AfterBlock(cfg, frame, true, out, decoded, old(cursor.Remaining()))
         == if !ok then None else Outcome(cfg, Machine(AtFrameHeader, out, true), cursor.Remaining())
  {
    if header.checksum {
      OutcomeOfChecksum(cfg, frame, out, decoded, cursor.Remaining());
      var expected := cursor.ReadExact(4);
      if expected == None {
        return false;
      }
      if cfg.verifyChecksum {
        var actual := FrameChecksum(cfg.mixer, out[start..]);
        if actual != Le(expected.value) {
          return false;
        }
      }
    }
    return header.contentSize.Some? ==> |out| - start == header.contentSize.value;
  }

  // ----- frames

  /** A frame that may be opened starts sound, from tables that are the dictionary's or none. */
  lemma OpensSound<H(!new), C(!new), D(!new), S(!new)>(codec: Codec<H, C, D, S>, cfg: Config<Entropy<H, C, D>>, produced: nat,
                                                       header: ZstandardHeader, capacity: Option<nat>)
    requires ConfigFor(codec, cfg) && BelowSentinel(cfg.maxWindowSize, capacity) && Opens(cfg, produced, header)
    ensures BelowSentinel(Some(header.windowSize), capacity)
    ensures var f := OpenedFrame(cfg, produced, header);
            Opening(f.entropy) && f.reps.Valid() && f.header == header && f.start == produced
  {
  }

  /** The blocks of a frame that may be opened, from its first block header on. */
  method DecodeOpenedFrame<H(!new), C(!new), D(!new), S(!new)>(
      cursor: Cursor, header: ZstandardHeader, codec: Codec<H, C, D, S>, cfg: Config<Entropy<H, C, D>>, out: DecodeOut,
      ghost decoded: bool)
    returns (ok: bool, ghost end: OpenFrame<Entropy<H, C, D>>)
    requires ConfigFor(codec, cfg) && cursor.Valid() && out.Valid() && Opens(cfg, out.len, header)
    requires header.blockSizeMax <= BLOCK_SIZE_MAX && BelowSentinel(cfg.maxWindowSize, out.Capacity())
    modifies cursor, out, out.buf
    ensures cursor.Valid() && cursor.pos >= old(cursor.pos) && out.Valid() && out.SameDestination()
    ensures ok ==> end.reps.Valid() && end.header == header && end.start == old(out.len) <= out.len
    ensures Fitting(Outcome(cfg, Machine(AtBlockHeader(OpenedFrame(cfg, old(out.len), header)), old(out.Contents()), decoded),
                            old(cursor.Remaining())), old(out.Capacity()))
         == if !ok then None
            else Fitting(AfterBlock(cfg, end, true, out.Contents(), decoded, cursor.Remaining()), out.Capacity())
  {
    hide Outcome;
    hide AfterBlock;
    hide Fitting;
    hide ConfigFor;
    hide At;
    hide Opens;
    hide OpenedFrame;
    hide BelowSentinel;
    OpensSound(codec, cfg, out.len, header, out.Capacity());
    var start := out.len;
    ghost var begun := OpenedFrame(cfg, start, header);
    if header.contentSize.Some? {
      out.TryReserve(Min(header.contentSize.value, cursor.ExpansionBound(header.blockSizeMax)) + 32);
    }
    var stages := OpenStages(codec, cfg, header, start);
    ok, end := DecodeBlocks(cursor, codec, cfg, header, start, stages, out, begun, decoded);
  }

  method DecodeZstandardFrame<H(!new), C(!new), D(!new), S(!new)>(
      cursor: Cursor, header: ZstandardHeader, codec: Codec<H, C, D, S>, cfg: Config<Entropy<H, C, D>>, out: DecodeOut,
      ghost decoded: bool)
    returns (ok: bool)
    requires ConfigFor(codec, cfg) && cursor.Valid() && !(cfg.singleFrame && decoded)
    requires ParseFrameHeader(cursor.Remaining(), cfg.magicless) == Good(Zstandard(header))
    requires out.Valid() && BelowSentinel(cfg.maxWindowSize, out.Capacity())
    modifies cursor, out, out.buf
    ensures cursor.Valid() && cursor.pos > old(cursor.pos) && out.Valid() && out.SameDestination()
    ensures Fitting(Outcome(cfg, Machine(AtFrameHeader, old(out.Contents()), decoded), old(cursor.Remaining())),
                    old(out.Capacity()))
         == if !ok then None
            else Fitting(Outcome(cfg, Machine(AtFrameHeader, out.Contents(), true), cursor.Remaining()), out.Capacity())
  {
    hide Outcome;
    hide AfterBlock;
    hide ConfigFor;
    hide ParseFrameHeader;
    hide OpenedFrame;
    hide BelowSentinel;
    ConfigIsValid(codec, cfg);
    OutcomeOfOpening(cfg, out.Contents(), decoded, header, cursor.Remaining());
    var magicAndHeader := cursor.ReadExact(header.headerSize);
    if header.dictionaryId.Some? && (cfg.dictionary == None || cfg.dictionary.value.id != header.dictionaryId.value) {
      return false;
    }
    if cfg.maxWindowSize.Some? && header.windowSize > cfg.maxWindowSize.value {
      return false;
    }
    if header.contentSize.Some? && cfg.maxOutputSize.Some? && out.len + header.contentSize.value > cfg.maxOutputSize.value {
      return false;
    }
    var start := out.len;
    ghost var end;
    ok, end := DecodeOpenedFrame(cursor, header, codec, cfg, out, decoded);
    if ok {
      ok := DecodeFrameEnd(cursor, cfg, header, start, out.Contents(), end, decoded);
    }
  }

  /** One frame of either kind; a second one, or anything behind the first, is refused if only one is wanted. */
  method DecodeNextFrame<H(!new), C(!new), D(!new), S(!new)>(
      cursor: Cursor, codec: Codec<H, C, D, S>, cfg: Config<Entropy<H, C, D>>, out: DecodeOut, before: bool)
    returns (ok: bool, decoded: bool)
    requires ConfigFor(codec, cfg) && cursor.Valid() && cursor.Remaining() != [] && !(cfg.singleFrame && before)
    requires out.Valid() && BelowSentinel(cfg.maxWindowSize, out.Capacity())
    modifies cursor, out, out.buf
    ensures cursor.Valid() && out.Valid() && out.SameDestination()
    ensures ok ==> cursor.pos > old(cursor.pos) && (cfg.singleFrame && decoded ==> cursor.Remaining() == [])
    ensures Fitting(Outcome(cfg, Machine(AtFrameHeader, old(out.Contents()), before), old(cursor.Remaining())),
                    old(out.Capacity()))
         == if !ok then None
            else Fitting(Outcome(cfg, Machine(AtFrameHeader, out.Contents(), decoded), cursor.Remaining()), out.Capacity())
  {
    hide Outcome;
    hide ConfigFor;
    hide ParseFrameHeader;
    hide BelowSentinel;
    ConfigIsValid(codec, cfg);
    decoded := before;
    ghost var m := Machine(AtFrameHeader, out.Contents(), before);
    OutcomeOfTurn(cfg, m, cursor.Remaining());
    match ParseFrameHeader(cursor.Remaining(), cfg.magicless)
    case Eof => return false, decoded;
    case Bad => return false, decoded;
    case Good(Skippable(_, size)) =>
      if cfg.singleFrame {
        return false, decoded;
      }
      ok := SkipSkippableFrame(cursor, size, cfg, m);
    case Good(Zstandard(header)) =>
      ok := DecodeZstandardFrame(cursor, header, codec, cfg, out, decoded);
      decoded := true;
      if ok && cfg.singleFrame && cursor.pos != |cursor.src| {
        OutcomeOfTurn(cfg, Machine(AtFrameHeader, out.Contents(), true), cursor.Remaining());
        return false, decoded;
      }
  }

  method DecodeInto<H(!new), C(!new), D(!new), S(!new)>(src: seq<byte>, codec: Codec<H, C, D, S>,
                                                        cfg: Config<Entropy<H, C, D>>, out: DecodeOut)
    returns (ok: bool)
    requires ConfigFor(codec, cfg) && out.Valid() && BelowSentinel(cfg.maxWindowSize, out.Capacity())
    modifies out, out.buf
    ensures out.Valid() && out.SameDestination()
    ensures Fitting(Decoded(cfg, src), old(out.Capacity())) == if ok then Some(out.Contents()) else None
  {
    hide Outcome;
    hide ConfigFor;
    hide BelowSentinel;
    hide Decoded;
    ConfigIsValid(codec, cfg);
    DecodedIsOutcome(cfg, src);
    out.Clear();
    if |src| == 0 {
      return false;
    }
    var cursor := new Cursor(src);
    assert cursor.Remaining() == src && out.Contents() == [];
    var decoded := false;
    while cursor.pos != |src|
      invariant cursor.Valid() && cursor.src == src && fresh(cursor) && out.Valid() && out.SameDestination()
      invariant out.Capacity() == old(out.Capacity())
      invariant cfg.singleFrame && decoded ==> cursor.pos == |src|
      invariant Fitting(Outcome(cfg, Machine(AtFrameHeader, out.Contents(), decoded), cursor.Remaining()), out.Capacity())
             == Fitting(Decoded(cfg, src), out.Capacity())
      decreases |cursor.src| - cursor.pos
    {
      ok, decoded := DecodeNextFrame(cursor, codec, cfg, out, decoded);
      if !ok {
        return;
      }
    }
    OutcomeOfNothing(cfg, Machine(AtFrameHeader, out.Contents(), decoded));
    assert cursor.Remaining() == [] && Fits(out.Capacity(), 0, |out.Contents()|);
    return true;
  }

  /** Into a caller's slice: accepted exactly when the input decodes and its output fits. */
  method DecodeIntoSlice<H(!new), C(!new), D(!new), S(!new)>(src: seq<byte>, codec: Codec<H, C, D, S>,
                                                             cfg: Config<Entropy<H, C, D>>, dst: array<byte>)
    returns (len: Option<nat>)
    requires ConfigFor(codec, cfg) && BelowSentinel(cfg.maxWindowSize, Some(dst.Length))
    modifies dst
    ensures len.Some? <==> Decoded(cfg, src).Some? && |Decoded(cfg, src).value| <= dst.Length
    ensures len.Some? ==> len.value <= dst.Length && dst[..len.value] == Decoded(cfg, src).value
  {
    hide Decoded;
    var out := new DecodeOut.Fixed(dst);
    var ok := DecodeInto(src, codec, cfg, out);
    return if ok then Some(out.len) else None;
  }

  /** Into a buffer that grows. */
  method DecodeAll<H(!new), C(!new), D(!new), S(!new)>(src: seq<byte>, codec: Codec<H, C, D, S>, cfg: Config<Entropy<H, C, D>>)
    returns (r: Option<seq<byte>>)
    requires ConfigFor(codec, cfg) && BelowSentinel(cfg.maxWindowSize, None)
    ensures r == Decoded(cfg, src)
  {
    hide Decoded;
    var buf := new byte[0];
    var out := new DecodeOut.Growable(buf, 0);
    var ok := DecodeInto(src, codec, cfg, out);
    return if ok then Some(out.Contents()) else None;
  }
}
