/**
 Measuring frames without decoding them.

 The walk reads frame headers and block headers and skips what they announce.
 On every input the decoder accepts it finds the frames where the decoder finds
 them, and bounds what they decode to.
 */
module FrameWalk {
  import opened Common
  import opened BlockSpec
  import opened FrameFormat
  import opened Resumable
  import opened StreamMachine
  import opened StreamRuns
  import opened FrameOutcome

  const U64_MAX: nat := U64_MODULUS - 1

  datatype FrameSizeInfo = FrameSizeInfo(compressedSize: nat, decompressedBound: nat, declaredSize: Option<nat>)

  // ----- what the walk finds

  /** The bytes and the number of the blocks of one frame, from its first block header on. */
  function BlockRun(input: seq<byte>): (r: Option<(nat, nat)>)
    ensures r.Some? ==> BLOCK_HEADER_SIZE <= r.value.0 <= |input|
    decreases |input|
  {
    match ParseBlockHeader(input)
    case Eof => None
    case Bad => None
    case Good(block) =>
      var size := BLOCK_HEADER_SIZE + block.PayloadSize();
      if size > |input| then None
      else if block.lastBlock then Some((size, 1))
      else
        match BlockRun(input[size..])
        case None => None
        case Some((used, blocks)) => Some((size + used, blocks + 1))
  }

  /** The most that so many blocks yield. */
  function Yield(blocks: nat, blockSizeMax: nat): nat {
    blocks * blockSizeMax
  }

  function Saturated(n: nat): nat {
    Min(n, U64_MAX)
  }

  function ZstandardInfo(input: seq<byte>, h: ZstandardHeader): (r: Option<FrameSizeInfo>)
    requires h.headerSize <= |input|
    ensures r.Some? ==> h.headerSize + BLOCK_HEADER_SIZE <= r.value.compressedSize <= |input|
  {
    match BlockRun(input[h.headerSize..])
    case None => None
    case Some((used, blocks)) =>
      var end := h.headerSize + used + (if h.checksum then 4 else 0);
      var bound := if h.contentSize.Some? then h.contentSize.value else Saturated(Yield(blocks, h.blockSizeMax));
      if end > |input| then None else Some(FrameSizeInfo(end, bound, h.contentSize))
  }

  function Info(input: seq<byte>, magicless: bool): (r: Option<FrameSizeInfo>)
    ensures r.Some? ==> 0 < r.value.compressedSize <= |input|
  {
    match ParseFrameHeader(input, magicless)
    case Eof => None
    case Bad => None
    case Good(Skippable(_, size)) =>
      if SKIPPABLE_HEADER_SIZE + size > |input| then None
      else Some(FrameSizeInfo(SKIPPABLE_HEADER_SIZE + size, 0, Some(0)))
    case Good(Zstandard(h)) => ZstandardInfo(input, h)
  }

  /** Every frame of the input, or None when it does not divide into frames. */
  function Walk(input: seq<byte>, magicless: bool): Option<seq<FrameSizeInfo>>
    decreases |input|
  {
    if input == [] then Some([])
    else
      match Info(input, magicless)
      case None => None
      case Some(info) =>
        match Walk(input[info.compressedSize..], magicless)
        case None => None
        case Some(rest) => Some([info] + rest)
  }

  // ----- the walk

  lemma NextBlock(src: seq<byte>, pos: nat)
    requires pos <= |src|
    ensures BlockRun(src[pos..])
         == match ParseBlockHeader(src[pos..])
            case Eof => None
            case Bad => None
            case Good(block) =>
              var next := pos + BLOCK_HEADER_SIZE + block.PayloadSize();
              if next > |src| then None
              else if block.lastBlock then Some((next - pos, 1))
              else
                match BlockRun(src[next..])
                case None => None
                case Some((used, blocks)) => Some((next - pos + used, blocks + 1))
  {
    var parsed := ParseBlockHeader(src[pos..]);
    if parsed.Good? && pos + BLOCK_HEADER_SIZE + parsed.value.PayloadSize() <= |src| {
      AfterSlice(src, pos, BLOCK_HEADER_SIZE + parsed.value.PayloadSize());
    }
  }

  method ZstandardFrameSize(src: seq<byte>, header: ZstandardHeader) returns (r: Option<FrameSizeInfo>)
    requires header.headerSize <= |src|
    ensures r == ZstandardInfo(src, header)
  {
    hide ParseBlockHeader;
    hide BlockRun;
    var pos, blocks, last := header.headerSize, 0, false;
    ghost var whole := BlockRun(src[pos..]);
    while !last
      invariant header.headerSize <= pos <= |src| && (last ==> blocks > 0)
      invariant whole == if last then Some((pos - header.headerSize, blocks))
                         else match BlockRun(src[pos..])
                              case None => None
                              case Some((used, n)) => Some((pos - header.headerSize + used, blocks + n))
      decreases |src| - pos, !last
    {
      NextBlock(src, pos);
      var parsed := ParseBlockHeader(src[pos..]);
      if !parsed.Good? {
        return None;
      }
      var advance := BLOCK_HEADER_SIZE + parsed.value.PayloadSize();
      if pos + advance > |src| {
        return None;
      }
      pos := pos + advance;
      blocks := blocks + 1;
      last := parsed.value.lastBlock;
    }
    if header.checksum {
      pos := pos + 4;
      if pos > |src| {
        return None;
      }
    }
    if header.contentSize.Some? {
      return Some(FrameSizeInfo(pos, header.contentSize.value, header.contentSize));
    }
    var product := blocks * header.blockSizeMax;
    return Some(FrameSizeInfo(pos, if product >= U64_MODULUS then U64_MODULUS - 1 else product, None));
  }

  method MeasureFrame(src: seq<byte>, magicless: bool) returns (r: Option<FrameSizeInfo>)
    ensures r == Info(src, magicless)
  {
    match ParseFrameHeader(src, magicless)
    case Eof => return None;
    case Bad => return None;
    case Good(Skippable(_, size)) =>
      if |src| < SKIPPABLE_HEADER_SIZE + size {
        return None;
      }
      return Some(FrameSizeInfo(SKIPPABLE_HEADER_SIZE + size, 0, Some(0)));
    case Good(Zstandard(header)) =>
      r := ZstandardFrameSize(src, header);
  }

  /** What folding a function that may fail over the frames gives. */
  function Fold<A>(fold: (A, FrameSizeInfo) -> Option<A>, seed: A, infos: seq<FrameSizeInfo>): Option<A>
    decreases |infos|
  {
    if infos == [] then Some(seed)
    else
      match fold(seed, infos[0])
      case None => None
      case Some(next) => Fold(fold, next, infos[1..])
  }

  function FoldFrames<A>(fold: (A, FrameSizeInfo) -> Option<A>, seed: A, frames: Option<seq<FrameSizeInfo>>): Option<A> {
    if frames == None then None else Fold(fold, seed, frames.value)
  }

  lemma FoldFirst<A>(fold: (A, FrameSizeInfo) -> Option<A>, seed: A, input: seq<byte>, magicless: bool, info: FrameSizeInfo)
    requires input != [] && Info(input, magicless) == Some(info)
    ensures FoldFrames(fold, seed, Walk(input, magicless))
         == match fold(seed, info)
            case None => None
            case Some(next) => FoldFrames(fold, next, Walk(input[info.compressedSize..], magicless))
  {
    var rest := Walk(input[info.compressedSize..], magicless);
    if rest.Some? {
      assert ([info] + rest.value)[1..] == rest.value;
    }
  }

  method ForEachFrame<A>(src: seq<byte>, magicless: bool, start: A, fold: (A, FrameSizeInfo) -> Option<A>)
    returns (r: Option<A>)
    ensures r == if src == [] then None else FoldFrames(fold, start, Walk(src, magicless))
  {
    hide Info;
    if |src| == 0 {
      return None;
    }
    var seed, pos := start, 0;
    assert src[0..] == src;
    while pos < |src|
      invariant pos <= |src|
      invariant FoldFrames(fold, seed, Walk(src[pos..], magicless)) == FoldFrames(fold, start, Walk(src, magicless))
    {
      var info := MeasureFrame(src[pos..], magicless);
      if info == None {
        return None;
      }
      FoldFirst(fold, seed, src[pos..], magicless, info.value);
      var folded := fold(seed, info.value);
      if folded == None {
        return None;
      }
      AfterSlice(src, pos, info.value.compressedSize);
      seed := folded.value;
      pos := pos + info.value.compressedSize;
    }
    return Some(seed);
  }

  /** Adding up bounds; None once the sum leaves 64 bits. */
  function AddBound(total: nat, info: FrameSizeInfo): Option<nat> {
    if total + info.decompressedBound > U64_MAX then None else Some(total + info.decompressedBound)
  }

  function BoundSum(infos: seq<FrameSizeInfo>): nat
    decreases |infos|
  {
    if infos == [] then 0 else infos[0].decompressedBound + BoundSum(infos[1..])
  }

  /** Adding up the bounds gives their sum exactly when it fits 64 bits. */
  lemma {:induction false} BoundIsTheSum(seed: nat, infos: seq<FrameSizeInfo>)
    requires seed < U64_MODULUS
    ensures Fold(AddBound, seed, infos)
         == if seed + BoundSum(infos) < U64_MODULUS then Some(seed + BoundSum(infos)) else None
    decreases |infos|
  {
    if infos != [] {
      var next := AddBound(seed, infos[0]);
      if next.Some? {
        BoundIsTheSum(next.value, infos[1..]);
      }
    }
  }

  function Bound(src: seq<byte>, magicless: bool): Option<nat> {
    if src == [] then None else FoldFrames(AddBound, 0, Walk(src, magicless))
  }

  method DecompressBound(src: seq<byte>, magicless: bool) returns (bound: Option<nat>)
    ensures bound == Bound(src, magicless)
    ensures var frames := Walk(src, magicless);
            bound == if src == [] || frames == None || BoundSum(frames.value) >= U64_MODULUS then None
                     else Some(BoundSum(frames.value))
  {
    hide Walk;
    bound := ForEachFrame(src, magicless, 0, AddBound);
    if Walk(src, magicless).Some? {
      BoundIsTheSum(0, Walk(src, magicless).value);
    }
  }
}
