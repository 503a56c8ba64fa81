/**
 Decoding as a machine that consumes its input a piece at a time.

 One `Step` is one turn of the streaming decoder's loop on the bytes it can see:
 it reads a header, a block, a checksum or part of a skippable frame, or asks for
 more.  Running it to a stop on a whole input is what the one-shot decoder does.

 The loop goes on while a turn made progress, and for a skippable frame the
 program takes progress to mean that bytes were consumed.  An empty skippable
 frame consumes none, so its end stops the loop early.  `Rule` chooses between
 that and counting the change of state as progress too.
 */
module StreamMachine {
  import opened Common
  import opened Repcodes
  import opened BlockSpec
  import opened FrameFormat
  import opened Xxh64
  import opened Resumable

  datatype Dictionary<T> = Dictionary(id: nat, content: seq<byte>, reps: Reps, entropy: T)

  /** What a compressed block's entropy-coded sections decode to. */
  datatype Section<T> = Section(literals: seq<byte>, commands: seq<Command>, entropy: T)

  /** The decoder's options, its dictionary, and the entropy decoder it is built on. */
  datatype Config<!T> = Config(
    parse: (T, seq<byte>, nat) -> Option<Section<T>>,
    initialEntropy: T,
    dictionary: Option<Dictionary<T>>,
    magicless: bool,
    singleFrame: bool,
    verifyChecksum: bool,
    mixer: Mixer,                   // of the frame checksum: the program's is Xxh64Mixer(0)
    maxWindowSize: Option<nat>,
    maxOutputSize: Option<nat>)
  {
    predicate Valid() {
      dictionary.Some? ==> dictionary.value.reps.Valid()
    }

    function Content(): Option<seq<byte>> {
      if dictionary == None then None else Some(dictionary.value.content)
    }
  }

  /** The frame being decoded: its header, its tables and distances, and where its output starts. */
  datatype OpenFrame<T> = OpenFrame(header: ZstandardHeader, entropy: T, reps: Reps, start: nat)

  datatype Phase<T> =
    | AtFrameHeader
    | InSkippable(remaining: nat)
    | AtBlockHeader(frame: OpenFrame<T>)
    | InBlock(frame: OpenFrame<T>, block: BlockHeader)
    | AtChecksum(frame: OpenFrame<T>)

  /** Everything decoded so far, and where in the format the decoder stands. */
  datatype Machine<T> = Machine(phase: Phase<T>, total: seq<byte>, decodedAFrame: bool) {
    predicate Valid() {
      match phase
      case AtBlockHeader(f) => f.start <= |total| && f.reps.Valid()
      case InBlock(f, _) => f.start <= |total| && f.reps.Valid()
      case AtChecksum(f) => f.start <= |total| && f.reps.Valid()
      case _ => true
    }
  }

  function Initial<T>(): Machine<T> {
    Machine(AtFrameHeader, [], false)
  }

  datatype Rule = AsWritten | Repaired

  // ----- the turns

  predicate DictionaryMatches<T>(cfg: Config<T>, h: ZstandardHeader) {
    h.dictionaryId.Some? ==> cfg.dictionary.Some? && cfg.dictionary.value.id == h.dictionaryId.value
  }

  /** The frame is one this decoder may open with `produced` bytes already decoded. */
  predicate Opens<T>(cfg: Config<T>, produced: nat, h: ZstandardHeader) {
    && DictionaryMatches(cfg, h)
    && (cfg.maxWindowSize.Some? ==> h.windowSize <= cfg.maxWindowSize.value)
    && (h.contentSize.Some? && cfg.maxOutputSize.Some? ==> produced + h.contentSize.value <= cfg.maxOutputSize.value)
  }

  function OpenedFrame<T>(cfg: Config<T>, produced: nat, h: ZstandardHeader): OpenFrame<T> {
    match cfg.dictionary
    case None => OpenFrame(h, cfg.initialEntropy, DEFAULT_REPS, produced)
    case Some(d) => OpenFrame(h, d.entropy, d.reps, produced)
  }

  function FrameTurn<T>(cfg: Config<T>, m: Machine<T>, input: seq<byte>): Turn<Machine<T>>
    requires m.phase == AtFrameHeader
  {
    if input == [] then Turn(m, 0, false)
    else if cfg.singleFrame && m.decodedAFrame then Reject
    else
      match ParseFrameHeader(input, cfg.magicless)
      case Eof => Turn(m, 0, false)
      case Bad => Reject
      case Good(Skippable(_, size)) =>
        if cfg.singleFrame then Reject else Turn(m.(phase := InSkippable(size)), SKIPPABLE_HEADER_SIZE, true)
      case Good(Zstandard(h)) =>
        if !Opens(cfg, |m.total|, h) then Reject
        else Turn(m.(phase := AtBlockHeader(OpenedFrame(cfg, |m.total|, h))), h.headerSize, true)
  }

  function SkippableTurn<T>(rule: Rule, m: Machine<T>, input: seq<byte>): Turn<Machine<T>>
    requires m.phase.InSkippable?
  {
    var consumed := Min(|input|, m.phase.remaining);
    var left := m.phase.remaining - consumed;
    Turn(m.(phase := if left == 0 then AtFrameHeader else InSkippable(left)), consumed,
         consumed != 0 || (rule == Repaired && left == 0))
  }

  function BlockHeaderTurn<T>(m: Machine<T>, input: seq<byte>): Turn<Machine<T>>
    requires m.phase.AtBlockHeader?
  {
    match ParseBlockHeader(input)
    case Eof => Turn(m, 0, false)
    case Bad => Reject
    case Good(block) => Turn(m.(phase := InBlock(m.phase.frame, block)), BLOCK_HEADER_SIZE, true)
  }

  /** The output and the frame after one block; None when it is rejected. */
  function DecodeBlock<T>(cfg: Config<T>, total: seq<byte>, f: OpenFrame<T>, block: BlockHeader, payload: seq<byte>)
    : (r: Option<(seq<byte>, OpenFrame<T>)>)
    requires f.start <= |total| && f.reps.Valid() && |payload| == block.PayloadSize()
    ensures r.Some? ==> |total| <= |r.value.0| && r.value.1.reps.Valid() && r.value.1.start == f.start
                        && r.value.1.header == f.header
  {
    var limit := OutputLimit(0, cfg.maxOutputSize);
    if block.blockType == Compressed then
      match cfg.parse(f.entropy, payload, f.header.blockSizeMax)
      case None => None
      case Some(section) =>
        match ExecBlock(Frame(f.start, f.header.windowSize, cfg.Content()), f.header.blockSizeMax,
                        section.literals, section.commands, total, f.reps, limit, None)
        case None => None
        case Some((grown, reps)) => Some((grown, f.(entropy := section.entropy, reps := reps)))
    else if block.blockSize > f.header.blockSizeMax || !limit.Allows(|total| + block.blockSize) then None
    else Some((total + (if block.blockType == Raw then payload else seq(block.blockSize, _ => payload[0])), f))
  }

  /** Close the frame if it produced what its header declared. */
  function FinishFrame<T>(total: seq<byte>, f: OpenFrame<T>, consumed: nat): (t: Turn<Machine<T>>)
    requires f.start <= |total|
    ensures t.Turn? ==> t.next.total == total
  {
    if f.header.contentSize.Some? && f.header.contentSize.value != |total| - f.start then Reject
    else Turn(Machine(AtFrameHeader, total, true), consumed, true)
  }

  /** Where a decoded block leads. */
  function BlockDone<T>(total: seq<byte>, decoded: bool, f: OpenFrame<T>, last: bool, consumed: nat): (t: Turn<Machine<T>>)
    requires f.start <= |total|
    ensures t.Turn? ==> t.next.total == total
  {
    if !last then Turn(Machine(AtBlockHeader(f), total, decoded), consumed, true)
    else if f.header.checksum then Turn(Machine(AtChecksum(f), total, decoded), consumed, true)
    else FinishFrame(total, f, consumed)
  }

  function BlockTurn<T>(cfg: Config<T>, m: Machine<T>, input: seq<byte>): Turn<Machine<T>>
    requires m.phase.InBlock? && m.Valid()
  {
    var InBlock(f, block) := m.phase;
    var size := block.PayloadSize();
    if |input| < size then Turn(m, 0, false)
    else
      match DecodeBlock(cfg, m.total, f, block, input[..size])
      case None => Reject
      case Some((total, after)) => BlockDone(total, m.decodedAFrame, after, block.lastBlock, size)
  }

  /** The low half of the digest, which is what the frame carries. */
  function ContentChecksum(mixer: Mixer, content: seq<byte>): nat {
    Digest(mixer, content) % U32_MODULUS
  }

  function ChecksumTurn<T>(cfg: Config<T>, m: Machine<T>, input: seq<byte>): Turn<Machine<T>>
    requires m.phase.AtChecksum? && m.Valid()
  {
    if |input| < 4 then Turn(m, 0, false)
    else if cfg.verifyChecksum && ContentChecksum(cfg.mixer, m.total[m.phase.frame.start..]) != Le(input[..4]) then Reject
    else FinishFrame(m.total, m.phase.frame, 4)
  }

  function Step<T>(rule: Rule, cfg: Config<T>, m: Machine<T>, input: seq<byte>): (t: Turn<Machine<T>>)
    requires m.Valid()
  {
    match m.phase
    case AtFrameHeader => FrameTurn(cfg, m, input)
    case InSkippable(_) => SkippableTurn(rule, m, input)
    case AtBlockHeader(_) => BlockHeaderTurn(m, input)
    case InBlock(_, _) => BlockTurn(cfg, m, input)
    case AtChecksum(_) => ChecksumTurn(cfg, m, input)
  }

  /** The loop's turn as a function of the machine and the bytes in sight. */
  function Turns<T>(rule: Rule, cfg: Config<T>): Stepper<Machine<T>> {
    (m: Machine<T>, input: seq<byte>) => if m.Valid() then Step(rule, cfg, m, input) else Reject
  }

  /** Turns that may consume nothing lead down this order. */
  function Rank<T>(): Machine<T> -> nat {
    (m: Machine<T>) => if m.phase.InBlock? || m.phase.InSkippable? then 1 else 0
  }

  function RunMachine<T>(rule: Rule, cfg: Config<T>, m: Machine<T>, input: seq<byte>): Option<(Machine<T>, seq<byte>)> {
    Run(Turns(rule, cfg), Rank(), m, input)
  }

  predicate Accepting<T>(m: Machine<T>, rest: seq<byte>) {
    m.phase == AtFrameHeader && rest == []
  }

  /** What a whole input decodes to; None when it is empty, rejected or cut short. */
  function Decoded<T>(cfg: Config<T>, src: seq<byte>): Option<seq<byte>> {
    if src == [] then None
    else
      match RunMachine(Repaired, cfg, Initial(), src)
      case None => None
      case Some((m, rest)) => if Accepting(m, rest) then Some(m.total) else None
  }

  // ----- every turn keeps the machine sound, and the loop ends

  lemma TurnIsSound<T>(rule: Rule, cfg: Config<T>, m: Machine<T>, input: seq<byte>)
    requires cfg.Valid() && m.Valid()
    ensures var t := Step(rule, cfg, m, input);
            t.Turn? ==>
              && t.next.Valid() && t.consumed <= |input|
              && (t.go ==> Advances(Rank(), m, input, t))
              && (!t.go && !m.phase.InSkippable? ==> t.next == m && t.consumed == 0)
  {
    hide ParseFrameHeader;
    hide ParseBlockHeader;
    hide Opens;
    hide OpenedFrame;
    hide DecodeBlock;
    hide ContentChecksum;
    hide Le;
    match m.phase
    case AtFrameHeader => OpenedFrameIsSound(cfg, |m.total|);
    case _ =>
  }

  lemma OpenedFrameIsSound<T>(cfg: Config<T>, produced: nat)
    requires cfg.Valid()
    ensures forall h :: OpenedFrame(cfg, produced, h).reps.Valid() && OpenedFrame(cfg, produced, h).start == produced
  {
  }

  /** What is decoded stays decoded. */
  lemma TurnGrows<T>(rule: Rule, cfg: Config<T>, m: Machine<T>, input: seq<byte>)
    requires cfg.Valid() && m.Valid()
    ensures var t := Step(rule, cfg, m, input); t.Turn? ==> |m.total| <= |t.next.total|
  {
    hide ParseFrameHeader;
    hide ParseBlockHeader;
    hide Opens;
    hide OpenedFrame;
    hide DecodeBlock;
    hide ContentChecksum;
    hide Le;
  }

  lemma {:induction false} RunGrows<T>(rule: Rule, cfg: Config<T>, m: Machine<T>, input: seq<byte>)
    requires cfg.Valid() && m.Valid()
    ensures var r := RunMachine(rule, cfg, m, input); r.Some? ==> |m.total| <= |r.value.0.total|
    decreases |input|, Rank()(m)
  {
    hide Step;
    TurnIsSound(rule, cfg, m, input);
    TurnGrows(rule, cfg, m, input);
    var t := Step(rule, cfg, m, input);
    assert Turns(rule, cfg)(m, input) == t;
    if t.Turn? && t.go {
      RunGrows(rule, cfg, t.next, input[t.consumed..]);
    }
  }
}
