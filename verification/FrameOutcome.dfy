/**
 What an input decodes to from each point of the format on, and what each part
 of a frame contributes to it.
 */
module FrameOutcome {
  import opened Common
  import opened BlockSpec
  import opened FrameFormat
  import opened Xxh64
  import opened Resumable
  import opened StreamMachine

  /** What the input from here on decodes to, in full. */
  function Outcome<T>(cfg: Config<T>, m: Machine<T>, input: seq<byte>): Option<seq<byte>> {
    match RunMachine(Repaired, cfg, m, input)
    case None => None
    case Some((end, rest)) => if Accepting(end, rest) then Some(end.total) else None
  }

  /** One turn of the machine, and what a turn that cannot go on means for a whole input. */
  lemma OutcomeOfTurn<T>(cfg: Config<T>, m: Machine<T>, input: seq<byte>)
    requires cfg.Valid() && m.Valid()
    ensures var t := Step(Repaired, cfg, m, input);
            if t.Reject? then Outcome(cfg, m, input) == None
            else if t.go then t.next.Valid() && t.consumed <= |input| && Outcome(cfg, m, input) == Outcome(cfg, t.next, input[t.consumed..])
            else Outcome(cfg, m, input) == if Accepting(m, input) then Some(m.total) else None
  {
    TurnIsSound(Repaired, cfg, m, input);
    assert Turns(Repaired, cfg)(m, input) == Step(Repaired, cfg, m, input);
    var t := Step(Repaired, cfg, m, input);
    if t.Turn? && !t.go && m.phase.InSkippable? {
      assert input[t.consumed..] == input && t.next == m;
    }
  }

  /** A skippable frame is skipped whole. */
  lemma OutcomeOfSkippable<T>(cfg: Config<T>, m: Machine<T>, input: seq<byte>)
    requires cfg.Valid() && m.phase.InSkippable?
    ensures Outcome(cfg, m, input)
         == if m.phase.remaining <= |input| then Outcome(cfg, m.(phase := AtFrameHeader), input[m.phase.remaining..]) else None
  {
    OutcomeOfTurn(cfg, m, input);
    if |input| != 0 && |input| < m.phase.remaining {
      OutcomeOfTurn(cfg, m.(phase := InSkippable(m.phase.remaining - |input|)), input[|input|..]);
    }
  }

  /** A Zstandard frame is opened behind its header, or refused. */
  lemma OutcomeOfOpening<T>(cfg: Config<T>, out: seq<byte>, decoded: bool, header: ZstandardHeader, input: seq<byte>)
    requires cfg.Valid() && !(cfg.singleFrame && decoded)
    requires ParseFrameHeader(input, cfg.magicless) == Good(Zstandard(header))
    ensures header.headerSize <= |input|
    ensures Outcome(cfg, Machine(AtFrameHeader, out, decoded), input)
         == if !Opens(cfg, |out|, header) then None
            else Outcome(cfg, Machine(AtBlockHeader(OpenedFrame(cfg, |out|, header)), out, decoded), input[header.headerSize..])
  {
    hide Outcome;
    hide Opens;
    hide OpenedFrame;
    OutcomeOfTurn(cfg, Machine(AtFrameHeader, out, decoded), input);
  }

  /** What remains once a block is decoded: another block, the checksum, or the end of the frame. */
  function AfterBlock<T>(cfg: Config<T>, f: OpenFrame<T>, last: bool, out: seq<byte>, decoded: bool, input: seq<byte>)
    : Option<seq<byte>>
    requires f.start <= |out|
  {
    if !last then Outcome(cfg, Machine(AtBlockHeader(f), out, decoded), input)
    else if f.header.checksum then Outcome(cfg, Machine(AtChecksum(f), out, decoded), input)
    else AfterFrame(cfg, f, out, input)
  }

  /** The frame is over; its size is checked against its header's. */
  function AfterFrame<T>(cfg: Config<T>, f: OpenFrame<T>, out: seq<byte>, input: seq<byte>): Option<seq<byte>>
    requires f.start <= |out|
  {
    if f.header.contentSize.Some? && f.header.contentSize.value != |out| - f.start then None
    else Outcome(cfg, Machine(AtFrameHeader, out, true), input)
  }

  lemma OutcomeOfBlock<T>(cfg: Config<T>, f: OpenFrame<T>, block: BlockHeader, out: seq<byte>, decoded: bool, input: seq<byte>)
    requires cfg.Valid() && f.start <= |out| && f.reps.Valid()
    ensures var size := block.PayloadSize();
            Outcome(cfg, Machine(InBlock(f, block), out, decoded), input)
            == if |input| < size || DecodeBlock(cfg, out, f, block, input[..size]) == None then None
               else var (grown, after) := DecodeBlock(cfg, out, f, block, input[..size]).value;
                    AfterBlock(cfg, after, block.lastBlock, grown, decoded, input[size..])
  {
    OutcomeOfTurn(cfg, Machine(InBlock(f, block), out, decoded), input);
  }

  lemma HeaderFromItsBytes(input: seq<byte>)
    requires BLOCK_HEADER_SIZE <= |input|
    ensures ParseBlockHeader(input[..BLOCK_HEADER_SIZE]) == ParseBlockHeader(input) != Eof
  {
    assert input[..BLOCK_HEADER_SIZE][..BLOCK_HEADER_SIZE] == input[..BLOCK_HEADER_SIZE];
  }

  lemma OutcomeOfChecksum<T>(cfg: Config<T>, f: OpenFrame<T>, out: seq<byte>, decoded: bool, input: seq<byte>)
    requires cfg.Valid() && f.start <= |out| && f.reps.Valid()
    ensures Outcome(cfg, Machine(AtChecksum(f), out, decoded), input)
         == if |input| < 4 || (cfg.verifyChecksum && ContentChecksum(cfg.mixer, out[f.start..]) != Le(input[..4])) then None
            else AfterFrame(cfg, f, out, input[4..])
  {
    OutcomeOfTurn(cfg, Machine(AtChecksum(f), out, decoded), input);
  }

  lemma DecodedIsOutcome<T>(cfg: Config<T>, src: seq<byte>)
    ensures Decoded(cfg, src) == if src == [] then None else Outcome(cfg, Initial(), src)
  {
  }

  /** Before a frame and at the end of the input, everything is decoded. */
  lemma OutcomeOfNothing<T>(cfg: Config<T>, m: Machine<T>)
    requires cfg.Valid() && m.phase == AtFrameHeader
    ensures Outcome(cfg, m, []) == Some(m.total)
  {
    OutcomeOfTurn(cfg, m, []);
  }

  // ----- a destination of limited room

  /** What fits into the destination. */
  function Fitting(r: Option<seq<byte>>, capacity: Option<nat>): Option<seq<byte>> {
    if r.Some? && Fits(capacity, 0, |r.value|) then r else None
  }

  lemma OutcomeGrows<T>(cfg: Config<T>, m: Machine<T>, input: seq<byte>)
    requires cfg.Valid() && m.Valid()
    ensures var r := Outcome(cfg, m, input); r.Some? ==> |m.total| <= |r.value|
  {
    hide RunMachine;
    RunGrows(Repaired, cfg, m, input);
  }

  /** A block whose output does not fit leaves nothing that does. */
  lemma TooBigAlready<T>(cfg: Config<T>, f: OpenFrame<T>, last: bool, out: seq<byte>, decoded: bool, input: seq<byte>,
                         capacity: Option<nat>)
    requires cfg.Valid() && f.start <= |out| && f.reps.Valid() && !Fits(capacity, 0, |out|)
    ensures Fitting(AfterBlock(cfg, f, last, out, decoded, input), capacity) == None
  {
    hide Outcome;
    OutcomeGrows(cfg, Machine(AtBlockHeader(f), out, decoded), input);
    OutcomeGrows(cfg, Machine(AtChecksum(f), out, decoded), input);
    OutcomeGrows(cfg, Machine(AtFrameHeader, out, true), input);
  }

  /** A block in a destination of limited room. */
  lemma FittingBlock<T>(cfg: Config<T>, f: OpenFrame<T>, block: BlockHeader, out: seq<byte>, decoded: bool, input: seq<byte>,
                        capacity: Option<nat>)
    requires cfg.Valid() && f.start <= |out| && f.reps.Valid()
    ensures var size := block.PayloadSize();
            var d := if |input| < size then None else DecodeBlock(cfg, out, f, block, input[..size]);
            Fitting(Outcome(cfg, Machine(InBlock(f, block), out, decoded), input), capacity)
            == if d == None || !Fits(capacity, 0, |d.value.0|) then None
               else Fitting(AfterBlock(cfg, d.value.1, block.lastBlock, d.value.0, decoded, input[size..]), capacity)
  {
    hide Outcome;
    hide AfterBlock;
    hide DecodeBlock;
    OutcomeOfBlock(cfg, f, block, out, decoded, input);
    var size := block.PayloadSize();
    if size <= |input| {
      var d := DecodeBlock(cfg, out, f, block, input[..size]);
      if d.Some? && !Fits(capacity, 0, |d.value.0|) {
        TooBigAlready(cfg, d.value.1, block.lastBlock, d.value.0, decoded, input[size..], capacity);
      }
    }
  }
}
