/**
 Chunked input against whole input.

 A run that stopped can be taken up again: whatever the loop decided on the bytes
 it saw stays decided when more follow.  So decoding in chunks reaches a point on
 the way of the whole-input run, and accepts only what that run accepts, with the
 same bytes.  It stops short of the end exactly when the ends of empty skippable
 frames outnumber the calls that could have moved past them.
 */
module StreamRuns {
  import opened Common
  import opened FrameFormat
  import opened Resumable
  import opened StreamMachine

  // ----- a turn taken stays taken

  lemma SliceOfPrefix(a: seq<byte>, b: seq<byte>, n: nat)
    requires n <= |a|
    ensures (a + b)[..n] == a[..n] && (a + b)[n..] == a[n..] + b
  {
  }

  lemma FrameTurnIsFinal<T>(cfg: Config<T>, m: Machine<T>, a: seq<byte>, b: seq<byte>)
    requires m.phase == AtFrameHeader
    requires var t := FrameTurn(cfg, m, a); t.Reject? || t.go
    ensures FrameTurn(cfg, m, a + b) == FrameTurn(cfg, m, a)
  {
    if !(cfg.singleFrame && m.decodedAFrame) {
      FrameHeaderIsFinal(a, b, cfg.magicless);
    }
  }

  lemma BlockTurnIsFinal<T>(cfg: Config<T>, m: Machine<T>, a: seq<byte>, b: seq<byte>)
    requires m.phase.InBlock? && m.Valid() && m.phase.block.PayloadSize() <= |a|
    ensures BlockTurn(cfg, m, a + b) == BlockTurn(cfg, m, a)
  {
    SliceOfPrefix(a, b, m.phase.block.PayloadSize());
  }

  lemma ChecksumTurnIsFinal<T>(cfg: Config<T>, m: Machine<T>, a: seq<byte>, b: seq<byte>)
    requires m.phase.AtChecksum? && m.Valid() && 4 <= |a|
    ensures ChecksumTurn(cfg, m, a + b) == ChecksumTurn(cfg, m, a)
  {
    SliceOfPrefix(a, b, 4);
  }

  lemma StepIsFinal<T>(rule: Rule, cfg: Config<T>, m: Machine<T>, a: seq<byte>, b: seq<byte>)
    requires m.Valid() && !m.phase.InSkippable?
    requires var t := Step(rule, cfg, m, a); t.Reject? || t.go
    ensures Step(Repaired, cfg, m, a + b) == Step(rule, cfg, m, a)
  {
    match m.phase
    case AtFrameHeader => FrameTurnIsFinal(cfg, m, a, b);
    case AtBlockHeader(_) => BlockHeaderIsFinal(a, b);
    case InBlock(_, _) => BlockTurnIsFinal(cfg, m, a, b);
    case AtChecksum(_) => ChecksumTurnIsFinal(cfg, m, a, b);
  }

  /** Every turn of the loop can be taken up again with more input. */
  lemma MachineTurnResumes<T>(rule: Rule, cfg: Config<T>, m: Machine<T>, a: seq<byte>, b: seq<byte>)
    requires cfg.Valid()
    ensures TurnResumes(Turns(rule, cfg), Turns(Repaired, cfg), Rank(), m, a, b)
  {
    var step, full := Turns(rule, cfg), Turns(Repaired, cfg);
    if !m.Valid() {
      SameTurnResumes(step, full, Rank(), m, a, b);
    } else if m.phase.InSkippable? {
      SkippableTurnResumes(rule, cfg, m, a, b);
    } else {
      TurnIsSound(rule, cfg, m, a);
      var t := Step(rule, cfg, m, a);
      if t.Reject? || t.go {
        StepIsFinal(rule, cfg, m, a, b);
        SameTurnResumes(step, full, Rank(), m, a, b);
      } else {
        IdleTurnResumes(step, full, Rank(), m, a, b);
      }
    }
  }

  lemma SkippableTurnResumes<T>(rule: Rule, cfg: Config<T>, m: Machine<T>, a: seq<byte>, b: seq<byte>)
    requires m.phase.InSkippable?
    ensures TurnResumes(Turns(rule, cfg), Turns(Repaired, cfg), Rank(), m, a, b)
  {
    var step, full := Turns(rule, cfg), Turns(Repaired, cfg);
    var t := SkippableTurn(rule, m, a);
    assert m.Valid() && step(m, a) == t;
    if |a| < m.phase.remaining {
      assert t.next.Valid() && t.next.phase.InSkippable?;
      assert full(t.next, b) == SkippableTurn(Repaired, t.next, b);
      PartTurnResumes(step, full, Rank(), m, a, b, SkippableTurn(Repaired, t.next, b));
    } else if t.go {
      SameTurnResumes(step, full, Rank(), m, a, b);
    } else {
      HaltedTurnResumes(step, full, Rank(), m, a, b, t.next);
    }
  }

  lemma MachineResumes<T(!new)>(rule: Rule, cfg: Config<T>)
    requires cfg.Valid()
    ensures Resumes(Turns(rule, cfg), Turns(Repaired, cfg), Rank())
  {
    forall m: Machine<T>, a: seq<byte>, b: seq<byte>
      ensures TurnResumes(Turns(rule, cfg), Turns(Repaired, cfg), Rank(), m, a, b)
    {
      MachineTurnResumes(rule, cfg, m, a, b);
    }
  }

  // ----- where the loop as written stops early

  /** The end of an empty skippable frame. */
  function AtEmptyEnd<T>(): Machine<T> -> bool {
    (m: Machine<T>) => m.phase == InSkippable(0)
  }

  /** How much input was left each time the whole-input run passed the end of an empty skippable frame. */
  function EmptyEnds<T>(cfg: Config<T>, m: Machine<T>, input: seq<byte>): seq<nat> {
    Stops(Turns(Repaired, cfg), Rank(), AtEmptyEnd(), m, input)
  }

  /** A header that ends within what is in sight is parsed from it. */
  lemma HeaderInSight(a: seq<byte>, b: seq<byte>, magicless: bool)
    requires ParseFrameHeader(a + b, magicless).Good?
    requires HeaderSize(ParseFrameHeader(a + b, magicless).value) <= |a|
    ensures ParseFrameHeader(a, magicless) == ParseFrameHeader(a + b, magicless)
  {
    hide ParseFrameHeader;
    hide HeaderSize;
    var n := HeaderSize(ParseFrameHeader(a + b, magicless).value);
    HeaderNeedsItsBytes(a + b, magicless);
    SliceOfPrefix(a, b, n);
    FrameHeaderIsFinal(a[..n], a[n..], magicless);
    assert a[..n] + a[n..] == a;
  }

  /** A turn that waits uses, once it can go, more than it had in sight. */
  lemma WaitingNeedsMore<T>(cfg: Config<T>, m: Machine<T>, a: seq<byte>, b: seq<byte>)
    requires m.Valid() && !m.phase.InSkippable?
    requires var t := Step(AsWritten, cfg, m, a); t.Turn? && !t.go
    ensures var t := Step(Repaired, cfg, m, a + b); t.Turn? && t.go ==> |a| < t.consumed
  {
    match m.phase
    case AtFrameHeader => FrameTurnNeedsMore(cfg, m, a, b);
    case AtBlockHeader(_) =>
    case InBlock(_, _) =>
    case AtChecksum(_) =>
  }

  lemma FrameTurnNeedsMore<T>(cfg: Config<T>, m: Machine<T>, a: seq<byte>, b: seq<byte>)
    requires m.phase == AtFrameHeader
    requires var t := FrameTurn(cfg, m, a); t.Turn? && !t.go
    ensures var t := FrameTurn(cfg, m, a + b); t.Turn? && t.go ==> |a| < t.consumed
  {
    hide ParseFrameHeader;
    hide Opens;
    hide OpenedFrame;
    var later := ParseFrameHeader(a + b, cfg.magicless);
    if later.Good? && HeaderSize(later.value) <= |a| {
      HeaderInSight(a, b, cfg.magicless);
    }
  }

  lemma SkippableTurnHalts<T>(cfg: Config<T>, m: Machine<T>, a: seq<byte>, b: seq<byte>)
    requires m.phase.InSkippable?
    ensures HaltsAt(Turns(AsWritten, cfg), Turns(Repaired, cfg), Rank(), AtEmptyEnd(), m, a, b)
  {
    var step, full := Turns(AsWritten, cfg), Turns(Repaired, cfg);
    var t := SkippableTurn(AsWritten, m, a);
    assert m.Valid() && step(m, a) == t;
    if m.phase.remaining != 0 {
      if |a| < m.phase.remaining {
        assert t.next.Valid() && t.next.phase.InSkippable?;
        assert full(t.next, b) == SkippableTurn(Repaired, t.next, b);
        PartTurnHalts(step, full, Rank(), AtEmptyEnd(), m, a, b, SkippableTurn(Repaired, t.next, b));
      } else {
        SameTurnHalts(step, full, Rank(), AtEmptyEnd(), m, a, b);
      }
    }
  }

  lemma MachineTurnHalts<T>(cfg: Config<T>, m: Machine<T>, a: seq<byte>, b: seq<byte>)
    requires cfg.Valid()
    ensures HaltsAt(Turns(AsWritten, cfg), Turns(Repaired, cfg), Rank(), AtEmptyEnd(), m, a, b)
  {
    var step, full := Turns(AsWritten, cfg), Turns(Repaired, cfg);
    if m.phase.InSkippable? {
      SkippableTurnHalts(cfg, m, a, b);
    } else if !m.Valid() {
      SameTurnHalts(step, full, Rank(), AtEmptyEnd(), m, a, b);
    } else {
      TurnIsSound(AsWritten, cfg, m, a);
      var t := Step(AsWritten, cfg, m, a);
      assert step(m, a) == t == full(m, a);
      if t.Reject? || t.go {
        StepIsFinal(AsWritten, cfg, m, a, b);
        SameTurnHalts(step, full, Rank(), AtEmptyEnd(), m, a, b);
      } else {
        WaitingNeedsMore(cfg, m, a, b);
        IdleTurnHalts(step, full, Rank(), AtEmptyEnd(), m, a, b);
      }
    }
  }

  lemma MachineHalts<T(!new)>(cfg: Config<T>)
    requires cfg.Valid()
    ensures Halts(Turns(AsWritten, cfg), Turns(Repaired, cfg), Rank(), AtEmptyEnd())
  {
    forall m: Machine<T>, a: seq<byte>, b: seq<byte>
      ensures HaltsAt(Turns(AsWritten, cfg), Turns(Repaired, cfg), Rank(), AtEmptyEnd(), m, a, b)
    {
      MachineTurnHalts(cfg, m, a, b);
    }
  }

  function AtBoundary<T>(): Machine<T> -> bool {
    (m: Machine<T>) => m.phase == AtFrameHeader
  }

  lemma LandsAtBoundary<T(!new)>(cfg: Config<T>)
    ensures LandsIn(Turns(AsWritten, cfg), AtEmptyEnd(), AtBoundary())
  {
    forall m: Machine<T>, a: seq<byte> | AtEmptyEnd()(m)
      ensures var t := Turns(AsWritten, cfg)(m, a); t.Turn? ==> t.next.phase == AtFrameHeader
    {
      assert m.Valid() && Turns(AsWritten, cfg)(m, a) == SkippableTurn(AsWritten, m, a);
    }
  }

  // ----- a stream and its whole

  /** What a client gets that pushes the chunks, then finishes. */
  function Streamed<T>(rule: Rule, cfg: Config<T>, chunks: seq<seq<byte>>): Option<seq<byte>> {
    match PushAll(Turns(rule, cfg), Rank(), Initial(), [], chunks)
    case None => None
    case Some((m, rest)) =>
      match RunMachine(rule, cfg, m, rest)
      case None => None
      case Some((end, left)) =>
        if Concat(chunks) != [] && Accepting(end, left) then Some(end.total) else None
  }

  /** At a frame boundary with nothing left the loop rests. */
  lemma RestsAtTheEnd<T>(rule: Rule, cfg: Config<T>, m: Machine<T>)
    requires m.phase == AtFrameHeader
    ensures RunMachine(rule, cfg, m, []) == Some((m, []))
  {
    assert m.Valid();
    assert Turns(rule, cfg)(m, []) == Turn(m, 0, false);
  }

  /** Whatever the stream accepts, the whole input decodes to. */
  lemma StreamIsSound<T(!new)>(rule: Rule, cfg: Config<T>, chunks: seq<seq<byte>>)
    requires cfg.Valid() && Streamed(rule, cfg, chunks).Some?
    ensures Decoded(cfg, Concat(chunks)) == Streamed(rule, cfg, chunks)
  {
    var step, full := Turns(rule, cfg), Turns(Repaired, cfg);
    MachineResumes(rule, cfg);
    PushAllResumes(step, full, Rank(), Initial(), [], chunks);
    assert [] + Concat(chunks) == Concat(chunks);
    var (m, rest) := PushAll(step, Rank(), Initial(), [], chunks).value;
    RunResumes(step, full, Rank(), m, rest, []);
    var (end, left) := RunMachine(rule, cfg, m, rest).value;
    assert rest + [] == rest && left + [] == [];
    RestsAtTheEnd(Repaired, cfg, end);
  }

  /** Counting the change of state as progress, any chunking agrees with the whole input. */
  lemma RepairedStreamAgrees<T(!new)>(cfg: Config<T>, chunks: seq<seq<byte>>)
    requires cfg.Valid()
    ensures Streamed(Repaired, cfg, chunks) == Decoded(cfg, Concat(chunks))
  {
    var full := Turns(Repaired, cfg);
    MachineResumes(Repaired, cfg);
    PushAllResumes(full, full, Rank(), Initial(), [], chunks);
    assert [] + Concat(chunks) == Concat(chunks);
  }

  /** The stops left when the client calls finish: none, or one that ends the input. */
  predicate EnoughCalls(stops: seq<nat>) {
    stops == [] || stops[0] == 0
  }

  /**
   Exactly when the loop as written agrees: every chunk, and the call to finish, takes the
   stream past at most one empty skippable frame, and that has to be enough.
   */
  lemma WrittenStreamAgrees<T(!new)>(cfg: Config<T>, chunks: seq<seq<byte>>)
    requires cfg.Valid()
    ensures var src := Concat(chunks);
            Streamed(AsWritten, cfg, chunks)
            == if EnoughCalls(AfterCalls(EmptyEnds(cfg, Initial(), src), chunks)) then Decoded(cfg, src) else None
  {
    var step, full := Turns(AsWritten, cfg), Turns(Repaired, cfg);
    var src := Concat(chunks);
    MachineResumes(AsWritten, cfg);
    MachineHalts(cfg);
    PushAllResumes(step, full, Rank(), Initial(), [], chunks);
    assert [] + src == src;
    var pushed := PushAll(step, Rank(), Initial(), [], chunks);
    if pushed.Some? {
      var (m, rest) := pushed.value;
      LandsAtBoundary(cfg);
      PushAllStops(step, full, Rank(), AtEmptyEnd(), AtBoundary(), Initial(), [], chunks);
      FinishAgrees(cfg, m, rest);
    }
  }

  /** The last call, with nothing more to come. */
  lemma FinishAgrees<T(!new)>(cfg: Config<T>, m: Machine<T>, rest: seq<byte>)
    requires cfg.Valid()
    ensures var written, whole := RunMachine(AsWritten, cfg, m, rest), RunMachine(Repaired, cfg, m, rest);
            && (written.None? ==> whole.None?)
            && (written.Some? ==> if EnoughCalls(EmptyEnds(cfg, m, rest)) then written == whole else written.value.1 != [])
  {
    var step, full := Turns(AsWritten, cfg), Turns(Repaired, cfg);
    MachineResumes(AsWritten, cfg);
    MachineHalts(cfg);
    var stops := EmptyEnds(cfg, m, rest);
    RunResumes(step, full, Rank(), m, rest, []);
    assert rest + [] == rest;
    if stops == [] {
      NoStopNoDifference(step, full, Rank(), AtEmptyEnd(), m, rest);
    } else if Run(step, Rank(), m, rest).Some? {
      LandsAtBoundary(cfg);
      CallPassesOneStop(step, full, Rank(), AtEmptyEnd(), AtBoundary(), m, rest, []);
      var (next, left) := Run(step, Rank(), m, rest).value;
      if stops[0] == 0 {
        assert left == [] && left + [] == [];
        RestsAtTheEnd(Repaired, cfg, next);
      }
    }
  }

  // ----- the shortest stream the loop as written does not finish

  const EMPTY_SKIPPABLE: seq<byte> := [0x50, 0x2A, 0x4D, 0x18, 0, 0, 0, 0]

  lemma EmptySkippableHeader(rest: seq<byte>)
    ensures ParseFrameHeader(EMPTY_SKIPPABLE + rest, false) == Good(Skippable(0, 0))
  {
    var s := EMPTY_SKIPPABLE + rest;
    assert s[..4] == [0x50, 0x2A, 0x4D, 0x18] && s[4..8] == [0, 0, 0, 0];
    LeOfFour(s[..4]);
    LeOfFour(s[4..8]);
  }

  /** An empty skippable frame is passed in two turns, the second of which consumes nothing. */
  lemma PassesEmptySkippable<T>(cfg: Config<T>, m: Machine<T>, rest: seq<byte>)
    requires m.phase == AtFrameHeader && !cfg.magicless && !cfg.singleFrame
    ensures RunMachine(Repaired, cfg, m, EMPTY_SKIPPABLE + rest) == RunMachine(Repaired, cfg, m, rest)
    ensures EmptyEnds(cfg, m, EMPTY_SKIPPABLE + rest) == [|rest|] + EmptyEnds(cfg, m, rest)
  {
    var full, input, mid := Turns(Repaired, cfg), EMPTY_SKIPPABLE + rest, m.(phase := InSkippable(0));
    EmptySkippableHeader(rest);
    assert m.Valid() && mid.Valid() && m.(phase := AtFrameHeader) == m;
    assert full(m, input) == Turn(mid, 8, true);
    assert input[8..] == rest && rest[0..] == rest;
    assert full(mid, rest) == SkippableTurn(Repaired, mid, rest) == Turn(m, 0, true);
    assert RunMachine(Repaired, cfg, mid, rest) == RunMachine(Repaired, cfg, m, rest);
    assert EmptyEnds(cfg, mid, rest) == [|rest|] + EmptyEnds(cfg, m, rest);
  }

  /** Two empty skippable frames in front of anything, pushed at once, and the stream is never finished. */
  lemma WrittenStreamStopsShort<T(!new)>(cfg: Config<T>, tail: seq<byte>)
    requires cfg.Valid() && !cfg.magicless && !cfg.singleFrame && tail != []
    ensures var src := EMPTY_SKIPPABLE + (EMPTY_SKIPPABLE + tail);
            && Streamed(AsWritten, cfg, [src]) == None
            && Streamed(Repaired, cfg, [src]) == Decoded(cfg, src) == Decoded(cfg, tail)
  {
    var src := EMPTY_SKIPPABLE + (EMPTY_SKIPPABLE + tail);
    PassesEmptySkippable(cfg, Initial(), EMPTY_SKIPPABLE + tail);
    PassesEmptySkippable(cfg, Initial(), tail);
    assert [src][1..] == [];
    assert Concat([src]) == src + [] == src;
    WrittenStreamAgrees(cfg, [src]);
    RepairedStreamAgrees(cfg, [src]);
    var ends := EmptyEnds(cfg, Initial(), src);
    assert ends[1..][0] == |tail|;
    assert AfterCalls(ends, [src]) == AfterCalls(ends[1..], []) == ends[1..];
  }
}
