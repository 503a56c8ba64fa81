/**
 What executing one block means, independently of how it is copied.

 Section 3.1.1.4 of RFC 8878: each command appends literals, then a match taken
 byte by byte from the history, which is the dictionary followed by what the
 frame has produced.  A distance is legal while it stays inside the window and
 the frame, or while the frame has produced no more than a window and the
 distance stays inside the dictionary and the frame together.
 */
module BlockSpec {
  import opened Common
  import opened MatchCopy
  import opened Repcodes

  const USIZE_MAX: nat := U64_MODULUS - 1

  /** The bytes a match appends to history `h`. */
  function Tail(h: seq<byte>, offset: nat, n: nat): (t: seq<byte>)
    requires 0 < offset <= |h|
    ensures |t| == n
  {
    Overlap(h, offset, n)[|h|..]
  }

  function Bytes(dictionary: Option<seq<byte>>): seq<byte> {
    if dictionary.Some? then dictionary.value else []
  }

  /** Where the frame starts in the output, and what its matches may reach. */
  datatype Frame = Frame(start: nat, window: nat, dictionary: Option<seq<byte>>) {
    predicate Reaches(produced: nat, offset: nat) {
      || (offset <= produced && offset <= window)
      || (dictionary.Some? && produced <= window && offset <= |dictionary.value| + produced)
    }

    /** Everything a match of this frame can name, when the output so far is `out`. */
    function History(out: seq<byte>): seq<byte>
      requires start <= |out|
    {
      Bytes(dictionary) + out[start..]
    }

    /** The output once a match of the history has been appended to it; None past the history's start. */
    function Grown(out: seq<byte>, offset: nat, n: nat): (r: Option<seq<byte>>)
      requires start <= |out|
      ensures r.Some? ==> out <= r.value && |r.value| == |out| + n
    {
      if 0 < offset <= |History(out)| then Some(out + Tail(History(out), offset, n)) else None
    }

    function AppendMatch(out: seq<byte>, offset: nat, n: nat): (r: Option<seq<byte>>)
      requires start <= |out| && 0 < offset
      ensures r.Some? ==> out <= r.value && |r.value| == |out| + n
    {
      if Reaches(|out| - start, offset) then Grown(out, offset, n) else None
    }
  }

  datatype ExecState = ExecState(out: seq<byte>, cursor: nat, reps: Reps) {
    predicate Valid(f: Frame, literals: seq<byte>) {
      f.start <= |out| && cursor <= |literals| && reps.Valid()
    }
  }

  function ExecOne(f: Frame, literals: seq<byte>, c: Command, st: ExecState): (next: Option<ExecState>)
    requires st.Valid(f, literals)
    ensures next.Some? ==>
              && next.value.Valid(f, literals)
              && st.out <= next.value.out
              && |next.value.out| == |st.out| + c.literalLength + c.matchLength
              && next.value.cursor == st.cursor + c.literalLength
  {
    match ResolveValues(st.reps, c.literalLength, c.offsetValue)
    case None => None
    case Some(r) =>
      ResolveKeepsValid(st.reps, c.literalLength, c.offsetValue);
      if st.cursor + c.literalLength > |literals| then None
      else
        var out := st.out + literals[st.cursor..st.cursor + c.literalLength];
        match f.AppendMatch(out, r.offset, c.matchLength)
        case None => None
        case Some(grown) => Some(ExecState(grown, st.cursor + c.literalLength, r.reps))
  }

  /** A command that names a distance and has its literals stands or falls with its match. */
  lemma ExecOneIs(f: Frame, literals: seq<byte>, c: Command, st: ExecState, r: Resolved)
    requires st.Valid(f, literals)
    requires ResolveValues(st.reps, c.literalLength, c.offsetValue) == Some(r)
    requires st.cursor + c.literalLength <= |literals|
    ensures 0 < r.offset
    ensures var grown := f.AppendMatch(st.out + literals[st.cursor..st.cursor + c.literalLength], r.offset, c.matchLength);
            ExecOne(f, literals, c, st) == if grown.None? then None
                                           else Some(ExecState(grown.value, st.cursor + c.literalLength, r.reps))
  {
    ResolveKeepsValid(st.reps, c.literalLength, c.offsetValue);
  }

  lemma ExecOneRejects(f: Frame, literals: seq<byte>, c: Command, st: ExecState)
    requires st.Valid(f, literals)
    requires ResolveValues(st.reps, c.literalLength, c.offsetValue) == None || st.cursor + c.literalLength > |literals|
    ensures ExecOne(f, literals, c, st) == None
  {
  }

  function ExecAll(f: Frame, literals: seq<byte>, cs: seq<Command>, st: ExecState): (end: Option<ExecState>)
    requires st.Valid(f, literals)
    ensures end.Some? ==> end.value.Valid(f, literals) && st.out <= end.value.out
    decreases |cs|
  {
    if cs == [] then Some(st)
    else
      match ExecOne(f, literals, cs[0], st)
      case None => None
      case Some(next) => ExecAll(f, literals, cs[1..], next)
  }

  function MatchTotal(cs: seq<Command>): nat
    decreases |cs|
  {
    if cs == [] then 0 else cs[0].matchLength + MatchTotal(cs[1..])
  }

  /** The caller's output cap, and what was produced before the buffer's first byte. */
  datatype OutputLimit = OutputLimit(producedBefore: nat, maxOutputSize: Option<nat>) {
    predicate Allows(outLen: nat) {
      maxOutputSize.Some? ==> producedBefore + outLen <= maxOutputSize.value
    }

    /** How many more bytes the cap allows; None when it is already exceeded. */
    function Remaining(outLen: nat): Option<nat> {
      if maxOutputSize == None then Some(USIZE_MAX)
      else if producedBefore + outLen > maxOutputSize.value then None
      else Some(maxOutputSize.value - (producedBefore + outLen))
    }
  }

  /** The room a destination has for `total` more bytes: all of it, unless it is fixed. */
  predicate Fits(capacity: Option<nat>, outLen: nat, total: nat) {
    capacity.Some? ==> outLen + total <= capacity.value
  }

  /** The output and distances one block leaves, or None when the block is rejected. */
  function ExecBlock(f: Frame, blockSizeMax: nat, literals: seq<byte>, cs: seq<Command>, out: seq<byte>, reps: Reps,
                     limit: OutputLimit, capacity: Option<nat>): (r: Option<(seq<byte>, Reps)>)
    requires f.start <= |out| && reps.Valid()
    ensures r.Some? ==> r.value.1.Valid() && out <= r.value.0
  {
    var total := |literals| + MatchTotal(cs);
    if total > blockSizeMax || !limit.Allows(|out| + total) || !Fits(capacity, |out|, total) then None
    else
      match ExecAll(f, literals, cs, ExecState(out, 0, reps))
      case None => None
      case Some(st) => Some((st.out + literals[st.cursor..], st.reps))
  }

  /** Everything a block appends is its literals and its matches. */
  lemma {:induction false} ExecAllLength(f: Frame, literals: seq<byte>, cs: seq<Command>, st: ExecState)
    requires st.Valid(f, literals)
    ensures var end := ExecAll(f, literals, cs, st);
            end.Some? ==> |end.value.out| - end.value.cursor == |st.out| - st.cursor + MatchTotal(cs)
    decreases |cs|
  {
    if cs != [] {
      var next := ExecOne(f, literals, cs[0], st);
      if next.Some? {
        ExecAllLength(f, literals, cs[1..], next.value);
      }
    }
  }

  lemma ExecBlockLength(f: Frame, blockSizeMax: nat, literals: seq<byte>, cs: seq<Command>, out: seq<byte>, reps: Reps,
                        limit: OutputLimit, capacity: Option<nat>)
    requires f.start <= |out| && reps.Valid()
    ensures var r := ExecBlock(f, blockSizeMax, literals, cs, out, reps, limit, capacity);
            r.Some? ==>
              && |r.value.0| == |out| + |literals| + MatchTotal(cs) <= |out| + blockSizeMax
              && limit.Allows(|r.value.0|)
  {
    ExecAllLength(f, literals, cs, ExecState(out, 0, reps));
  }

  /** Counting `charge` more bytes against the cap rejects the blocks that then exceed it, and changes nothing else. */
  lemma ChargeOnlyRejects(f: Frame, blockSizeMax: nat, literals: seq<byte>, cs: seq<Command>, out: seq<byte>, reps: Reps,
                          charge: nat, maxOutputSize: Option<nat>, capacity: Option<nat>)
    requires f.start <= |out| && reps.Valid()
    ensures var r := ExecBlock(f, blockSizeMax, literals, cs, out, reps, OutputLimit(0, maxOutputSize), capacity);
            var limit := OutputLimit(charge, maxOutputSize);
            ExecBlock(f, blockSizeMax, literals, cs, out, reps, limit, capacity)
            == if r.Some? && limit.Allows(|r.value.0|) then r else None
  {
    hide ExecAll;
    ExecBlockLength(f, blockSizeMax, literals, cs, out, reps, OutputLimit(0, maxOutputSize), capacity);
  }

  /** A destination of limited room rejects the blocks that do not fit, and changes nothing else. */
  lemma RoomOnlyRejects(f: Frame, blockSizeMax: nat, literals: seq<byte>, cs: seq<Command>, out: seq<byte>, reps: Reps,
                        limit: OutputLimit, capacity: Option<nat>)
    requires f.start <= |out| && reps.Valid()
    ensures var r := ExecBlock(f, blockSizeMax, literals, cs, out, reps, limit, None);
            ExecBlock(f, blockSizeMax, literals, cs, out, reps, limit, capacity)
            == if r.Some? && Fits(capacity, 0, |r.value.0|) then r else None
  {
    hide ExecAll;
    ExecBlockLength(f, blockSizeMax, literals, cs, out, reps, limit, None);
  }

  // ----- what a match reads

  /** A match never looks further back than its distance. */
  lemma {:induction false} OverlapIgnoresOlder(older: seq<byte>, h: seq<byte>, offset: nat, n: nat)
    requires 0 < offset <= |h|
    ensures Overlap(older + h, offset, n) == older + Overlap(h, offset, n)
  {
    if n != 0 {
      OverlapIgnoresOlder(older, h, offset, n - 1);
      var s, t := Overlap(h, offset, n - 1), Overlap(older + h, offset, n - 1);
      assert t[|t| - offset] == s[|s| - offset];
    }
  }

  lemma TailIgnoresOlder(older: seq<byte>, h: seq<byte>, offset: nat, n: nat)
    requires 0 < offset <= |h|
    ensures Tail(older + h, offset, n) == Tail(h, offset, n)
  {
    OverlapIgnoresOlder(older, h, offset, n);
    assert (older + Overlap(h, offset, n))[|older| + |h|..] == Overlap(h, offset, n)[|h|..];
  }

  lemma {:induction false} OverlapInTwo(h: seq<byte>, offset: nat, a: nat, b: nat)
    requires 0 < offset <= |h|
    ensures Overlap(h, offset, a + b) == Overlap(Overlap(h, offset, a), offset, b)
  {
    if b != 0 {
      OverlapInTwo(h, offset, a, b - 1);
    }
  }
}
