/**
 Executing a block's commands into the output.

 The fast executor copies in wide units while it has slack ahead of it, falls
 back to exact copies when a fixed destination runs out of slack, and resolves
 distances without a branch for the common cases.  The plain executor is the one
 the program keeps for profiling and tests.  Both are proved against
 `BlockSpec.ExecBlock`, so they accept the same blocks and leave the same bytes
 and distances.
 */
module Executor {
  import opened Common
  import opened MatchCopy
  import opened Repcodes
  import opened BlockSpec
  import opened DecodeOutput
  import opened Literals

  // The shortest match a sequence can carry; its length table starts here.
  const MATCH_LENGTH_MIN: nat := 3

  // ----- matches out of the history

  lemma OverlapIsTail(h: seq<byte>, offset: nat, n: nat)
    requires 0 < offset <= |h|
    ensures Overlap(h, offset, n) == h + Tail(h, offset, n)
  {
  }

  lemma FrameSide(dict: seq<byte>, before: seq<byte>, frame: seq<byte>, offset: nat, n: nat)
    requires 0 < offset <= |frame|
    ensures Overlap(before + frame, offset, n) == before + frame + Tail(dict + frame, offset, n)
  {
    hide Overlap;
    hide Tail;
    OverlapIsTail(before + frame, offset, n);
    TailIgnoresOlder(before, frame, offset, n);
    TailIgnoresOlder(dict, frame, offset, n);
  }

  /** Within the frame, a match of the history is a match of the output. */
  lemma FrameMatch(f: Frame, out: seq<byte>, offset: nat, n: nat)
    requires f.start <= |out| && 0 < offset <= |out| - f.start
    ensures f.Grown(out, offset, n) == Some(Overlap(out, offset, n))
  {
    var before, frame := out[..f.start], out[f.start..];
    assert out == before + frame;
    FrameSide(Bytes(f.dictionary), before, frame, offset, n);
  }

  /**
   A match of `h` whose first part `t` is a plain slice: the rest continues from `h + t`, and
   reads only its end `recent`.
   */
  lemma MatchInTwo(h: seq<byte>, from: nat, t: seq<byte>, older: seq<byte>, recent: seq<byte>, offset: nat, rest: nat)
    requires from < |h| && offset == |h| - from <= |recent| && |t| <= offset
    requires t == h[from..from + |t|] && h + t == older + recent
    ensures Overlap(h, offset, |t| + rest) == older + Overlap(recent, offset, rest)
  {
    hide Overlap;
    OverlapInTwo(h, offset, |t|, rest);
    OverlapShort(h, offset, |t|);
    OverlapIgnoresOlder(older, recent, offset, rest);
  }

  lemma BoundaryPieces(dict: seq<byte>, frame: seq<byte>, from: nat)
    requires from < |dict|
    ensures var (t, h) := (dict[from..], dict + frame);
            h + t == dict + (frame + t) && h[from..from + |t|] == t
  {
  }

  /** Seen from the dictionary: `t` is its part of the match, `x` the frame grown by the match. */
  lemma DictionarySide(dict: seq<byte>, frame: seq<byte>, from: nat, rest: nat, t: seq<byte>, x: seq<byte>)
    requires from < |dict| && t == dict[from..] && x == Overlap(frame + t, |t| + |frame|, rest)
    ensures Overlap(dict + frame, |t| + |frame|, |t| + rest) == dict + x
  {
    hide Overlap;
    var h := dict + frame;
    BoundaryPieces(dict, frame, from);
    MatchInTwo(h, from, t, dict, frame + t, |t| + |frame|, rest);
  }

  /** Seen from the output. */
  lemma OutputSide(before: seq<byte>, frame: seq<byte>, rest: nat, t: seq<byte>, x: seq<byte>)
    requires 0 < |t| && x == Overlap(frame + t, |t| + |frame|, rest)
    ensures Overlap(before + frame + t, |t| + |frame|, rest) == before + x
  {
    hide Overlap;
    assert before + frame + t == before + (frame + t);
    OverlapIgnoresOlder(before, frame + t, |t| + |frame|, rest);
  }

  lemma SameEnd(dict: seq<byte>, before: seq<byte>, frame: seq<byte>, x: seq<byte>)
    requires frame <= x
    ensures before + frame + (dict + x)[|dict + frame|..] == before + x
  {
    assert (dict + x)[|dict + frame|..] == x[|frame|..];
    assert x == frame + x[|frame|..];
  }

  lemma PrefixOfOverlap(frame: seq<byte>, t: seq<byte>, rest: nat, x: seq<byte>)
    requires 0 < |t| && x == Overlap(frame + t, |t| + |frame|, rest)
    ensures frame <= x
  {
    assert frame <= frame + t;
  }

  lemma AcrossTheBoundary(dict: seq<byte>, before: seq<byte>, frame: seq<byte>, from: nat, rest: nat, t: seq<byte>)
    requires from < |dict| && t == dict[from..]
    ensures Overlap(before + frame + t, |t| + |frame|, rest)
         == before + frame + Tail(dict + frame, |t| + |frame|, |t| + rest)
  {
    var x := Overlap(frame + t, |t| + |frame|, rest);
    DictionarySide(dict, frame, from, rest, t, x);
    OutputSide(before, frame, rest, t, x);
    PrefixOfOverlap(frame, t, rest, x);
    SameEnd(dict, before, frame, x);
  }

  /** A match that starts in the dictionary and outruns it goes on from the frame's first byte. */
  lemma DictionaryThenFrame(f: Frame, out: seq<byte>, from: nat, rest: nat)
    requires f.start <= |out| && f.dictionary.Some? && from < |f.dictionary.value|
    ensures var dict := f.dictionary.value;
            var offset := |dict| - from + |out| - f.start;
            f.Grown(out, offset, |dict| - from + rest) == Some(Overlap(out + dict[from..], offset, rest))
  {
    var dict, before, frame := f.dictionary.value, out[..f.start], out[f.start..];
    assert before + frame == out;
    AcrossTheBoundary(dict, before, frame, from, rest, dict[from..]);
  }

  /** A match that ends inside the dictionary. */
  lemma DictionaryOnly(f: Frame, out: seq<byte>, from: nat, n: nat)
    requires f.start <= |out| && f.dictionary.Some? && from < |f.dictionary.value| && from + n <= |f.dictionary.value|
    ensures var dict := f.dictionary.value;
            f.Grown(out, |dict| - from + |out| - f.start, n) == Some(out + dict[from..from + n])
  {
    var h := f.History(out);
    OverlapShort(h, |h| - from, n);
    assert h[from..from + n] == f.dictionary.value[from..from + n];
  }

  /** A piece of the dictionary, then the frame from its first byte. */
  method AppendThenFrame(out: DecodeOut, frameStart: nat, chunk: seq<byte>, remaining: nat) returns (ok: bool)
    requires out.Valid() && frameStart <= out.len && 0 < |chunk|
    modifies out, out.buf
    ensures out.Valid() && out.SameDestination()
    ensures ok <==> Fits(old(out.Capacity()), old(out.len), |chunk| + remaining)
    ensures ok ==> (out.Contents()
                    == Overlap(old(out.Contents()) + chunk, old(out.len) + |chunk| - frameStart, remaining))
  {
    ok := out.Append(chunk);
    if ok && remaining != 0 {
      ok := out.AppendMatchFromHistory(frameStart, remaining);
    }
  }

  /** A match that starts in the dictionary and ends in the frame, or at its start. */
  method AppendAcrossTheBoundary(out: DecodeOut, f: Frame, sourceIndex: nat, remaining: nat) returns (ok: bool)
    requires out.Valid() && f.start <= out.len && f.dictionary.Some? && sourceIndex < |f.dictionary.value|
    modifies out, out.buf
    ensures out.Valid() && out.SameDestination()
    ensures ok <==> Fits(old(out.Capacity()), old(out.len), |f.dictionary.value| - sourceIndex + remaining)
    ensures ok ==> f.Grown(old(out.Contents()), |f.dictionary.value| - sourceIndex + old(out.len) - f.start,
                           |f.dictionary.value| - sourceIndex + remaining) == Some(out.Contents())
  {
    DictionaryThenFrame(f, out.Contents(), sourceIndex, remaining);
    ok := AppendThenFrame(out, f.start, f.dictionary.value[sourceIndex..], remaining);
  }

  method AppendFromFrame(out: DecodeOut, f: Frame, offset: nat, matchLength: nat) returns (ok: bool)
    requires out.Valid() && f.start <= out.len && 0 < offset <= out.len - f.start
    modifies out, out.buf
    ensures out.Valid() && out.SameDestination()
    ensures ok <==> Fits(old(out.Capacity()), old(out.len), matchLength)
    ensures ok ==> f.Grown(old(out.Contents()), offset, matchLength) == Some(out.Contents())
  {
    FrameMatch(f, out.Contents(), offset, matchLength);
    ok := out.AppendMatchFromHistory(out.len - offset, matchLength);
  }

  method AppendInsideDictionary(out: DecodeOut, f: Frame, sourceIndex: nat, n: nat) returns (ok: bool)
    requires out.Valid() && f.start <= out.len && f.dictionary.Some? && sourceIndex < |f.dictionary.value|
    requires sourceIndex + n <= |f.dictionary.value|
    modifies out, out.buf
    ensures out.Valid() && out.SameDestination()
    ensures ok <==> Fits(old(out.Capacity()), old(out.len), n)
    ensures ok ==> (f.Grown(old(out.Contents()), |f.dictionary.value| - sourceIndex + old(out.len) - f.start, n)
                    == Some(out.Contents()))
  {
    DictionaryOnly(f, out.Contents(), sourceIndex, n);
    ok := out.Append(f.dictionary.value[sourceIndex..sourceIndex + n]);
  }

  method AppendMatchFromDictionaryHistory(out: DecodeOut, f: Frame, offset: nat, matchLength: nat) returns (ok: bool)
    requires out.Valid() && f.start <= out.len && f.dictionary.Some?
    requires 0 < offset <= |f.dictionary.value| + out.len - f.start
    modifies out, out.buf
    ensures out.Valid() && out.SameDestination()
    ensures ok <==> Fits(old(out.Capacity()), old(out.len), matchLength)
    ensures ok ==> f.Grown(old(out.Contents()), offset, matchLength) == Some(out.Contents())
  {
    var historyLen := |f.dictionary.value| + (out.len - f.start);
    var sourceIndex := historyLen - offset;
    if sourceIndex >= |f.dictionary.value| {
      ok := AppendFromFrame(out, f, offset, matchLength);
    } else if |f.dictionary.value| - sourceIndex <= matchLength {
      ok := AppendAcrossTheBoundary(out, f, sourceIndex, matchLength - (|f.dictionary.value| - sourceIndex));
    } else {
      ok := AppendInsideDictionary(out, f, sourceIndex, matchLength);
    }
  }

  // ----- the fast executor

  /** Literals in units of 16, the last of which may run past the run on both sides. */
  method CopyLiterals(buf: array<byte>, outPos: nat, literals: DecodedLiterals, cursor: nat, literalLength: nat)
    requires literals.Valid() && cursor + literalLength <= literals.len
    requires outPos + literalLength + 16 <= buf.Length
    modifies buf
    ensures buf[..outPos + literalLength] == old(buf[..outPos]) + literals.AsSlice()[cursor..cursor + literalLength]
    ensures SameOutside(old(buf[..]), buf[..], outPos, outPos + literalLength + 16)
  {
    ghost var before := buf[..];
    forall i | 0 <= i < 16 {
      buf[outPos + i] := literals.padded[cursor + i];
    }
    if literalLength > 16 {
      var pos := 16;
      while pos < literalLength
        invariant 16 <= pos < literalLength + 16
        invariant SameOutside(before, buf[..], outPos, outPos + pos)
        invariant forall i :: outPos <= i < outPos + pos ==> buf[i] == literals.padded[cursor + i - outPos]
      {
        forall i | 0 <= i < 16 {
          buf[outPos + pos + i] := literals.padded[cursor + pos + i];
        }
        pos := pos + 16;
      }
    }
    assert buf[..outPos] == before[..outPos];
    assert buf[outPos..outPos + literalLength] == literals.AsSlice()[cursor..cursor + literalLength];
    assert buf[..outPos + literalLength] == buf[..outPos] + buf[outPos..outPos + literalLength];
  }

  /** The fast path's check that a match can be served from the frame's own bytes. */
  predicate ServedByFrame(f: Frame, produced: nat, offset: nat) {
    offset <= produced && offset <= f.window
  }

  /** What the executor makes of a distance: the frame's own bytes first, and only then is the sentinel looked for. */
  predicate Accepts(f: Frame, produced: nat, offset: nat) {
    ServedByFrame(f, produced, offset) || (offset != OFFSET_SENTINEL && f.Reaches(produced, offset))
  }

  /** An output that ends by `end` cannot have the frame serve the sentinel. */
  predicate SentinelOutOfReach(f: Frame, end: nat) {
    f.window < OFFSET_SENTINEL || end < f.start + OFFSET_SENTINEL
  }

  /** A match the frame itself cannot serve: from the dictionary, or an error. */
  method ExecuteDictionaryMatch(out: DecodeOut, outPos: nat, f: Frame, offset: nat, matchLength: nat)
    returns (ok: bool, newPos: nat)
    requires out.Valid() && f.start <= outPos <= out.buf.Length && 0 < offset
    requires !ServedByFrame(f, outPos - f.start, offset)
    modifies out, out.buf
    ensures out.Valid() && out.SameDestination() && newPos == out.len
    ensures ok <==> && offset != OFFSET_SENTINEL && f.Reaches(outPos - f.start, offset)
                    && Fits(old(out.Capacity()), outPos, matchLength)
    ensures ok ==> f.Grown(old(out.buf[..outPos]), offset, matchLength) == Some(out.buf[..newPos])
  {
    newPos := out.len;
    if offset == OFFSET_SENTINEL {
      return false, newPos;
    }
    var producedInFrame := outPos - f.start;
    if f.dictionary == None || producedInFrame > f.window {
      return false, newPos;
    }
    if offset > |f.dictionary.value| + producedInFrame {
      return false, newPos;
    }
    out.SetLen(outPos);
    ok := AppendMatchFromDictionaryHistory(out, f, offset, matchLength);
    newPos := out.len;
  }

  /** One sequence with no byte written past its end, for the tail of a fixed destination. */
  method ExecuteSequenceExact(out: DecodeOut, outPos: nat, literalRun: seq<byte>, f: Frame, offset: nat, matchLength: nat)
    returns (ok: bool, newPos: nat)
    requires out.Valid() && !out.growable && f.start <= outPos <= out.buf.Length && 0 < offset
    modifies out, out.buf
    ensures out.Valid() && out.SameDestination() && newPos == out.len
    ensures var run := old(out.buf[..outPos]) + literalRun;
            && (ok <==> && Accepts(f, |run| - f.start, offset)
                        && Fits(old(out.Capacity()), outPos, |literalRun| + matchLength))
            && (ok ==> f.Grown(run, offset, matchLength) == Some(out.buf[..newPos]))
  {
    out.SetLen(outPos);
    ok := out.Append(literalRun);
    newPos := out.len;
    if !ok {
      return;
    }
    if ServedByFrame(f, newPos - f.start, offset) {
      ok := AppendFromFrame(out, f, offset, matchLength);
      newPos := out.len;
    } else {
      ok, newPos := ExecuteDictionaryMatch(out, newPos, f, offset, matchLength);
    }
  }

  /** One sequence in wide units, with slack ahead of it. */
  method ExecuteSequenceWide(out: DecodeOut, outPos: nat, literals: DecodedLiterals, cursor: nat, literalLength: nat,
                             f: Frame, offset: nat, matchLength: nat)
    returns (ok: bool, newPos: nat)
    requires out.Valid() && f.start <= outPos && 0 < offset
    requires outPos + literalLength + matchLength + WILDCOPY_OVERLENGTH <= out.buf.Length
    requires literals.Valid() && cursor + literalLength <= literals.len
    modifies out, out.buf
    ensures out.Valid() && out.SameDestination() && newPos <= out.buf.Length
    ensures var run := old(out.buf[..outPos]) + literals.AsSlice()[cursor..cursor + literalLength];
            && (ok <==> Accepts(f, |run| - f.start, offset))
            && (ok ==> f.Grown(run, offset, matchLength) == Some(out.buf[..newPos]))
  {
    hide Overlap;
    hide Frame.Grown;
    hide Frame.Reaches;
    CopyLiterals(out.buf, outPos, literals, cursor, literalLength);
    newPos := outPos + literalLength;
    if ServedByFrame(f, newPos - f.start, offset) {
      FrameMatch(f, out.buf[..newPos], offset, matchLength);
      CopyMatchInline(out.buf, newPos, newPos - offset, matchLength);
      newPos := newPos + matchLength;
      ok := true;
    } else {
      ok, newPos := ExecuteDictionaryMatch(out, newPos, f, offset, matchLength);
    }
  }

  /** Wide while there is slack, exact once there is not. */
  method ExecuteResolved(checked: bool, out: DecodeOut, outPos: nat, literals: DecodedLiterals, cursor: nat,
                         literalLength: nat, f: Frame, offset: nat, matchLength: nat, wildcopyEnd: nat)
    returns (ok: bool, newPos: nat)
    requires out.Valid() && f.start <= outPos <= out.buf.Length && 0 < offset && MATCH_LENGTH_MIN <= matchLength
    requires literals.Valid() && cursor + literalLength <= literals.len
    requires wildcopyEnd == 0 || wildcopyEnd + WILDCOPY_OVERLENGTH <= out.buf.Length
    requires !checked || out.growable ==> outPos + literalLength + matchLength <= wildcopyEnd
    modifies out, out.buf
    ensures out.Valid() && out.SameDestination() && newPos <= out.buf.Length
    ensures var run := old(out.buf[..outPos]) + literals.AsSlice()[cursor..cursor + literalLength];
            && (ok <==> && Accepts(f, |run| - f.start, offset)
                        && Fits(old(out.Capacity()), outPos, literalLength + matchLength))
            && (ok ==> f.Grown(run, offset, matchLength) == Some(out.buf[..newPos]))
  {
    if !checked || outPos + literalLength + matchLength <= wildcopyEnd {
      ok, newPos := ExecuteSequenceWide(out, outPos, literals, cursor, literalLength, f, offset, matchLength);
    } else {
      ok, newPos := ExecuteSequenceExact(out, outPos, literals.AsSlice()[cursor..cursor + literalLength],
                                         f, offset, matchLength);
    }
  }

  /** What the executor makes of a command that has its literals, with all the room it needs. */
  function ExecInline(f: Frame, literals: seq<byte>, c: Command, st: ExecState): (next: Option<ExecState>)
    requires st.Valid(f, literals) && st.cursor + c.literalLength <= |literals|
  {
    var r := ResolveInline(st.reps, c.literalLength, c.offsetValue);
    var run := st.out + literals[st.cursor..st.cursor + c.literalLength];
    var grown := if Accepts(f, |run| - f.start, r.offset) then f.Grown(run, r.offset, c.matchLength) else None;
    if grown == None then None else Some(ExecState(grown.value, st.cursor + c.literalLength, r.reps))
  }

  /** The parts of that: a distance, and the match it names, which is there whenever the distance is accepted. */
  lemma InlineParts(f: Frame, literals: seq<byte>, c: Command, st: ExecState)
    requires st.Valid(f, literals) && st.cursor + c.literalLength <= |literals|
    ensures var r := ResolveInline(st.reps, c.literalLength, c.offsetValue);
            var run := st.out + literals[st.cursor..st.cursor + c.literalLength];
            var next := ExecInline(f, literals, c, st);
            && 0 < r.offset
            && (next.Some? <==> Accepts(f, |run| - f.start, r.offset))
            && (next.Some? ==>
                  && Some(next.value.out) == f.Grown(run, r.offset, c.matchLength)
                  && next.value.cursor == st.cursor + c.literalLength && next.value.reps == r.reps)
  {
    InlineAgreesWithChecked(st.reps, c.literalLength, c.offsetValue);
    ResolveKeepsValid(st.reps, c.literalLength, c.offsetValue);
  }

  /** The executor's outcome is the command's meaning, as long as the frame cannot serve the sentinel. */
  lemma InlineIsExecOne(f: Frame, literals: seq<byte>, c: Command, st: ExecState)
    requires st.Valid(f, literals) && st.cursor + c.literalLength <= |literals|
    requires SentinelOutOfReach(f, |st.out| + c.literalLength)
    ensures ExecInline(f, literals, c, st) == ExecOne(f, literals, c, st)
  {
    var r := ResolveInline(st.reps, c.literalLength, c.offsetValue);
    InlineAgreesWithChecked(st.reps, c.literalLength, c.offsetValue);
    if r.offset == OFFSET_SENTINEL {
      ExecOneRejects(f, literals, c, st);
    } else {
      ExecOneIs(f, literals, c, st, r);
    }
  }

  /** A value that names no distance, where the frame serves the sentinel: it is executed and not rejected. */
  lemma SentinelIsServed(f: Frame, literals: seq<byte>, c: Command, st: ExecState)
    requires st.Valid(f, literals) && st.cursor + c.literalLength <= |literals|
    requires ResolveValues(st.reps, c.literalLength, c.offsetValue) == None
    requires !SentinelOutOfReach(f, |st.out| + c.literalLength)
    ensures ExecInline(f, literals, c, st).Some? && ExecOne(f, literals, c, st) == None
  {
    InlineAgreesWithChecked(st.reps, c.literalLength, c.offsetValue);
    InlineParts(f, literals, c, st);
    ExecOneRejects(f, literals, c, st);
  }

  /** The executor does with every command in this state what the command means. */
  ghost predicate RightOnEvery(f: Frame, literals: seq<byte>, st: ExecState)
    requires st.Valid(f, literals)
  {
    forall c: Command :: st.cursor + c.literalLength <= |literals| ==>
      ExecInline(f, literals, c, st) == ExecOne(f, literals, c, st)
  }

  /** It does so exactly when, with all the literals there are, the output stays short of serving the sentinel. */
  lemma SentinelIsRefusedExactly(f: Frame, literals: seq<byte>, st: ExecState)
    requires st.Valid(f, literals)
    ensures RightOnEvery(f, literals, st) <==> SentinelOutOfReach(f, |st.out| + |literals| - st.cursor)
  {
    hide ExecInline;
    hide ExecOne;
    if SentinelOutOfReach(f, |st.out| + |literals| - st.cursor) {
      forall c: Command | st.cursor + c.literalLength <= |literals|
        ensures ExecInline(f, literals, c, st) == ExecOne(f, literals, c, st)
      {
        InlineIsExecOne(f, literals, c, st);
      }
    } else {
      var c := Command(Min(|literals| - st.cursor, OFFSET_SENTINEL), 0, MATCH_LENGTH_MIN);
      SentinelIsServed(f, literals, c, st);
    }
  }

  /** Over all states of a frame, that is the window's bound, and a command a bitstream can hold shows it. */
  lemma WindowBoundIsExact(f: Frame)
    ensures f.window < 0xFFFF_FFFF
            <==> forall literals, st: ExecState :: st.Valid(f, literals) ==> RightOnEvery(f, literals, st)
    ensures f.window >= 0xFFFF_FFFF ==>
              exists st: ExecState :: st.Valid(f, []) && ExecOne(f, [], Command(0, 3, MATCH_LENGTH_MIN), st) == None
                                      && ExecInline(f, [], Command(0, 3, MATCH_LENGTH_MIN), st).Some?
  {
    hide ExecInline;
    hide ExecOne;
    hide RightOnEvery;
    if f.window < OFFSET_SENTINEL {
      forall literals, st: ExecState | st.Valid(f, literals)
        ensures RightOnEvery(f, literals, st)
      {
        SentinelIsRefusedExactly(f, literals, st);
      }
    } else {
      var st := ExecState(seq(f.start + OFFSET_SENTINEL, _ => 0), 0, DEFAULT_REPS);
      assert st.Valid(f, []);
      SentinelIsRefusedExactly(f, [], st);
      SentinelIsServed(f, [], Command(0, 3, MATCH_LENGTH_MIN), st);
    }
  }

  /** One sequence of the main loop, or the block's last, which always looks at the slack. */
  method ExecuteSequence(checked: bool, out: DecodeOut, f: Frame, literals: DecodedLiterals, c: Command,
                         outPos: nat, cursor: nat, reps: Reps, budget: nat, wildcopyEnd: nat)
    returns (ok: bool, newPos: nat, newCursor: nat, newReps: Reps)
    requires out.Valid() && f.start <= outPos <= out.buf.Length
    requires literals.Valid() && cursor <= literals.len && reps.Valid()
    requires MATCH_LENGTH_MIN <= c.matchLength
    requires wildcopyEnd == 0 || wildcopyEnd + WILDCOPY_OVERLENGTH <= out.buf.Length
    requires !checked || out.growable ==> outPos + budget <= wildcopyEnd
    modifies out, out.buf
    ensures out.Valid() && out.SameDestination() && newPos <= out.buf.Length
    ensures var total := c.literalLength + c.matchLength;
            if cursor + c.literalLength > literals.len then !ok
            else
              var next := ExecInline(f, literals.AsSlice(), c, ExecState(old(out.buf[..outPos]), cursor, reps));
              if ok then total <= budget && next == Some(ExecState(out.buf[..newPos], newCursor, newReps))
              else next == None || total > budget || !Fits(old(out.Capacity()), outPos, total)
  {
    newPos, newReps := outPos, reps;
    var total := c.literalLength + c.matchLength;
    newCursor := cursor + c.literalLength;
    if total > budget || newCursor > literals.len {
      return false, newPos, newCursor, newReps;
    }
    var resolved := ResolveInline(reps, c.literalLength, c.offsetValue);
    newReps := resolved.reps;
    InlineParts(f, literals.AsSlice(), c, ExecState(out.buf[..outPos], cursor, reps));
    ok, newPos := ExecuteResolved(checked, out, outPos, literals, cursor, c.literalLength,
                                  f, resolved.offset, c.matchLength, wildcopyEnd);
  }

  // ----- a whole block

  /** After `i` commands of a block started at `start`, the state `st` is where the reference is. */
  ghost predicate Midway(f: Frame, literals: seq<byte>, cs: seq<Command>, start: ExecState, i: nat, st: ExecState)
  {
    && i <= |cs| && start.Valid(f, literals) && st.Valid(f, literals)
    && ExecAll(f, literals, cs[i..], st) == ExecAll(f, literals, cs, start)
    && |st.out| + MatchTotal(cs[i..]) + start.cursor == |start.out| + st.cursor + MatchTotal(cs)
  }

  /** Before the first command. */
  lemma MidwayFirst(f: Frame, literals: seq<byte>, cs: seq<Command>, start: ExecState)
    requires start.Valid(f, literals)
    ensures Midway(f, literals, cs, start, 0, start)
  {
    assert cs[0..] == cs;
  }

  /** Behind the last. */
  lemma MidwayLast(f: Frame, literals: seq<byte>, cs: seq<Command>, start: ExecState, st: ExecState)
    requires Midway(f, literals, cs, start, |cs|, st)
    ensures start.Valid(f, literals) && ExecAll(f, literals, cs, start) == Some(st)
  {
    assert cs[|cs|..] == [];
  }

  lemma MidwayStep(f: Frame, literals: seq<byte>, cs: seq<Command>, start: ExecState, i: nat, st: ExecState)
    requires Midway(f, literals, cs, start, i, st) && i < |cs|
    ensures var next := ExecOne(f, literals, cs[i], st);
            if next.Some? then Midway(f, literals, cs, start, i + 1, next.value)
            else ExecAll(f, literals, cs, start) == None
  {
    assert cs[i..][1..] == cs[i + 1..];
  }

  /** The block's size in bytes, when its first commands run, is at least what they append. */
  lemma MidwayFits(f: Frame, literals: seq<byte>, cs: seq<Command>, start: ExecState, i: nat, st: ExecState)
    requires Midway(f, literals, cs, start, i, st) && i < |cs| && start.cursor == 0
    requires ExecOne(f, literals, cs[i], st).Some?
    ensures |st.out| + cs[i].literalLength + cs[i].matchLength <= |start.out| + |literals| + MatchTotal(cs)
  {
    MidwayStep(f, literals, cs, start, i, st);
  }

  /** The block is one the reference rejects, is over its budget, or does not fit. */
  ghost predicate Rejected(f: Frame, literals: seq<byte>, cs: seq<Command>, start: ExecState, budget: nat,
                           capacity: Option<nat>)
    requires start.Valid(f, literals)
  {
    || ExecAll(f, literals, cs, start) == None
    || |literals| + MatchTotal(cs) > budget
    || !Fits(capacity, |start.out|, |literals| + MatchTotal(cs))
  }

  /** A command that cannot run here rejects the block. */
  lemma RejectedHere(f: Frame, literals: seq<byte>, cs: seq<Command>, start: ExecState, i: nat, st: ExecState,
                     budget: nat, capacity: Option<nat>)
    requires Midway(f, literals, cs, start, i, st) && i < |cs| && start.cursor == 0
    requires var total := cs[i].literalLength + cs[i].matchLength;
             || ExecOne(f, literals, cs[i], st) == None
             || |st.out| + total > |start.out| + budget
             || !Fits(capacity, |st.out|, total)
    ensures Rejected(f, literals, cs, start, budget, capacity)
  {
    MidwayStep(f, literals, cs, start, i, st);
    if ExecOne(f, literals, cs[i], st).Some? {
      MidwayFits(f, literals, cs, start, i, st);
    }
  }

  /** A command either lacks its literals, is longer than what is left, or means what the executor makes of it. */
  lemma OneOfTheBlock(f: Frame, literals: seq<byte>, c: Command, st: ExecState, end: nat)
    requires st.Valid(f, literals) && SentinelOutOfReach(f, end)
    ensures if st.cursor + c.literalLength > |literals| then ExecOne(f, literals, c, st) == None
            else |st.out| + c.literalLength + c.matchLength > end || ExecInline(f, literals, c, st) == ExecOne(f, literals, c, st)
  {
    if st.cursor + c.literalLength > |literals| {
      ExecOneRejects(f, literals, c, st);
    } else if |st.out| + c.literalLength <= end {
      InlineIsExecOne(f, literals, c, st);
    }
  }

  /** One turn of the main loop. */
  method ExecuteNext(checked: bool, out: DecodeOut, f: Frame, literals: DecodedLiterals, cs: seq<Command>, i: nat,
                     outPos: nat, cursor: nat, reps: Reps, remaining: nat, wildcopyEnd: nat, ghost start: ExecState)
    returns (ok: bool, newPos: nat, newCursor: nat, newReps: Reps)
    requires out.Valid() && outPos <= out.buf.Length && SentinelOutOfReach(f, outPos + remaining)
    requires literals.Valid() && i < |cs| && MATCH_LENGTH_MIN <= cs[i].matchLength
    requires start.cursor == 0 && |start.out| <= outPos
    requires Midway(f, literals.AsSlice(), cs, start, i, ExecState(out.buf[..outPos], cursor, reps))
    requires wildcopyEnd == 0 || wildcopyEnd + WILDCOPY_OVERLENGTH <= out.buf.Length
    requires !checked || out.growable ==> outPos + remaining <= wildcopyEnd
    modifies out, out.buf
    ensures out.Valid() && out.SameDestination() && newPos <= out.buf.Length
    ensures var total := cs[i].literalLength + cs[i].matchLength;
            var budget := outPos + remaining - |start.out|;
            if ok then
              && total <= remaining && newPos == outPos + total
              && Midway(f, literals.AsSlice(), cs, start, i + 1, ExecState(out.buf[..newPos], newCursor, newReps))
            else Rejected(f, literals.AsSlice(), cs, start, budget, old(out.Capacity()))
  {
    ghost var st := ExecState(out.buf[..outPos], cursor, reps);
    MidwayStep(f, literals.AsSlice(), cs, start, i, st);
    OneOfTheBlock(f, literals.AsSlice(), cs[i], st, outPos + remaining);
    ghost var capacity := out.Capacity();
    ok, newPos, newCursor, newReps := ExecuteSequence(checked, out, f, literals, cs[i],
                                                      outPos, cursor, reps, remaining, wildcopyEnd);
    if !ok {
      RejectedHere(f, literals.AsSlice(), cs, start, i, st, outPos + remaining - |start.out|, capacity);
    }
  }

  method ExecuteBlockSequences(checked: bool, out: DecodeOut, f: Frame, literals: DecodedLiterals, cs: seq<Command>,
                               reps: RepeatOffsets, budget: nat, wildcopyEnd: nat)
    returns (ok: bool, cursor: nat)
    requires out.Valid() && f.start <= out.len && SentinelOutOfReach(f, out.len + budget)
    requires literals.Valid() && reps.values.Valid() && 0 < |cs|
    requires forall i :: 0 <= i < |cs| ==> MATCH_LENGTH_MIN <= cs[i].matchLength
    requires wildcopyEnd == 0 || wildcopyEnd + WILDCOPY_OVERLENGTH <= out.buf.Length
    requires !checked || out.growable ==> out.len + budget <= wildcopyEnd
    modifies out, out.buf, reps
    ensures out.Valid() && out.SameDestination()
    ensures var start := ExecState(old(out.Contents()), 0, old(reps.values));
            if ok then
              && ExecAll(f, literals.AsSlice(), cs, start) == Some(ExecState(out.Contents(), cursor, reps.values))
              && out.len <= old(out.len) + budget
            else Rejected(f, literals.AsSlice(), cs, start, budget, old(out.Capacity()))
  {
    hide Midway;
    hide ExecAll;
    hide MatchTotal;
    hide Rejected;
    hide SentinelOutOfReach;
    ghost var start := ExecState(out.Contents(), 0, reps.values);
    MidwayFirst(f, literals.AsSlice(), cs, start);
    var outPos: nat, local: Reps, remaining: nat := out.len, reps.values, budget;
    ok, cursor := true, 0;
    var i := 0;
    while i + 1 < |cs|
      invariant ok && 0 <= i < |cs| && out.Valid() && out.SameDestination() && outPos <= out.buf.Length
      invariant Midway(f, literals.AsSlice(), cs, start, i, ExecState(out.buf[..outPos], cursor, local))
      invariant |start.out| <= outPos && outPos + remaining == |start.out| + budget
    {
      var total := cs[i].literalLength + cs[i].matchLength;
      ok, outPos, cursor, local := ExecuteNext(checked, out, f, literals, cs, i, outPos, cursor, local,
                                               remaining, wildcopyEnd, start);
      if !ok {
        return;
      }
      remaining := remaining - total;
      i := i + 1;
    }
    ok, outPos, cursor, local := ExecuteNext(true, out, f, literals, cs, i, outPos, cursor, local,
                                             remaining, wildcopyEnd, start);
    if ok {
      MidwayLast(f, literals.AsSlice(), cs, start, ExecState(out.buf[..outPos], cursor, local));
      reps.values := local;
      out.SetLen(outPos);
    }
  }

  /** The literals no command claimed. */
  method AppendTrailingLiterals(out: DecodeOut, literals: DecodedLiterals, cursor: nat,
                                remainingBlock: int, remainingOutput: int) returns (ok: bool)
    requires out.Valid() && literals.Valid() && cursor <= literals.len
    modifies out, out.buf
    ensures out.Valid() && out.SameDestination()
    ensures var trailing := literals.AsSlice()[cursor..];
            && (ok <==> && |trailing| <= remainingBlock && |trailing| <= remainingOutput
                        && Fits(old(out.Capacity()), old(out.len), |trailing|))
            && (ok ==> out.Contents() == old(out.Contents()) + trailing)
  {
    var trailing := literals.AsSlice()[cursor..];
    if |trailing| > remainingBlock || |trailing| > remainingOutput {
      return false;
    }
    ok := out.Append(trailing);
  }

  /**
   A whole block.  One check up front decides whether any sequence has to look at the slack;
   a growable destination has just reserved it all.
   */
  method DecodeAndExecuteSequences(out: DecodeOut, f: Frame, blockSizeMax: nat, literals: DecodedLiterals,
                                   cs: seq<Command>, reps: RepeatOffsets, limit: OutputLimit)
    returns (ok: bool)
    requires out.Valid() && f.start <= out.len && blockSizeMax <= USIZE_MAX
    requires SentinelOutOfReach(f, out.len + blockSizeMax)
    requires literals.Valid() && reps.values.Valid()
    requires forall i :: 0 <= i < |cs| ==> MATCH_LENGTH_MIN <= cs[i].matchLength
    modifies out, out.buf, reps
    ensures out.Valid() && out.SameDestination()
    ensures var expected := ExecBlock(f, blockSizeMax, literals.AsSlice(), cs, old(out.Contents()), old(reps.values),
                                      limit, old(out.Capacity()));
            && ok == expected.Some?
            && (ok ==> (out.Contents(), reps.values) == expected.value)
  {
    var start := out.len;
    ghost var st := ExecState(out.Contents(), 0, reps.values);
    var remainingOutput := limit.Remaining(out.len);
    if remainingOutput == None {
      return false;
    }
    if |cs| == 0 {
      ok := AppendTrailingLiterals(out, literals, 0, blockSizeMax, remainingOutput.value);
      return;
    }
    var budget := Min(blockSizeMax, remainingOutput.value);
    out.TryReserve(budget + WILDCOPY_OVERLENGTH);
    var wildcopyEnd := Max(out.buf.Length - WILDCOPY_OVERLENGTH, 0);
    var cursor;
    ok, cursor := ExecuteBlockSequences(out.len + budget > wildcopyEnd, out, f, literals, cs, reps, budget, wildcopyEnd);
    if ok {
      ExecAllLength(f, literals.AsSlice(), cs, st);
      var consumed := out.len - start;
      ok := AppendTrailingLiterals(out, literals, cursor, blockSizeMax - consumed, remainingOutput.value - consumed);
    }
  }
}
