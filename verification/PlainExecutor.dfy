/** The plain executor: resolve, append the literals, append the match, one exact copy at a time. */
module PlainExecutor {
  import opened Common
  import opened MatchCopy
  import opened Repcodes
  import opened BlockSpec
  import opened DecodeOutput
  import opened Literals
  import opened Executor

  method AppendSequenceLiterals(out: DecodeOut, literals: seq<byte>, cursor: nat, literalLength: nat)
    returns (end: Option<nat>)
    requires out.Valid() && cursor <= |literals|
    modifies out, out.buf
    ensures out.Valid() && out.SameDestination()
    ensures end.Some? <==> cursor + literalLength <= |literals| && Fits(old(out.Capacity()), old(out.len), literalLength)
    ensures end.Some? ==> && end.value == cursor + literalLength
                          && out.Contents() == old(out.Contents()) + literals[cursor..end.value]
  {
    var literalEnd := cursor + literalLength;
    if literalEnd > |literals| {
      return None;
    }
    var ok := out.Append(literals[cursor..literalEnd]);
    return if ok then Some(literalEnd) else None;
  }

  /** The match of one sequence, from the frame, or from the dictionary while it is in reach. */
  method AppendPlainMatch(out: DecodeOut, f: Frame, offset: nat, matchLength: nat) returns (ok: bool)
    requires out.Valid() && f.start <= out.len && 0 < offset
    modifies out, out.buf
    ensures out.Valid() && out.SameDestination()
    ensures ok <==> f.Reaches(old(out.len) - f.start, offset) && Fits(old(out.Capacity()), old(out.len), matchLength)
    ensures ok ==> f.AppendMatch(old(out.Contents()), offset, matchLength) == Some(out.Contents())
  {
    var producedInFrame := out.len - f.start;
    var availablePrefix := Min(producedInFrame, f.window);
    if offset <= availablePrefix {
      ok := AppendFromFrame(out, f, offset, matchLength);
      return;
    }
    if f.dictionary == None || producedInFrame > f.window || offset > |f.dictionary.value| + producedInFrame {
      return false;
    }
    ok := AppendMatchFromDictionaryHistory(out, f, offset, matchLength);
  }

  method ExecutePlainSequence(out: DecodeOut, f: Frame, literals: seq<byte>, c: Command, cursor: nat, reps: RepeatOffsets)
    returns (end: Option<nat>)
    requires out.Valid() && f.start <= out.len && cursor <= |literals| && reps.values.Valid()
    modifies out, out.buf, reps
    ensures out.Valid() && out.SameDestination()
    ensures var next := ExecOne(f, literals, c, ExecState(old(out.Contents()), cursor, old(reps.values)));
            if end.Some? then next == Some(ExecState(out.Contents(), end.value, reps.values))
            else next == None || !Fits(old(out.Capacity()), old(out.len), c.literalLength + c.matchLength)
  {
    ghost var st := ExecState(out.Contents(), cursor, reps.values);
    ghost var resolved := ResolveValues(reps.values, c.literalLength, c.offsetValue);
    if resolved.Some? && cursor + c.literalLength <= |literals| {
      ExecOneIs(f, literals, c, st, resolved.value);
    } else {
      ExecOneRejects(f, literals, c, st);
    }
    var offset := reps.Resolve(c.literalLength, c.offsetValue);
    if offset == None {
      return None;
    }
    end := AppendSequenceLiterals(out, literals, cursor, c.literalLength);
    if end == None {
      return;
    }
    var ok := AppendPlainMatch(out, f, offset.value, c.matchLength);
    if !ok {
      end := None;
    }
  }

  method ExecutePlainSequences(out: DecodeOut, f: Frame, literals: seq<byte>, cs: seq<Command>, reps: RepeatOffsets)
    returns (cursor: Option<nat>)
    requires out.Valid() && f.start <= out.len && reps.values.Valid()
    modifies out, out.buf, reps
    ensures out.Valid() && out.SameDestination()
    ensures var start := ExecState(old(out.Contents()), 0, old(reps.values));
            if cursor.Some? then
              ExecAll(f, literals, cs, start) == Some(ExecState(out.Contents(), cursor.value, reps.values))
            else Rejected(f, literals, cs, start, |literals| + MatchTotal(cs), old(out.Capacity()))
  {
    ghost var start := ExecState(out.Contents(), 0, reps.values);
    cursor := Some(0);
    assert cs[0..] == cs;
    for i := 0 to |cs|
      invariant out.Valid() && out.SameDestination() && cursor.Some?
      invariant Midway(f, literals, cs, start, i, ExecState(out.Contents(), cursor.value, reps.values))
    {
      ghost var st := ExecState(out.Contents(), cursor.value, reps.values);
      MidwayStep(f, literals, cs, start, i, st);
      ghost var capacity := out.Capacity();
      cursor := ExecutePlainSequence(out, f, literals, cs[i], cursor.value, reps);
      if cursor == None {
        RejectedHere(f, literals, cs, start, i, st, |literals| + MatchTotal(cs), capacity);
        return;
      }
    }
    assert cs[|cs|..] == [];
  }

  /** A whole block: its size is checked before anything is copied. */
  method ExecuteSequencesWithTotalMatchBytes(out: DecodeOut, f: Frame, blockSizeMax: nat, literals: seq<byte>,
                                             cs: seq<Command>, reps: RepeatOffsets, maxOutputSize: Option<nat>,
                                             totalMatchBytes: nat)
    returns (ok: bool)
    requires out.Valid() && f.start <= out.len && reps.values.Valid() && totalMatchBytes == MatchTotal(cs)
    modifies out, out.buf, reps
    ensures out.Valid() && out.SameDestination()
    ensures var expected := ExecBlock(f, blockSizeMax, literals, cs, old(out.Contents()), old(reps.values),
                                      OutputLimit(0, maxOutputSize), old(out.Capacity()));
            && ok == expected.Some?
            && (ok ==> (out.Contents(), reps.values) == expected.value)
  {
    var blockOutputSize := |literals| + totalMatchBytes;
    if blockOutputSize > blockSizeMax {
      return false;
    }
    var finalLen := out.len + blockOutputSize;
    if maxOutputSize.Some? && finalLen > maxOutputSize.value {
      return false;
    }
    out.TryReserve(blockOutputSize + WILDCOPY_OVERLENGTH);
    ghost var st := ExecState(out.Contents(), 0, reps.values);
    ExecAllLength(f, literals, cs, st);
    var cursor := ExecutePlainSequences(out, f, literals, cs, reps);
    if cursor == None {
      return false;
    }
    ok := out.Append(literals[cursor.value..]);
  }
}
