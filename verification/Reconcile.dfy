/**
 Rewriting a sub-block for a decoder whose recent distances lag behind.

 When the previous sub-block went out raw, the decoder never walked its
 sequences, so a repeat value can name a different distance there than it did
 for the compressor.  The rewrite replaces such a value by an explicit one.

 The loop keeps two histories.  What it promises is that the decoder reads the
 distances the compressor meant.  That is proved for the rule the rewrite needs,
 under which the compressor's history follows the values the compressor chose.
 The code advances it with the value just written instead, which is not the same
 thing when the replaced value named the first or the second distance; the exact
 guard, and a witness, are below.
 */
module Reconcile {
  import opened Common
  import opened Repcodes

  function RepcodeToRaw(r: Reps, value: u32, literalLength: u32): u32
    requires 1 <= value <= 3
  {
    var index := RepIndex(literalLength, value);
    if index == 3 then Max(r.rep1 - 1, 0)
    else if index == 0 then r.rep1 else if index == 1 then r.rep2 else r.rep3
  }

  function Advance(r: Reps, value: u32, literalLength: u32): Reps
    requires 1 <= value
  {
    if value >= 4 then Reps(value - 3, r.rep1, r.rep2)
    else
      var index := RepIndex(literalLength, value);
      if index == 0 then r
      else if index == 1 then Reps(r.rep2, r.rep1, r.rep3)
      else if index == 2 then Reps(r.rep3, r.rep1, r.rep2)
      else Reps(Max(r.rep1 - 1, 0), r.rep1, r.rep2)
  }

  /** Which value moves the compressor's history: the one just written, or the one it chose. */
  datatype HistoryRule = WrittenValue | SavedValue

  /** The two histories the loop carries. */
  datatype Histories = Histories(compressor: Reps, decoder: Reps) {
    predicate Bounded() {
      compressor.Bounded() && decoder.Bounded()
    }

    predicate Valid() {
      compressor.Valid() && decoder.Valid()
    }
  }

  predicate Patches(h: Histories, c: Command) {
    && 1 <= c.offsetValue <= 3
    && RepcodeToRaw(h.compressor, c.offsetValue, c.literalLength)
       != RepcodeToRaw(h.decoder, c.offsetValue, c.literalLength)
  }

  function PatchedValue(h: Histories, c: Command): u32
    requires h.Bounded()
  {
    if Patches(h, c) then RepcodeToRaw(h.compressor, c.offsetValue, c.literalLength) + 3 else c.offsetValue
  }

  function Step(rule: HistoryRule, h: Histories, c: Command): (next: Histories)
    requires h.Bounded() && 1 <= c.offsetValue
    ensures next.Bounded()
  {
    var written := PatchedValue(h, c);
    Histories(Advance(h.compressor, if rule == WrittenValue then written else c.offsetValue, c.literalLength),
              Advance(h.decoder, written, c.literalLength))
  }

  predicate Named(cs: seq<Command>) {
    forall i :: 0 <= i < |cs| ==> 1 <= cs[i].offsetValue
  }

  /** The rewritten commands and the two final histories. */
  function Reconciled(rule: HistoryRule, h: Histories, cs: seq<Command>): (r: (seq<Command>, Histories))
    requires h.Bounded() && Named(cs)
    ensures |r.0| == |cs|
    decreases |cs|
  {
    if cs == [] then ([], h)
    else
      var (rest, end) := Reconciled(rule, Step(rule, h, cs[0]), cs[1..]);
      ([cs[0].(offsetValue := PatchedValue(h, cs[0]))] + rest, end)
  }

  /** Position of the highest set bit, which is the code an offset value is sent under. */
  function HighBit(v: nat): (bit: nat)
    requires 0 < v
    ensures Pow2(bit) <= v < Pow2(bit + 1)
  {
    if v == 1 then assert Pow2(1) == 2; 0 else 1 + HighBit(v / 2)
  }

  /** A code that described its command still does, and changes only if the command does. */
  ghost predicate CodeFollows(c: Command, code: nat, rewritten: Command, newCode: nat)
  {
    && (0 < c.offsetValue && code == HighBit(c.offsetValue) ==>
          0 < rewritten.offsetValue && newCode == HighBit(rewritten.offsetValue))
    && (newCode != code ==> 0 < rewritten.offsetValue && newCode == HighBit(rewritten.offsetValue))
  }

  /** Make command `i` explicit if its value names something else to the decoder. */
  method PatchAt(sequences: array<Command>, offsetCodes: array<nat>, i: nat, decoder: Reps, compressor: Reps)
    returns (seqn: Command)
    requires i < offsetCodes.Length == sequences.Length && 1 <= sequences[i].offsetValue
    requires decoder.Bounded() && compressor.Bounded()
    modifies sequences, offsetCodes
    ensures 1 <= seqn.offsetValue && seqn == old(sequences[i]).(offsetValue := PatchedValue(Histories(compressor, decoder), old(sequences[i])))
    ensures sequences[..] == old(sequences[..])[i := seqn]
    ensures forall j :: 0 <= j < offsetCodes.Length && j != i ==> offsetCodes[j] == old(offsetCodes[j])
    ensures CodeFollows(old(sequences[i]), old(offsetCodes[i]), seqn, offsetCodes[i])
  {
    hide HighBit;
    seqn := sequences[i];
    if seqn.offsetValue >= 1 && seqn.offsetValue <= 3 {
      var cRaw := RepcodeToRaw(compressor, seqn.offsetValue, seqn.literalLength);
      var dRaw := RepcodeToRaw(decoder, seqn.offsetValue, seqn.literalLength);
      if cRaw != dRaw {
        seqn := seqn.(offsetValue := cRaw + 3);
        sequences[i] := seqn;
        offsetCodes[i] := HighBit(seqn.offsetValue);
      }
    }
  }

  method ReconcileSubblockRepcodes(sequences: array<Command>, offsetCodes: array<nat>,
                                   decoderReps: RepeatOffsets, compressorReps: RepeatOffsets)
    requires offsetCodes.Length == sequences.Length && decoderReps != compressorReps
    requires Named(sequences[..])
    requires decoderReps.values.Bounded() && compressorReps.values.Bounded()
    modifies sequences, offsetCodes, decoderReps, compressorReps
    ensures (sequences[..], Histories(compressorReps.values, decoderReps.values))
         == Reconciled(WrittenValue, old(Histories(compressorReps.values, decoderReps.values)), old(sequences[..]))
    ensures forall i :: 0 <= i < sequences.Length ==>
              CodeFollows(old(sequences[i]), old(offsetCodes[i]), sequences[i], offsetCodes[i])
  {
    hide Advance;
    hide CodeFollows;
    hide PatchedValue;
    ghost var before := sequences[..];
    ghost var result := Reconciled(WrittenValue, Histories(compressorReps.values, decoderReps.values), before);
    var i := 0;
    while i < sequences.Length
      invariant 0 <= i <= sequences.Length
      invariant Histories(compressorReps.values, decoderReps.values).Bounded()
      invariant sequences[i..] == before[i..]
      invariant result.0[..i] == sequences[..i]
      invariant Reconciled(WrittenValue, Histories(compressorReps.values, decoderReps.values), before[i..])
             == (result.0[i..], result.1)
      invariant forall j :: i <= j < sequences.Length ==> offsetCodes[j] == old(offsetCodes[j])
      invariant forall j :: 0 <= j < i ==>
                  CodeFollows(before[j], old(offsetCodes[j]), sequences[j], offsetCodes[j])
    {
      ghost var h := Histories(compressorReps.values, decoderReps.values);
      assert sequences[i] == before[i..][0] && before[i..][1..] == before[i + 1..];
      assert result.0[i..][1..] == result.0[i + 1..];
      var seqn := PatchAt(sequences, offsetCodes, i, decoderReps.values, compressorReps.values);
      compressorReps.values := Advance(compressorReps.values, seqn.offsetValue, seqn.literalLength);
      decoderReps.values := Advance(decoderReps.values, seqn.offsetValue, seqn.literalLength);
      assert Histories(compressorReps.values, decoderReps.values) == Step(WrittenValue, h, before[i]);
      i := i + 1;
    }
    assert before[i..] == [] && result.0[..i] == result.0 && sequences[..i] == sequences[..];
  }

  // ----- what the rewrite promises

  /** Every distance the compressor meant is the one the decoder reads. */
  ghost predicate Preserves(rule: HistoryRule, h: Histories, cs: seq<Command>)
    requires h.Bounded() && Named(cs)
  {
    match ResolveAll(h.compressor, cs)
    case None => true
    case Some((meant, _)) =>
      var read := ResolveAll(h.decoder, Reconciled(rule, h, cs).0);
      read.Some? && read.value.0 == meant
  }

  lemma ResolveIsRawAndAdvance(r: Reps, c: Command)
    requires r.Bounded() && 1 <= c.offsetValue
    ensures match ResolveValues(r, c.literalLength, c.offsetValue)
            case None => c.offsetValue <= 3 && RepcodeToRaw(r, c.offsetValue, c.literalLength) == 0
            case Some(x) => && x.reps == Advance(r, c.offsetValue, c.literalLength)
                            && x.offset == if c.offsetValue > 3 then c.offsetValue - 3
                                           else RepcodeToRaw(r, c.offsetValue, c.literalLength)
  {
  }

  /** The value written names, to the decoder, the distance the compressor meant. */
  lemma PatchedResolves(h: Histories, c: Command)
    requires h.Valid() && 1 <= c.offsetValue && ResolveValues(h.compressor, c.literalLength, c.offsetValue).Some?
    ensures var meant := ResolveValues(h.compressor, c.literalLength, c.offsetValue).value;
            var written := PatchedValue(h, c);
            && meant.reps == Advance(h.compressor, c.offsetValue, c.literalLength) && meant.reps.Valid()
            && ResolveValues(h.decoder, c.literalLength, written)
               == Some(Resolved(meant.offset, Advance(h.decoder, written, c.literalLength)))
            && Advance(h.decoder, written, c.literalLength).Valid()
  {
    ResolveIsRawAndAdvance(h.compressor, c);
    ResolveIsRawAndAdvance(h.decoder, c.(offsetValue := PatchedValue(h, c)));
    ResolveKeepsValid(h.compressor, c.literalLength, c.offsetValue);
    ResolveKeepsValid(h.decoder, c.literalLength, PatchedValue(h, c));
  }

  /** Saving the chosen value first, the rewritten list means the same to the lagging decoder. */
  lemma {:induction false} SavedValuePreserves(h: Histories, cs: seq<Command>)
    requires h.Valid() && Named(cs)
    requires ResolveAll(h.compressor, cs).Some?
    ensures var (patched, end) := Reconciled(SavedValue, h, cs);
            var (meant, compressorEnd) := ResolveAll(h.compressor, cs).value;
            && ResolveAll(h.decoder, patched) == Some((meant, end.decoder))
            && end.compressor == compressorEnd
            && end.Valid()
    decreases |cs|
  {
    if cs != [] {
      var c, next := cs[0], Step(SavedValue, h, cs[0]);
      var written := c.(offsetValue := PatchedValue(h, c));
      PatchedResolves(h, c);
      hide Advance;
      hide PatchedValue;
      hide ResolveValues;
      SavedValuePreserves(next, cs[1..]);
      var patched := Reconciled(SavedValue, h, cs).0;
      assert patched[0] == written && patched[1..] == Reconciled(SavedValue, next, cs[1..]).0;
    }
  }

  // ----- when the loop as written does

  /**
   The rewrite of this one command leaves the compressor's history as the compressor left it.
   Replacing a value that named the third distance, or the first less one, does; replacing
   one that named the first or second does only if the entries it would have kept coincide.
   */
  predicate HarmlessPatch(h: Histories, c: Command) {
    Patches(h, c) ==>
      var index := RepIndex(c.literalLength, c.offsetValue);
      var Reps(rep1, rep2, rep3) := h.compressor;
      index >= 2 || (rep2 == rep3 && (index == 0 ==> rep1 == rep2))
  }

  predicate OnlyHarmlessPatches(h: Histories, cs: seq<Command>)
    requires h.Bounded() && Named(cs)
    decreases |cs|
  {
    cs == [] || (HarmlessPatch(h, cs[0]) && OnlyHarmlessPatches(Step(SavedValue, h, cs[0]), cs[1..]))
  }

  lemma HarmlessIsSameStep(h: Histories, c: Command)
    requires h.Valid() && 1 <= c.offsetValue && ResolveValues(h.compressor, c.literalLength, c.offsetValue).Some?
    ensures HarmlessPatch(h, c) <==> Step(WrittenValue, h, c) == Step(SavedValue, h, c)
    ensures Step(SavedValue, h, c).Valid()
  {
  }

  /** Up to a harmless prefix the loop writes the values it should, whatever command comes next. */
  lemma {:induction false} HarmlessPrefix(h: Histories, cs: seq<Command>, x: Command)
    requires h.Valid() && Named(cs) && ResolveAll(h.compressor, cs).Some? && OnlyHarmlessPatches(h, cs)
    requires 1 <= x.offsetValue
    ensures Reconciled(WrittenValue, h, cs + [x]).0 == Reconciled(SavedValue, h, cs + [x]).0
    decreases |cs|
  {
    if cs == [] {
      assert cs + [x] == [x];
    } else {
      HarmlessIsSameStep(h, cs[0]);
      ResolveIsRawAndAdvance(h.compressor, cs[0]);
      HarmlessPrefix(Step(SavedValue, h, cs[0]), cs[1..], x);
      assert (cs + [x])[1..] == cs[1..] + [x];
    }
  }

  lemma ResolveCons(r: Reps, c: Command, rest: seq<Command>)
    requires ResolveValues(r, c.literalLength, c.offsetValue).Some?
    ensures var x := ResolveValues(r, c.literalLength, c.offsetValue).value;
            ResolveAll(r, [c] + rest) == match ResolveAll(x.reps, rest)
                                         case None => None
                                         case Some((offsets, end)) => Some(([x.offset] + offsets, end))
  {
    assert ([c] + rest)[1..] == rest;
  }

  lemma ReconciledCons(rule: HistoryRule, h: Histories, c: Command, rest: seq<Command>)
    requires h.Bounded() && 1 <= c.offsetValue && Named(rest)
    ensures Named([c] + rest)
    ensures var (tail, end) := Reconciled(rule, Step(rule, h, c), rest);
            Reconciled(rule, h, [c] + rest) == ([c.(offsetValue := PatchedValue(h, c))] + tail, end)
  {
    assert ([c] + rest)[1..] == rest;
  }

  /** The two distances a pair of commands is read as. */
  lemma ResolvePair(r: Reps, c: Command, x: Command)
    requires ResolveValues(r, c.literalLength, c.offsetValue).Some?
    ensures var first := ResolveValues(r, c.literalLength, c.offsetValue).value;
            match ResolveValues(first.reps, x.literalLength, x.offsetValue)
            case None => ResolveAll(r, [c, x]) == None
            case Some(second) => ResolveAll(r, [c, x]) == Some(([first.offset, second.offset], second.reps))
  {
    var first := ResolveValues(r, c.literalLength, c.offsetValue).value;
    assert [c, x] == [c] + [x] && [x] == [x] + [];
    ResolveCons(r, c, [x]);
    if ResolveValues(first.reps, x.literalLength, x.offsetValue).Some? {
      var second := ResolveValues(first.reps, x.literalLength, x.offsetValue).value;
      ResolveCons(first.reps, x, []);
      assert [first.offset] + ([second.offset] + []) == [first.offset, second.offset];
    }
  }

  lemma ReconciledPair(rule: HistoryRule, h: Histories, c: Command, x: Command)
    requires h.Bounded() && 1 <= c.offsetValue && 1 <= x.offsetValue
    ensures Reconciled(rule, h, [c, x]).0
         == [c.(offsetValue := PatchedValue(h, c)), x.(offsetValue := PatchedValue(Step(rule, h, c), x))]
  {
    assert [c, x] == [c] + [x] && [x] == [x] + [];
    ReconciledCons(rule, h, c, [x]);
    ReconciledCons(rule, Step(rule, h, c), x, []);
  }

  /** A harmful rewrite is noticed by some command that may follow it at once. */
  lemma HarmfulPatchShows(h: Histories, c: Command) returns (x: Command)
    requires h.Valid() && 1 <= c.offsetValue && ResolveValues(h.compressor, c.literalLength, c.offsetValue).Some?
    requires !HarmlessPatch(h, c)
    ensures 1 <= x.offsetValue && !Preserves(WrittenValue, h, [c, x])
  {
    var tracked := Step(WrittenValue, h, c);
    var meant := Advance(h.compressor, c.offsetValue, c.literalLength);
    x := Command(1, if tracked.compressor.rep2 != meant.rep2 then 2 else 3, 3);
    ResolveIsRawAndAdvance(h.compressor, c);
    ResolvePair(h.compressor, c, x);
    ResolvePair(h.decoder, c.(offsetValue := PatchedValue(h, c)), x.(offsetValue := PatchedValue(tracked, x)));
    ReconciledPair(WrittenValue, h, c, x);
  }

  /** The first `i` commands are rewritten correctly even with one more command `x` after them. */
  ghost predicate PreservesThen(h: Histories, cs: seq<Command>, i: nat, x: Command)
    requires h.Bounded() && Named(cs)
  {
    i <= |cs| && 1 <= x.offsetValue ==> Preserves(WrittenValue, h, cs[..i] + [x])
  }

  /** After a command rewritten harmlessly, the rest is read right or wrong as it is on its own. */
  lemma HarmStays(h: Histories, c: Command, tail: seq<Command>)
    requires h.Valid() && 1 <= c.offsetValue && Named(tail)
    requires ResolveValues(h.compressor, c.literalLength, c.offsetValue).Some?
    requires Step(WrittenValue, h, c) == Step(SavedValue, h, c)
    requires !Preserves(WrittenValue, Step(SavedValue, h, c), tail)
    ensures Named([c] + tail) && !Preserves(WrittenValue, h, [c] + tail)
  {
    PatchedResolves(h, c);
    ResolveCons(h.compressor, c, tail);
    ReconciledCons(WrittenValue, h, c, tail);
    hide Advance;
    hide PatchedValue;
    hide ResolveValues;
    hide ResolveAll;
    hide Reconciled;
    var next := Step(SavedValue, h, c);
    var patched := Reconciled(WrittenValue, next, tail).0;
    ResolveCons(h.decoder, c.(offsetValue := PatchedValue(h, c)), patched);
    var meant, read := ResolveAll(next.compressor, tail), ResolveAll(next.decoder, patched);
    if read.Some? {
      var first := ResolveValues(h.compressor, c.literalLength, c.offsetValue).value.offset;
      assert ([first] + meant.value.0)[1..] == meant.value.0 && ([first] + read.value.0)[1..] == read.value.0;
    }
  }

  lemma {:induction false} HarmfulSomewhere(h: Histories, cs: seq<Command>) returns (i: nat, x: Command)
    requires h.Valid() && Named(cs) && ResolveAll(h.compressor, cs).Some? && !OnlyHarmlessPatches(h, cs)
    ensures !PreservesThen(h, cs, i, x)
    decreases |cs|
  {
    PatchedResolves(h, cs[0]);
    HarmlessIsSameStep(h, cs[0]);
    if !HarmlessPatch(h, cs[0]) {
      i := 1;
      x := HarmfulPatchShows(h, cs[0]);
      assert cs[..1] + [x] == [cs[0], x];
    } else {
      i, x := HarmfulSomewhere(Step(SavedValue, h, cs[0]), cs[1..]);
      HarmStays(h, cs[0], cs[1..][..i] + [x]);
      assert cs[..i + 1] + [x] == [cs[0]] + (cs[1..][..i] + [x]);
      i := i + 1;
    }
  }

  /**
   Exactly when the loop as written keeps its promise: on `cs`, and on every prefix of `cs`
   followed by any one command, if and only if every rewrite in `cs` is harmless.
   */
  lemma PreservesExactlyWhenHarmless(h: Histories, cs: seq<Command>)
    requires h.Valid() && Named(cs) && ResolveAll(h.compressor, cs).Some?
    ensures OnlyHarmlessPatches(h, cs) <==> forall i: nat, x: Command :: PreservesThen(h, cs, i, x)
    ensures OnlyHarmlessPatches(h, cs) ==> Preserves(WrittenValue, h, cs)
  {
    if OnlyHarmlessPatches(h, cs) {
      forall i: nat, x: Command
        ensures PreservesThen(h, cs, i, x)
      {
        if i <= |cs| && 1 <= x.offsetValue {
          HarmlessOnPrefix(h, cs, i);
          HarmlessPrefix(h, cs[..i], x);
          if ResolveAll(h.compressor, cs[..i] + [x]).Some? {
            SavedValuePreserves(h, cs[..i] + [x]);
          }
        }
      }
      if cs != [] {
        assert PreservesThen(h, cs, |cs| - 1, cs[|cs| - 1]);
        assert cs[..|cs| - 1] + [cs[|cs| - 1]] == cs;
      }
    } else {
      var i, x := HarmfulSomewhere(h, cs);
    }
  }

  lemma {:induction false} HarmlessOnPrefix(h: Histories, cs: seq<Command>, i: nat)
    requires h.Valid() && Named(cs) && ResolveAll(h.compressor, cs).Some? && OnlyHarmlessPatches(h, cs)
    requires i <= |cs|
    ensures ResolveAll(h.compressor, cs[..i]).Some? && OnlyHarmlessPatches(h, cs[..i])
    decreases |cs|
  {
    if 0 < i {
      HarmlessIsSameStep(h, cs[0]);
      ResolveIsRawAndAdvance(h.compressor, cs[0]);
      HarmlessOnPrefix(Step(SavedValue, h, cs[0]), cs[1..], i - 1);
      assert cs[..i][1..] == cs[1..][..i - 1];
    }
  }

  /** The loop as written sends distance 100 where the compressor meant 200. */
  lemma AsWrittenLosesTheSecondDistance()
    ensures var h := Histories(Reps(100, 200, 300), DEFAULT_REPS);
            var cs := [Command(1, 1, 3), Command(1, 2, 3)];
            && ResolveAll(h.compressor, cs) == Some(([100, 200], Reps(200, 100, 300)))
            && Reconciled(WrittenValue, h, cs).0 == [Command(1, 103, 3), Command(1, 103, 3)]
            && !Preserves(WrittenValue, h, cs)
            && Preserves(SavedValue, h, cs)
  {
    var h := Histories(Reps(100, 200, 300), DEFAULT_REPS);
    var cs := [Command(1, 1, 3), Command(1, 2, 3)];
    ResolvePair(h.compressor, cs[0], cs[1]);
    ReconciledPair(WrittenValue, h, cs[0], cs[1]);
    ResolvePair(h.decoder, Command(1, 103, 3), Command(1, 103, 3));
    SavedValuePreserves(h, cs);
  }
}
