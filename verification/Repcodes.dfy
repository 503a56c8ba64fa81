/**
 The three most recent match distances, and the offset values that name them.

 Section 3.1.1.5 of RFC 8878 gives an offset value above three the meaning
 "distance plus three" and lets the values one to three name a recent distance.
 The program has four readers of that rule and one writer; this module shows
 they agree.  It then treats the rewrite of a sub-block whose predecessor was
 not sent compressed, so that the decoder's recent distances lag behind.
 */
module Repcodes {
  import opened Common

  // The distance the decoder's fast path returns for a value that names none.
  const OFFSET_SENTINEL: u32 := 0xFFFF_FFFF

  // The widest distance whose offset value is still a 32-bit number.
  const MAX_RAW_OFFSET: u32 := 0xFFFF_FFFC

  datatype Reps = Reps(rep1: u32, rep2: u32, rep3: u32) {
    predicate Bounded() {
      rep1 <= MAX_RAW_OFFSET && rep2 <= MAX_RAW_OFFSET && rep3 <= MAX_RAW_OFFSET
    }

    predicate Valid() {
      Bounded() && 0 < rep1 && 0 < rep2 && 0 < rep3
    }

    ghost function History(): (h: seq<u32>)
    {
      [rep1, rep2, rep3]
    }
  }

  const DEFAULT_REPS := Reps(1, 4, 8)

  datatype Resolved = Resolved(offset: u32, reps: Reps)

  datatype Encoded = Encoded(value: u32, reps: Reps)

  /** One sequence: literals to copy, then a match to copy. */
  datatype Command = Command(literalLength: u32, offsetValue: u32, matchLength: u32)

  /** Which recent distance a value of one to three names; three stands for "the first less one". */
  function RepIndex(literalLength: u32, value: u32): nat
    requires 1 <= value <= 3
  {
    if literalLength == 0 then value else value - 1
  }

  /** The rule in the words of the format: look the entry up, then move it to the front. */
  ghost function FormatRule(h: seq<u32>, literalLength: u32, value: u32): Option<(u32, seq<u32>)>
    requires |h| == 3
  {
    if value == 0 then None
    else if value > 3 then Some((value - 3, [value - 3] + h[..2]))
    else
      var index := RepIndex(literalLength, value);
      if index < 3 then Some((h[index], [h[index]] + h[..index] + h[index + 1..]))
      else if h[0] <= 1 then None
      else Some((h[0] - 1, [h[0] - 1] + h[..2]))
  }

  // ----- the program's readers and its writer

  function ResolveValues(r: Reps, literalLength: u32, value: u32): Option<Resolved>
  {
    if value > 3 then Some(Resolved(value - 3, Reps(value - 3, r.rep1, r.rep2)))
    else if value == 0 then None
    else
      var repIndex := value + (if literalLength == 0 then 1 else 0);
      if repIndex == 4 && r.rep1 <= 1 then None
      else
        var offset := if repIndex == 1 then r.rep1 else if repIndex == 2 then r.rep2
                      else if repIndex == 3 then r.rep3 else r.rep1 - 1;
        Some(Resolved(offset,
                      if repIndex > 1 then Reps(offset, r.rep1, if repIndex == 2 then r.rep3 else r.rep2) else r))
  }

  /** The cold half of the decoder's fast path, with its sentinel. */
  function ResolveRepOffsetDecode(r: Reps, value: u32, literalLength: u32): Resolved
  {
    if value == 0 then Resolved(OFFSET_SENTINEL, r)
    else
      var repIndex := value + (if literalLength == 0 then 1 else 0);
      if repIndex == 2 then Resolved(r.rep2, Reps(r.rep2, r.rep1, r.rep3))
      else if repIndex == 3 then Resolved(r.rep3, Reps(r.rep3, r.rep1, r.rep2))
      else if r.rep1 <= 1 then Resolved(OFFSET_SENTINEL, r)
      else Resolved(r.rep1 - 1, Reps(r.rep1 - 1, r.rep1, r.rep2))
  }

  /** The decoder's fast path: the two common cases inline, the rest cold. */
  function ResolveInline(r: Reps, literalLength: u32, value: u32): Resolved
  {
    if value > 3 then Resolved(value - 3, Reps(value - 3, r.rep1, r.rep2))
    else if value == 1 && literalLength != 0 then Resolved(r.rep1, r)
    else ResolveRepOffsetDecode(r, value, literalLength)
  }

  /** The encoder's infallible reader, for values it wrote itself. */
  function ResolveEncode(r: Reps, literalLength: u32, value: u32): Resolved
    requires ResolveValues(r, literalLength, value).Some?
  {
    if value > 3 then Resolved(value - 3, Reps(value - 3, r.rep1, r.rep2))
    else
      var repIndex := value + (if literalLength == 0 then 1 else 0);
      var offset := if repIndex == 1 then r.rep1 else if repIndex == 2 then r.rep2
                    else if repIndex == 3 then r.rep3 else r.rep1 - 1;
      Resolved(offset,
               if repIndex > 1 then Reps(offset, r.rep1, if repIndex == 2 then r.rep3 else r.rep2) else r)
  }

  /** Choose the value that names `raw`, and move the history as the decoder will. */
  function EncodeOffset(r: Reps, raw: u32, literalLength: u32): Encoded
    requires 0 < raw <= MAX_RAW_OFFSET
  {
    var llZero := literalLength == 0;
    if !llZero && raw == r.rep1 then Encoded(1, r)
    else if raw == r.rep2 then Encoded(if llZero then 1 else 2, Reps(r.rep2, r.rep1, r.rep3))
    else if raw == r.rep3 then Encoded(if llZero then 2 else 3, Reps(r.rep3, r.rep1, r.rep2))
    else if llZero && r.rep1 > 1 && raw == r.rep1 - 1 then Encoded(3, Reps(r.rep1 - 1, r.rep1, r.rep2))
    else Encoded(raw + 3, Reps(raw, r.rep1, r.rep2))
  }

  function ClassifyOffset(r: Reps, raw: u32, literalLength: u32): u32
    requires 0 < raw <= MAX_RAW_OFFSET
  {
    var llZero := literalLength == 0;
    if !llZero && raw == r.rep1 then 1
    else if raw == r.rep2 then if llZero then 1 else 2
    else if raw == r.rep3 then if llZero then 2 else 3
    else if llZero && r.rep1 > 1 && raw == r.rep1 - 1 then 3
    else raw + 3
  }

  /** The state itself, updated in place as the program does. */
  class RepeatOffsets {
    var values: Reps

    constructor (values: Reps)
      ensures this.values == values
    {
      this.values := values;
    }

    method EncodeOffsetValueAndUpdate(raw: u32, literalLength: u32) returns (value: u32)
      requires 0 < raw <= MAX_RAW_OFFSET
      modifies this
      ensures Encoded(value, values) == EncodeOffset(old(values), raw, literalLength)
    {
      var Reps(rep1, rep2, rep3) := values;
      var llZero := literalLength == 0;
      if !llZero && raw == rep1 {
        return 1;
      }
      if raw == rep2 {
        values := Reps(rep2, rep1, rep3);
        return if llZero then 1 else 2;
      }
      if raw == rep3 {
        values := Reps(rep3, rep1, rep2);
        return if llZero then 2 else 3;
      }
      if llZero && rep1 > 1 && raw == rep1 - 1 {
        values := Reps(rep1 - 1, rep1, rep2);
        return 3;
      }
      values := Reps(raw, rep1, rep2);
      return raw + 3;
    }

    method Resolve(literalLength: u32, value: u32) returns (offset: Option<u32>)
      modifies this
      ensures match ResolveValues(old(values), literalLength, value)
              case None => offset == None && values == old(values)
              case Some(r) => offset == Some(r.offset) && values == r.reps
    {
      var Reps(rep1, rep2, rep3) := values;
      if value > 3 {
        values := Reps(value - 3, rep1, rep2);
        return Some(value - 3);
      }
      if value == 0 {
        return None;
      }
      var repIndex := value + (if literalLength == 0 then 1 else 0);
      var resolved: u32;
      if repIndex == 1 {
        resolved := rep1;
      } else if repIndex == 2 {
        resolved := rep2;
      } else if repIndex == 3 {
        resolved := rep3;
      } else if rep1 <= 1 {
        return None;
      } else {
        resolved := rep1 - 1;
      }
      if repIndex > 1 {
        values := Reps(resolved, rep1, if repIndex == 2 then rep3 else rep2);
      }
      return Some(resolved);
    }
  }

  // ----- agreement of the readers

  lemma ResolveFollowsTheFormat(r: Reps, literalLength: u32, value: u32)
    ensures match ResolveValues(r, literalLength, value)
            case None => FormatRule(r.History(), literalLength, value) == None
            case Some(x) => FormatRule(r.History(), literalLength, value) == Some((x.offset, x.reps.History()))
  {
    var h := r.History();
    if value > 3 {
      assert [value - 3] + h[..2] == [value - 3, r.rep1, r.rep2];
    } else if 1 <= value <= 3 {
      var index := RepIndex(literalLength, value);
      if index == 0 {
        assert [h[index]] + h[..index] + h[index + 1..] == h;
      } else if index == 1 {
        assert [h[index]] + h[..index] + h[index + 1..] == [r.rep2, r.rep1, r.rep3];
      } else if index == 2 {
        assert [h[index]] + h[..index] + h[index + 1..] == [r.rep3, r.rep1, r.rep2];
      } else if r.rep1 > 1 {
        assert [h[0] - 1] + h[..2] == [r.rep1 - 1, r.rep1, r.rep2];
      }
    }
  }

  /** Distances stay usable: non-zero, and narrow enough to be named explicitly. */
  lemma ResolveKeepsValid(r: Reps, literalLength: u32, value: u32)
    requires r.Valid()
    ensures var x := ResolveValues(r, literalLength, value);
            x.Some? ==> x.value.reps.Valid() && 0 < x.value.offset <= MAX_RAW_OFFSET
  {
  }

  /** The fast path signals exactly the values the checked reader rejects, and agrees on the rest. */
  lemma InlineAgreesWithChecked(r: Reps, literalLength: u32, value: u32)
    requires r.Valid()
    ensures var fast := ResolveInline(r, literalLength, value);
            match ResolveValues(r, literalLength, value)
            case None => fast.offset == OFFSET_SENTINEL
            case Some(x) => fast == x && fast.offset != OFFSET_SENTINEL
  {
  }

  lemma EncodeReaderAgreesWithChecked(r: Reps, literalLength: u32, value: u32)
    requires ResolveValues(r, literalLength, value).Some?
    ensures ResolveEncode(r, literalLength, value) == ResolveValues(r, literalLength, value).value
  {
  }

  /** The value written is the smallest that names the distance: a recent one if there is one. */
  lemma EncodeIsTheSmallestValue(r: Reps, raw: u32, literalLength: u32)
    requires r.Valid() && 0 < raw <= MAX_RAW_OFFSET
    ensures var e := EncodeOffset(r, raw, literalLength);
            && ResolveValues(r, literalLength, e.value) == Some(Resolved(raw, e.reps))
            && (forall v: u32 :: v < e.value ==>
                  var x := ResolveValues(r, literalLength, v); x == None || x.value.offset != raw)
  {
  }

  /** Before a frame's first match the three recent distances are 1, 4 and 8, behind some literals and behind none. */
  lemma DefaultDistances()
    ensures forall ll: u32 :: 0 < ll ==>
              && ResolveValues(DEFAULT_REPS, ll, 1) == Some(Resolved(1, Reps(1, 4, 8)))
              && ResolveValues(DEFAULT_REPS, ll, 2) == Some(Resolved(4, Reps(4, 1, 8)))
              && ResolveValues(DEFAULT_REPS, ll, 3) == Some(Resolved(8, Reps(8, 1, 4)))
    ensures ResolveValues(DEFAULT_REPS, 0, 1) == Some(Resolved(4, Reps(4, 1, 8)))
    ensures ResolveValues(DEFAULT_REPS, 0, 2) == Some(Resolved(8, Reps(8, 1, 4)))
    ensures ResolveValues(DEFAULT_REPS, 0, 3) == None
  {
  }

  // ----- encoding then resolving a whole list

  datatype Match = Match(literalLength: u32, raw: u32)

  predicate Encodable(ms: seq<Match>) {
    forall i :: 0 <= i < |ms| ==> 0 < ms[i].raw <= MAX_RAW_OFFSET
  }

  function Raws(ms: seq<Match>): seq<u32> {
    seq(|ms|, i requires 0 <= i < |ms| => ms[i].raw)
  }

  /** The values the encoder writes for a list of matches, and the history it is left with. */
  function EncodeAll(r: Reps, ms: seq<Match>): (seq<Command>, Reps)
    requires Encodable(ms)
    decreases |ms|
  {
    if ms == [] then ([], r)
    else
      var e := EncodeOffset(r, ms[0].raw, ms[0].literalLength);
      var (rest, end) := EncodeAll(e.reps, ms[1..]);
      ([Command(ms[0].literalLength, e.value, 3)] + rest, end)
  }

  /** The distances a decoder reads from a list, and its final history; None if any value is invalid. */
  function ResolveAll(r: Reps, cs: seq<Command>): Option<(seq<u32>, Reps)>
    decreases |cs|
  {
    if cs == [] then Some(([], r))
    else
      match ResolveValues(r, cs[0].literalLength, cs[0].offsetValue)
      case None => None
      case Some(x) =>
        match ResolveAll(x.reps, cs[1..])
        case None => None
        case Some((offsets, end)) => Some(([x.offset] + offsets, end))
  }

  lemma {:induction false} EncodeThenResolve(r: Reps, ms: seq<Match>)
    requires r.Valid() && Encodable(ms)
    ensures var (cs, end) := EncodeAll(r, ms);
            && |cs| == |ms|
            && ResolveAll(r, cs) == Some((Raws(ms), end))
            && end.Valid()
            && forall i :: 0 <= i < |ms| ==> cs[i].literalLength == ms[i].literalLength
    decreases |ms|
  {
    if ms == [] {
      assert Raws(ms) == [];
    } else {
      var e := EncodeOffset(r, ms[0].raw, ms[0].literalLength);
      assert ResolveValues(r, ms[0].literalLength, e.value) == Some(Resolved(ms[0].raw, e.reps));
      EncodeThenResolve(e.reps, ms[1..]);
      var (cs, end) := EncodeAll(r, ms);
      assert cs[1..] == EncodeAll(e.reps, ms[1..]).0;
      assert cs[0] == Command(ms[0].literalLength, e.value, 3);
      assert [ms[0].raw] + Raws(ms[1..]) == Raws(ms);
    }
  }

  lemma ClassifyIsTheEncodedValue(r: Reps, raw: u32, literalLength: u32)
    requires 0 < raw <= MAX_RAW_OFFSET
    ensures ClassifyOffset(r, raw, literalLength) == EncodeOffset(r, raw, literalLength).value
  {
  }
}
