/**
 A compacted buffer stands in for the full history.

 The streaming decoder drops bytes off the front of the buffer its matches read
 from.  What it keeps of the open frame is either all of it or more than one
 window.  Then every block has the same outcome as on the full history: the
 same rejection, or the same bytes appended and the same distances left behind.
 More than a window, and not exactly one, because the same count also tells
 whether the dictionary is still in reach.
 */
module Compaction {
  import opened Common
  import opened MatchCopy
  import opened Repcodes
  import opened BlockSpec

  /** `held`, the bytes kept of a frame that produced `full`, is all of it or exceeds the window. */
  ghost predicate StandsFor(held: seq<byte>, full: seq<byte>, window: nat) {
    && |held| <= |full| && held == full[|full| - |held|..]
    && (held == full || |held| > window)
  }

  lemma SameReach(f: Frame, g: Frame, held: nat, full: nat, offset: nat)
    requires f.window == g.window && f.dictionary == g.dictionary
    requires held <= full && (held == full || held > f.window)
    ensures f.Reaches(full, offset) <==> g.Reaches(held, offset)
  {
  }

  /** Keeping exactly a window would leave a dictionary in reach that the frame has outrun. */
  lemma ExactlyAWindowIsNotEnough(f: Frame, full: nat)
    requires f.dictionary.Some? && 0 < |f.dictionary.value| && f.window < full
    ensures f.Reaches(f.window, f.window + 1) && !f.Reaches(full, f.window + 1)
  {
  }

  /** `out` ends in the frame's bytes `older + held`, of which the buffer `kept` has `held`. */
  ghost predicate Parts(f: Frame, out: seq<byte>, g: Frame, kept: seq<byte>, older: seq<byte>, held: seq<byte>) {
    && f.window == g.window && f.dictionary == g.dictionary
    && f.start + |older| + |held| == |out| && g.start + |held| == |kept|
    && out[f.start..] == older + held && kept[g.start..] == held
    && (older == [] || |held| > f.window)
  }

  lemma PrefixAndRest(s: seq<byte>, n: nat)
    requires n <= |s|
    ensures s == s[..n] + s[n..]
  {
  }

  lemma PartsAppend(f: Frame, out: seq<byte>, g: Frame, kept: seq<byte>, older: seq<byte>, held: seq<byte>, more: seq<byte>)
    requires Parts(f, out, g, kept, older, held)
    ensures Parts(f, out + more, g, kept + more, older, held + more)
  {
    assert (kept + more)[g.start..] == held + more;
    assert (out + more)[f.start..] == (older + held) + more == older + (held + more);
  }

  /** A match has the same fate on both, and appends the same bytes. */
  lemma MatchOnCompacted(f: Frame, out: seq<byte>, g: Frame, kept: seq<byte>, older: seq<byte>, held: seq<byte>,
                         offset: nat, n: nat) returns (tail: seq<byte>)
    requires Parts(f, out, g, kept, older, held) && 0 < offset
    ensures f.AppendMatch(out, offset, n).Some? == g.AppendMatch(kept, offset, n).Some?
    ensures f.AppendMatch(out, offset, n).Some? ==>
              && f.AppendMatch(out, offset, n).value == out + tail
              && g.AppendMatch(kept, offset, n).value == kept + tail
  {
    SameReach(f, g, |held|, |older| + |held|, offset);
    tail := [];
    if f.Reaches(|out| - f.start, offset) {
      tail := Tail(f.History(out), offset, n);
      if older == [] {
        assert older + held == held;
      } else {
        assert f.History(out) == (Bytes(f.dictionary) + older) + held;
        TailIgnoresOlder(Bytes(f.dictionary) + older, held, offset, n);
        TailIgnoresOlder(Bytes(g.dictionary), held, offset, n);
      }
    }
  }

  /** The runs of one block on the full history and on the kept part. */
  ghost predicate SameRun(f: Frame, st: ExecState, g: Frame, kept: ExecState, older: seq<byte>, held: seq<byte>) {
    Parts(f, st.out, g, kept.out, older, held) && st.cursor == kept.cursor && st.reps == kept.reps
  }

  /** Both ended the same way, having appended the same bytes `more`. */
  ghost predicate SameOutcome(f: Frame, st: ExecState, end: Option<ExecState>,
                              g: Frame, kept: ExecState, keptEnd: Option<ExecState>,
                              older: seq<byte>, held: seq<byte>, more: seq<byte>) {
    && end.Some? == keptEnd.Some?
    && (end.Some? ==>
          && end.value.out == st.out + more && keptEnd.value.out == kept.out + more
          && SameRun(f, end.value, g, keptEnd.value, older, held + more))
  }

  /** A literal run, then a match. */
  lemma RunThenMatch(f: Frame, out: seq<byte>, g: Frame, kept: seq<byte>, older: seq<byte>, held: seq<byte>,
                     run: seq<byte>, offset: nat, n: nat) returns (more: seq<byte>)
    requires Parts(f, out, g, kept, older, held) && 0 < offset
    ensures f.AppendMatch(out + run, offset, n).Some? == g.AppendMatch(kept + run, offset, n).Some?
    ensures f.AppendMatch(out + run, offset, n).Some? ==>
              && f.AppendMatch(out + run, offset, n).value == out + more
              && g.AppendMatch(kept + run, offset, n).value == kept + more
    ensures Parts(f, out + more, g, kept + more, older, held + more)
  {
    PartsAppend(f, out, g, kept, older, held, run);
    var tail := MatchOnCompacted(f, out + run, g, kept + run, older, held + run, offset, n);
    more := run + tail;
    PartsAppend(f, out, g, kept, older, held, more);
    Regroup(out, run, tail);
    Regroup(kept, run, tail);
  }

  lemma OneOnCompacted(f: Frame, st: ExecState, g: Frame, kept: ExecState, older: seq<byte>, held: seq<byte>,
                       literals: seq<byte>, c: Command) returns (more: seq<byte>)
    requires st.Valid(f, literals) && kept.Valid(g, literals) && SameRun(f, st, g, kept, older, held)
    ensures SameOutcome(f, st, ExecOne(f, literals, c, st), g, kept, ExecOne(g, literals, c, kept), older, held, more)
  {
    hide ResolveValues;
    hide ExecOne;
    hide Frame.AppendMatch;
    var resolved := ResolveValues(st.reps, c.literalLength, c.offsetValue);
    if resolved == None || st.cursor + c.literalLength > |literals| {
      more := [];
      ExecOneRejects(f, literals, c, st);
      ExecOneRejects(g, literals, c, kept);
    } else {
      ExecOneIs(f, literals, c, st, resolved.value);
      ExecOneIs(g, literals, c, kept, resolved.value);
      var run := literals[st.cursor..st.cursor + c.literalLength];
      more := RunThenMatch(f, st.out, g, kept.out, older, held, run, resolved.value.offset, c.matchLength);
    }
  }

  lemma {:induction false} AllOnCompacted(f: Frame, st: ExecState, g: Frame, kept: ExecState, older: seq<byte>,
                                          held: seq<byte>, literals: seq<byte>, cs: seq<Command>) returns (more: seq<byte>)
    requires st.Valid(f, literals) && kept.Valid(g, literals) && SameRun(f, st, g, kept, older, held)
    ensures SameOutcome(f, st, ExecAll(f, literals, cs, st), g, kept, ExecAll(g, literals, cs, kept), older, held, more)
    decreases |cs|
  {
    more := [];
    if cs == [] {
      assert st.out + more == st.out && kept.out + more == kept.out && held + more == held;
    } else {
      var first := OneOnCompacted(f, st, g, kept, older, held, literals, cs[0]);
      var next, keptNext := ExecOne(f, literals, cs[0], st), ExecOne(g, literals, cs[0], kept);
      if next.Some? {
        var rest := AllOnCompacted(f, next.value, g, keptNext.value, older, held + first, literals, cs[1..]);
        more := first + rest;
        Regroup(st.out, first, rest);
        Regroup(kept.out, first, rest);
        Regroup(held, first, rest);
      }
    }
  }

  /** A block has the same outcome on the kept bytes as on everything the frame produced. */
  lemma BlockOnCompacted(f: Frame, out: seq<byte>, g: Frame, kept: seq<byte>, blockSizeMax: nat,
                         literals: seq<byte>, cs: seq<Command>, reps: Reps, limit: OutputLimit, keptLimit: OutputLimit)
    returns (more: seq<byte>)
    requires f.window == g.window && f.dictionary == g.dictionary && reps.Valid()
    requires f.start <= |out| && g.start <= |kept|
    requires limit.maxOutputSize == keptLimit.maxOutputSize
    requires limit.producedBefore + |out| == keptLimit.producedBefore + |kept|
    requires StandsFor(kept[g.start..], out[f.start..], f.window)
    ensures var r := ExecBlock(f, blockSizeMax, literals, cs, out, reps, limit, None);
            var k := ExecBlock(g, blockSizeMax, literals, cs, kept, reps, keptLimit, None);
            && r.Some? == k.Some?
            && (r.Some? ==> r.value.0 == out + more && k.value.0 == kept + more && r.value.1 == k.value.1)
  {
    hide ExecAll;
    hide MatchTotal;
    var st, keptSt := ExecState(out, 0, reps), ExecState(kept, 0, reps);
    var held, full := kept[g.start..], out[f.start..];
    var older := full[..|full| - |held|];
    PrefixAndRest(full, |older|);
    var run := AllOnCompacted(f, st, g, keptSt, older, held, literals, cs);
    var end := ExecAll(f, literals, cs, st);
    more := run;
    if end.Some? {
      var rest := literals[end.value.cursor..];
      more := run + rest;
      Regroup(out, run, rest);
      Regroup(kept, run, rest);
    }
  }
}
