/**
 Loops that take turns on the input they can see, and what becomes of them when
 the input arrives in pieces.

 A stepper looks at a state and the input so far and either rejects or says how
 much it consumed, the next state, and whether to go on.  The results here hold
 for any two steppers, one of which may stop where the other goes on.
 */
module Resumable {
  import opened Common

  datatype Turn<M> = Reject | Turn(next: M, consumed: nat, go: bool)

  type Stepper<!M> = (M, seq<byte>) -> Turn<M>

  function Drop(s: seq<byte>, n: nat): seq<byte> {
    if n <= |s| then s[n..] else []
  }

  /** What is left once `n` bytes have been used. */
  function After(unread: seq<byte>, n: nat): (left: seq<byte>)
    requires n <= |unread|
    ensures |left| == |unread| - n && (n == 0 ==> left == unread)
  {
    if n == 0 then unread else unread[n..]
  }

  lemma AfterSlice(s: seq<byte>, at: nat, n: nat)
    requires at + n <= |s|
    ensures After(s[at..], n) == s[at + n..]
  {
  }

  lemma AfterTwice(s: seq<byte>, a: nat, b: nat)
    requires a + b <= |s|
    ensures After(After(s, a), b) == After(s, a + b)
  {
    if 0 < a && 0 < b {
      assert s[a..][b..] == s[a + b..];
    }
  }

  /** A turn a loop may go on from: it used some input, or moved down the order `rank`. */
  predicate Advances<M>(rank: M -> nat, m: M, input: seq<byte>, t: Turn<M>)
    requires t.Turn?
  {
    t.consumed <= |input| && (0 < t.consumed || rank(t.next) < rank(m))
  }

  /** Run to a stop: the state and the input left over, or None on rejection. */
  function Run<M>(step: Stepper<M>, rank: M -> nat, m: M, input: seq<byte>): Option<(M, seq<byte>)>
    decreases |input|, rank(m)
  {
    var t := step(m, input);
    if t.Reject? then None
    else if !t.go then Some((t.next, Drop(input, t.consumed)))
    else if Advances(rank, m, input, t) then Run(step, rank, t.next, input[t.consumed..])
    else None
  }

  // ----- taking a run up again

  /** Whatever `step` does on `a`, the run of `full` on `a + b` is the run from there. */
  ghost predicate TurnResumes<M>(step: Stepper<M>, full: Stepper<M>, rank: M -> nat, m: M, a: seq<byte>, b: seq<byte>) {
    var t := step(m, a);
    && (t.Reject? ==> Run(full, rank, m, a + b) == None)
    && (t.Turn? ==> t.consumed <= |a| && (t.go ==> Advances(rank, m, a, t)))
    && (t.Turn? ==> Run(full, rank, m, a + b) == Run(full, rank, t.next, Drop(a, t.consumed) + b))
  }

  ghost predicate Resumes<M(!new)>(step: Stepper<M>, full: Stepper<M>, rank: M -> nat) {
    forall m: M, a: seq<byte>, b: seq<byte> :: TurnResumes(step, full, rank, m, a, b)
  }

  /** Stopping and going on with more input is the whole-input run. */
  lemma {:induction false} RunResumes<M(!new)>(step: Stepper<M>, full: Stepper<M>, rank: M -> nat,
                                               m: M, a: seq<byte>, b: seq<byte>)
    requires Resumes(step, full, rank)
    ensures Run(full, rank, m, a + b) == match Run(step, rank, m, a)
                                         case None => None
                                         case Some((next, rest)) => Run(full, rank, next, rest + b)
    decreases |a|, rank(m)
  {
    assert TurnResumes(step, full, rank, m, a, b);
    var t := step(m, a);
    if t.Turn? && t.go {
      RunResumes(step, full, rank, t.next, a[t.consumed..], b);
    }
  }

  /** A turn that is the same with more input in sight. */
  lemma SameTurnResumes<M>(step: Stepper<M>, full: Stepper<M>, rank: M -> nat, m: M, a: seq<byte>, b: seq<byte>)
    requires var t := step(m, a);
             if t.Reject? then full(m, a + b).Reject? else t.go && Advances(rank, m, a, t) && full(m, a + b) == t
    ensures TurnResumes(step, full, rank, m, a, b)
  {
    var t := step(m, a);
    if t.Turn? {
      assert (a + b)[t.consumed..] == a[t.consumed..] + b;
    }
  }

  /** A turn that did nothing for want of input. */
  lemma IdleTurnResumes<M>(step: Stepper<M>, full: Stepper<M>, rank: M -> nat, m: M, a: seq<byte>, b: seq<byte>)
    requires step(m, a) == Turn(m, 0, false)
    ensures TurnResumes(step, full, rank, m, a, b)
  {
    assert a[0..] == a;
  }

  /** A turn that changed the state without input, on which `step` stops and `full` does not. */
  lemma HaltedTurnResumes<M>(step: Stepper<M>, full: Stepper<M>, rank: M -> nat, m: M, a: seq<byte>, b: seq<byte>, next: M)
    requires step(m, a) == Turn(next, 0, false) && full(m, a + b) == Turn(next, 0, true) && rank(next) < rank(m)
    ensures TurnResumes(step, full, rank, m, a, b)
  {
    assert a[0..] == a && (a + b)[0..] == a + b;
  }

  /** A turn that used up what it saw, and with more in sight goes as far as it would have gone then. */
  lemma PartTurnResumes<M>(step: Stepper<M>, full: Stepper<M>, rank: M -> nat, m: M, a: seq<byte>, b: seq<byte>,
                           more: Turn<M>)
    requires var t := step(m, a);
             && t.Turn? && t.consumed == |a| && (t.go ==> 0 < |a|)
             && more.Turn? && more.consumed <= |b|
             && full(t.next, b) == more && (more.go <==> 0 < more.consumed)
             && full(m, a + b) == Turn(more.next, |a| + more.consumed, 0 < |a| + more.consumed)
             && (more.consumed == 0 ==> more.next == t.next)
             && (more.consumed == 0 ==> full(t.next, []) == Turn(t.next, 0, false) && b == [])
    ensures TurnResumes(step, full, rank, m, a, b)
  {
    var t := step(m, a);
    assert Drop(a, |a|) + b == b;
    assert (a + b)[|a| + more.consumed..] == b[more.consumed..];
    if more.consumed == 0 && 0 < |a| {
      assert a + b == a && a[|a|..] == [];
    }
  }

  // ----- where a run stops early

  /** How much input was left each time the run passed a state in `stop`. */
  function Stops<M>(step: Stepper<M>, rank: M -> nat, stop: M -> bool, m: M, input: seq<byte>): seq<nat>
    decreases |input|, rank(m)
  {
    var t := step(m, input);
    if t.Turn? && t.go && Advances(rank, m, input, t) then
      (if stop(m) then [|input|] else []) + Stops(step, rank, stop, t.next, input[t.consumed..])
    else []
  }

  lemma {:induction false} StopsAreWithin<M>(step: Stepper<M>, rank: M -> nat, stop: M -> bool, m: M, input: seq<byte>)
    ensures var s := Stops(step, rank, stop, m, input); s == [] || s[0] <= |input|
    decreases |input|, rank(m)
  {
    var t := step(m, input);
    if t.Turn? && t.go && Advances(rank, m, input, t) {
      StopsAreWithin(step, rank, stop, t.next, input[t.consumed..]);
    }
  }

  /** `step` halts on the states in `stop`, where `full` goes on, and is `full` elsewhere. */
  ghost predicate HaltsAt<M>(step: Stepper<M>, full: Stepper<M>, rank: M -> nat, stop: M -> bool, m: M, a: seq<byte>, b: seq<byte>) {
    var t := step(m, a);
    if stop(m) then
      && t.Turn? && t.consumed == 0 && !t.go
      && full(m, a + b) == t.(go := true) && Advances(rank, m, a + b, t.(go := true))
    else
      && step(m, a) == full(m, a)
      && (t.Turn? ==> Stops(full, rank, stop, m, a + b) == Stops(full, rank, stop, t.next, Drop(a, t.consumed) + b))
      && (t.Turn? && !t.go ==> Passed(Stops(full, rank, stop, m, a + b), |b|))
  }

  /** No stop is left before the last `n` bytes. */
  predicate Passed(stops: seq<nat>, n: nat) {
    stops == [] || stops[0] < n
  }

  lemma SameTurnHalts<M>(step: Stepper<M>, full: Stepper<M>, rank: M -> nat, stop: M -> bool,
                         m: M, a: seq<byte>, b: seq<byte>)
    requires !stop(m) && step(m, a) == full(m, a)
    requires var t := step(m, a);
             if t.Reject? then full(m, a + b).Reject? else t.go && Advances(rank, m, a, t) && full(m, a + b) == t
    ensures HaltsAt(step, full, rank, stop, m, a, b)
  {
    var t := step(m, a);
    if t.Turn? {
      assert (a + b)[t.consumed..] == a[t.consumed..] + b;
    }
  }

  lemma IdleTurnHalts<M>(step: Stepper<M>, full: Stepper<M>, rank: M -> nat, stop: M -> bool,
                         m: M, a: seq<byte>, b: seq<byte>)
    requires !stop(m) && step(m, a) == full(m, a) == Turn(m, 0, false)
    requires var later := full(m, a + b); later.Turn? && later.go ==> |a| < later.consumed
    ensures HaltsAt(step, full, rank, stop, m, a, b)
  {
    assert a[0..] == a;
    var later := full(m, a + b);
    if later.Turn? && later.go && Advances(rank, m, a + b, later) {
      StopsAreWithin(full, rank, stop, later.next, (a + b)[later.consumed..]);
    }
  }

  lemma PartTurnHalts<M>(step: Stepper<M>, full: Stepper<M>, rank: M -> nat, stop: M -> bool,
                         m: M, a: seq<byte>, b: seq<byte>, more: Turn<M>)
    requires !stop(m) && step(m, a) == full(m, a)
    requires var t := step(m, a);
             && t.Turn? && t.consumed == |a| && (t.go <==> 0 < |a|) && !stop(t.next) && (a == [] ==> t.next == m)
             && more.Turn? && more.consumed <= |b|
             && full(t.next, b) == more && (more.go <==> 0 < more.consumed)
             && full(m, a + b) == Turn(more.next, |a| + more.consumed, 0 < |a| + more.consumed)
             && (more.consumed == 0 ==> more.next == t.next)
             && (more.consumed == 0 ==> full(t.next, []) == Turn(t.next, 0, false) && b == [])
    ensures HaltsAt(step, full, rank, stop, m, a, b)
  {
    var t := step(m, a);
    assert Drop(a, |a|) + b == b;
    assert (a + b)[|a| + more.consumed..] == b[more.consumed..];
    if more.consumed == 0 && 0 < |a| {
      assert a + b == a && a[|a|..] == [];
    }
    if 0 < more.consumed {
      StopsAreWithin(full, rank, stop, more.next, b[more.consumed..]);
    }
  }

  ghost predicate Halts<M(!new)>(step: Stepper<M>, full: Stepper<M>, rank: M -> nat, stop: M -> bool) {
    forall m: M, a: seq<byte>, b: seq<byte> :: HaltsAt(step, full, rank, stop, m, a, b)
  }

  /** The stops left once a call has had all but the last `n` bytes in sight. */
  function AfterCall(stops: seq<nat>, n: nat): seq<nat> {
    if Passed(stops, n) then stops else stops[1..]
  }

  /** A halted loop is left in a state of `after`. */
  ghost predicate LandsIn<M(!new)>(step: Stepper<M>, stop: M -> bool, after: M -> bool) {
    forall m: M, a: seq<byte> :: stop(m) && step(m, a).Turn? ==> after(step(m, a).next)
  }

  /** One call gets past at most one stop, and halts right behind it. */
  lemma {:induction false} CallPassesOneStop<M(!new)>(step: Stepper<M>, full: Stepper<M>, rank: M -> nat, stop: M -> bool,
                                                      after: M -> bool, m: M, a: seq<byte>, b: seq<byte>)
    requires Resumes(step, full, rank) && Halts(step, full, rank, stop) && LandsIn(step, stop, after)
    requires Run(step, rank, m, a).Some?
    ensures var (next, rest) := Run(step, rank, m, a).value;
            var stops := Stops(full, rank, stop, m, a + b);
            && Stops(full, rank, stop, next, rest + b) == AfterCall(stops, |b|)
            && (!Passed(stops, |b|) ==> |rest| + |b| == stops[0] && after(next))
    decreases |a|, rank(m)
  {
    assert TurnResumes(step, full, rank, m, a, b) && HaltsAt(step, full, rank, stop, m, a, b);
    var t := step(m, a);
    if stop(m) {
      assert a[0..] == a && (a + b)[0..] == a + b;
      assert AfterCall([|a + b|] + Stops(full, rank, stop, t.next, a + b), |b|) == Stops(full, rank, stop, t.next, a + b);
    } else if t.go {
      CallPassesOneStop(step, full, rank, stop, after, t.next, a[t.consumed..], b);
    }
  }

  /** With no stop ahead the two run alike. */
  lemma {:induction false} NoStopNoDifference<M(!new)>(step: Stepper<M>, full: Stepper<M>, rank: M -> nat, stop: M -> bool,
                                                       m: M, a: seq<byte>)
    requires Resumes(step, full, rank) && Halts(step, full, rank, stop)
    requires Stops(full, rank, stop, m, a) == []
    ensures Run(step, rank, m, a) == Run(full, rank, m, a)
    decreases |a|, rank(m)
  {
    assert HaltsAt(step, full, rank, stop, m, a, []);
    assert a + [] == a;
    var t := step(m, a);
    if !stop(m) && t.Turn? && t.go && Advances(rank, m, a, t) {
      NoStopNoDifference(step, full, rank, stop, t.next, a[t.consumed..]);
    }
  }

  // ----- a schedule of pushes

  /** One call per chunk, each on what the last one left and the new bytes. */
  function PushAll<M>(step: Stepper<M>, rank: M -> nat, m: M, rest: seq<byte>, chunks: seq<seq<byte>>)
    : Option<(M, seq<byte>)>
    decreases |chunks|
  {
    if chunks == [] then Some((m, rest))
    else
      match Run(step, rank, m, rest + chunks[0])
      case None => None
      case Some((next, left)) => PushAll(step, rank, next, left, chunks[1..])
  }

  /** The stops left after one call per chunk. */
  function AfterCalls(stops: seq<nat>, chunks: seq<seq<byte>>): seq<nat>
    decreases |chunks|
  {
    if chunks == [] then stops else AfterCalls(AfterCall(stops, |Concat(chunks[1..])|), chunks[1..])
  }

  lemma {:induction false} PushAllResumes<M(!new)>(step: Stepper<M>, full: Stepper<M>, rank: M -> nat,
                                                   m: M, rest: seq<byte>, chunks: seq<seq<byte>>)
    requires Resumes(step, full, rank)
    ensures Run(full, rank, m, rest + Concat(chunks)) == match PushAll(step, rank, m, rest, chunks)
                                                         case None => None
                                                         case Some((next, left)) => Run(full, rank, next, left)
    decreases |chunks|
  {
    if chunks == [] {
      assert rest + [] == rest;
    } else {
      Regroup(rest, chunks[0], Concat(chunks[1..]));
      RunResumes(step, full, rank, m, rest + chunks[0], Concat(chunks[1..]));
      var r := Run(step, rank, m, rest + chunks[0]);
      if r.Some? {
        PushAllResumes(step, full, rank, r.value.0, r.value.1, chunks[1..]);
      }
    }
  }

  lemma {:induction false} PushAllStops<M(!new)>(step: Stepper<M>, full: Stepper<M>, rank: M -> nat, stop: M -> bool,
                                                 after: M -> bool, m: M, rest: seq<byte>, chunks: seq<seq<byte>>)
    requires Resumes(step, full, rank) && Halts(step, full, rank, stop) && LandsIn(step, stop, after)
    requires PushAll(step, rank, m, rest, chunks).Some?
    ensures var (next, left) := PushAll(step, rank, m, rest, chunks).value;
            Stops(full, rank, stop, next, left) == AfterCalls(Stops(full, rank, stop, m, rest + Concat(chunks)), chunks)
    decreases |chunks|
  {
    if chunks == [] {
      assert rest + [] == rest;
    } else {
      Regroup(rest, chunks[0], Concat(chunks[1..]));
      CallPassesOneStop(step, full, rank, stop, after, m, rest + chunks[0], Concat(chunks[1..]));
      var (next, left) := Run(step, rank, m, rest + chunks[0]).value;
      PushAllStops(step, full, rank, stop, after, next, left, chunks[1..]);
    }
  }
}
