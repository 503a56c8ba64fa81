/**
 The encoder's output: a vector that grows, or a slice that does not.

 The fixed form counts what does not fit instead of storing it, so that the
 encoder computes the same positions either way.  It also skips a backfill that
 reaches past what is stored.  The bytes such a backfill should have changed are
 stale, and a later truncation can bring them back into the output.
 */
module OutputBuffer {
  import opened Common

  datatype Op =
    | PushByte(value: byte)
    | ExtendFromSlice(bytes: seq<byte>)
    | ResizeTo(newLen: nat, value: byte)
    | TruncateTo(newLen: nat)
    | WriteBack(pos: nat, bytes: seq<byte>)

  /** What the encoder may ask for with `len` bytes written. */
  predicate Allowed(op: Op, len: nat) {
    match op
    case ResizeTo(newLen, _) => len <= newLen
    case WriteBack(pos, bytes) => pos + |bytes| <= len
    case _ => true
  }

  function Splice(s: seq<byte>, pos: nat, bytes: seq<byte>): (t: seq<byte>)
    requires pos + |bytes| <= |s|
    ensures |t| == |s|
    ensures forall i :: 0 <= i < |s| ==> t[i] == if pos <= i < pos + |bytes| then bytes[i - pos] else s[i]
  {
    s[..pos] + bytes + s[pos + |bytes|..]
  }

  function Repeated(value: byte, n: nat): (s: seq<byte>)
    ensures |s| == n
  {
    seq(n, _ => value)
  }

  /** The growable form, which is what every byte written amounts to. */
  function Grown(w: seq<byte>, op: Op): seq<byte>
    requires Allowed(op, |w|)
  {
    match op
    case PushByte(value) => w + [value]
    case ExtendFromSlice(bytes) => w + bytes
    case ResizeTo(newLen, value) => w + Repeated(value, newLen - |w|)
    case TruncateTo(newLen) => if newLen < |w| then w[..newLen] else w
    case WriteBack(pos, bytes) => Splice(w, pos, bytes)
  }

  /** What a fixed slice of `capacity` bytes holds, and how much it has dropped. */
  datatype Fixed = Fixed(held: seq<byte>, dropped: nat) {
    function Len(): nat {
      |held| + dropped
    }

    function Store(capacity: nat, bytes: seq<byte>): Fixed
      requires |held| <= capacity
    {
      var fits := Min(capacity - |held|, |bytes|);
      Fixed(held + bytes[..fits], dropped + |bytes| - fits)
    }

    function Next(capacity: nat, op: Op): Fixed
      requires |held| <= capacity && Allowed(op, Len())
    {
      match op
      case PushByte(value) => Store(capacity, [value])
      case ExtendFromSlice(bytes) => Store(capacity, bytes)
      case ResizeTo(newLen, value) => Store(capacity, Repeated(value, newLen - Len()))
      case TruncateTo(newLen) =>
        if newLen >= Len() then this
        else if newLen <= |held| then Fixed(held[..newLen], 0) else Fixed(held, newLen - |held|)
      case WriteBack(pos, bytes) => if pos + |bytes| <= |held| then Fixed(Splice(held, pos, bytes), dropped) else this
    }
  }

  // ----- the buffer

  class OutBuf {
    const growable: bool
    var vec: seq<byte>              // the growable form's bytes
    const buf: array<byte>          // the fixed form's slice
    var stored: nat
    var dropped: nat

    /** Everything written, as the growable form would hold it. */
    ghost var written: seq<byte>

    ghost predicate Valid()
      reads this, buf
    {
      if growable then vec == written
      else
        && stored <= buf.Length && stored + dropped == |written|
        && (dropped != 0 ==> stored == buf.Length)
    }

    ghost function AsFixed(): Fixed
      requires stored <= buf.Length
      reads this, buf
    {
      Fixed(buf[..stored], dropped)
    }

    constructor Growable(initial: seq<byte>)
      ensures Valid() && growable && written == initial
    {
      growable, vec, stored, dropped := true, initial, 0, 0;
      buf := new byte[0];
      written := initial;
    }

    constructor FixedSlice(slice: array<byte>)
      ensures Valid() && !growable && written == [] && buf == slice && AsFixed() == Fixed([], 0)
    {
      growable, vec, buf, stored, dropped := false, [], slice, 0, 0;
      written := [];
    }

    /** How much has been written, whether or not it fitted. */
    function Len(): nat
      reads this
    {
      if growable then |vec| else stored + dropped
    }

    predicate Overflowed()
      reads this
    {
      !growable && dropped > 0
    }

    /** The length is the growable form's, and it overflows exactly when that exceeds the slice. */
    lemma LengthIsWritten()
      requires Valid()
      ensures Len() == |written|
      ensures Overflowed() <==> !growable && |written| > buf.Length
    {
    }

    /** This operation did to either form what it does to that form. */
    twostate predicate Did(op: Op)
      requires old(Valid()) && Allowed(op, |old(written)|)
      reads this, buf
    {
      && Valid() && written == Grown(old(written), op)
      && (!growable ==> AsFixed() == old(AsFixed()).Next(buf.Length, op))
    }

    method Push(value: byte)
      requires Valid()
      modifies this, buf
      ensures Did(PushByte(value))
    {
      written := written + [value];
      if growable {
        vec := vec + [value];
      } else if stored < buf.Length {
        buf[stored] := value;
        stored := stored + 1;
      } else {
        dropped := dropped + 1;
      }
    }

    method Extend(bytes: seq<byte>)
      requires Valid()
      modifies this, buf
      ensures Did(ExtendFromSlice(bytes))
    {
      written := written + bytes;
      if growable {
        vec := vec + bytes;
        return;
      }
      var room := buf.Length - stored;
      var fits := Min(room, |bytes|);
      forall i | 0 <= i < fits {
        buf[stored + i] := bytes[i];
      }
      assert buf[..stored + fits] == old(buf[..stored]) + bytes[..fits];
      stored := stored + fits;
      dropped := dropped + |bytes| - fits;
    }

    method Resize(newLen: nat, value: byte)
      requires Valid() && |written| <= newLen
      modifies this, buf
      ensures Did(ResizeTo(newLen, value))
    {
      hide Repeated;
      hide Fixed.Store;
      if growable {
        vec := vec + Repeated(value, newLen - |vec|);
        written := vec;
        return;
      }
      var start := Len();
      ghost var before, was := AsFixed(), written;
      NothingMore(before, buf.Length, value);
      assert was + Repeated(value, 0) == was;
      for i := start to newLen
        invariant Valid()
        invariant written == was + Repeated(value, i - start)
        invariant AsFixed() == before.Store(buf.Length, Repeated(value, i - start))
      {
        OneMore(before, buf.Length, i - start, value);
        RepeatedOneMore(value, i - start);
        Regroup(was, Repeated(value, i - start), [value]);
        Push(value);
      }
    }

    method Truncate(newLen: nat)
      requires Valid()
      modifies this, buf
      ensures Did(TruncateTo(newLen))
    {
      if growable {
        if newLen < |vec| {
          vec := vec[..newLen];
          written := vec;
        }
        return;
      }
      if newLen >= stored + dropped {
        return;
      }
      assert newLen <= stored ==> buf[..stored][..newLen] == buf[..newLen];
      stored := Min(newLen, buf.Length);
      dropped := newLen - stored;
      written := written[..newLen];
    }

    method WriteAt(pos: nat, bytes: seq<byte>)
      requires Valid() && pos + |bytes| <= |written|
      modifies this, buf
      ensures Did(WriteBack(pos, bytes))
    {
      var end := pos + |bytes|;
      written := Splice(written, pos, bytes);
      if growable {
        vec := Splice(vec, pos, bytes);
        return;
      }
      if end <= stored {
        forall i | pos <= i < end {
          buf[i] := bytes[i - pos];
        }
        assert buf[..stored] == Splice(old(buf[..stored]), pos, bytes);
      }
    }

    method Apply(op: Op)
      requires Valid() && Allowed(op, |written|)
      modifies this, buf
      ensures Did(op)
    {
      match op
      case PushByte(value) => Push(value);
      case ExtendFromSlice(bytes) => Extend(bytes);
      case ResizeTo(newLen, value) => Resize(newLen, value);
      case TruncateTo(newLen) => Truncate(newLen);
      case WriteBack(pos, bytes) => WriteAt(pos, bytes);
    }
  }

  lemma RepeatedOneMore(value: byte, n: nat)
    ensures Repeated(value, n) + [value] == Repeated(value, n + 1)
  {
  }

  lemma RepeatedPart(value: byte, n: nat, m: nat)
    requires m <= n
    ensures Repeated(value, n)[..m] == Repeated(value, m)
  {
  }

  lemma NothingMore(f: Fixed, capacity: nat, value: byte)
    requires |f.held| <= capacity
    ensures Repeated(value, 0) == [] && f.Store(capacity, Repeated(value, 0)) == f
  {
    assert f.held + [] == f.held;
  }

  /** Storing one byte more of a run. */
  lemma OneMore(f: Fixed, capacity: nat, n: nat, value: byte)
    requires |f.held| <= capacity && (f.dropped != 0 ==> |f.held| == capacity)
    ensures var many := f.Store(capacity, Repeated(value, n));
            && |many.held| <= capacity
            && many.Store(capacity, [value]) == f.Store(capacity, Repeated(value, n + 1))
  {
    hide Repeated;
    var room := capacity - |f.held|;
    RepeatedPart(value, n, Min(room, n));
    RepeatedPart(value, n + 1, Min(room, n + 1));
    assert [value][..1] == [value] && [value][..0] == [];
    if n < room {
      RepeatedOneMore(value, n);
      Regroup(f.held, Repeated(value, n), [value]);
    } else {
      assert f.held + Repeated(value, room) + [] == f.held + Repeated(value, room);
    }
  }

  // ----- the two forms side by side

  /** Both forms, and the stored positions that a skipped backfill should have changed. */
  datatype Pair = Pair(w: seq<byte>, f: Fixed, stale: set<nat>)

  predicate Within(p: nat, from: nat, to: nat) {
    from <= p < to
  }

  function Span(from: nat, to: nat): set<nat> {
    set p: nat | p < to && Within(p, from, to)
  }

  function StaleNext(stale: set<nat>, len: nat, capacity: nat, op: Op): set<nat> {
    match op
    case TruncateTo(newLen) => stale * Span(0, newLen)
    case WriteBack(pos, bytes) =>
      var stored, end := Min(len, capacity), pos + |bytes|;
      if end <= stored then stale - Span(pos, end) else stale + Span(pos, stored)
    case _ => stale
  }

  function PairNext(p: Pair, capacity: nat, op: Op): Pair
    requires |p.f.held| <= capacity && p.f.Len() == |p.w| && Allowed(op, |p.w|)
  {
    Pair(Grown(p.w, op), p.f.Next(capacity, op), StaleNext(p.stale, |p.w|, capacity, op))
  }

  /** The lengths agree, and the contents do wherever no backfill was skipped. */
  ghost predicate Agree(p: Pair, capacity: nat) {
    && |p.f.held| == Min(|p.w|, capacity) && p.f.Len() == |p.w|
    && p.stale <= Span(0, |p.f.held|)
    && forall i :: 0 <= i < |p.f.held| && i !in p.stale ==> p.f.held[i] == p.w[i]
  }

  lemma StepAgrees(p: Pair, capacity: nat, op: Op)
    requires Agree(p, capacity) && Allowed(op, |p.w|)
    ensures Agree(PairNext(p, capacity, op), capacity)
  {
    var next := PairNext(p, capacity, op);
    match op
    case WriteBack(pos, bytes) =>
      forall i | 0 <= i < |next.f.held| && i !in next.stale
        ensures next.f.held[i] == next.w[i]
      {
        assert i !in p.stale || pos <= i < pos + |bytes|;
      }
    case _ =>
  }

  predicate AllAllowed(ops: seq<Op>, len: nat)
    decreases |ops|
  {
    ops == [] || (Allowed(ops[0], len) && AllAllowed(ops[1..], LenNext(len, ops[0])))
  }

  function LenNext(len: nat, op: Op): (next: nat) {
    match op
    case PushByte(_) => len + 1
    case ExtendFromSlice(bytes) => len + |bytes|
    case ResizeTo(newLen, _) => newLen
    case TruncateTo(newLen) => Min(newLen, len)
    case WriteBack(_, _) => len
  }

  lemma GrownLength(w: seq<byte>, op: Op)
    requires Allowed(op, |w|)
    ensures |Grown(w, op)| == LenNext(|w|, op)
  {
  }

  /** Any run of operations on both forms. */
  ghost function AfterOps(p: Pair, capacity: nat, ops: seq<Op>): (end: Pair)
    requires Agree(p, capacity) && AllAllowed(ops, |p.w|)
    ensures Agree(end, capacity)
    decreases |ops|
  {
    if ops == [] then p
    else
      StepAgrees(p, capacity, ops[0]);
      GrownLength(p.w, ops[0]);
      AfterOps(PairNext(p, capacity, ops[0]), capacity, ops[1..])
  }

  function Start(): Pair {
    Pair([], Fixed([], 0), {})
  }

  // ----- which runs agree

  /** The same operation on other bytes. */
  predicate SameShapeOne(a: Op, b: Op) {
    match a
    case PushByte(_) => b.PushByte?
    case ExtendFromSlice(bytes) => b.ExtendFromSlice? && |b.bytes| == |bytes|
    case ResizeTo(newLen, _) => b.ResizeTo? && b.newLen == newLen
    case TruncateTo(_) => b == a
    case WriteBack(pos, bytes) => b.WriteBack? && b.pos == pos && |b.bytes| == |bytes|
  }

  predicate SameShape(a: seq<Op>, b: seq<Op>) {
    |a| == |b| && forall i :: 0 <= i < |a| ==> SameShapeOne(a[i], b[i])
  }

  /** Lengths and stale positions are a matter of shape. */
  lemma {:induction false} ShapeDecides(p: Pair, q: Pair, capacity: nat, a: seq<Op>, b: seq<Op>)
    requires Agree(p, capacity) && Agree(q, capacity) && |p.w| == |q.w| && p.stale == q.stale
    requires SameShape(a, b) && AllAllowed(a, |p.w|)
    ensures AllAllowed(b, |q.w|)
    ensures |AfterOps(p, capacity, a).w| == |AfterOps(q, capacity, b).w| && AfterOps(p, capacity, a).stale == AfterOps(q, capacity, b).stale
    decreases |a|
  {
    if a != [] {
      assert SameShapeOne(a[0], b[0]);
      StepAgrees(p, capacity, a[0]);
      StepAgrees(q, capacity, b[0]);
      GrownLength(p.w, a[0]);
      GrownLength(q.w, b[0]);
      assert forall i :: 0 <= i < |a| - 1 ==> a[1..][i] == a[i + 1] && b[1..][i] == b[i + 1];
      ShapeDecides(PairNext(p, capacity, a[0]), PairNext(q, capacity, b[0]), capacity, a[1..], b[1..]);
    }
  }

  // What shows a stale position: everything is zero but what the skipped backfills would have written.

  predicate Straddles(op: Op, len: nat, capacity: nat) {
    op.WriteBack? && op.pos < Min(len, capacity) < op.pos + |op.bytes|
  }

  function MarkedOne(op: Op, len: nat, capacity: nat): Op {
    match op
    case PushByte(_) => PushByte(0)
    case ExtendFromSlice(bytes) => ExtendFromSlice(Repeated(0, |bytes|))
    case ResizeTo(newLen, _) => ResizeTo(newLen, 0)
    case TruncateTo(newLen) => op
    case WriteBack(pos, bytes) => WriteBack(pos, Repeated(if Straddles(op, len, capacity) then 1 else 0, |bytes|))
  }

  function Marked(ops: seq<Op>, len: nat, capacity: nat): (marked: seq<Op>)
    ensures |marked| == |ops|
    decreases |ops|
  {
    if ops == [] then [] else [MarkedOne(ops[0], len, capacity)] + Marked(ops[1..], LenNext(len, ops[0]), capacity)
  }

  lemma {:induction false} MarkedHasTheShape(ops: seq<Op>, len: nat, capacity: nat)
    ensures SameShape(ops, Marked(ops, len, capacity))
    decreases |ops|
  {
    if ops != [] {
      var rest := Marked(ops[1..], LenNext(len, ops[0]), capacity);
      MarkedHasTheShape(ops[1..], LenNext(len, ops[0]), capacity);
      forall i | 0 <= i < |ops|
        ensures SameShapeOne(ops[i], Marked(ops, len, capacity)[i])
      {
        if 0 < i {
          assert SameShapeOne(ops[1..][i - 1], rest[i - 1]);
        }
      }
    }
  }

  /** Only zeros have been stored, and what is stale should be one. */
  ghost predicate Shows(p: Pair, capacity: nat) {
    && Agree(p, capacity)
    && (forall i :: 0 <= i < |p.f.held| ==> p.f.held[i] == 0)
    && (forall i :: 0 <= i < |p.f.held| && i in p.stale ==> p.w[i] == 1)
  }

  lemma MarkedStepShows(p: Pair, capacity: nat, op: Op)
    requires Shows(p, capacity) && Allowed(op, |p.w|)
    ensures Allowed(MarkedOne(op, |p.w|, capacity), |p.w|)
    ensures Shows(PairNext(p, capacity, MarkedOne(op, |p.w|, capacity)), capacity)
    ensures |PairNext(p, capacity, MarkedOne(op, |p.w|, capacity)).w| == LenNext(|p.w|, op)
  {
    var marked := MarkedOne(op, |p.w|, capacity);
    StepAgrees(p, capacity, marked);
    GrownLength(p.w, marked);
    if marked.WriteBack? && !Straddles(op, |p.w|, capacity) && marked.pos < Min(|p.w|, capacity) {
      assert marked.pos + |marked.bytes| <= |p.f.held|;
    }
  }

  lemma {:induction false} MarkedRunShows(p: Pair, capacity: nat, ops: seq<Op>)
    requires Shows(p, capacity) && AllAllowed(ops, |p.w|)
    ensures AllAllowed(Marked(ops, |p.w|, capacity), |p.w|)
    ensures Shows(AfterOps(p, capacity, Marked(ops, |p.w|, capacity)), capacity)
    decreases |ops|
  {
    if ops != [] {
      MarkedStepShows(p, capacity, ops[0]);
      var marked := Marked(ops, |p.w|, capacity);
      assert marked[1..] == Marked(ops[1..], LenNext(|p.w|, ops[0]), capacity);
      GrownLength(p.w, marked[0]);
      MarkedRunShows(PairNext(p, capacity, marked[0]), capacity, ops[1..]);
    }
  }

  /** On these bytes, if they fit, the fixed form holds what the growable form does. */
  ghost predicate HoldsTheSame(capacity: nat, ops: seq<Op>)
    requires AllAllowed(ops, 0)
  {
    var end := AfterOps(Start(), capacity, ops);
    |end.w| <= capacity ==> end.f.held == end.w
  }

  /**
   Exactly when a fixed slice that did not overflow is right whatever the bytes were: when
   no skipped backfill left a stale position behind, which lengths and positions decide.
   */
  lemma SameExactlyWhenNothingIsStale(capacity: nat, ops: seq<Op>)
    requires AllAllowed(ops, 0) && |AfterOps(Start(), capacity, ops).w| <= capacity
    ensures AfterOps(Start(), capacity, ops).stale == {} <==>
            forall others :: SameShape(ops, others) && AllAllowed(others, 0) ==> HoldsTheSame(capacity, others)
  {
    if AfterOps(Start(), capacity, ops).stale == {} {
      forall others | SameShape(ops, others) && AllAllowed(others, 0)
        ensures HoldsTheSame(capacity, others)
      {
        ShapeDecides(Start(), Start(), capacity, ops, others);
      }
    } else {
      var marked := Marked(ops, 0, capacity);
      MarkedHasTheShape(ops, 0, capacity);
      MarkedRunShows(Start(), capacity, ops);
      ShapeDecides(Start(), Start(), capacity, ops, marked);
      var end := AfterOps(Start(), capacity, marked);
      var p :| p in end.stale;
      assert p in Span(0, |end.f.held|);
      assert end.f.held[p] == 0 && end.w[p] == 1;
    }
  }

  // ----- what the encoder must not do

  /** A header whose backfill was skipped because it reached past the slice. */
  datatype Placeholder = Placeholder(pos: nat, end: nat)

  /** Every truncation falls at or before the start of each skipped header, or at or behind its end. */
  predicate CutsNoHeader(headers: seq<Placeholder>, len: nat, capacity: nat, ops: seq<Op>)
    decreases |ops|
  {
    if ops == [] then true
    else
      match ops[0]
      case TruncateTo(newLen) =>
        && (forall i :: 0 <= i < |headers| ==> newLen <= headers[i].pos || headers[i].end <= newLen)
        && CutsNoHeader(headers, LenNext(len, ops[0]), capacity, ops[1..])
      case WriteBack(pos, bytes) =>
        var more := if Straddles(ops[0], len, capacity) then headers + [Placeholder(pos, pos + |bytes|)] else headers;
        CutsNoHeader(more, len, capacity, ops[1..])
      case _ => CutsNoHeader(headers, LenNext(len, ops[0]), capacity, ops[1..])
  }

  /** Whatever is stale lies in a skipped header that is still there, and reaches past the slice. */
  ghost predicate StaleInHeaders(p: Pair, capacity: nat, headers: seq<Placeholder>) {
    forall i :: i in p.stale ==>
      exists h :: 0 <= h < |headers| && headers[h].pos <= i < headers[h].end && capacity < headers[h].end <= |p.w|
  }

  lemma StepKeepsStaleInHeaders(p: Pair, capacity: nat, headers: seq<Placeholder>, op: Op, more: seq<Placeholder>)
    requires Agree(p, capacity) && StaleInHeaders(p, capacity, headers) && Allowed(op, |p.w|)
    requires op.TruncateTo? ==> forall i :: 0 <= i < |headers| ==> op.newLen <= headers[i].pos || headers[i].end <= op.newLen
    requires more == if Straddles(op, |p.w|, capacity) then headers + [Placeholder(op.pos, op.pos + |op.bytes|)] else headers
    ensures StaleInHeaders(PairNext(p, capacity, op), capacity, more)
  {
    var next := PairNext(p, capacity, op);
    GrownLength(p.w, op);
    forall i | i in next.stale
      ensures exists h :: 0 <= h < |more| && more[h].pos <= i < more[h].end && capacity < more[h].end <= |next.w|
    {
      if i in p.stale {
        var h :| 0 <= h < |headers| && headers[h].pos <= i < headers[h].end && capacity < headers[h].end <= |p.w|;
        assert more[h] == headers[h];
      } else {
        assert i in Span(op.pos, Min(|p.w|, capacity));
        assert more[|headers|] == Placeholder(op.pos, op.pos + |op.bytes|);
      }
    }
  }

  /** If no truncation cuts inside a skipped header, then what fits is right. */
  lemma {:induction false} CleanCutsLeaveNothingStale(p: Pair, capacity: nat, headers: seq<Placeholder>, ops: seq<Op>)
    requires Agree(p, capacity) && StaleInHeaders(p, capacity, headers)
    requires AllAllowed(ops, |p.w|) && CutsNoHeader(headers, |p.w|, capacity, ops)
    ensures |AfterOps(p, capacity, ops).w| <= capacity ==> AfterOps(p, capacity, ops).stale == {}
    decreases |ops|
  {
    if ops == [] {
      if p.stale != {} {
        var i :| i in p.stale;
      }
    } else {
      var op := ops[0];
      var more := if Straddles(op, |p.w|, capacity) then headers + [Placeholder(op.pos, op.pos + |op.bytes|)] else headers;
      StepAgrees(p, capacity, op);
      GrownLength(p.w, op);
      StepKeepsStaleInHeaders(p, capacity, headers, op, more);
      CleanCutsLeaveNothingStale(PairNext(p, capacity, op), capacity, more, ops[1..]);
    }
  }

  /** With headers only ever cut away whole, a fixed slice that did not overflow is what the vector would be. */
  lemma CleanRunHoldsTheSame(capacity: nat, ops: seq<Op>)
    requires AllAllowed(ops, 0) && CutsNoHeader([], 0, capacity, ops)
    ensures HoldsTheSame(capacity, ops)
  {
    CleanCutsLeaveNothingStale(Start(), capacity, [], ops);
  }

  lemma AfterOne(p: Pair, capacity: nat, ops: seq<Op>, i: nat)
    requires i < |ops| && Agree(p, capacity) && AllAllowed(ops[i..], |p.w|)
    ensures Allowed(ops[i], |p.w|) && Agree(PairNext(p, capacity, ops[i]), capacity)
    ensures AllAllowed(ops[i + 1..], |PairNext(p, capacity, ops[i]).w|)
    ensures AfterOps(p, capacity, ops[i..]) == AfterOps(PairNext(p, capacity, ops[i]), capacity, ops[i + 1..])
  {
    assert ops[i..][1..] == ops[i + 1..];
    StepAgrees(p, capacity, ops[i]);
    GrownLength(p.w, ops[i]);
  }

  /** Run operations on a fixed slice from its start. */
  method ApplyAll(out: OutBuf, ops: seq<Op>)
    requires out.Valid() && !out.growable && out.written == [] && out.AsFixed() == Fixed([], 0)
    requires AllAllowed(ops, 0)
    modifies out, out.buf
    ensures out.Valid() && out.written == AfterOps(Start(), out.buf.Length, ops).w
    ensures out.AsFixed() == AfterOps(Start(), out.buf.Length, ops).f
  {
    hide Agree;
    hide AfterOps;
    hide AllAllowed;
    ghost var p := Start();
    Begins(out.buf.Length);
    var i := 0;
    assert ops[0..] == ops;
    while i < |ops|
      invariant 0 <= i <= |ops| && out.Valid() && out.written == p.w && out.AsFixed() == p.f
      invariant Agree(p, out.buf.Length) && AllAllowed(ops[i..], |p.w|)
      invariant AfterOps(p, out.buf.Length, ops[i..]) == AfterOps(Start(), out.buf.Length, ops)
    {
      AfterOne(p, out.buf.Length, ops, i);
      out.Apply(ops[i]);
      p := PairNext(p, out.buf.Length, ops[i]);
      i := i + 1;
    }
    AtTheEnd(p, out.buf.Length, ops[i..]);
  }

  lemma Begins(capacity: nat)
    ensures Agree(Start(), capacity)
  {
  }

  lemma AtTheEnd(p: Pair, capacity: nat, ops: seq<Op>)
    requires Agree(p, capacity) && |ops| == 0 && AllAllowed(ops, |p.w|)
    ensures AfterOps(p, capacity, ops) == p
  {
  }
}
