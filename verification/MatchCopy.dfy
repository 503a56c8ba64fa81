/**
 Copying a match inside one buffer.

 A match names bytes `offset` behind the write position and may be longer than
 that, in which case it repeats what it has just written.  The reference is the
 byte-at-a-time copy.  The program copies in units of 8, 16 or 32 bytes, spreads
 a short pattern with two small tables, or doubles what is already there, and
 may write up to 31 bytes past the match.
 */
module MatchCopy {
  import opened Common

  const WILDCOPY_OVERLENGTH := 32
  const PATTERN_DOUBLING_MIN := 4096

  /** `h` followed by the `n` bytes a byte-at-a-time copy from `offset` back appends. */
  function Overlap(h: seq<byte>, offset: nat, n: nat): (s: seq<byte>)
    requires 0 < offset <= |h|
    ensures |s| == |h| + n
    ensures h <= s
  {
    if n == 0 then h
    else
      var s := Overlap(h, offset, n - 1);
      s + [s[|s| - offset]]
  }

  /** Each byte from `from` to `to` equals the one `offset` before it. */
  ghost predicate Repeats(s: seq<byte>, from: nat, to: nat, offset: nat)
    requires offset <= from && to <= |s|
  {
    forall i :: from <= i < to ==> s[i] == s[i - offset]
  }

  /** The byte-at-a-time copy is the one extension of `h` that repeats with period `offset`. */
  lemma {:induction false} OverlapRepeats(h: seq<byte>, offset: nat, n: nat)
    requires 0 < offset <= |h|
    ensures Repeats(Overlap(h, offset, n), |h|, |h| + n, offset)
  {
    if n != 0 {
      OverlapRepeats(h, offset, n - 1);
    }
  }

  lemma {:induction false} RepeatsIsOverlap(h: seq<byte>, offset: nat, s: seq<byte>)
    requires 0 < offset <= |h| && h <= s
    requires Repeats(s, |h|, |s|, offset)
    ensures s == Overlap(h, offset, |s| - |h|)
    decreases |s|
  {
    if |s| > |h| {
      var t := s[..|s| - 1];
      RepeatsIsOverlap(h, offset, t);
      assert s == t + [s[|s| - 1]];
    }
  }

  ghost predicate Multiple(distance: nat, offset: nat)
    requires 0 < offset
  {
    distance == 0 || (distance >= offset && Multiple(distance - offset, offset))
  }

  lemma {:induction false} MultipleSum(a: nat, b: nat, offset: nat)
    requires 0 < offset && Multiple(a, offset) && Multiple(b, offset)
    ensures Multiple(a + b, offset)
  {
    if a != 0 {
      MultipleSum(a - offset, b, offset);
    }
  }

  /** In a repeating stretch, bytes a whole number of offsets apart are equal. */
  lemma {:induction false} RepeatsAtMultiple(s: seq<byte>, from: nat, to: nat, offset: nat, i: nat, distance: nat)
    requires 0 < offset <= from && to <= |s| && Repeats(s, from, to, offset)
    requires Multiple(distance, offset) && distance <= i < to && from <= i - distance + offset
    ensures s[i] == s[i - distance]
    decreases distance
  {
    if distance != 0 {
      RepeatsAtMultiple(s, from, to, offset, i - offset, distance - offset);
    }
  }

  /**
   Extending a repeating stretch: copying `n` bytes that start `distance` back, a multiple of
   the offset, keeps the stretch repeating.
   */
  lemma CopyExtends(before: seq<byte>, after: seq<byte>, from: nat, at: nat, n: nat, offset: nat, distance: nat)
    requires |before| == |after| && at + n <= |after|
    requires 0 < offset <= from <= at && n <= distance <= at
    requires Multiple(distance, offset) && from <= at - distance + offset
    requires Repeats(before, from, at, offset)
    requires after[..at] == before[..at]
    requires forall i :: at <= i < at + n ==> after[i] == before[i - distance]
    ensures Repeats(after, from, at + n, offset)
  {
    forall i | from <= i < at + n
      ensures after[i] == after[i - offset]
    {
      if i < at {
        assert after[i] == after[..at][i] == before[i] && after[i - offset] == after[..at][i - offset];
      } else {
        ExtendedByte(before, after, from, at, n, offset, distance, i);
      }
    }
  }

  lemma {:induction false} ExtendedByte(before: seq<byte>, after: seq<byte>, from: nat, at: nat, n: nat,
                                        offset: nat, distance: nat, i: nat)
    requires |before| == |after| && at + n <= |after|
    requires 0 < offset <= from <= at && n <= distance <= at
    requires Multiple(distance, offset) && from <= at - distance + offset
    requires Repeats(before, from, at, offset)
    requires after[..at] == before[..at]
    requires forall i :: at <= i < at + n ==> after[i] == before[i - distance]
    requires at <= i < at + n
    ensures after[i] == after[i - offset]
    decreases i
  {
    if i - offset < at {
      assert after[i - offset] == after[..at][i - offset] == before[i - offset];
      if distance != 0 {
        RepeatsAtMultiple(before, from, at, offset, i - offset, distance - offset);
      }
    } else {
      assert before[i - distance] == before[i - offset - distance];
    }
  }

  /** Only positions from `lo` to `hi` differ. */
  ghost predicate SameOutside(s: seq<byte>, t: seq<byte>, lo: nat, hi: nat)
  {
    |s| == |t| && forall i :: 0 <= i < |s| && (i < lo || hi <= i) ==> s[i] == t[i]
  }

  /** The platform's copy of disjoint ranges, the source before the destination. */
  method CopyNonoverlapping(buf: array<byte>, dst: nat, src: nat, n: nat)
    requires src + n <= dst && dst + n <= buf.Length
    modifies buf
    ensures SameOutside(old(buf[..]), buf[..], dst, dst + n)
    ensures forall i :: dst <= i < dst + n ==> buf[i] == old(buf[i - dst + src])
  {
    forall i | 0 <= i < n {
      buf[dst + i] := buf[src + i];
    }
  }

  /** One unit of a match copy, `distance` bytes behind the write position. */
  method CopyUnit(buf: array<byte>, ghost from: nat, at: nat, n: nat, ghost offset: nat, distance: nat)
    requires 0 < offset <= from <= at && n <= distance <= at && at + n <= buf.Length
    requires Multiple(distance, offset) && from <= at - distance + offset
    requires Repeats(buf[..], from, at, offset)
    modifies buf
    ensures SameOutside(old(buf[..]), buf[..], at, at + n)
    ensures Repeats(buf[..], from, at + n, offset)
  {
    ghost var before := buf[..];
    CopyNonoverlapping(buf, at, at - distance, n);
    assert buf[..at] == before[..at];
    CopyExtends(before, buf[..], from, at, n, offset, distance);
  }

  /** A buffer unchanged before `at` and repeating from there holds the match. */
  lemma HoldsMatch(before: seq<byte>, after: seq<byte>, at: nat, n: nat, offset: nat, end: nat)
    requires |before| == |after| && 0 < offset <= at && at + n <= end <= |after|
    requires SameOutside(before, after, at, end) && Repeats(after, at, at + n, offset)
    ensures after[..at + n] == Overlap(before[..at], offset, n)
  {
    assert before[..at] == after[..at];
    RepeatsIsOverlap(before[..at], offset, after[..at + n]);
  }

  /** Long matches: seed one period, then copy what is there until the match is filled. */
  method CopyMatchByDoubling(buf: array<byte>, dst: nat, offset: nat, matchLength: nat)
    requires 0 < offset <= dst && dst + matchLength <= buf.Length
    modifies buf
    ensures buf[..dst + matchLength] == Overlap(old(buf[..dst]), offset, matchLength)
    ensures SameOutside(old(buf[..]), buf[..], dst, dst + matchLength)
  {
    ghost var before := buf[..];
    var seed := Min(offset, matchLength);
    assert Multiple(offset - offset, offset);
    CopyUnit(buf, dst, dst, seed, offset, offset);
    var done := seed;
    while done < matchLength
      invariant seed <= done <= matchLength
      invariant done == matchLength || (0 < done && Multiple(done, offset))
      invariant SameOutside(before, buf[..], dst, dst + done)
      invariant Repeats(buf[..], dst, dst + done, offset)
    {
      var chunk := Min(done, matchLength - done);
      CopyUnit(buf, dst, dst + done, chunk, offset, done);
      MultipleSum(done, done, offset);
      done := done + chunk;
    }
    HoldsMatch(before, buf[..], dst, matchLength, offset, dst + matchLength);
  }

  const DEC32_TABLE := [0, 1, 2, 1, 4, 4, 4, 4]
  const DEC64_TABLE := [8, 8, 8, 7, 8, 9, 10, 11]

  /** The two tables move the read position a whole number of periods back, at least eight bytes. */
  lemma SpreadDistance(offset: nat)
    requires 0 < offset < 8
    ensures Multiple(4 + offset - DEC32_TABLE[offset], offset)
    ensures 4 <= 4 + offset - DEC32_TABLE[offset] <= 4 + offset
    ensures Multiple(8 + offset - DEC32_TABLE[offset] - 8 + DEC64_TABLE[offset], offset)
    ensures 8 <= offset - DEC32_TABLE[offset] + DEC64_TABLE[offset] <= 8 + offset
  {
  }

  /** The first four bytes, one at a time. */
  method CopyFourBytes(buf: array<byte>, dst: nat, offset: nat)
    requires 0 < offset <= dst && dst + 4 <= buf.Length
    modifies buf
    ensures SameOutside(old(buf[..]), buf[..], dst, dst + 4)
    ensures Repeats(buf[..], dst, dst + 4, offset)
  {
    var src := dst - offset;
    buf[dst] := buf[src];
    buf[dst + 1] := buf[src + 1];
    buf[dst + 2] := buf[src + 2];
    buf[dst + 3] := buf[src + 3];
  }

  /**
   A match whose period is shorter than eight: its first eight bytes, spread so that the rest
   can proceed in eights.  Returns where to read next.
   */
  method SpreadShortPeriod(buf: array<byte>, dst: nat, offset: nat) returns (ip: nat)
    requires 0 < offset < 8 && offset <= dst && dst + 8 <= buf.Length
    modifies buf
    ensures SameOutside(old(buf[..]), buf[..], dst, dst + 8)
    ensures Repeats(buf[..], dst, dst + 8, offset)
    ensures dst - offset <= ip <= dst && Multiple(dst + 8 - ip, offset)
  {
    SpreadDistance(offset);
    CopyFourBytes(buf, dst, offset);
    ip := dst - offset + DEC32_TABLE[offset];
    CopyUnit(buf, dst, dst + 4, 4, offset, dst + 4 - ip);
    ip := ip + 8 - DEC64_TABLE[offset];
  }

  /** The wide and the narrow wildcopy, which may run past the end of the match. */
  method CopyMatchInline(buf: array<byte>, outPos: nat, matchSrc: nat, matchLength: nat)
    requires matchSrc < outPos && outPos + matchLength + WILDCOPY_OVERLENGTH <= buf.Length
    modifies buf
    ensures buf[..outPos + matchLength] == Overlap(old(buf[..outPos]), outPos - matchSrc, matchLength)
    ensures SameOutside(old(buf[..]), buf[..], outPos, outPos + matchLength + WILDCOPY_OVERLENGTH - 1)
  {
    var offset := outPos - matchSrc;
    ghost var before := buf[..];
    ghost var end: nat := outPos + matchLength + WILDCOPY_OVERLENGTH - 1;
    if matchLength >= PATTERN_DOUBLING_MIN {
      CopyMatchByDoubling(buf, outPos, offset, matchLength);
      return;
    }
    assert Multiple(offset - offset, offset);
    if offset >= 16 {
      CopyUnit(buf, outPos, outPos, 16, offset, offset);
      if matchLength > 16 {
        var pos := 16;
        while true
          invariant 16 <= pos < matchLength
          invariant SameOutside(before, buf[..], outPos, outPos + pos)
          invariant Repeats(buf[..], outPos, outPos + pos, offset)
          decreases matchLength - pos
        {
          CopyUnit(buf, outPos, outPos + pos, 16, offset, offset);
          pos := pos + 16;
          CopyUnit(buf, outPos, outPos + pos, 16, offset, offset);
          pos := pos + 16;
          if pos >= matchLength {
            break;
          }
        }
        assert SameOutside(before, buf[..], outPos, end);
      }
    } else {
      var ip := matchSrc;
      var op := outPos;
      if offset < 8 {
        ip := SpreadShortPeriod(buf, outPos, offset);
      } else {
        CopyUnit(buf, outPos, outPos, 8, offset, offset);
        ip := ip + 8;
      }
      op := op + 8;
      if matchLength > 8 {
        while op < outPos + matchLength
          invariant outPos + 8 <= op < outPos + matchLength + 8
          invariant ip + 8 <= op && outPos <= ip + offset && Multiple(op - ip, offset)
          invariant SameOutside(before, buf[..], outPos, op)
          invariant Repeats(buf[..], outPos, op, offset)
        {
          CopyUnit(buf, outPos, op, 8, offset, op - ip);
          ip := ip + 8;
          op := op + 8;
        }
      }
    }
    HoldsMatch(before, buf[..], outPos, matchLength, offset, end);
  }

  /** A match no longer than its distance is a plain slice of the history. */
  lemma {:induction false} OverlapShort(h: seq<byte>, offset: nat, n: nat)
    requires 0 < offset <= |h| && n <= offset
    ensures Overlap(h, offset, n) == h + h[|h| - offset..|h| - offset + n]
  {
    if n != 0 {
      OverlapShort(h, offset, n - 1);
      assert h[|h| - offset..|h| - offset + n] == h[|h| - offset..|h| - offset + n - 1] + [h[|h| - offset + n - 1]];
    }
  }

  /** The exact copy: one piece, a repeated byte, or doubling. */
  method CopyMatchExact(buf: array<byte>, at: nat, matchStart: nat, matchLength: nat)
    requires matchStart < at && at + matchLength <= buf.Length
    modifies buf
    ensures buf[..at + matchLength] == Overlap(old(buf[..at]), at - matchStart, matchLength)
    ensures SameOutside(old(buf[..]), buf[..], at, at + matchLength)
  {
    var offset := at - matchStart;
    ghost var before := buf[..];
    if matchLength <= offset {
      assert Multiple(offset - offset, offset);
      CopyUnit(buf, at, at, matchLength, offset, offset);
    } else if offset == 1 {
      var value := buf[matchStart];
      forall i | 0 <= i < matchLength {
        buf[at + i] := value;
      }
    } else {
      CopyMatchByDoubling(buf, at, offset, matchLength);
      return;
    }
    HoldsMatch(before, buf[..], at, matchLength, offset, at + matchLength);
  }
}
