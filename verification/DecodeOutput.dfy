/**
 Where the decoder writes: a buffer that grows, or a caller's fixed slice.

 The bytes decoded so far are also what matches copy from, so a write either
 lands whole or fails; nothing is stored in part.
 */
module DecodeOutput {
  import opened Common
  import opened MatchCopy
  import opened BlockSpec

  class DecodeOut {
    const growable: bool
    var buf: array<byte>
    var len: nat

    ghost predicate Valid()
      reads this
    {
      len <= buf.Length
    }

    function Contents(): seq<byte>
      requires Valid()
      reads this, buf
    {
      buf[..len]
    }

    /** The bound on the length: none when the buffer can grow. */
    function Capacity(): Option<nat>
      reads this
    {
      if growable then None else Some(buf.Length)
    }

    /** The caller's slice is still the caller's slice, and a grown buffer is no smaller. */
    twostate predicate SameDestination()
      reads this
    {
      && buf.Length >= old(buf.Length)
      && (buf == old(buf) || (growable && fresh(buf)))
    }

    constructor Growable(initial: array<byte>, len: nat)
      requires len <= initial.Length
      ensures Valid() && growable && buf == initial && this.len == len
    {
      growable := true;
      buf := initial;
      this.len := len;
    }

    constructor Fixed(dst: array<byte>)
      ensures Valid() && !growable && buf == dst && len == 0
    {
      growable := false;
      buf := dst;
      len := 0;
    }

    method Clear()
      modifies this`len
      ensures len == 0
    {
      len := 0;
    }

    method SetLen(n: nat)
      requires n <= buf.Length
      modifies this`len
      ensures len == n
    {
      len := n;
    }

    /** Reallocate with room for `additional` more bytes. */
    method Reserve(additional: nat)
      requires Valid() && growable
      modifies this`buf
      ensures Valid() && SameDestination() && len + additional <= buf.Length
      ensures Contents() == old(Contents())
    {
      if buf.Length - len < additional {
        var larger := new byte[len + additional];
        forall i | 0 <= i < len {
          larger[i] := buf[i];
        }
        buf := larger;
      }
    }

    /** A hint: a fixed destination has the room it has. */
    method TryReserve(additional: nat)
      requires Valid()
      modifies this`buf
      ensures Valid() && SameDestination() && Contents() == old(Contents())
      ensures growable ==> len + additional <= buf.Length
    {
      if growable {
        Reserve(additional);
      }
    }

    method EnsureRoom(additional: nat) returns (ok: bool)
      requires Valid()
      modifies this`buf
      ensures Valid() && SameDestination() && Contents() == old(Contents())
      ensures ok <==> Fits(Capacity(), len, additional)
      ensures ok ==> len + additional <= buf.Length
    {
      if growable {
        Reserve(additional);
        return true;
      }
      return buf.Length - len >= additional;
    }

    method Append(bytes: seq<byte>) returns (ok: bool)
      requires Valid()
      modifies this, buf
      ensures Valid() && SameDestination()
      ensures ok <==> Fits(old(Capacity()), old(len), |bytes|)
      ensures Contents() == if ok then old(Contents()) + bytes else old(Contents())
    {
      if |bytes| == 0 {
        return true;
      }
      ok := EnsureRoom(|bytes|);
      if ok {
        ghost var before := Contents();
        forall i | 0 <= i < |bytes| {
          buf[len + i] := bytes[i];
        }
        assert buf[..len] == before;
        len := len + |bytes|;
      }
    }

    method AppendRepeated(value: byte, count: nat) returns (ok: bool)
      requires Valid()
      modifies this, buf
      ensures Valid() && SameDestination()
      ensures ok <==> Fits(old(Capacity()), old(len), count)
      ensures Contents() == if ok then old(Contents()) + seq(count, _ => value) else old(Contents())
    {
      if count == 0 {
        return true;
      }
      ok := EnsureRoom(count);
      if ok {
        ghost var before := Contents();
        forall i | 0 <= i < count {
          buf[len + i] := value;
        }
        assert buf[..len] == before;
        len := len + count;
      }
    }

    /** The exact copy of a match whose source is already in the output. */
    method AppendMatchFromHistory(matchStart: nat, matchLength: nat) returns (ok: bool)
      requires Valid() && matchStart < len
      modifies this, buf
      ensures Valid() && SameDestination()
      ensures ok <==> Fits(old(Capacity()), old(len), matchLength)
      ensures Contents() == if ok then Overlap(old(Contents()), old(len) - matchStart, matchLength) else old(Contents())
    {
      if matchLength == 0 {
        return true;
      }
      ok := EnsureRoom(matchLength);
      if !ok {
        return;
      }
      CopyMatchExact(buf, len, matchStart, matchLength);
      len := len + matchLength;
    }
  }
}
