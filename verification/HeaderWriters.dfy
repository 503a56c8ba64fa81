/**
 Writing frame headers (section 3.1.1.1 of RFC 8878), and reading them back.

 The three writers append to the encoder's output.  What each of them writes
 parses to what it was given, with the window rounded up to the next one that a
 header can declare; the writer of windowed headers with a content size is exact
 from 256 bytes on.
 */
module HeaderWriters {
  import opened Common
  import opened FrameFormat
  import opened OutputBuffer
  import Repcodes

  const MIN_WINDOW: nat := 1024

  // ----- windows

  /** The first descriptor from `d` on whose window is large enough. */
  function FirstFrom(d: nat, requested: nat): Option<byte>
    requires d <= 256
    decreases 256 - d
  {
    if d == 256 then None
    else if DecodeWindowDescriptor(d as byte) >= requested then Some(d as byte)
    else FirstFrom(d + 1, requested)
  }

  function EncodedWindow(windowSize: nat): Option<byte> {
    FirstFrom(0, Max(windowSize, MIN_WINDOW))
  }

  /** Search exponents and mantissas for the first window that is large enough. */
  method EncodeWindowDescriptor(windowSize: nat) returns (descriptor: Option<byte>)
    ensures descriptor == EncodedWindow(windowSize)
  {
    hide Pow2;
    hide DecodeWindowDescriptor;
    var requested := Max(windowSize, MIN_WINDOW);
    for exponent: nat := 0 to 32
      invariant FirstFrom(8 * exponent, requested) == EncodedWindow(windowSize)
    {
      var windowBase := Pow2(10 + exponent);
      var windowStep := windowBase / 8;
      for mantissa: nat := 0 to 8
        invariant FirstFrom(8 * exponent + mantissa, requested) == EncodedWindow(windowSize)
      {
        var candidate := windowBase + windowStep * mantissa;
        var d := (8 * exponent + mantissa) as byte;
        DescriptorParts(exponent, mantissa);
        if candidate >= requested {
          return Some(d);
        }
      }
    }
    return None;
  }

  lemma DescriptorParts(exponent: nat, mantissa: nat)
    requires exponent < 32 && mantissa < 8
    ensures DecodeWindowDescriptor((8 * exponent + mantissa) as byte)
         == Pow2(10 + exponent) + Pow2(10 + exponent) / 8 * mantissa
  {
  }

  lemma Pow2IsBig(n: nat)
    requires 10 <= n
    ensures 1024 <= Pow2(n)
  {
    if n == 10 {
      assert Pow2(8) == 256;
    } else {
      Pow2IsBig(n - 1);
    }
  }

  lemma StepsBelow(base: nat, mantissa: nat)
    requires 8 <= base && mantissa < 8
    ensures base <= base + base / 8 * mantissa < 2 * base
  {
    var step := base / 8;
    assert step * mantissa <= step * 7;
  }

  lemma OneStepUp(step: nat, mantissa: nat)
    ensures step * (mantissa + 1) == step * mantissa + step && step * 0 == 0
  {
  }

  lemma Pow2Doubles(n: nat)
    ensures Pow2(n + 1) == 2 * Pow2(n)
  {
  }

  /** Each descriptor declares a larger window than the one before it. */
  lemma DescriptorsIncrease(d: byte)
    requires d < 255
    ensures DecodeWindowDescriptor(d) < DecodeWindowDescriptor(d + 1)
  {
    hide Pow2;
    hide DecodeWindowDescriptor;
    var exponent, mantissa := d as int / 8, d as int % 8;
    var base := Pow2(10 + exponent);
    Pow2IsBig(10 + exponent);
    DescriptorParts(exponent, mantissa);
    StepsBelow(base, mantissa);
    OneStepUp(base / 8, mantissa);
    if mantissa < 7 {
      DescriptorParts(exponent, mantissa + 1);
    } else {
      Pow2Doubles(10 + exponent);
      DescriptorParts(exponent + 1, 0);
      OneStepUp(Pow2(10 + (exponent + 1)) / 8, 0);
    }
  }

  lemma {:induction false} DescriptorsAreOrdered(a: byte, b: byte)
    requires a < b
    ensures DecodeWindowDescriptor(a) < DecodeWindowDescriptor(b)
    decreases b as int
  {
    DescriptorsIncrease(b - 1);
    if a < b - 1 {
      DescriptorsAreOrdered(a, b - 1);
    }
  }

  lemma {:induction false} FirstIsLeast(d: nat, requested: nat, other: byte)
    requires d <= 256
    ensures match FirstFrom(d, requested)
            case Some(first) =>
              && d <= first as int && DecodeWindowDescriptor(first) >= requested
              && (d <= other as int < first as int ==> DecodeWindowDescriptor(other) < requested)
            case None => d <= other as int ==> DecodeWindowDescriptor(other) < requested
    decreases 256 - d
  {
    if d < 256 && DecodeWindowDescriptor(d as byte) < requested {
      FirstIsLeast(d + 1, requested, other);
    }
  }

  /** The encoded window is the least one a header can declare that is not below the request; there may be none. */
  lemma EncodedWindowIsLeast(windowSize: nat, other: byte)
    ensures match EncodedWindow(windowSize)
            case Some(d) =>
              && DecodeWindowDescriptor(d) >= Max(windowSize, MIN_WINDOW)
              && (DecodeWindowDescriptor(other) >= windowSize ==> DecodeWindowDescriptor(d) <= DecodeWindowDescriptor(other))
            case None => DecodeWindowDescriptor(other) < windowSize
  {
    hide DecodeWindowDescriptor;
    FirstIsLeast(0, Max(windowSize, MIN_WINDOW), other);
    WindowsAreBig(other);
    var encoded := EncodedWindow(windowSize);
    if encoded.Some? && encoded.value < other {
      DescriptorsAreOrdered(encoded.value, other);
    }
  }

  lemma WindowsAreBig(d: byte)
    ensures MIN_WINDOW <= DecodeWindowDescriptor(d)
  {
    Pow2IsBig(10 + d as int / 8);
    DescriptorParts(d as int / 8, d as int % 8);
    StepsBelow(Pow2(10 + d as int / 8), d as int % 8);
  }

  /** Encoding inverts decoding, on every descriptor. */
  lemma EncodedWindowInverts(d: byte)
    ensures EncodedWindow(DecodeWindowDescriptor(d)) == Some(d)
  {
    EncodedWindowIsLeast(DecodeWindowDescriptor(d), d);
    var encoded := EncodedWindow(DecodeWindowDescriptor(d));
    if encoded.value < d {
      DescriptorsAreOrdered(encoded.value, d);
    } else if d < encoded.value {
      DescriptorsAreOrdered(d, encoded.value);
    }
  }

  /** A header can declare windows that reach the sequence decoder's sentinel distance. */
  lemma WindowsReachTheSentinel()
    ensures 0xFFFF_FFFF <= DecodeWindowDescriptor(176)
  {
    hide Pow2;
    Pow2Of32();
    DescriptorParts(22, 0);
  }

  // ----- what the writers write

  function Magic(magicless: bool): seq<byte> {
    if magicless then [] else LeBytes(ZSTD_MAGIC_NUMBER, 4)
  }

  /** A dictionary id of zero is no dictionary id. */
  function Named(dictionaryId: Option<u32>): Option<u32> {
    if dictionaryId == Some(0) then None else dictionaryId
  }

  function IdFlag(dictionaryId: Option<u32>): (flag: nat)
    ensures flag < 4
  {
    var id := Named(dictionaryId);
    if id == None then 0 else if id.value <= 255 then 1 else if id.value <= 65535 then 2 else 3
  }

  function IdBytes(dictionaryId: Option<u32>): seq<byte> {
    var id := Named(dictionaryId);
    LeBytes(if id == None then 0 else id.value, IdSize(IdFlag(dictionaryId)))
  }

  function SizeFlag(contentSize: nat): (flag: nat)
    ensures flag < 4
  {
    if contentSize <= 255 then 0 else if contentSize <= 65791 then 1 else if contentSize < U32_MODULUS then 2 else 3
  }

  function SizeBytes(contentSize: nat): seq<byte> {
    var flag := SizeFlag(contentSize);
    if flag == 0 then LeBytes(contentSize, 1)
    else if flag == 1 then LeBytes(contentSize - 256, 2)
    else if flag == 2 then LeBytes(contentSize, 4)
    else LeBytes(contentSize, 8)
  }

  function Descriptor(sizeFlag: nat, single: bool, checksum: bool, idFlag: nat): byte
    requires sizeFlag < 4 && idFlag < 4
  {
    (64 * sizeFlag + (if single then 32 else 0) + (if checksum then 4 else 0) + idFlag) as byte
  }

  lemma DescriptorReads(sizeFlag: nat, single: bool, checksum: bool, idFlag: nat)
    requires sizeFlag < 4 && idFlag < 4
    ensures var d := Descriptor(sizeFlag, single, checksum, idFlag);
            && FcsFlag(d) == sizeFlag && SingleSegment(d) == single && HasChecksum(d) == checksum
            && !ReservedBit(d) && DictionaryIdSize(d) == IdSize(idFlag)
  {
    hide IdSize;
    var one, sum := if single then 1 else 0, if checksum then 1 else 0;
    var d := Descriptor(sizeFlag, single, checksum, idFlag) as int;
    Divided(d, sizeFlag, 32 * one + 4 * sum + idFlag, 64);
    Divided(d, 2 * sizeFlag + one, 4 * sum + idFlag, 32);
    Divided(d, 8 * sizeFlag + 4 * one, 4 * sum + idFlag, 8);
    Divided(d, 16 * sizeFlag + 8 * one + sum, idFlag, 4);
  }

  /** A header's fields in order; `window` is empty in a single-segment header. */
  function Layout(magicless: bool, descriptor: byte, window: seq<byte>, id: seq<byte>, size: seq<byte>): seq<byte> {
    Magic(magicless) + [descriptor] + window + id + size
  }

  function SingleSegmentHeader(contentSize: nat, checksum: bool, dictionaryId: Option<u32>, magicless: bool): seq<byte> {
    Layout(magicless, Descriptor(SizeFlag(contentSize), true, checksum, IdFlag(dictionaryId)), [],
           IdBytes(dictionaryId), SizeBytes(contentSize))
  }

  function WindowedHeader(window: byte, checksum: bool, dictionaryId: Option<u32>, magicless: bool): seq<byte> {
    Layout(magicless, Descriptor(0, false, checksum, IdFlag(dictionaryId)), [window], IdBytes(dictionaryId), [])
  }

  /** The content size such a header carries: a two-byte field cannot say less than 256. */
  function Carried(contentSize: nat): nat {
    Max(contentSize, 256)
  }

  function WindowedHeaderWithSize(window: byte, contentSize: nat, checksum: bool, dictionaryId: Option<u32>, magicless: bool)
    : seq<byte>
  {
    Layout(magicless, Descriptor(SizeFlag(Carried(contentSize)), false, checksum, IdFlag(dictionaryId)), [window],
           IdBytes(dictionaryId), SizeBytes(Carried(contentSize)))
  }

  /** How long headers are: no field is wider than its value needs. */
  lemma HeaderLengths(window: byte, contentSize: nat, checksum: bool, dictionaryId: Option<u32>, magicless: bool)
    ensures var id := if dictionaryId == None || dictionaryId == Some(0) then 0
                      else if dictionaryId.value < 256 then 1 else if dictionaryId.value < 65536 then 2 else 4;
            var size := if contentSize < 256 then 1 else if contentSize < 65536 + 256 then 2
                        else if contentSize < 0x1_0000_0000 then 4 else 8;
            var fixed := if magicless then 1 else 5;
            && |SingleSegmentHeader(contentSize, checksum, dictionaryId, magicless)| == fixed + id + size
            && |WindowedHeader(window, checksum, dictionaryId, magicless)| == fixed + 1 + id
            && |WindowedHeaderWithSize(window, contentSize, checksum, dictionaryId, magicless)| == fixed + 1 + id + Max(size, 2)
  {
    hide LeBytes;
    hide Descriptor;
  }

  // ----- the writers

  method WriteMagic(out: OutBuf, magicless: bool)
    requires out.Valid()
    modifies out, out.buf
    ensures out.Valid() && out.written == old(out.written) + Magic(magicless)
  {
    if !magicless {
      out.Extend(LeBytes(ZSTD_MAGIC_NUMBER, 4));
    } else {
      assert out.written + [] == out.written;
    }
  }

  /** The fields behind the magic number. */
  method WriteFields(out: OutBuf, descriptor: byte, window: seq<byte>, id: seq<byte>, size: seq<byte>)
    requires out.Valid() && |window| <= 1
    modifies out, out.buf
    ensures out.Valid() && out.written == old(out.written) + ([descriptor] + window + id + size)
  {
    ghost var before := out.written;
    out.Push(descriptor);
    if window != [] {
      out.Push(window[0]);
    }
    assert out.written == before + ([descriptor] + window);
    out.Extend(id);
    Regroup(before, [descriptor] + window, id);
    out.Extend(size);
    Regroup(before, [descriptor] + window + id, size);
  }

  lemma LayoutIs(before: seq<byte>, magicless: bool, descriptor: byte, window: seq<byte>, id: seq<byte>, size: seq<byte>)
    ensures before + Magic(magicless) + ([descriptor] + window + id + size)
         == before + Layout(magicless, descriptor, window, id, size)
  {
    var m := Magic(magicless);
    Regroup(before, m, [descriptor] + window + id + size);
    assert m + ([descriptor] + window + id + size) == m + [descriptor] + window + id + size;
  }

  method WriteSingleSegmentHeader(out: OutBuf, contentSize: nat, checksum: bool, dictionaryId: Option<u32>, magicless: bool)
    requires out.Valid()
    modifies out, out.buf
    ensures out.Valid()
    ensures out.written == old(out.written) + SingleSegmentHeader(contentSize, checksum, dictionaryId, magicless)
  {
    ghost var before := out.written;
    WriteMagic(out, magicless);
    var descriptor := Descriptor(SizeFlag(contentSize), true, checksum, IdFlag(dictionaryId));
    WriteFields(out, descriptor, [], IdBytes(dictionaryId), SizeBytes(contentSize));
    LayoutIs(before, magicless, descriptor, [], IdBytes(dictionaryId), SizeBytes(contentSize));
  }

  /** Refused, with nothing usable written, when no descriptor is wide enough. */
  method WriteWindowedHeader(out: OutBuf, windowSize: nat, checksum: bool, dictionaryId: Option<u32>, magicless: bool)
    returns (ok: bool)
    requires out.Valid()
    modifies out, out.buf
    ensures out.Valid() && ok == EncodedWindow(windowSize).Some?
    ensures ok ==> out.written == old(out.written)
                                  + WindowedHeader(EncodedWindow(windowSize).value, checksum, dictionaryId, magicless)
  {
    ghost var before := out.written;
    WriteMagic(out, magicless);
    var descriptor := Descriptor(0, false, checksum, IdFlag(dictionaryId));
    var window := EncodeWindowDescriptor(Max(windowSize, MIN_WINDOW));
    if window == None {
      out.Push(descriptor);
      return false;
    }
    WriteFields(out, descriptor, [window.value], IdBytes(dictionaryId), []);
    LayoutIs(before, magicless, descriptor, [window.value], IdBytes(dictionaryId), []);
    return true;
  }

  lemma SameWindow(windowSize: nat)
    ensures EncodedWindow(Max(windowSize, MIN_WINDOW)) == EncodedWindow(windowSize)
  {
  }

  /** Flag 0 means no size here, so the smallest sizes go out under flag 1. */
  lemma CarriedFields(contentSize: nat)
    ensures if SizeFlag(contentSize) == 0
            then SizeFlag(Carried(contentSize)) == 1 && SizeBytes(Carried(contentSize)) == LeBytes(Max(contentSize - 256, 0), 2)
            else Carried(contentSize) == contentSize
  {
  }

  method WriteWindowedHeaderWithSize(out: OutBuf, windowSize: nat, contentSize: nat, checksum: bool,
                                     dictionaryId: Option<u32>, magicless: bool)
    returns (ok: bool)
    requires out.Valid()
    modifies out, out.buf
    ensures out.Valid() && ok == EncodedWindow(windowSize).Some?
    ensures ok ==> out.written == old(out.written)
                     + WindowedHeaderWithSize(EncodedWindow(windowSize).value, contentSize, checksum, dictionaryId, magicless)
  {
    hide LeBytes;
    hide Descriptor;
    hide SizeFlag;
    hide SizeBytes;
    hide IdBytes;
    hide Magic;
    hide Layout;
    hide EncodedWindow;
    CarriedFields(contentSize);
    SameWindow(windowSize);
    ghost var before := out.written;
    WriteMagic(out, magicless);
    var flag, size := SizeFlag(contentSize), SizeBytes(contentSize);
    if flag == 0 {
      flag, size := 1, LeBytes(Max(contentSize - 256, 0), 2);
    }
    var descriptor := Descriptor(flag, false, checksum, IdFlag(dictionaryId));
    var window := EncodeWindowDescriptor(Max(windowSize, MIN_WINDOW));
    if window == None {
      out.Push(descriptor);
      return false;
    }
    WriteFields(out, descriptor, [window.value], IdBytes(dictionaryId), size);
    LayoutIs(before, magicless, descriptor, [window.value], IdBytes(dictionaryId), size);
    return true;
  }

  // ----- reading back

  lemma FieldAt(before: seq<byte>, field: seq<byte>, after: seq<byte>)
    ensures Field(before + field + after, |before|, |field|) == Some(field)
  {
    assert (before + field + after)[|before|..|before| + |field|] == field;
  }

  /** Where each field of a header is, whatever follows it. */
  lemma LayoutFields(magicless: bool, descriptor: byte, window: seq<byte>, id: seq<byte>, size: seq<byte>, more: seq<byte>)
    ensures var src, at := Layout(magicless, descriptor, window, id, size) + more, |Magic(magicless)|;
            && at < |src| && src[at] == descriptor
            && (window != [] ==> at + 1 < |src| && src[at + 1] == window[0])
            && Field(src, at + 1 + |window|, |id|) == Some(id)
            && Field(src, at + 1 + |window| + |id|, |size|) == Some(size)
  {
    var m, head := Magic(magicless), Magic(magicless) + [descriptor] + window;
    var src := Layout(magicless, descriptor, window, id, size) + more;
    Regroup(head + id, size, more);
    Regroup(head, id, size + more);
    assert src == head + id + (size + more);
    FieldAt(head, id, size + more);
    assert src == (head + id) + size + more;
    FieldAt(head + id, size, more);
  }

  lemma MagicReads(magicless: bool, rest: seq<byte>)
    ensures |Magic(magicless)| == MagicSize(magicless)
    ensures !magicless ==> Le((Magic(magicless) + rest)[..4]) == ZSTD_MAGIC_NUMBER
  {
    if !magicless {
      Ranges();
      LeOfLeBytes(ZSTD_MAGIC_NUMBER, 4);
      assert (Magic(magicless) + rest)[..4] == LeBytes(ZSTD_MAGIC_NUMBER, 4);
    }
  }

  function ContentSizeOf(size: seq<byte>): Option<nat> {
    if size == [] then None else Some(DecodeFrameContentSize(size))
  }

  /** A header of this layout parses to what its fields say. */
  lemma ZstandardParses(magicless: bool, sizeFlag: nat, checksum: bool, idFlag: nat,
                        window: seq<byte>, id: seq<byte>, size: seq<byte>, more: seq<byte>)
    requires sizeFlag < 4 && idFlag < 4 && |window| <= 1
    requires |id| == IdSize(idFlag) && |size| == FcsFieldSize(sizeFlag, window == [])
    ensures var header := Layout(magicless, Descriptor(sizeFlag, window == [], checksum, idFlag), window, id, size);
            var windowSize := if window == [] then DecodeFrameContentSize(size) else DecodeWindowDescriptor(window[0]);
            ParseZstandardHeader(header + more, magicless)
            == Good(Zstandard(ZstandardHeader(
                 |header|, windowSize, Min(windowSize, BLOCK_SIZE_MAX), ContentSizeOf(size),
                 if Le(id) == 0 then None else Some(Le(id)), checksum, window == [])))
  {
    hide Le;
    hide DecodeWindowDescriptor;
    hide DecodeFrameContentSize;
    hide Layout;
    hide Field;
    hide Descriptor;
    hide FcsFlag;
    hide SingleSegment;
    hide HasChecksum;
    hide ReservedBit;
    hide DictionaryIdSize;
    var descriptor := Descriptor(sizeFlag, window == [], checksum, idFlag);
    DescriptorReads(sizeFlag, window == [], checksum, idFlag);
    LayoutFields(magicless, descriptor, window, id, size, more);
    LayoutLength(magicless, descriptor, window, id, size);
  }

  lemma LayoutLength(magicless: bool, descriptor: byte, window: seq<byte>, id: seq<byte>, size: seq<byte>)
    ensures |Magic(magicless)| == MagicSize(magicless)
    ensures |Layout(magicless, descriptor, window, id, size)| == MagicSize(magicless) + 1 + |window| + |id| + |size|
  {
  }

  lemma LayoutParses(magicless: bool, sizeFlag: nat, checksum: bool, idFlag: nat,
                     window: seq<byte>, id: seq<byte>, size: seq<byte>, more: seq<byte>)
    requires sizeFlag < 4 && idFlag < 4 && |window| <= 1
    requires |id| == IdSize(idFlag) && |size| == FcsFieldSize(sizeFlag, window == [])
    ensures var header := Layout(magicless, Descriptor(sizeFlag, window == [], checksum, idFlag), window, id, size);
            ParseFrameHeader(header + more, magicless) == ParseZstandardHeader(header + more, magicless)
  {
    hide Descriptor;
    hide ParseZstandardHeader;
    hide LeBytes;
    hide Le;
    hide FcsFieldSize;
    hide IdSize;
    var descriptor := Descriptor(sizeFlag, window == [], checksum, idFlag);
    var header := Layout(magicless, descriptor, window, id, size);
    var rest := [descriptor] + window + id + size + more;
    assert header + more == Magic(magicless) + rest;
    MagicReads(magicless, rest);
    LayoutLength(magicless, descriptor, window, id, size);
  }

  /** What a reader makes of a dictionary id field. */
  lemma IdReads(dictionaryId: Option<u32>)
    ensures |IdBytes(dictionaryId)| == IdSize(IdFlag(dictionaryId))
    ensures var value := Le(IdBytes(dictionaryId));
            Named(dictionaryId) == if value == 0 then None else Some(value)
  {
    Ranges();
    var id := Named(dictionaryId);
    LeOfLeBytes(if id == None then 0 else id.value, IdSize(IdFlag(dictionaryId)));
  }

  lemma SizeReads(contentSize: nat)
    requires contentSize < U64_MODULUS
    ensures var flag := SizeFlag(contentSize);
            && |SizeBytes(contentSize)| == FcsFieldSize(flag, true)
            && (0 < flag ==> |SizeBytes(contentSize)| == FcsFieldSize(flag, false))
            && DecodeFrameContentSize(SizeBytes(contentSize)) == contentSize
  {
    Ranges();
    var flag := SizeFlag(contentSize);
    if flag == 1 {
      LeOfLeBytes(contentSize - 256, 2);
    } else {
      LeOfLeBytes(contentSize, FcsFieldSize(flag, true));
    }
  }

  /** A single-segment header says the content size, which is also its window. */
  lemma SingleSegmentRoundTrip(contentSize: nat, checksum: bool, dictionaryId: Option<u32>, magicless: bool, more: seq<byte>)
    requires contentSize < U64_MODULUS
    ensures var header := SingleSegmentHeader(contentSize, checksum, dictionaryId, magicless);
            ParseFrameHeader(header + more, magicless)
            == Good(Zstandard(ZstandardHeader(|header|, contentSize, Min(contentSize, 131072), Some(contentSize),
                                              Named(dictionaryId), checksum, true)))
  {
    hide Le;
    hide Layout;
    hide ParseFrameHeader;
    hide ParseZstandardHeader;
    hide SizeBytes;
    hide IdBytes;
    hide DecodeFrameContentSize;
    IdReads(dictionaryId);
    SizeReads(contentSize);
    LayoutParses(magicless, SizeFlag(contentSize), checksum, IdFlag(dictionaryId), [], IdBytes(dictionaryId),
                 SizeBytes(contentSize), more);
    ZstandardParses(magicless, SizeFlag(contentSize), checksum, IdFlag(dictionaryId), [], IdBytes(dictionaryId),
                    SizeBytes(contentSize), more);
  }

  /** A windowed header says the window it encodes, and no content size. */
  lemma WindowedRoundTrip(window: byte, checksum: bool, dictionaryId: Option<u32>, magicless: bool, more: seq<byte>)
    ensures var header, size := WindowedHeader(window, checksum, dictionaryId, magicless), DecodeWindowDescriptor(window);
            ParseFrameHeader(header + more, magicless)
            == Good(Zstandard(ZstandardHeader(|header|, size, Min(size, 131072), None, Named(dictionaryId), checksum, false)))
  {
    hide Le;
    hide Layout;
    hide ParseFrameHeader;
    hide ParseZstandardHeader;
    hide IdBytes;
    hide DecodeWindowDescriptor;
    IdReads(dictionaryId);
    LayoutParses(magicless, 0, checksum, IdFlag(dictionaryId), [window], IdBytes(dictionaryId), [], more);
    ZstandardParses(magicless, 0, checksum, IdFlag(dictionaryId), [window], IdBytes(dictionaryId), [], more);
  }

  /** A windowed header with a content size says its window and the size it can carry. */
  lemma WindowedSizeRoundTrip(window: byte, contentSize: nat, checksum: bool, dictionaryId: Option<u32>, magicless: bool,
                              more: seq<byte>)
    requires contentSize < U64_MODULUS
    ensures var header := WindowedHeaderWithSize(window, contentSize, checksum, dictionaryId, magicless);
            var size := DecodeWindowDescriptor(window);
            ParseFrameHeader(header + more, magicless)
            == Good(Zstandard(ZstandardHeader(|header|, size, Min(size, 131072), Some(Carried(contentSize)),
                                              Named(dictionaryId), checksum, false)))
  {
    hide Le;
    hide Layout;
    hide ParseFrameHeader;
    hide ParseZstandardHeader;
    hide SizeBytes;
    hide IdBytes;
    hide DecodeWindowDescriptor;
    hide DecodeFrameContentSize;
    var carried := Carried(contentSize);
    IdReads(dictionaryId);
    SizeReads(carried);
    LayoutParses(magicless, SizeFlag(carried), checksum, IdFlag(dictionaryId), [window], IdBytes(dictionaryId),
                 SizeBytes(carried), more);
    ZstandardParses(magicless, SizeFlag(carried), checksum, IdFlag(dictionaryId), [window], IdBytes(dictionaryId),
                    SizeBytes(carried), more);
  }

  /** While a written header is incomplete, a reader waits for the rest of it. */
  lemma HeaderIsAwaited(header: seq<byte>, h: ZstandardHeader, magicless: bool, n: nat)
    requires ParseFrameHeader(header, magicless) == Good(Zstandard(h)) && h.headerSize == |header| && n < |header|
    ensures ParseFrameHeader(header[..n], magicless) == Eof
  {
    hide ParseFrameHeader;
    assert header[..n] + header[n..] == header;
    if ParseFrameHeader(header[..n], magicless) != Eof {
      FrameHeaderIsFinal(header[..n], header[n..], magicless);
    }
  }

  /** Four bytes that are no magic number are refused at once. */
  lemma UnknownMagicIsRefused(magic: nat, more: seq<byte>)
    requires magic < U32_MODULUS && magic != 0xFD2F_B528 && !(0x184D_2A50 <= magic < 0x184D_2A60)
    ensures ParseFrameHeader(LeBytes(magic, 4) + more, false) == Bad
  {
    hide Le;
    hide LeBytes;
    Ranges();
    LeOfLeBytes(magic, 4);
    assert (LeBytes(magic, 4) + more)[..4] == LeBytes(magic, 4);
  }

  /** Of a descriptor's two spare bits one must be zero, and the other makes no difference. */
  lemma SpareBits(descriptor: byte, more: seq<byte>)
    ensures descriptor as int / 8 % 2 == 1 ==> ParseFrameHeader([descriptor] + more, true) == Bad
    ensures descriptor as int / 8 % 2 == 0 && descriptor as int / 16 % 2 == 0 ==>
              var r, s := ParseFrameHeader([descriptor] + more, true), ParseFrameHeader([descriptor + 16] + more, true);
              r == s
  {
    if descriptor as int / 8 % 2 == 0 && descriptor as int / 16 % 2 == 0 {
      UnusedBit(descriptor);
      OtherDescriptor(descriptor, descriptor + 16, more);
    }
  }

  lemma UnusedBit(d: byte)
    requires d as int / 16 % 2 == 0
    ensures FcsFlag(d) == FcsFlag(d + 16) && SingleSegment(d) == SingleSegment(d + 16) && HasChecksum(d) == HasChecksum(d + 16)
    ensures ReservedBit(d) == ReservedBit(d + 16) && DictionaryIdSize(d) == DictionaryIdSize(d + 16)
  {
    hide IdSize;
    var high, low := d as int / 32, d as int % 16;
    assert d as int == high * 32 + low;
    HighBits(high, low);
    HighBits(high, low + 16);
    LowBitsAre(high * 2, low);
    LowBitsAre(high * 2 + 1, low);
  }

  lemma HighBits(high: nat, low: nat)
    requires low < 32
    ensures (high * 32 + low) / 32 == high && (high * 32 + low) / 64 == high / 2
  {
    Divided(high * 32 + low, high, low, 32);
    Divided(high * 32 + low, high / 2, high % 2 * 32 + low, 64);
  }

  lemma LowBitsAre(high: nat, low: nat)
    requires low < 16
    ensures (high * 16 + low) / 8 % 2 == low / 8 && (high * 16 + low) / 4 % 2 == low / 4 % 2
    ensures (high * 16 + low) % 4 == low % 4
  {
    Divided(high * 16 + low, high * 2 + low / 8, low % 8, 8);
    Divided(high * 2 + low / 8, high, low / 8, 2);
    Divided(high * 16 + low, high * 4 + low / 4, low % 4, 4);
    Divided(high * 4 + low / 4, high * 2 + low / 8, low / 4 % 2, 2);
  }

  /** A descriptor matters only through its fields. */
  lemma OtherDescriptor(d: byte, e: byte, more: seq<byte>)
    requires FcsFlag(d) == FcsFlag(e) && SingleSegment(d) == SingleSegment(e) && HasChecksum(d) == HasChecksum(e)
    requires ReservedBit(d) == ReservedBit(e) && DictionaryIdSize(d) == DictionaryIdSize(e)
    ensures ParseFrameHeader([d] + more, true) == ParseFrameHeader([e] + more, true)
  {
    hide FcsFlag;
    hide SingleSegment;
    hide HasChecksum;
    hide ReservedBit;
    hide DictionaryIdSize;
    hide FcsFieldSize;
    hide DecodeWindowDescriptor;
    hide DecodeFrameContentSize;
    hide Field;
    var src, other := [d] + more, [e] + more;
    var single := SingleSegment(d);
    var atId, idSize := if single then 1 else 2, DictionaryIdSize(d);
    SameField(d, e, more, atId, idSize);
    SameField(d, e, more, atId + idSize, FcsFieldSize(FcsFlag(d), single));
  }

  lemma SameField(d: byte, e: byte, more: seq<byte>, at: nat, n: nat)
    requires 1 <= at
    ensures Field([d] + more, at, n) == Field([e] + more, at, n)
  {
    if at + n <= 1 + |more| {
      assert ([d] + more)[at..at + n] == ([e] + more)[at..at + n];
    }
  }

  /** The content size a reader of the header is told. */
  function ReadContentSize(src: seq<byte>, magicless: bool): Option<nat> {
    match ParseFrameHeader(src, magicless)
    case Good(Zstandard(h)) => h.contentSize
    case _ => None
  }

  /** Such a header is right about the content size exactly from 256 bytes on. */
  lemma SizeIsExactFrom256(window: byte, contentSize: nat, checksum: bool, dictionaryId: Option<u32>, magicless: bool)
    requires contentSize < U64_MODULUS
    ensures var header := WindowedHeaderWithSize(window, contentSize, checksum, dictionaryId, magicless);
            ReadContentSize(header, magicless) == Some(contentSize) <==> 256 <= contentSize
  {
    hide ParseFrameHeader;
    hide WindowedHeaderWithSize;
    hide DecodeWindowDescriptor;
    WindowedSizeRoundTrip(window, contentSize, checksum, dictionaryId, magicless, []);
    var header := WindowedHeaderWithSize(window, contentSize, checksum, dictionaryId, magicless);
    assert header + [] == header;
  }
}
