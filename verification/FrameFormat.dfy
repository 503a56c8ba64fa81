/**
 Frame and block headers (sections 3.1.1.1, 3.1.1.2 and 3.1.2 of RFC 8878).

 A parser answers one of three things: the header, that the bytes are wrong, or
 that there are too few of them.  The first two answers never change when more
 bytes follow, which is what lets a stream be parsed as it arrives.
 */
module FrameFormat {
  import opened Common

  const ZSTD_MAGIC_NUMBER: nat := 0xFD2F_B528
  const SKIPPABLE_MAGIC_BASE: nat := 0x184D_2A50
  const SKIPPABLE_HEADER_SIZE: nat := 8
  const BLOCK_SIZE_MAX: nat := 131072
  const BLOCK_HEADER_SIZE: nat := 3

  datatype Parsed<+T> = Eof | Bad | Good(value: T)

  /** The first `n` bytes from `at`. */
  function Field(src: seq<byte>, at: nat, n: nat): (r: Option<seq<byte>>)
    ensures r.Some? <==> at + n <= |src|
  {
    if at + n <= |src| then Some(src[at..at + n]) else None
  }

  datatype FrameHeader =
    | Skippable(magicVariant: nat, size: nat)
    | Zstandard(header: ZstandardHeader)

  datatype ZstandardHeader = ZstandardHeader(
    headerSize: nat,
    windowSize: nat,
    blockSizeMax: nat,
    contentSize: Option<nat>,
    dictionaryId: Option<nat>,
    checksum: bool,
    singleSegment: bool)

  // The descriptor byte's fields.
  function FcsFlag(descriptor: byte): nat { descriptor as int / 64 }
  predicate SingleSegment(descriptor: byte) { descriptor as int / 32 % 2 == 1 }
  predicate ReservedBit(descriptor: byte) { descriptor as int / 8 % 2 == 1 }
  predicate HasChecksum(descriptor: byte) { descriptor as int / 4 % 2 == 1 }

  function IdSize(flag: nat): nat {
    if flag == 3 then 4 else flag
  }

  function DictionaryIdSize(descriptor: byte): nat { IdSize(descriptor as int % 4) }

  function FcsFieldSize(flag: nat, singleSegment: bool): nat {
    if flag == 0 then if singleSegment then 1 else 0
    else if flag == 1 then 2 else if flag == 2 then 4 else 8
  }

  function DecodeWindowDescriptor(descriptor: byte): nat {
    var base := Pow2(10 + descriptor as int / 8);
    base + base / 8 * (descriptor as int % 8)
  }

  function DecodeFrameContentSize(field: seq<byte>): nat {
    if |field| == 2 then Le(field) + 256 else Le(field)
  }

  function MagicSize(magicless: bool): nat {
    if magicless then 0 else 4
  }

  function ParseZstandardHeader(src: seq<byte>, magicless: bool): Parsed<FrameHeader> {
    var magicSize := MagicSize(magicless);
    if |src| <= magicSize then Eof
    else if ReservedBit(src[magicSize]) then Bad
    else
      var descriptor := src[magicSize];
      var single := SingleSegment(descriptor);
      var atWindow := magicSize + 1;
      if !single && |src| <= atWindow then Eof
      else
        var atId := if single then atWindow else atWindow + 1;
        var idSize := DictionaryIdSize(descriptor);
        var id := Field(src, atId, idSize);
        if id == None then Eof
        else
          var atSize := atId + idSize;
          var fcsSize := FcsFieldSize(FcsFlag(descriptor), single);
          var fcs := Field(src, atSize, fcsSize);
          if fcs == None then Eof
          else
            var contentSize := if fcsSize == 0 then None else Some(DecodeFrameContentSize(fcs.value));
            var window := if single then contentSize.value else DecodeWindowDescriptor(src[atWindow]);
            Good(Zstandard(ZstandardHeader(
              atSize + fcsSize, window, Min(window, BLOCK_SIZE_MAX), contentSize,
              if Le(id.value) == 0 then None else Some(Le(id.value)), HasChecksum(descriptor), single)))
  }

  function ParseFrameHeader(src: seq<byte>, magicless: bool): (r: Parsed<FrameHeader>)
    ensures r.Good? && r.value.Zstandard? ==> r.value.header.blockSizeMax <= BLOCK_SIZE_MAX
    ensures r.Good? && r.value.Zstandard? ==> MagicSize(magicless) + 1 < r.value.header.headerSize <= |src|
    ensures r.Good? && r.value.Skippable? ==> SKIPPABLE_HEADER_SIZE <= |src|
  {
    if magicless then ParseZstandardHeader(src, magicless)
    else if |src| < 4 then Eof
    else
      var magic := Le(src[..4]);
      if magic == ZSTD_MAGIC_NUMBER then ParseZstandardHeader(src, magicless)
      else if magic / 16 == SKIPPABLE_MAGIC_BASE / 16 then
        if |src| < SKIPPABLE_HEADER_SIZE then Eof
        else Good(Skippable(magic - SKIPPABLE_MAGIC_BASE, Le(src[4..8])))
      else Bad
  }

  datatype BlockType = Raw | Rle | Compressed

  datatype BlockHeader = BlockHeader(lastBlock: bool, blockType: BlockType, blockSize: nat) {
    function PayloadSize(): nat {
      if blockType == Rle then 1 else blockSize
    }
  }

  function ParseBlockHeader(src: seq<byte>): (r: Parsed<BlockHeader>)
    ensures r.Eof? <==> |src| < BLOCK_HEADER_SIZE
  {
    if |src| < BLOCK_HEADER_SIZE then Eof
    else
      var value := Le(src[..BLOCK_HEADER_SIZE]);
      var kind := value / 2 % 4;
      if kind == 3 then Bad
      else Good(BlockHeader(value % 2 == 1, if kind == 0 then Raw else if kind == 1 then Rle else Compressed, value / 8))
  }

  // ----- answers are final

  lemma FieldIsFinal(src: seq<byte>, more: seq<byte>, at: nat, n: nat)
    requires Field(src, at, n).Some?
    ensures Field(src + more, at, n) == Field(src, at, n)
  {
    assert (src + more)[at..at + n] == src[at..at + n];
  }

  lemma ZstandardHeaderIsFinal(src: seq<byte>, more: seq<byte>, magicless: bool)
    requires ParseZstandardHeader(src, magicless) != Eof
    ensures ParseZstandardHeader(src + more, magicless) == ParseZstandardHeader(src, magicless)
  {
    hide Le;
    hide Field;
    hide SingleSegment;
    hide FcsFlag;
    hide FcsFieldSize;
    hide DictionaryIdSize;
    hide ReservedBit;
    hide DecodeWindowDescriptor;
    hide DecodeFrameContentSize;
    hide HasChecksum;
    var magicSize := MagicSize(magicless);
    var descriptor := src[magicSize];
    assert (src + more)[magicSize] == descriptor;
    if !ReservedBit(descriptor) {
      var atId := if SingleSegment(descriptor) then magicSize + 1 else magicSize + 2;
      var idSize := DictionaryIdSize(descriptor);
      FieldIsFinal(src, more, atId, idSize);
      FieldIsFinal(src, more, atId + idSize, FcsFieldSize(FcsFlag(descriptor), SingleSegment(descriptor)));
    }
  }

  lemma FrameHeaderIsFinal(src: seq<byte>, more: seq<byte>, magicless: bool)
    requires ParseFrameHeader(src, magicless) != Eof
    ensures ParseFrameHeader(src + more, magicless) == ParseFrameHeader(src, magicless)
  {
    if magicless {
      ZstandardHeaderIsFinal(src, more, magicless);
    } else {
      assert (src + more)[..4] == src[..4];
      var magic := Le(src[..4]);
      if magic == ZSTD_MAGIC_NUMBER {
        ZstandardHeaderIsFinal(src, more, magicless);
      } else if magic / 16 == SKIPPABLE_MAGIC_BASE / 16 {
        assert (src + more)[4..8] == src[4..8];
      }
    }
  }

  lemma BlockHeaderIsFinal(src: seq<byte>, more: seq<byte>)
    requires ParseBlockHeader(src) != Eof
    ensures ParseBlockHeader(src + more) == ParseBlockHeader(src)
  {
    assert (src + more)[..BLOCK_HEADER_SIZE] == src[..BLOCK_HEADER_SIZE];
  }

  /** What the parser has read of the input when it answers. */
  function HeaderSize(h: FrameHeader): nat {
    if h.Skippable? then SKIPPABLE_HEADER_SIZE else h.header.headerSize
  }

  /** A header depends on no byte past its end. */
  lemma HeaderNeedsItsBytes(src: seq<byte>, magicless: bool)
    requires ParseFrameHeader(src, magicless).Good?
    ensures var n := HeaderSize(ParseFrameHeader(src, magicless).value);
            n <= |src| && ParseFrameHeader(src[..n], magicless) == ParseFrameHeader(src, magicless)
  {
    var n := HeaderSize(ParseFrameHeader(src, magicless).value);
    var t := src[..n];
    if !magicless {
      assert t[..4] == src[..4];
    }
    if !magicless && Le(src[..4]) != ZSTD_MAGIC_NUMBER {
      assert t[4..8] == src[4..8];
    } else {
      ZstandardHeaderNeedsItsBytes(src, magicless);
    }
  }

  lemma FieldNeedsItsBytes(src: seq<byte>, at: nat, n: nat, end: nat)
    requires at + n <= end <= |src|
    ensures Field(src[..end], at, n) == Field(src, at, n)
  {
    assert src[..end][at..at + n] == src[at..at + n];
  }

  lemma ZstandardHeaderNeedsItsBytes(src: seq<byte>, magicless: bool)
    requires ParseZstandardHeader(src, magicless).Good?
    ensures var n := ParseZstandardHeader(src, magicless).value.header.headerSize;
            n <= |src| && ParseZstandardHeader(src[..n], magicless) == ParseZstandardHeader(src, magicless)
  {
    hide Le;
    hide Field;
    hide SingleSegment;
    hide FcsFlag;
    hide FcsFieldSize;
    hide DictionaryIdSize;
    hide ReservedBit;
    hide DecodeWindowDescriptor;
    hide DecodeFrameContentSize;
    hide HasChecksum;
    var n := ParseZstandardHeader(src, magicless).value.header.headerSize;
    var descriptor := src[MagicSize(magicless)];
    var atId := if SingleSegment(descriptor) then MagicSize(magicless) + 1 else MagicSize(magicless) + 2;
    var idSize := DictionaryIdSize(descriptor);
    FieldNeedsItsBytes(src, atId, idSize, n);
    FieldNeedsItsBytes(src, atId + idSize, FcsFieldSize(FcsFlag(descriptor), SingleSegment(descriptor)), n);
  }
}
