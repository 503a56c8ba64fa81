/**
 A block's literals (section 3.1.1.3.1 of RFC 8878), and the bytes behind them.

 The executor copies literals in units of 16 and so reads up to 16 bytes past the
 last one.  Each of the three ways to decode a literals section has to leave that
 much readable: in the input itself, or in the scratch buffer.
 */
module Literals {
  import opened Common
  import opened FrameFormat

  const LITERAL_OVERREAD_HEADROOM: nat := 16

  datatype DecodedLiterals = DecodedLiterals(padded: seq<byte>, len: nat) {
    ghost predicate Valid() {
      len + LITERAL_OVERREAD_HEADROOM <= |padded|
    }

    function AsSlice(): seq<byte>
      requires Valid()
    {
      padded[..len]
    }
  }

  /** The Huffman decoder: `H` stands for its tables. */
  datatype Huffman<!H> = Huffman(
    readTable: (bool, nat, seq<byte>) -> Option<(H, nat)>,              // four streams, literals, payload
    decompress: (bool, H, seq<byte>, nat) -> Option<seq<byte>>)         // four streams, table, streams, literals
  {
    /** What the streams decode to, which is as long as was asked for. */
    function Streams(fourStreams: bool, table: H, streams: seq<byte>, n: nat): (r: Option<seq<byte>>)
      ensures r.Some? ==> |r.value| == n
    {
      var r := decompress(fourStreams, table, streams, n);
      if r.Some? && |r.value| == n then r else None
    }
  }

  // ----- headers

  datatype Header = Header(headerSize: nat, regeneratedSize: nat, compressedSize: nat, fourStreams: bool)

  function SizeFormat(first: byte): nat {
    first as int / 4 % 4
  }

  /** The size of a raw or repeated section. */
  function PlainHeader(src: seq<byte>): (r: Option<Header>)
    ensures r.Some? ==> r.value.headerSize <= |src|
  {
    if src == [] then None
    else
      match SizeFormat(src[0])
      case 1 => if |src| < 2 then None else Some(Header(2, Le(src[..2]) / 16, 0, false))
      case 3 => if |src| < 3 then None else Some(Header(3, Le(src[..3]) / 16, 0, false))
      case _ => Some(Header(1, src[0] as int / 8, 0, false))
  }

  /** A field of `value` of so many bits from a power of two on. */
  function Bits(value: nat, from: nat, range: nat): nat
    requires 0 < from && 0 < range
  {
    value / from % range
  }

  function CompressedHeader(src: seq<byte>): (r: Option<Header>)
    ensures r.Some? ==> r.value.headerSize <= |src| && 0 < r.value.compressedSize
  {
    if src == [] then None
    else
      var format := SizeFormat(src[0]);
      var size := if format <= 1 then 3 else if format == 2 then 4 else 5;
      if |src| < size then None
      else
        var value := Le(src[..size]);
        var header := if format <= 1 then Header(size, Bits(value, 16, 0x400), Bits(value, 0x4000, 0x400), format == 1)
                      else if format == 2 then Header(size, Bits(value, 16, 0x4000), Bits(value, 0x4_0000, 0x4000), true)
                      else Header(size, Bits(value, 16, 0x4_0000), Bits(value, 0x40_0000, 0x4_0000), true);
        if header.compressedSize == 0 || (header.fourStreams && header.compressedSize < 10) then None else Some(header)
  }

  // ----- what a section says

  /** What a section decodes to: how far it goes, its literals, and the table it leaves. */
  datatype Section<H> = Section(consumed: nat, literals: seq<byte>, table: Option<H>)

  function RawSection<H>(table: Option<H>, src: seq<byte>, blockSizeMax: nat): Option<Section<H>> {
    match PlainHeader(src)
    case None => None
    case Some(h) =>
      var end := h.headerSize + h.regeneratedSize;
      if h.regeneratedSize > blockSizeMax || end > |src| then None
      else Some(Section(end, src[h.headerSize..end], table))
  }

  function RleSection<H>(table: Option<H>, src: seq<byte>, blockSizeMax: nat): Option<Section<H>> {
    match PlainHeader(src)
    case None => None
    case Some(h) =>
      if h.regeneratedSize > blockSizeMax || h.headerSize >= |src| then None
      else Some(Section(h.headerSize + 1, seq(h.regeneratedSize, _ => src[h.headerSize]), table))
  }

  /** A section that brings its own table, or one that uses the last. */
  function HuffmanSection<H>(huffman: Huffman<H>, table: Option<H>, ownTable: bool, src: seq<byte>, blockSizeMax: nat)
    : Option<Section<H>>
  {
    match CompressedHeader(src)
    case None => None
    case Some(h) =>
      var end := h.headerSize + h.compressedSize;
      if h.regeneratedSize > blockSizeMax || end > |src| then None
      else
        var payload := src[h.headerSize..end];
        var own := if ownTable then huffman.readTable(h.fourStreams, h.regeneratedSize, payload)
                   else if table == None then None else Some((table.value, 0));
        if own == None || own.value.1 >= |payload| then None
        else
          match huffman.Streams(h.fourStreams, own.value.0, payload[own.value.1..], h.regeneratedSize)
          case None => None
          case Some(literals) => Some(Section(end, literals, Some(own.value.0)))
  }

  function ReadLiterals<H>(huffman: Huffman<H>, table: Option<H>, src: seq<byte>, blockSizeMax: nat): Option<Section<H>> {
    if src == [] then None
    else
      match src[0] as int % 4
      case 0 => RawSection(table, src, blockSizeMax)
      case 1 => RleSection(table, src, blockSizeMax)
      case kind => HuffmanSection(huffman, table, kind == 2, src, blockSizeMax)
  }

  /** A section lies within its block's bytes, of which there is at least one, and its literals within a block. */
  lemma SectionFits<H>(huffman: Huffman<H>, table: Option<H>, src: seq<byte>, blockSizeMax: nat)
    ensures var r := ReadLiterals(huffman, table, src, blockSizeMax);
            r.Some? ==> 0 < r.value.consumed <= |src| && |r.value.literals| <= blockSizeMax
  {
  }

  // ----- decoding

  /** The state and the buffer kept across blocks. */
  class LiteralsDecoder<H(!new)> {
    const huffman: Huffman<H>
    var table: Option<H>
    var scratch: seq<byte>

    constructor (huffman: Huffman<H>, table: Option<H>)
      ensures this.huffman == huffman && this.table == table
    {
      this.huffman := huffman;
      this.table := table;
      scratch := [];
    }

    /** The literals were decoded as the section says, with the headroom behind them. */
    ghost predicate Decoded(r: Option<(nat, DecodedLiterals)>, expected: Option<Section<H>>)
      reads this
    {
      if expected == None then r == None
      else
        && r.Some? && r.value.0 == expected.value.consumed && r.value.1.Valid()
        && r.value.1.AsSlice() == expected.value.literals && table == expected.value.table
    }

    method DecodeRawLiterals(src: seq<byte>, blockSizeMax: nat) returns (r: Option<(nat, DecodedLiterals)>)
      modifies this`scratch
      ensures Decoded(r, RawSection(table, src, blockSizeMax))
    {
      hide PlainHeader;
      var header := PlainHeader(src);
      if header == None || header.value.regeneratedSize > blockSizeMax {
        return None;
      }
      var start, n := header.value.headerSize, header.value.regeneratedSize;
      var end: nat := start + n;
      if end > |src| {
        return None;
      }
      if end + LITERAL_OVERREAD_HEADROOM <= |src| {
        assert src[start..end + LITERAL_OVERREAD_HEADROOM][..n] == src[start..end];
        return Some((end, DecodedLiterals(src[start..end + LITERAL_OVERREAD_HEADROOM], n)));
      }
      scratch := src[start..end] + seq(LITERAL_OVERREAD_HEADROOM, _ => 0);
      return Some((end, DecodedLiterals(scratch, n)));
    }

    method DecodeRleLiterals(src: seq<byte>, blockSizeMax: nat) returns (r: Option<(nat, DecodedLiterals)>)
      modifies this`scratch
      ensures Decoded(r, RleSection(table, src, blockSizeMax))
    {
      hide PlainHeader;
      var header := PlainHeader(src);
      if header == None || header.value.regeneratedSize > blockSizeMax {
        return None;
      }
      var start, n := header.value.headerSize, header.value.regeneratedSize;
      if start >= |src| {
        return None;
      }
      scratch := seq(n, _ => src[start]);
      scratch := scratch + seq(LITERAL_OVERREAD_HEADROOM, _ => 0);
      assert scratch[..n] == seq(n, _ => src[start]);
      return Some((start + 1, DecodedLiterals(scratch, n)));
    }

    /** Decode into the front of the scratch buffer, which only ever grows. */
    method DecodeStreams(fourStreams: bool, own: H, streams: seq<byte>, n: nat) returns (literals: Option<DecodedLiterals>)
      modifies this`scratch
      ensures var expected := huffman.Streams(fourStreams, own, streams, n);
              if expected == None then literals == None
              else literals.Some? && literals.value.Valid() && literals.value.AsSlice() == expected.value
    {
      if |scratch| < n + LITERAL_OVERREAD_HEADROOM {
        scratch := scratch + seq(n + LITERAL_OVERREAD_HEADROOM - |scratch|, _ => 0);
      }
      var decoded := huffman.Streams(fourStreams, own, streams, n);
      if decoded == None {
        return None;
      }
      scratch := decoded.value + scratch[n..];
      assert scratch[..n] == decoded.value;
      return Some(DecodedLiterals(scratch, n));
    }

    /** The section brings a table that cannot be read. */
    predicate BadTable(src: seq<byte>, blockSizeMax: nat) {
      match CompressedHeader(src)
      case None => false
      case Some(h) =>
        var end := h.headerSize + h.compressedSize;
        && h.regeneratedSize <= blockSizeMax && end <= |src|
        && huffman.readTable(h.fourStreams, h.regeneratedSize, src[h.headerSize..end]) == None
    }

    method DecodeHuffmanLiterals(src: seq<byte>, ownTable: bool, blockSizeMax: nat) returns (r: Option<(nat, DecodedLiterals)>)
      modifies this
      ensures Decoded(r, HuffmanSection(huffman, old(table), ownTable, src, blockSizeMax))
      ensures ownTable && BadTable(src, blockSizeMax) ==> table == None
    {
      hide CompressedHeader;
      var header := CompressedHeader(src);
      if header == None || header.value.regeneratedSize > blockSizeMax {
        return None;
      }
      var Header(headerSize, n, compressedSize, fourStreams) := header.value;
      var end := headerSize + compressedSize;
      if end > |src| {
        return None;
      }
      var payload := src[headerSize..end];
      var tableSize := 0;
      if ownTable {
        var read := huffman.readTable(fourStreams, n, payload);
        if read == None {
          table := None;
          return None;
        }
        table := Some(read.value.0);
        tableSize := read.value.1;
      }
      if table == None || tableSize >= |payload| {
        return None;
      }
      var literals := DecodeStreams(fourStreams, table.value, payload[tableSize..], n);
      if literals == None {
        return None;
      }
      return Some((end, literals.value));
    }

    method DecodeLiteralsSection(src: seq<byte>, blockSizeMax: nat) returns (r: Option<(nat, DecodedLiterals)>)
      modifies this
      ensures Decoded(r, ReadLiterals(huffman, old(table), src, blockSizeMax))
      ensures r.Some? ==> 0 < r.value.0 <= |src| && r.value.1.len <= blockSizeMax
    {
      SectionFits(huffman, table, src, blockSizeMax);
      if src == [] {
        return None;
      }
      match src[0] as int % 4
      case 0 => r := DecodeRawLiterals(src, blockSizeMax);
      case 1 => r := DecodeRleLiterals(src, blockSizeMax);
      case kind => r := DecodeHuffmanLiterals(src, kind == 2, blockSizeMax);
    }
  }
}
