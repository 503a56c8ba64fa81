/**
 Writing the headers inside a frame: of blocks (section 3.1.1.2 of RFC 8878), of
 literals (3.1.1.3.1) and of sequences (3.1.1.3.2).

 Each writer says its bytes outright, and what it writes is read back as what it
 was given, whatever follows.  So the readers mean what the format says, and not
 only the same thing everywhere.
 */
module BlockWriters {
  import opened Common
  import opened FrameFormat
  import opened OutputBuffer
  import L = Literals
  import T = SequenceTables
  import B = CompressedBlock
  import Repcodes
  import StreamMachine

  /** Three bytes, least significant first. */
  function Three(value: nat): (bytes: seq<byte>)
    requires value < 0x100_0000
    ensures |bytes| == 3
  {
    [(value % 256) as byte, (value / 256 % 256) as byte, (value / 65536) as byte]
  }

  lemma ThreeReads(value: nat, more: seq<byte>)
    requires value < 0x100_0000
    ensures Le((Three(value) + more)[..3]) == value
  {
    var s := Three(value);
    assert (s + more)[..3] == s;
    LeOfThree(s);
  }

  lemma LeOfThree(s: seq<byte>)
    requires |s| == 3
    ensures Le(s) == s[0] as int + 0x100 * s[1] as int + 0x1_0000 * s[2] as int
  {
    assert s[1..][1..] == s[2..] && s[2..][1..] == [];
    assert Le(s[2..]) == s[2] as int;
    assert Le(s[1..]) == s[1] as int + 256 * Le(s[2..]);
  }

  // ----- blocks

  function BlockHeaderBytes(h: BlockHeader): seq<byte>
    requires h.blockSize < 0x20_0000
  {
    var kind := match h.blockType case Raw => 0 case Rle => 1 case Compressed => 2;
    Three((if h.lastBlock then 1 else 0) + 2 * kind + 8 * h.blockSize)
  }

  lemma HeaderFields(last: nat, kind: nat, size: nat)
    requires last < 2 && kind < 4
    ensures var value := last + 2 * kind + 8 * size; value % 2 == last && value / 2 % 4 == kind && value / 8 == size
  {
  }

  lemma BlockHeaderReads(h: BlockHeader, more: seq<byte>)
    requires h.blockSize < 0x20_0000
    ensures ParseBlockHeader(BlockHeaderBytes(h) + more) == Good(h)
  {
    hide Le;
    hide Three;
    var last, kind := if h.lastBlock then 1 else 0, match h.blockType case Raw => 0 case Rle => 1 case Compressed => 2;
    HeaderFields(last, kind, h.blockSize);
    ThreeReads(last + 2 * kind + 8 * h.blockSize, more);
  }

  /** Three bytes are a block header exactly when their kind is not the reserved one, and of just one header. */
  lemma BlockHeaderIsWritten(src: seq<byte>)
    requires BLOCK_HEADER_SIZE <= |src|
    ensures ParseBlockHeader(src).Bad? <==> src[0] as int / 2 % 4 == 3
    ensures ParseBlockHeader(src).Good? ==>
              var h := ParseBlockHeader(src).value;
              h.blockSize < 0x20_0000 && src[..3] == BlockHeaderBytes(h)
  {
    hide Le;
    hide Three;
    var s := src[..3];
    var value := Le(s);
    ThreeIsWritten(s);
    assert s[0] == src[0] && s[1] == src[1] && s[2] == src[2] && s == src[..BLOCK_HEADER_SIZE];
    var rest := src[1] as int + 0x100 * src[2] as int;
    LowBits(src[0] as int, rest);
    assert value == src[0] as int + 256 * rest && value / 2 % 4 == src[0] as int / 2 % 4;
    FieldsOf(value);
  }

  lemma Digits(a: nat, b: nat, c: nat)
    requires a < 256 && b < 256 && c < 256
    ensures var n := a + 0x100 * b + 0x1_0000 * c;
            n < 0x100_0000 && n % 256 == a && n / 256 % 256 == b && n / 65536 == c && (n - a) / 256 == b + 0x100 * c
  {
  }

  lemma ThreeIsWritten(s: seq<byte>)
    requires |s| == 3
    ensures Le(s) < 0x100_0000 && s == Three(Le(s))
    ensures Le(s) == s[0] as int + 256 * (s[1] as int + 0x100 * s[2] as int)
  {
    hide Le;
    LeOfThree(s);
    Digits(s[0] as int, s[1] as int, s[2] as int);
  }

  lemma FieldsOf(value: nat)
    requires value < 0x100_0000
    ensures value == value % 2 + 2 * (value / 2 % 4) + 8 * (value / 8) && value / 8 < 0x20_0000
  {
  }

  lemma LowBits(low: nat, rest: nat)
    ensures (low + 256 * rest) / 2 % 4 == low / 2 % 4
  {
    var half := low / 2;
    assert (low + 256 * rest) / 2 == half + 128 * rest;
    Divided(half + 128 * rest, half / 4 + 32 * rest, half % 4, 4);
  }

  method WriteBlockHeader(out: OutBuf, h: BlockHeader)
    requires out.Valid() && h.blockSize < 0x20_0000
    modifies out, out.buf
    ensures out.Valid() && out.written == old(out.written) + BlockHeaderBytes(h)
  {
    out.Extend(BlockHeaderBytes(h));
  }

  /** Fill a placeholder once the payload's size is known. */
  method BackfillBlockHeader(out: OutBuf, pos: nat, h: BlockHeader)
    requires out.Valid() && h.blockSize < 0x20_0000 && pos + 3 <= |out.written|
    modifies out, out.buf
    ensures out.Valid() && out.written == Splice(old(out.written), pos, BlockHeaderBytes(h))
  {
    out.WriteAt(pos, BlockHeaderBytes(h));
  }

  // ----- literals

  /** The header of `n` raw or repeated literals, in one, two or three bytes. */
  function PlainLiteralsHeader(repeated: bool, n: nat): seq<byte>
    requires n < 0x10_0000
  {
    var kind := if repeated then 1 else 0;
    if n <= 31 then [(kind + 8 * n) as byte]
    else if n <= 0xFFF then
      var value := kind + 4 + 16 * n;
      [(value % 256) as byte, (value / 256) as byte]
    else Three(kind + 12 + 16 * n)
  }

  /** The low four bits of a header, and what is above them. */
  lemma AboveFour(kind: nat, format: nat, n: nat)
    requires kind < 4 && format < 4
    ensures var value := kind + 4 * format + 16 * n;
            value / 16 == n && value % 256 % 4 == kind && value % 256 / 4 % 4 == format
  {
    var value, low := kind + 4 * format + 16 * n, n % 16;
    Divided(value, n, kind + 4 * format, 16);
    Divided(value, n / 16, kind + 4 * format + 16 * low, 256);
    Divided(kind + 4 * format + 16 * low, format + 4 * low, kind, 4);
    Divided(format + 4 * low, low, format, 4);
  }

  lemma PlainLiteralsHeaderReads(repeated: bool, n: nat, more: seq<byte>)
    requires n < 0x10_0000
    ensures var header := PlainLiteralsHeader(repeated, n);
            && 0 < |header| && header[0] as int % 4 == (if repeated then 1 else 0)
            && L.PlainHeader(header + more) == Some(L.Header(|header|, n, 0, false))
  {
    hide Le;
    var header, kind := PlainLiteralsHeader(repeated, n), if repeated then 1 else 0;
    assert (header + more)[0] == header[0];
    if n <= 31 {
      OneByteHeader(kind, n);
    } else if n <= 0xFFF {
      LeOfTwo(header);
      AboveFour(kind, 1, n);
      assert (header + more)[..2] == header;
    } else {
      ThreeReads(kind + 12 + 16 * n, more);
      AboveFour(kind, 3, n);
    }
  }

  lemma OneByteHeader(kind: nat, n: nat)
    requires kind < 2 && n <= 31
    ensures var value := kind + 8 * n; value % 4 == kind && value / 8 == n && (value / 4 % 4 == 0 || value / 4 % 4 == 2)
  {
  }

  lemma LeOfTwo(s: seq<byte>)
    requires |s| == 2
    ensures Le(s) == s[0] as int + 0x100 * s[1] as int
  {
    assert s[1..][1..] == [];
    assert Le(s[1..]) == s[1] as int;
  }

  /** Raw literals are themselves. */
  lemma RawLiteralsRead<H>(huffman: L.Huffman<H>, table: Option<H>, content: seq<byte>, more: seq<byte>, blockSizeMax: nat)
    requires |content| <= blockSizeMax && |content| < 0x10_0000
    ensures var header := PlainLiteralsHeader(false, |content|);
            L.ReadLiterals(huffman, table, header + content + more, blockSizeMax)
            == Some(L.Section(|header| + |content|, content, table))
  {
    hide L.PlainHeader;
    var header := PlainLiteralsHeader(false, |content|);
    var src := header + content + more;
    PlainLiteralsHeaderReads(false, |content|, content + more);
    Regroup(header, content, more);
    assert src[|header|..|header| + |content|] == content;
  }

  /** One byte stands for as many as the header says. */
  lemma RleLiteralsRead<H>(huffman: L.Huffman<H>, table: Option<H>, value: byte, n: nat, more: seq<byte>, blockSizeMax: nat)
    requires n <= blockSizeMax && n < 0x10_0000
    ensures var header := PlainLiteralsHeader(true, n);
            L.ReadLiterals(huffman, table, header + [value] + more, blockSizeMax)
            == Some(L.Section(|header| + 1, seq(n, _ => value), table))
  {
    hide L.PlainHeader;
    var header := PlainLiteralsHeader(true, n);
    var src := header + [value] + more;
    PlainLiteralsHeaderReads(true, n, [value] + more);
    Regroup(header, [value], more);
    assert src[|header|] == value;
  }

  /** How many bits each size has in a Huffman section's header, and how long that is. */
  function SizeBits(format: nat): nat { if format <= 1 then 0x400 else if format == 2 then 0x4000 else 0x4_0000 }
  function HuffmanHeaderSize(format: nat): nat { if format <= 1 then 3 else if format == 2 then 4 else 5 }

  predicate HuffmanSizes(format: nat, regenerated: nat, compressed: nat) {
    && format < 4 && regenerated < SizeBits(format) && compressed < SizeBits(format)
    && 0 < compressed && (format != 0 ==> 10 <= compressed)
  }

  /** The header of a Huffman section: the kind, the format, then both sizes. */
  function HuffmanLiteralsHeader(ownTable: bool, format: nat, regenerated: nat, compressed: nat): seq<byte>
    requires HuffmanSizes(format, regenerated, compressed)
  {
    LeBytes((if ownTable then 2 else 3) + 4 * format + 16 * regenerated + 16 * SizeBits(format) * compressed,
            HuffmanHeaderSize(format))
  }

  lemma TwoSizesOf10(low: nat, n: nat, m: nat)
    requires low < 16 && n < 0x400 && m < 0x400
    ensures var value := low + 16 * n + 16 * 0x400 * m;
            value / 16 % 0x400 == n && value / 0x4000 % 0x400 == m && value < 0x100_0000 && value / 16 == n + 0x400 * m
  {
  }

  lemma TwoSizesOf14(low: nat, n: nat, m: nat)
    requires low < 16 && n < 0x4000 && m < 0x4000
    ensures var value := low + 16 * n + 16 * 0x4000 * m;
            value / 16 % 0x4000 == n && value / 0x4_0000 % 0x4000 == m && value < 0x1_0000_0000 && value / 16 == n + 0x4000 * m
  {
  }

  lemma TwoSizesOf18(low: nat, n: nat, m: nat)
    requires low < 16 && n < 0x4_0000 && m < 0x4_0000
    ensures var value := low + 16 * n + 16 * 0x4_0000 * m;
            && value / 16 % 0x4_0000 == n && value / 0x40_0000 % 0x4_0000 == m && value < 0x100_0000_0000
            && value / 16 == n + 0x4_0000 * m
  {
  }

  lemma HuffmanRanges()
    ensures Range(3) == 0x100_0000 && Range(4) == 0x1_0000_0000 && Range(5) == 0x100_0000_0000
  {
    Ranges();
    assert Range(3) == 256 * Range(2);
    assert Range(5) == 256 * Range(4);
  }

  /** The number a header is, by its fields. */
  lemma HuffmanFields(low: nat, format: nat, regenerated: nat, compressed: nat)
    requires low < 16 && format < 4 && regenerated < SizeBits(format) && compressed < SizeBits(format)
    ensures var value := low + 16 * regenerated + 16 * SizeBits(format) * compressed;
            && value < Range(HuffmanHeaderSize(format)) && value == low + 16 * (value / 16)
            && value / 16 % SizeBits(format) == regenerated
            && value / (16 * SizeBits(format)) % SizeBits(format) == compressed
  {
    hide Range;
    HuffmanRanges();
    if format <= 1 {
      TwoSizesOf10(low, regenerated, compressed);
    } else if format == 2 {
      TwoSizesOf14(low, regenerated, compressed);
    } else {
      TwoSizesOf18(low, regenerated, compressed);
    }
  }

  lemma LeBytesFirst(n: nat, size: nat)
    requires 0 < size
    ensures LeBytes(n, size)[0] as int == n % 256
  {
  }

  /** Both sizes are read as written, and refused when there are no bytes, or four streams in fewer than ten. */
  lemma HuffmanHeaderReads(kind: nat, format: nat, regenerated: nat, compressed: nat, more: seq<byte>)
    requires kind < 4 && format < 4 && regenerated < SizeBits(format) && compressed < SizeBits(format)
    ensures var size := HuffmanHeaderSize(format);
            var header := LeBytes(kind + 4 * format + 16 * regenerated + 16 * SizeBits(format) * compressed, size);
            && header[0] as int % 4 == kind
            && L.CompressedHeader(header + more)
            == if compressed == 0 || (format != 0 && compressed < 10) then None
               else Some(L.Header(size, regenerated, compressed, format != 0))
  {
    hide Le;
    hide LeBytes;
    hide L.Bits;
    hide L.SizeFormat;
    var size, value := HuffmanHeaderSize(format), kind + 4 * format + 16 * regenerated + 16 * SizeBits(format) * compressed;
    var header := LeBytes(value, size);
    HuffmanParts(kind, format, regenerated, compressed);
    assert (header + more)[..size] == header && (header + more)[0] == header[0];
  }

  /** What a reader takes such a header apart into. */
  lemma HuffmanParts(kind: nat, format: nat, regenerated: nat, compressed: nat)
    requires kind < 4 && format < 4 && regenerated < SizeBits(format) && compressed < SizeBits(format)
    ensures var value := kind + 4 * format + 16 * regenerated + 16 * SizeBits(format) * compressed;
            var header := LeBytes(value, HuffmanHeaderSize(format));
            && Le(header) == value && header[0] as int % 4 == kind && L.SizeFormat(header[0]) == format
            && L.Bits(value, 16, SizeBits(format)) == regenerated
            && L.Bits(value, 16 * SizeBits(format), SizeBits(format)) == compressed
  {
    hide Le;
    hide LeBytes;
    hide Range;
    hide SizeBits;
    var size, value := HuffmanHeaderSize(format), kind + 4 * format + 16 * regenerated + 16 * SizeBits(format) * compressed;
    HuffmanFields(kind + 4 * format, format, regenerated, compressed);
    LeOfLeBytes(value, size);
    LeBytesFirst(value, size);
    AboveFour(kind, format, value / 16);
  }

  /** A Huffman section with its own table, or with the last one. */
  lemma HuffmanLiteralsRead<H>(huffman: L.Huffman<H>, table: Option<H>, ownTable: bool, format: nat, regenerated: nat,
                               payload: seq<byte>, more: seq<byte>, blockSizeMax: nat, own: H, tableSize: nat,
                               literals: seq<byte>)
    requires HuffmanSizes(format, regenerated, |payload|) && regenerated <= blockSizeMax
    requires if ownTable then huffman.readTable(format != 0, regenerated, payload) == Some((own, tableSize))
             else table == Some(own) && tableSize == 0
    requires tableSize < |payload|
    requires huffman.decompress(format != 0, own, payload[tableSize..], regenerated) == Some(literals)
    requires |literals| == regenerated
    ensures var header := HuffmanLiteralsHeader(ownTable, format, regenerated, |payload|);
            L.ReadLiterals(huffman, table, header + payload + more, blockSizeMax)
            == Some(L.Section(|header| + |payload|, literals, Some(own)))
  {
    hide L.CompressedHeader;
    hide LeBytes;
    var header := HuffmanLiteralsHeader(ownTable, format, regenerated, |payload|);
    HuffmanHeaderReads(if ownTable then 2 else 3, format, regenerated, |payload|, payload + more);
    Regroup(header, payload, more);
    assert (header + payload + more)[|header|..|header| + |payload|] == payload;
    assert (header + payload + more)[0] == header[0];
  }

  method PushThree(out: OutBuf, value: nat)
    requires out.Valid() && value < 0x100_0000
    modifies out, out.buf
    ensures out.Valid() && out.written == old(out.written) + Three(value)
  {
    out.Push((value % 256) as byte);
    out.Push((value / 256 % 256) as byte);
    out.Push((value / 65536) as byte);
  }

  method AppendPlainLiteralsHeader(out: OutBuf, repeated: bool, n: nat)
    requires out.Valid() && n < 0x10_0000
    modifies out, out.buf
    ensures out.Valid() && out.written == old(out.written) + PlainLiteralsHeader(repeated, n)
  {
    var kind := if repeated then 1 else 0;
    if n <= 31 {
      out.Push((kind + 8 * n) as byte);
    } else if n <= 0xFFF {
      var value := kind + 4 + 16 * n;
      PushTwo(out, value % 256, value / 256);
    } else {
      PushThree(out, kind + 12 + 16 * n);
    }
  }

  // ----- sequences

  /** How many sequences, in one, two or three bytes: the two-byte form has its high byte first, the other its low. */
  function CountBytes(n: nat): seq<byte>
    requires n < 0x1_7F00
  {
    if n < 128 then [n as byte]
    else if n < 0x7F00 then [(128 + n / 256) as byte, (n % 256) as byte]
    else [255, ((n - 0x7F00) % 256) as byte, ((n - 0x7F00) / 256) as byte]
  }

  lemma CountReads(n: nat, more: seq<byte>)
    requires n < 0x1_7F00
    ensures T.ReadCount(CountBytes(n) + more) == Some((n, |CountBytes(n)|))
  {
    var s := CountBytes(n) + more;
    assert s[0] == CountBytes(n)[0];
    if 128 <= n {
      assert s[1] == CountBytes(n)[1];
    }
    if 0x7F00 <= n {
      assert s[2] == CountBytes(n)[2];
    }
  }

  /** What the first bytes count, read off directly. */
  function Counted(bytes: seq<byte>): Option<nat> {
    var r := T.ReadCount(bytes);
    if r == None then None else Some(r.value.0)
  }

  /** The longer forms count up from their first value, the second byte of two and the first of three turning fastest. */
  lemma CountsInOrder(high: byte, low: byte, more: seq<byte>)
    ensures Counted([128, 0] + more) == Some(0) && Counted([255, 0, 0] + more) == Some(0x7F00)
    ensures 128 <= high < 255 && low < 255 ==>
              Counted([high, low + 1] + more).value == Counted([high, low] + more).value + 1
    ensures 128 <= high < 254 ==> Counted([high + 1, 0] + more).value == Counted([high, 255] + more).value + 1
    ensures low < 255 ==> Counted([255, low + 1, high] + more).value == Counted([255, low, high] + more).value + 1
    ensures high < 255 ==> Counted([255, 0, high + 1] + more).value == Counted([255, 255, high] + more).value + 1
  {
  }

  method PushTwo(out: OutBuf, first: nat, second: nat)
    requires out.Valid() && first < 256 && second < 256
    modifies out, out.buf
    ensures out.Valid() && out.written == old(out.written) + [first as byte, second as byte]
  {
    out.Push(first as byte);
    out.Push(second as byte);
  }

  method EncodeSequenceCount(out: OutBuf, n: nat) returns (ok: bool)
    requires out.Valid()
    modifies out, out.buf
    ensures out.Valid() && (ok <==> n < 0x1_7F00)
    ensures out.written == if ok then old(out.written) + CountBytes(n) else old(out.written)
  {
    if n >= 0x1_0000 + 0x7F00 {
      return false;
    }
    if n < 128 {
      out.Push(n as byte);
    } else if n < 0x7F00 {
      PushTwo(out, 128 + n / 256, n % 256);
    } else {
      var value := n - 0x7F00;
      out.Push(255);
      PushTwo(out, value % 256, value / 256 % 256);
    }
    return true;
  }

  /** What a section says about one part, and the bytes that say it. */
  datatype Choice<C> = Choice(said: Option<T.Declaration<C>>, header: seq<byte>)

  function ModeBits<C>(said: Option<T.Declaration<C>>): (bits: nat)
    ensures bits < 4
  {
    match said
    case Some(UsesPredefined) => 0
    case Some(UsesRle(_)) => 1
    case Some(UsesCounts(_)) => 2
    case None => 3
  }

  /** The largest code each part has. */
  function LargestCode(part: T.Part): byte {
    match part
    case LiteralLength => 35
    case Offset => 31
    case MatchLength => 52
  }

  ghost predicate Describes<C(!new), D, S>(b: T.Builders<C, D, S>, part: T.Part, choice: Choice<C>) {
    match choice.said
    case Some(UsesRle(symbol)) => choice.header == [symbol] && symbol <= LargestCode(part)
    case Some(UsesCounts(counts)) => forall more: seq<byte> ::
        b.readCounts(part, choice.header + more) == Some((counts, |choice.header|))
    case _ => choice.header == []
  }

  function SectionHead<C>(count: nat, ll: Choice<C>, of: Choice<C>, ml: Choice<C>): seq<byte>
    requires count < 0x1_7F00
  {
    CountBytes(count) + [(64 * ModeBits(ll.said) + 16 * ModeBits(of.said) + 4 * ModeBits(ml.said)) as byte]
  }

  /** A section: the count, a byte of modes, what each part's mode needs, and then the bitstream. */
  function SectionBytes<C>(count: nat, ll: Choice<C>, of: Choice<C>, ml: Choice<C>): seq<byte>
    requires count < 0x1_7F00
  {
    SectionHead(count, ll, of, ml) + ll.header + of.header + ml.header
  }

  lemma ModesRead(a: nat, b: nat, c: nat)
    requires a < 4 && b < 4 && c < 4
    ensures var modes := 64 * a + 16 * b + 4 * c;
            modes < 256 && modes % 4 == 0 && modes / 64 % 4 == a && modes / 16 % 4 == b && modes / 4 % 4 == c
  {
  }

  /** One part's header is read as what it describes, wherever it stands. */
  lemma ChoiceReads<C(!new), D, S>(b: T.Builders<C, D, S>, part: T.Part, choice: Choice<C>, bits: nat,
                                   before: seq<byte>, more: seq<byte>)
    requires Describes(b, part, choice) && bits % 4 == ModeBits(choice.said)
    ensures T.ReadDeclaration(b, part, T.ModeOf(bits), before + choice.header + more, |before|)
         == Some((choice.said, |before| + |choice.header|))
  {
    var src := before + choice.header + more;
    Regroup(before, choice.header, more);
    assert src[|before|..] == choice.header + more;
    if choice.said.Some? && choice.said.value.UsesRle? {
      assert src[|before|] == choice.header[0];
    }
  }

  /** A written section is read as what was written, if a bitstream follows. */
  lemma SectionReads<C(!new), D, S>(b: T.Builders<C, D, S>, count: nat, ll: Choice<C>, of: Choice<C>, ml: Choice<C>,
                                    bitstream: seq<byte>)
    requires 0 < count < 0x1_7F00 && bitstream != []
    requires Describes(b, T.LiteralLength, ll) && Describes(b, T.Offset, of) && Describes(b, T.MatchLength, ml)
    ensures T.ReadSection(b, SectionBytes(count, ll, of, ml) + bitstream)
         == Some(T.Sequences(count, |SectionBytes(count, ll, of, ml)|, T.Said(ll.said, of.said, ml.said)))
  {
    hide T.ReadCount;
    hide T.ReadDeclaration;
    hide T.ModeOf;
    hide CountBytes;
    hide Describes;
    hide ModeBits;
    var head, src := SectionHead(count, ll, of, ml), SectionBytes(count, ll, of, ml) + bitstream;
    var modes := 64 * ModeBits(ll.said) + 16 * ModeBits(of.said) + 4 * ModeBits(ml.said);
    ModesRead(ModeBits(ll.said), ModeBits(of.said), ModeBits(ml.said));
    SectionParts(head, ll.header, of.header, ml.header, bitstream);
    assert src == CountBytes(count) + ([modes as byte] + ll.header + of.header + ml.header + bitstream);
    CountReads(count, [modes as byte] + ll.header + of.header + ml.header + bitstream);
    assert src[|CountBytes(count)|] == modes as byte;
    ChoiceReads(b, T.LiteralLength, ll, modes / 64, head, of.header + ml.header + bitstream);
    ChoiceReads(b, T.Offset, of, modes / 16, head + ll.header, ml.header + bitstream);
    ChoiceReads(b, T.MatchLength, ml, modes / 4, head + ll.header + of.header, bitstream);
  }

  lemma SectionParts(head: seq<byte>, a: seq<byte>, b: seq<byte>, c: seq<byte>, rest: seq<byte>)
    ensures head + a + b + c + rest == head + a + (b + c + rest)
    ensures head + a + b + c + rest == (head + a) + b + (c + rest)
  {
  }

  /** Without sequences a section is its count; the two unassigned bits of the modes must be zero; codes are bounded. */
  lemma SectionRefusals<C, D, S>(b: T.Builders<C, D, S>, part: T.Part, count: nat, modes: byte, symbol: byte, more: seq<byte>)
    requires 0 < count < 0x1_7F00
    ensures T.ReadSection(b, [0] + more) == Some(T.NoSequences(1))
    ensures modes as int % 4 != 0 ==> T.ReadSection(b, CountBytes(count) + [modes] + more) == None
    ensures LargestCode(part) < symbol ==> T.ReadDeclaration(b, part, T.ModeOf(1), [symbol] + more, 0) == None
  {
    hide T.ReadDeclaration;
    Regroup(CountBytes(count), [modes], more);
    CountReads(count, [modes] + more);
    hide CountBytes;
    assert (CountBytes(count) + [modes] + more)[|CountBytes(count)|] == modes;
    if LargestCode(part) < symbol {
      CodeIsBounded(b, part, symbol, more);
    }
  }

  lemma CodeIsBounded<C, D, S>(b: T.Builders<C, D, S>, part: T.Part, symbol: byte, more: seq<byte>)
    requires LargestCode(part) < symbol
    ensures T.ReadDeclaration(b, part, T.ModeOf(1), [symbol] + more, 0) == None
  {
    assert ([symbol] + more)[0] == symbol;
  }

  // ----- whole compressed blocks

  /** A block of raw literals and no sequences. */
  lemma LiteralBlockReads<H, C, D, S>(codec: B.Codec<H, C, D, S>, e: B.Entropy<H, C, D>, content: seq<byte>, blockSizeMax: nat)
    requires |content| <= blockSizeMax && |content| < 0x10_0000
    ensures B.ParseBlock(codec, e, PlainLiteralsHeader(false, |content|) + content + [0], blockSizeMax)
         == Some(StreamMachine.Section(content, [], e))
  {
    hide L.ReadLiterals;
    hide PlainLiteralsHeader;
    var plain := PlainLiteralsHeader(false, |content|) + content;
    RawLiteralsRead(codec.huffman, e.table, content, [0], blockSizeMax);
    assert (plain + [0])[|plain|..] == [0] == [0] + [];
    NoSequencesRead(codec.builders, []);
  }

  lemma NoSequencesRead<C, D, S>(b: T.Builders<C, D, S>, more: seq<byte>)
    ensures T.ReadSection(b, [0] + more) == Some(T.NoSequences(1))
  {
  }

  /**
   A block of raw literals and sequences, given what its bitstream holds under the tables its section names:
   refused exactly when that is more or fewer commands than announced, or has a match shorter than three bytes.
   */
  lemma SequenceBlockReads<H, C(!new), D, S>(
      codec: B.Codec<H, C, D, S>, e: B.Entropy<H, C, D>, content: seq<byte>, count: nat,
      ll: Choice<C>, of: Choice<C>, ml: Choice<C>, bitstream: seq<byte>, blockSizeMax: nat,
      sources: T.Sources<C, D>, tables: (S, S, S), commands: seq<Repcodes.Command>)
    requires |content| <= blockSizeMax && |content| < 0x10_0000 && 0 < count < 0x1_7F00 && bitstream != []
    requires Describes(codec.builders, T.LiteralLength, ll) && Describes(codec.builders, T.Offset, of)
    requires Describes(codec.builders, T.MatchLength, ml)
    requires T.AllHeard(codec.builders, T.DecodingOnly, e.sources, T.Said(ll.said, of.said, ml.said)) == Some(sources)
    requires T.Tables(codec.builders, sources) == Some(tables)
    requires codec.sequences(tables, bitstream, count) == Some(commands)
    ensures B.ParseBlock(codec, e, PlainLiteralsHeader(false, |content|) + content
                                   + (SectionBytes(count, ll, of, ml) + bitstream), blockSizeMax)
         == if |commands| == count && forall i :: 0 <= i < |commands| ==> 3 <= commands[i].matchLength
            then Some(StreamMachine.Section(content, commands, B.Entropy(e.table, sources)))
            else None
  {
    hide L.ReadLiterals;
    hide PlainLiteralsHeader;
    hide T.ReadSection;
    hide T.AllHeard;
    hide T.Tables;
    hide SectionBytes;
    hide Describes;
    var plain, section := PlainLiteralsHeader(false, |content|) + content, SectionBytes(count, ll, of, ml);
    RawLiteralsRead(codec.huffman, e.table, content, section + bitstream, blockSizeMax);
    SectionReads(codec.builders, count, ll, of, ml, bitstream);
    assert (plain + (section + bitstream))[|plain|..] == section + bitstream;
    assert (section + bitstream)[|section|..] == bitstream;
  }
}
