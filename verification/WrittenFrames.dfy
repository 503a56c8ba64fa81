/**
 Whole frames, byte by byte, and what they decode to.

 A frame is written outright: its header, stored and repeated blocks under their
 three-byte headers, and four bytes of checksum.  It decodes to its content.  So
 does what the streaming encoder writes when it stores its blocks, and a
 skippable frame is passed over.  Nothing here is said through a reader.
 */
module WrittenFrames {
  import opened Common
  import opened FrameFormat
  import opened BlockSpec
  import opened Repcodes
  import opened Xxh64
  import opened StreamMachine
  import opened FrameOutcome
  import opened HeaderWriters
  import opened BlockWriters
  import E = StreamingEncoding

  // ----- blocks

  datatype Piece = Stored(content: seq<byte>, last: bool) | Repeated(value: byte, count: nat, last: bool) {
    function Content(): seq<byte> {
      if Stored? then content else seq(count, _ => value)
    }

    /** Eight times the size, plus two for a repeated byte, plus one for the last block. */
    function Bytes(): seq<byte>
      requires |Content()| <= BLOCK_SIZE_MAX
    {
      var flag := if last then 1 else 0;
      if Stored? then Three(8 * |content| + flag) + content else Three(8 * count + 2 + flag) + [value]
    }
  }

  predicate Fit(pieces: seq<Piece>, max: nat) {
    forall i :: 0 <= i < |pieces| ==> |pieces[i].Content()| <= max
  }

  function PiecesBytes(pieces: seq<Piece>): seq<byte>
    requires Fit(pieces, BLOCK_SIZE_MAX)
    decreases |pieces|
  {
    if pieces == [] then [] else pieces[0].Bytes() + PiecesBytes(pieces[1..])
  }

  function PiecesContent(pieces: seq<Piece>): seq<byte>
    decreases |pieces|
  {
    if pieces == [] then [] else pieces[0].Content() + PiecesContent(pieces[1..])
  }

  /** The last piece, and no other, is flagged as the last. */
  predicate Closed(pieces: seq<Piece>) {
    pieces != [] && forall i :: 0 <= i < |pieces| ==> (pieces[i].last <==> i == |pieces| - 1)
  }

  /** The header a piece stands for. */
  function HeaderOf(p: Piece): BlockHeader {
    BlockHeader(p.last, if p.Stored? then Raw else Rle, |p.Content()|)
  }

  lemma PieceReads(p: Piece, more: seq<byte>)
    requires |p.Content()| <= BLOCK_SIZE_MAX
    ensures ParseBlockHeader(p.Bytes() + more) == Good(HeaderOf(p))
    ensures var size := HeaderOf(p).PayloadSize();
            && |p.Bytes()| == BLOCK_HEADER_SIZE + size
            && p.Bytes()[BLOCK_HEADER_SIZE..] == if p.Stored? then p.content else [p.value]
  {
    hide Three;
    hide ParseBlockHeader;
    var payload := if p.Stored? then p.content else [p.value];
    Regroup(BlockHeaderBytes(HeaderOf(p)), payload, more);
    BlockHeaderReads(HeaderOf(p), payload + more);
  }

  /** One piece, decoded onto the output. */
  lemma PieceDecodes<T>(cfg: Config<T>, f: OpenFrame<T>, out: seq<byte>, decoded: bool, p: Piece, more: seq<byte>)
    requires cfg.Valid() && f.start <= |out| && f.reps.Valid()
    requires |p.Content()| <= Min(f.header.blockSizeMax, BLOCK_SIZE_MAX)
    requires OutputLimit(0, cfg.maxOutputSize).Allows(|out| + |p.Content()|)
    ensures Outcome(cfg, Machine(AtBlockHeader(f), out, decoded), p.Bytes() + more)
         == AfterBlock(cfg, f, p.last, out + p.Content(), decoded, more)
  {
    hide Outcome;
    hide AfterBlock;
    hide ParseBlockHeader;
    PieceReads(p, more);
    var input, h := p.Bytes() + more, HeaderOf(p);
    OutcomeOfTurn(cfg, Machine(AtBlockHeader(f), out, decoded), input);
    var payload := p.Bytes()[BLOCK_HEADER_SIZE..];
    assert input[BLOCK_HEADER_SIZE..] == payload + more;
    OutcomeOfBlock(cfg, f, h, out, decoded, payload + more);
    assert (payload + more)[..h.PayloadSize()] == payload && (payload + more)[h.PayloadSize()..] == more;
  }

  /** A compressed block: eight times the payload's size, plus four, and the payload; it goes through the parser and is executed. */
  lemma CompressedBlockDecodes<T>(cfg: Config<T>, f: OpenFrame<T>, out: seq<byte>, decoded: bool, payload: seq<byte>, last: bool,
                                  section: Section<T>, grown: seq<byte>, reps: Reps, more: seq<byte>)
    requires cfg.Valid() && f.start <= |out| && f.reps.Valid() && |payload| < 0x20_0000
    requires cfg.parse(f.entropy, payload, f.header.blockSizeMax) == Some(section)
    requires ExecBlock(Frame(f.start, f.header.windowSize, if cfg.dictionary == None then None else Some(cfg.dictionary.value.content)),
                       f.header.blockSizeMax, section.literals, section.commands, out, f.reps,
                       OutputLimit(0, cfg.maxOutputSize), None) == Some((grown, reps))
    ensures Outcome(cfg, Machine(AtBlockHeader(f), out, decoded), Three(8 * |payload| + 4 + (if last then 1 else 0)) + payload + more)
         == AfterBlock(cfg, OpenFrame(f.header, section.entropy, reps, f.start), last, grown, decoded, more)
  {
    hide Outcome;
    hide AfterBlock;
    hide ParseBlockHeader;
    hide ExecBlock;
    var h := BlockHeader(last, Compressed, |payload|);
    var head := BlockHeaderBytes(h);
    assert head == Three(8 * |payload| + 4 + (if last then 1 else 0));
    hide Three;
    BlockHeaderReads(h, payload + more);
    Regroup(head, payload, more);
    OutcomeOfTurn(cfg, Machine(AtBlockHeader(f), out, decoded), head + payload + more);
    assert (head + payload + more)[BLOCK_HEADER_SIZE..] == payload + more;
    OutcomeOfBlock(cfg, f, h, out, decoded, payload + more);
    assert (payload + more)[..|payload|] == payload && (payload + more)[|payload|..] == more;
  }

  lemma {:induction false} PiecesDecode<T>(cfg: Config<T>, f: OpenFrame<T>, out: seq<byte>, decoded: bool, pieces: seq<Piece>,
                                           more: seq<byte>)
    requires cfg.Valid() && f.start <= |out| && f.reps.Valid()
    requires Closed(pieces) && Fit(pieces, Min(f.header.blockSizeMax, BLOCK_SIZE_MAX))
    requires OutputLimit(0, cfg.maxOutputSize).Allows(|out| + |PiecesContent(pieces)|)
    ensures Outcome(cfg, Machine(AtBlockHeader(f), out, decoded), PiecesBytes(pieces) + more)
         == AfterBlock(cfg, f, true, out + PiecesContent(pieces), decoded, more)
    decreases |pieces|
  {
    hide Outcome;
    var p, rest := pieces[0], pieces[1..];
    Regroup(p.Bytes(), PiecesBytes(rest), more);
    Regroup(out, p.Content(), PiecesContent(rest));
    PieceDecodes(cfg, f, out, decoded, p, PiecesBytes(rest) + more);
    if rest == [] {
      assert PiecesBytes(rest) + more == more && out + p.Content() + [] == out + p.Content();
    } else {
      PiecesDecode(cfg, f, out + p.Content(), decoded, rest, more);
    }
  }

  // ----- frames

  /** What stands behind the blocks: nothing, or the low half of the content's digest, least significant byte first. */
  predicate IsTrailer(trailer: seq<byte>, checksum: bool, mixer: Mixer, content: seq<byte>) {
    if checksum then |trailer| == 4 && Le(trailer) == Digest(mixer, content) % U32_MODULUS else trailer == []
  }

  /** The last block of a frame is followed by its checksum; then the frame is over. */
  lemma EndDecodes<T>(cfg: Config<T>, f: OpenFrame<T>, out: seq<byte>, decoded: bool, trailer: seq<byte>, more: seq<byte>)
    requires cfg.Valid() && f.start <= |out| && f.reps.Valid()
    requires IsTrailer(trailer, f.header.checksum, cfg.mixer, out[f.start..])
    requires f.header.contentSize.Some? ==> f.header.contentSize.value == |out| - f.start
    ensures AfterBlock(cfg, f, true, out, decoded, trailer + more) == Outcome(cfg, Machine(AtFrameHeader, out, true), more)
  {
    hide Outcome;
    hide Le;
    hide Digest;
    if f.header.checksum {
      OutcomeOfChecksum(cfg, f, out, decoded, trailer + more);
      assert (trailer + more)[..4] == trailer && (trailer + more)[4..] == more;
    } else {
      assert trailer + more == more;
    }
  }

  /** Behind a header that may be opened, pieces and their trailer are decoded in full. */
  lemma FrameDecodes<T>(cfg: Config<T>, out: seq<byte>, decoded: bool, head: seq<byte>, h: ZstandardHeader,
                        pieces: seq<Piece>, trailer: seq<byte>, more: seq<byte>)
    requires cfg.Valid() && !(cfg.singleFrame && decoded) && Opens(cfg, |out|, h) && |head| == h.headerSize
    requires Closed(pieces) && Fit(pieces, Min(h.blockSizeMax, BLOCK_SIZE_MAX))
    requires ParseFrameHeader(head + (PiecesBytes(pieces) + (trailer + more)), cfg.magicless) == Good(Zstandard(h))
    requires OutputLimit(0, cfg.maxOutputSize).Allows(|out| + |PiecesContent(pieces)|)
    requires h.contentSize.Some? ==> h.contentSize.value == |PiecesContent(pieces)|
    requires IsTrailer(trailer, h.checksum, cfg.mixer, PiecesContent(pieces))
    ensures Outcome(cfg, Machine(AtFrameHeader, out, decoded), head + (PiecesBytes(pieces) + (trailer + more)))
         == Outcome(cfg, Machine(AtFrameHeader, out + PiecesContent(pieces), true), more)
  {
    hide Outcome;
    hide AfterBlock;
    hide ParseFrameHeader;
    hide PiecesBytes;
    hide PiecesContent;
    hide IsTrailer;
    hide Opens;
    var input, f := head + (PiecesBytes(pieces) + (trailer + more)), OpenedFrame(cfg, |out|, h);
    var content := PiecesContent(pieces);
    OpenedFrameIsSound(cfg, |out|);
    OutcomeOfOpening(cfg, out, decoded, h, input);
    assert input[h.headerSize..] == PiecesBytes(pieces) + (trailer + more);
    OpenedAsDeclared(cfg, |out|, h);
    PiecesDecode(cfg, f, out, decoded, pieces, trailer + more);
    assert (out + content)[f.start..] == content;
    EndDecodes(cfg, f, out + content, decoded, trailer, more);
  }

  lemma OpenedAsDeclared<T>(cfg: Config<T>, produced: nat, h: ZstandardHeader)
    ensures OpenedFrame(cfg, produced, h).header == h && OpenedFrame(cfg, produced, h).start == produced
  {
  }

  /** The decoder's limits leave room for a frame of this window that decodes to so much. */
  predicate Permits<T>(cfg: Config<T>, window: nat, produced: nat) {
    && (cfg.maxWindowSize.Some? ==> window <= cfg.maxWindowSize.value)
    && (cfg.maxOutputSize.Some? ==> produced <= cfg.maxOutputSize.value)
  }

  lemma WholeInput<T>(cfg: Config<T>, src: seq<byte>, content: seq<byte>)
    requires cfg.Valid() && src != []
    requires Outcome(cfg, Initial(), src) == Outcome(cfg, Machine(AtFrameHeader, content, true), [])
    ensures Decoded(cfg, src) == Some(content)
  {
    hide Outcome;
    DecodedIsOutcome(cfg, src);
    OutcomeOfNothing(cfg, Machine(AtFrameHeader, content, true));
  }

  /** A single-segment frame of stored and repeated blocks. */
  lemma SingleSegmentFrameDecodes<T>(cfg: Config<T>, pieces: seq<Piece>, checksum: bool, trailer: seq<byte>)
    requires cfg.Valid() && Closed(pieces) && Fit(pieces, 131072)
    requires var content := PiecesContent(pieces);
             |content| < U64_MODULUS && Permits(cfg, |content|, |content|) && IsTrailer(trailer, checksum, cfg.mixer, content)
    ensures var content := PiecesContent(pieces);
            Decoded(cfg, SingleSegmentHeader(|content|, checksum, None, cfg.magicless) + PiecesBytes(pieces) + trailer)
            == Some(content)
  {
    hide Outcome;
    hide ParseFrameHeader;
    hide PiecesBytes;
    hide SingleSegmentHeader;
    hide IsTrailer;
    hide Decoded;
    var content := PiecesContent(pieces);
    var head := SingleSegmentHeader(|content|, checksum, None, cfg.magicless);
    PiecesAreParts(pieces);
    hide PiecesContent;
    SingleSegmentRoundTrip(|content|, checksum, None, cfg.magicless, PiecesBytes(pieces) + (trailer + []));
    var h := ZstandardHeader(|head|, |content|, Min(|content|, BLOCK_SIZE_MAX), Some(|content|), None, checksum, true);
    FrameDecodes(cfg, [], false, head, h, pieces, trailer, []);
    assert trailer + [] == trailer && [] + content == content;
    Regroup(head, PiecesBytes(pieces), trailer);
    HeaderIsThere(|content|, checksum, cfg.magicless);
    WholeInput(cfg, head + PiecesBytes(pieces) + trailer, content);
  }

  lemma HeaderIsThere(contentSize: nat, checksum: bool, magicless: bool)
    ensures SingleSegmentHeader(contentSize, checksum, None, magicless) != []
  {
  }

  lemma {:induction false} PiecesAreParts(pieces: seq<Piece>)
    ensures Fit(pieces, |PiecesContent(pieces)|)
    decreases |pieces|
  {
    if pieces != [] {
      PiecesAreParts(pieces[1..]);
      forall i | 0 <= i < |pieces|
        ensures |pieces[i].Content()| <= |PiecesContent(pieces)|
      {
        if i != 0 {
          assert pieces[i] == pieces[1..][i - 1];
        }
      }
    }
  }

  /** One stored block, one repeated byte, and two stored blocks in a row, byte by byte. */
  lemma SmallFramesDecode<T>(cfg: Config<T>, content: seq<byte>, value: byte, n: nat, second: seq<byte>)
    requires cfg.Valid() && |content| <= 131072 && n <= 131072 && |second| <= 131072
    requires Permits(cfg, |content| + n + |second|, |content| + n + |second|)
    ensures Decoded(cfg, SingleSegmentHeader(|content|, false, None, cfg.magicless) + Three(8 * |content| + 1) + content)
         == Some(content)
    ensures Decoded(cfg, SingleSegmentHeader(n, false, None, cfg.magicless) + Three(8 * n + 3) + [value])
         == Some(seq(n, _ => value))
    ensures Decoded(cfg, SingleSegmentHeader(|content| + |second|, false, None, cfg.magicless)
                         + Three(8 * |content|) + content + Three(8 * |second| + 1) + second)
         == Some(content + second)
  {
    hide Decoded;
    hide SingleSegmentHeader;
    OnePiece(cfg, Stored(content, true));
    OnePiece(cfg, Repeated(value, n, true));
    TwoPieces(cfg, Stored(content, false), Stored(second, true));
    var head := SingleSegmentHeader(|content|, false, None, cfg.magicless);
    Regroup(head, Three(8 * |content| + 1), content);
    head := SingleSegmentHeader(n, false, None, cfg.magicless);
    Regroup(head, Three(8 * n + 3), [value]);
    head := SingleSegmentHeader(|content| + |second|, false, None, cfg.magicless);
    Regroup(head, Three(8 * |content|), content);
    Regroup(head + (Three(8 * |content|) + content), Three(8 * |second| + 1), second);
    Regroup(head, Three(8 * |content|) + content, Three(8 * |second| + 1) + second);
  }

  lemma OnePiece<T>(cfg: Config<T>, p: Piece)
    requires cfg.Valid() && p.last && |p.Content()| <= BLOCK_SIZE_MAX && Permits(cfg, |p.Content()|, |p.Content()|)
    ensures Decoded(cfg, SingleSegmentHeader(|p.Content()|, false, None, cfg.magicless) + p.Bytes()) == Some(p.Content())
  {
    hide Decoded;
    hide SingleSegmentHeader;
    assert [p][1..] == [];
    assert PiecesBytes([p]) == p.Bytes() && PiecesContent([p]) == p.Content();
    SingleSegmentFrameDecodes(cfg, [p], false, []);
    var frame := SingleSegmentHeader(|p.Content()|, false, None, cfg.magicless) + p.Bytes();
    assert frame + [] == frame;
  }

  lemma TwoPieces<T>(cfg: Config<T>, p: Piece, q: Piece)
    requires cfg.Valid() && !p.last && q.last && |p.Content()| <= BLOCK_SIZE_MAX && |q.Content()| <= BLOCK_SIZE_MAX
    requires Permits(cfg, |p.Content()| + |q.Content()|, |p.Content()| + |q.Content()|)
    ensures Decoded(cfg, SingleSegmentHeader(|p.Content()| + |q.Content()|, false, None, cfg.magicless)
                         + (p.Bytes() + q.Bytes()))
         == Some(p.Content() + q.Content())
  {
    hide Decoded;
    hide SingleSegmentHeader;
    assert [p, q][1..] == [q] && [q][1..] == [];
    assert PiecesBytes([q]) == q.Bytes() && PiecesContent([q]) == q.Content();
    assert PiecesBytes([p, q]) == p.Bytes() + q.Bytes() && PiecesContent([p, q]) == p.Content() + q.Content();
    SingleSegmentFrameDecodes(cfg, [p, q], false, []);
    var frame := SingleSegmentHeader(|p.Content()| + |q.Content()|, false, None, cfg.magicless) + (p.Bytes() + q.Bytes());
    assert frame + [] == frame;
  }

  /** Without the flag the frame is not over. */
  lemma UnflaggedIsNotOver<T>(cfg: Config<T>, content: seq<byte>)
    requires cfg.Valid() && |content| <= 131072 && Permits(cfg, |content|, |content|)
    ensures Decoded(cfg, SingleSegmentHeader(|content|, false, None, cfg.magicless) + Three(8 * |content|) + content) == None
  {
    hide Outcome;
    hide ParseFrameHeader;
    hide SingleSegmentHeader;
    hide Decoded;
    var head, p := SingleSegmentHeader(|content|, false, None, cfg.magicless), Stored(content, false);
    var h := ZstandardHeader(|head|, |content|, Min(|content|, BLOCK_SIZE_MAX), Some(|content|), None, false, true);
    var src := head + (p.Bytes() + []);
    Regroup(head, Three(8 * |content|), content);
    assert p.Bytes() + [] == p.Bytes();
    SingleSegmentRoundTrip(|content|, false, None, cfg.magicless, p.Bytes() + []);
    HeaderIsThere(|content|, false, cfg.magicless);
    DecodedIsOutcome(cfg, src);
    OutcomeOfOpening(cfg, [], false, h, src);
    OpenedFrameIsSound(cfg, 0);
    OpenedAsDeclared(cfg, 0, h);
    var f := OpenedFrame(cfg, 0, h);
    assert src[|head|..] == p.Bytes() + [];
    PieceDecodes(cfg, f, [], false, p, []);
    assert [] + content == content;
    OutcomeOfTurn(cfg, Machine(AtBlockHeader(f), content, false), []);
  }

  /** The published way to write "abc" in twelve bytes. */
  lemma TwelveBytesDecode<T>(cfg: Config<T>)
    requires cfg.Valid() && !cfg.magicless && Permits(cfg, 3, 3)
    ensures Decoded(cfg, [0x28, 0xB5, 0x2F, 0xFD, 0x20, 0x03, 0x19, 0x00, 0x00, 97, 98, 99]) == Some([97, 98, 99])
  {
    hide Decoded;
    var content: seq<byte> := [97, 98, 99];
    SmallHeader(3);
    hide SingleSegmentHeader;
    OnePiece(cfg, Stored(content, true));
    assert Three(25) == [0x19, 0x00, 0x00];
    assert [0x28, 0xB5, 0x2F, 0xFD, 0x20, 0x03] + ([0x19, 0x00, 0x00] + content)
        == [0x28, 0xB5, 0x2F, 0xFD, 0x20, 0x03, 0x19, 0x00, 0x00, 97, 98, 99];
  }

  /** The magic number, a descriptor with the single-segment flag alone, and the size. */
  lemma SmallHeader(n: nat)
    requires n <= 255
    ensures SingleSegmentHeader(n, false, None, false) == [0x28, 0xB5, 0x2F, 0xFD, 0x20, n as byte]
  {
    MagicBytes();
    assert LeBytes(0, 0) == [];
    assert LeBytes(n, 1) == [n as byte] + LeBytes(n / 256, 0);
  }

  lemma MagicBytes()
    ensures Magic(false) == [0x28, 0xB5, 0x2F, 0xFD]
  {
    assert LeBytes(0xFD2F_B528, 4) == [0x28] + LeBytes(0xFD_2FB5, 3);
    assert LeBytes(0xFD_2FB5, 3) == [0xB5] + LeBytes(0xFD2F, 2);
    assert LeBytes(0xFD2F, 2) == [0x2F] + LeBytes(0xFD, 1);
    assert LeBytes(0xFD, 1) == [0xFD] + LeBytes(0, 0);
  }

  // ----- skippable frames

  /** One of sixteen magic numbers, a size of four bytes, and that many bytes of anything. */
  function SkippableFrame(variant: nat, payload: seq<byte>): seq<byte>
    requires variant < 16
  {
    LeBytes(0x184D_2A50 + variant, 4) + LeBytes(|payload|, 4) + payload
  }

  lemma SkippableReads(variant: nat, payload: seq<byte>, more: seq<byte>)
    requires variant < 16 && |payload| < U32_MODULUS
    ensures ParseFrameHeader(SkippableFrame(variant, payload) + more, false) == Good(Skippable(variant, |payload|))
    ensures |SkippableFrame(variant, payload)| == SKIPPABLE_HEADER_SIZE + |payload|
  {
    hide Le;
    hide LeBytes;
    var magic, size := LeBytes(0x184D_2A50 + variant, 4), LeBytes(|payload|, 4);
    var src := SkippableFrame(variant, payload) + more;
    Ranges();
    LeOfLeBytes(0x184D_2A50 + variant, 4);
    LeOfLeBytes(|payload|, 4);
    assert src[..4] == magic && src[4..8] == size;
  }

  /** It is passed over, unless one frame alone is wanted. */
  lemma SkippablePasses<T>(cfg: Config<T>, out: seq<byte>, decoded: bool, variant: nat, payload: seq<byte>, more: seq<byte>)
    requires cfg.Valid() && !cfg.magicless && variant < 16 && |payload| < U32_MODULUS
    ensures Outcome(cfg, Machine(AtFrameHeader, out, decoded), SkippableFrame(variant, payload) + more)
         == if cfg.singleFrame then None else Outcome(cfg, Machine(AtFrameHeader, out, decoded), more)
  {
    hide Outcome;
    hide ParseFrameHeader;
    hide SkippableFrame;
    SkippableReads(variant, payload, more);
    var m, frame := Machine(AtFrameHeader, out, decoded), SkippableFrame(variant, payload);
    OutcomeOfTurn(cfg, m, frame + more);
    if !cfg.singleFrame {
      var inside := m.(phase := InSkippable(|payload|));
      assert (frame + more)[SKIPPABLE_HEADER_SIZE..] == frame[SKIPPABLE_HEADER_SIZE..] + more;
      OutcomeOfSkippable(cfg, inside, (frame + more)[SKIPPABLE_HEADER_SIZE..]);
      assert (frame[SKIPPABLE_HEADER_SIZE..] + more)[|payload|..] == more;
      assert inside.(phase := AtFrameHeader) == m;
    }
  }

  // ----- what the encoder writes

  lemma TrailerReads(digest: word)
    ensures |E.Trailer(digest)| == 4 && Le(E.Trailer(digest)) == digest % U32_MODULUS
  {
    hide Le;
    LeOfFour(E.Trailer(digest));
    FourDigits(digest);
  }

  lemma FourDigits(n: nat)
    ensures n % 256 + 0x100 * (n / 256 % 256) + 0x1_0000 * (n / 65536 % 256) + 0x100_0000 * (n / 16777216 % 256)
         == n % U32_MODULUS
  {
    Shifts(n);
    var a, b, c, d := n % 256, n / 256 % 256, n / 65536 % 256, n / 16777216 % 256;
    var rest := n / 16777216 / 256;
    assert n / 16777216 == 256 * rest + d;
    assert n / 65536 == 256 * (n / 16777216) + c;
    assert n / 256 == 256 * (n / 65536) + b;
    Divided(n, rest, a + 0x100 * b + 0x1_0000 * c + 0x100_0000 * d, U32_MODULUS);
  }

  lemma Shifts(n: nat)
    ensures n / 65536 == n / 256 / 256 && n / 16777216 == n / 65536 / 256
  {
  }

  /** The decoder's turn at a checksum accepts what the encoder appends for the same content. */
  lemma TrailerIsAccepted<T>(cfg: Config<T>, f: OpenFrame<T>, total: seq<byte>, decoded: bool, more: seq<byte>)
    requires f.start <= |total| && f.reps.Valid()
    ensures ChecksumTurn(cfg, Machine(AtChecksum(f), total, decoded), E.Trailer(Digest(cfg.mixer, total[f.start..])) + more)
         == FinishFrame(total, f, 4)
  {
    hide Le;
    hide Digest;
    hide E.Trailer;
    var digest := Digest(cfg.mixer, total[f.start..]);
    TrailerReads(digest);
    assert (E.Trailer(digest) + more)[..4] == E.Trailer(digest);
  }

  /** The pieces an encoder's blocks are when it stores them. */
  function StoredPieces(blocks: seq<E.Block>): seq<Piece> {
    seq(|blocks|, i requires 0 <= i < |blocks| => Stored(blocks[i].content, blocks[i].last))
  }

  /** An encoder that stores every block. */
  function StoringCoder(header: seq<byte>, split: (seq<byte>, int) -> nat): E.Coder {
    E.Coder(header, (earlier: seq<E.Block>, block: E.Block) =>
              if |block.content| <= BLOCK_SIZE_MAX then Stored(block.content, block.last).Bytes() else [], split)
  }

  lemma {:induction false} PiecesOneMore(pieces: seq<Piece>, p: Piece)
    requires Fit(pieces, BLOCK_SIZE_MAX) && |p.Content()| <= BLOCK_SIZE_MAX
    ensures Fit(pieces + [p], BLOCK_SIZE_MAX)
    ensures PiecesBytes(pieces + [p]) == PiecesBytes(pieces) + p.Bytes()
    ensures PiecesContent(pieces + [p]) == PiecesContent(pieces) + p.Content()
    decreases |pieces|
  {
    if pieces == [] {
      assert ([] + [p])[1..] == [];
    } else {
      PiecesOneMore(pieces[1..], p);
      assert (pieces + [p])[1..] == pieces[1..] + [p];
      Regroup(pieces[0].Bytes(), PiecesBytes(pieces[1..]), p.Bytes());
      Regroup(pieces[0].Content(), PiecesContent(pieces[1..]), p.Content());
    }
  }

  lemma NoPieces()
    ensures PiecesBytes([]) == [] && PiecesContent([]) == []
  {
  }

  lemma {:induction false} StoredBlocks(header: seq<byte>, split: (seq<byte>, int) -> nat, blocks: seq<E.Block>)
    requires forall i :: 0 <= i < |blocks| ==> |blocks[i].content| <= BLOCK_SIZE_MAX
    ensures Fit(StoredPieces(blocks), BLOCK_SIZE_MAX)
    ensures E.EncodedBytes(StoringCoder(header, split), blocks) == PiecesBytes(StoredPieces(blocks))
    ensures E.ContentOf(blocks) == PiecesContent(StoredPieces(blocks))
    decreases |blocks|
  {
    hide Piece.Bytes;
    hide PiecesBytes;
    hide PiecesContent;
    NoPieces();
    if blocks != [] {
      var earlier, last := blocks[..|blocks| - 1], blocks[|blocks| - 1];
      StoredBlocks(header, split, earlier);
      PiecesOneMore(StoredPieces(earlier), Stored(last.content, last.last));
      assert StoredPieces(blocks) == StoredPieces(earlier) + [Stored(last.content, last.last)];
    }
  }

  /** A frame of well-cut stored blocks under a windowed header decodes to their content. */
  lemma StoredFrameDecodes<T>(cfg: Config<T>, window: byte, split: (seq<byte>, int) -> nat, blocks: seq<E.Block>,
                              blockSize: nat, checksum: bool)
    requires cfg.Valid() && E.WellCut(blocks, blockSize, true)
    requires blockSize <= Min(DecodeWindowDescriptor(window), BLOCK_SIZE_MAX)
    requires Permits(cfg, DecodeWindowDescriptor(window), |E.ContentOf(blocks)|)
    ensures var coder := StoringCoder(WindowedHeader(window, checksum, None, cfg.magicless), split);
            Decoded(cfg, E.FrameBytes(coder, blocks, checksum, cfg.mixer, E.ContentOf(blocks))) == Some(E.ContentOf(blocks))
  {
    hide Outcome;
    hide ParseFrameHeader;
    hide DecodeWindowDescriptor;
    hide WindowedHeader;
    hide Decoded;
    hide E.Trailer;
    hide Digest;
    hide Le;
    hide Piece.Bytes;
    hide E.ContentOf;
    var head, pieces := WindowedHeader(window, checksum, None, cfg.magicless), StoredPieces(blocks);
    var content, size := E.ContentOf(blocks), DecodeWindowDescriptor(window);
    StoredBlocks(head, split, blocks);
    hide PiecesBytes;
    hide PiecesContent;
    var digest := Digest(cfg.mixer, content);
    TrailerReads(digest);
    var trailer := if checksum then E.Trailer(digest) else [];
    WindowedRoundTrip(window, checksum, None, cfg.magicless, PiecesBytes(pieces) + (trailer + []));
    var h := ZstandardHeader(|head|, size, Min(size, BLOCK_SIZE_MAX), None, None, checksum, false);
    FrameDecodes(cfg, [], false, head, h, pieces, trailer, []);
    assert trailer + [] == trailer && [] + content == content;
    Regroup(head, PiecesBytes(pieces), trailer);
    WindowedIsThere(window, checksum, cfg.magicless);
    WholeInput(cfg, head + PiecesBytes(pieces) + trailer, content);
  }

  lemma WindowedIsThere(window: byte, checksum: bool, magicless: bool)
    ensures WindowedHeader(window, checksum, None, magicless) != []
  {
  }

  /** Whatever is pushed, flushed and drained, what an encoder that stores its blocks writes decodes to what was pushed. */
  method EncodeStored<T>(params: E.Params, window: byte, split: (seq<byte>, int) -> nat, requests: seq<E.Request>,
                         ghost cfg: Config<T>, mixer: Mixer, magicless: bool)
    returns (frame: Option<seq<byte>>)
    requires params.Valid() && params.BlockSize() <= Min(DecodeWindowDescriptor(window), BLOCK_SIZE_MAX)
    requires cfg.Valid() && cfg.mixer == mixer && cfg.magicless == magicless
    requires Permits(cfg, DecodeWindowDescriptor(window), |E.PushedBy(requests)|)
    ensures frame.Some? <==> params.pledged == None || params.pledged.value == |E.PushedBy(requests)|
    ensures frame.Some? ==> Decoded(cfg, frame.value) == Some(E.PushedBy(requests))
  {
    hide Decoded;
    hide DecodeWindowDescriptor;
    hide E.FrameBytes;
    hide E.PushedBy;
    hide E.ContentOf;
    hide E.WellCut;
    hide E.Params.BlockSize;
    hide WindowedHeader;
    hide StoringCoder;
    var coder := StoringCoder(WindowedHeader(window, params.checksum, None, magicless), split);
    ghost var blocks;
    frame, blocks := E.EncodeByRequests(params, coder, mixer, requests);
    if frame.Some? {
      StoredFrameDecodes(cfg, window, split, blocks, params.BlockSize(), params.checksum);
    }
  }
}
