/**
 One compressed block, from its bytes to the output.

 The three stages keep their own state across the blocks of a frame.  Together
 they do what a block means: the literals and commands that the bytes say, given
 the tables of the frame so far, executed on the history.  This is the parser
 that the frame decoders are built on.
 */
module CompressedBlock {
  import opened Common
  import opened Repcodes
  import opened BlockSpec
  import opened DecodeOutput
  import L = Literals
  import T = SequenceTables
  import Executor
  import StreamMachine
  import FrameAgreement

  /** The entropy decoders: `H` for Huffman tables, `C` for counts, `D` and `S` for the tables of sequences. */
  datatype Codec<!H, !C, !D, !S> = Codec(
    huffman: L.Huffman<H>,
    builders: T.Builders<C, D, S>,
    sequences: ((S, S, S), seq<byte>, nat) -> Option<seq<Command>>)
  {
    /** The commands a bitstream holds: as many as were announced, and no match shorter than the shortest. */
    function Commands(tables: (S, S, S), bitstream: seq<byte>, count: nat): (r: Option<seq<Command>>)
      ensures r.Some? ==> |r.value| == count
      ensures r.Some? ==> forall i :: 0 <= i < |r.value| ==> Executor.MATCH_LENGTH_MIN <= r.value[i].matchLength
    {
      var r := sequences(tables, bitstream, count);
      if r.Some? && |r.value| == count
         && forall i :: 0 <= i < |r.value| ==> Executor.MATCH_LENGTH_MIN <= r.value[i].matchLength
      then r else None
    }
  }

  /** What the blocks of a frame leave each other: the Huffman table, and where the sequence tables come from. */
  datatype Entropy<H, C, D> = Entropy(table: Option<H>, sources: T.Sources<C, D>)

  /** What a block's bytes say, given the tables of the frame so far. */
  function ParseBlock<H, C, D, S>(codec: Codec<H, C, D, S>, e: Entropy<H, C, D>, src: seq<byte>, blockSizeMax: nat)
    : Option<StreamMachine.Section<Entropy<H, C, D>>>
  {
    var literals := L.ReadLiterals(codec.huffman, e.table, src, blockSizeMax);
    if literals == None || literals.value.consumed > |src| then None
    else
      var section := src[literals.value.consumed..];
      match T.ReadSection(codec.builders, section)
      case None => None
      case Some(NoSequences(size)) =>
        if size != |section| then None
        else Some(StreamMachine.Section(literals.value.literals, [], Entropy(literals.value.table, e.sources)))
      case Some(Sequences(count, size, said)) =>
        var heard := T.AllHeard(codec.builders, T.DecodingOnly, e.sources, said);
        if heard == None || T.Tables(codec.builders, heard.value) == None || size > |section| then None
        else
          match codec.Commands(T.Tables(codec.builders, heard.value).value, section[size..], count)
          case None => None
          case Some(commands) =>
            Some(StreamMachine.Section(literals.value.literals, commands, Entropy(literals.value.table, heard.value)))
  }

  /** The parser as the frame decoders take it. */
  function Parser<H, C, D, S>(codec: Codec<H, C, D, S>)
    : (Entropy<H, C, D>, seq<byte>, nat) -> Option<StreamMachine.Section<Entropy<H, C, D>>>
  {
    (e: Entropy<H, C, D>, src: seq<byte>, blockSizeMax: nat) => ParseBlock(codec, e, src, blockSizeMax)
  }

  /** A block of no bytes is refused, and no block's literals exceed a block. */
  lemma ParsedBlockFits<H, C, D, S>(codec: Codec<H, C, D, S>, e: Entropy<H, C, D>, src: seq<byte>, blockSizeMax: nat)
    ensures var r := ParseBlock(codec, e, src, blockSizeMax);
            r.Some? ==> src != [] && |r.value.literals| <= blockSizeMax
  {
    L.SectionFits(codec.huffman, e.table, src, blockSizeMax);
  }

  lemma ParserNeedsPayload<H(!new), C(!new), D(!new), S(!new)>(codec: Codec<H, C, D, S>,
                                                               cfg: StreamMachine.Config<Entropy<H, C, D>>)
    requires cfg.parse == Parser(codec)
    ensures FrameAgreement.NeedsPayload(cfg)
  {
    forall e: Entropy<H, C, D>, n: nat
      ensures cfg.parse(e, [], n) == None
    {
      ParsedBlockFits(codec, e, [], n);
    }
  }

  /** The decoder state of a frame between blocks. */
  ghost function EntropyOf<H(!new), C(!new), D(!new), S(!new)>(literals: L.LiteralsDecoder<H>,
                                                              tables: T.SequenceTablesState<C, D, S>): Entropy<H, C, D>
    reads literals, tables.ll, tables.of, tables.ml
  {
    Entropy(literals.table, tables.Latest())
  }

  /** The commands of a parsed sequence section. */
  method ReadCommands<H(!new), C(!new), D(!new), S(!new)>(codec: Codec<H, C, D, S>, section: seq<byte>,
                                                          tables: T.SequenceTablesState<C, D, S>)
    returns (commands: Option<seq<Command>>)
    requires tables.Valid(codec.builders)
    modifies tables.ll, tables.of, tables.ml
    ensures match T.ReadSection(codec.builders, section)
            case None => commands == None
            case Some(NoSequences(size)) =>
              if size != |section| then commands == None
              else commands == Some([]) && tables.Valid(codec.builders) && tables.Latest() == old(tables.Latest())
            case Some(Sequences(count, size, said)) =>
              var heard := T.AllHeard(codec.builders, T.DecodingOnly, old(tables.Latest()), said);
              if heard == None || T.Tables(codec.builders, heard.value) == None || size > |section| then commands == None
              else
                && commands == codec.Commands(T.Tables(codec.builders, heard.value).value, section[size..], count)
                && tables.Valid(codec.builders) && tables.Latest() == heard.value
  {
    hide T.ReadSection;
    hide T.AllHeard;
    hide T.Tables;
    hide T.SequenceTablesState.Valid;
    hide T.SequenceTablesState.Latest;
    var parsed := tables.ParseSequenceSection(codec.builders, section, T.DecodingOnly);
    if parsed == None {
      return None;
    }
    var (count, size) := parsed.value;
    if count == 0 {
      return if size == |section| then Some([]) else None;
    }
    var current := tables.DecodeSetup(codec.builders);
    if current == None || size > |section| {
      return None;
    }
    commands := codec.Commands(current.value, section[size..], count);
  }

  /** Decode a block and execute it. */
  method DecodeCompressedBlock<H(!new), C(!new), D(!new), S(!new)>(
      codec: Codec<H, C, D, S>, src: seq<byte>, blockSizeMax: nat, f: Frame, literals: L.LiteralsDecoder<H>,
      tables: T.SequenceTablesState<C, D, S>, reps: RepeatOffsets, out: DecodeOut, limit: OutputLimit)
    returns (ok: bool)
    requires literals.huffman == codec.huffman && tables.Valid(codec.builders) && reps.values.Valid()
    requires out.Valid() && f.start <= out.len && blockSizeMax <= USIZE_MAX
    requires Executor.SentinelOutOfReach(f, out.len + blockSizeMax)
    modifies literals, tables.ll, tables.of, tables.ml, reps, out, out.buf
    ensures out.Valid() && out.SameDestination()
    ensures var parsed := ParseBlock(codec, old(EntropyOf(literals, tables)), src, blockSizeMax);
            if parsed == None then !ok
            else
              var expected := ExecBlock(f, blockSizeMax, parsed.value.literals, parsed.value.commands, old(out.Contents()),
                                        old(reps.values), limit, old(out.Capacity()));
              && ok == expected.Some?
              && (ok ==> && (out.Contents(), reps.values) == expected.value
                         && tables.Valid(codec.builders) && EntropyOf(literals, tables) == parsed.value.entropy)
  {
    hide ExecBlock;
    hide L.ReadLiterals;
    hide T.ReadSection;
    hide T.AllHeard;
    hide T.Tables;
    hide T.SequenceTablesState.Valid;
    hide T.SequenceTablesState.Latest;
    var decoded := literals.DecodeLiteralsSection(src, blockSizeMax);
    if decoded == None {
      return false;
    }
    var (consumed, plain) := decoded.value;
    var commands := ReadCommands(codec, src[consumed..], tables);
    if commands == None {
      return false;
    }
    ok := Executor.DecodeAndExecuteSequences(out, f, blockSizeMax, plain, commands.value, reps, limit);
  }
}
