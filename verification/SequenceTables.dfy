/**
 The cached tables of the sequence decoder.

 Each of the three parts of a sequence keeps a plain table, a decoding table built
 from it or from the block directly, and two flags that say which is current and
 whether there is one at all.  Through any run of blocks what a part decodes with
 is the table of its latest declaration in the frame, or the dictionary's.
 */
module SequenceTables {
  import opened Common

  datatype Part = LiteralLength | Offset | MatchLength {
    function MaxSymbolValue(): byte {
      match this
      case LiteralLength => 35
      case Offset => 31
      case MatchLength => 52
    }
  }

  datatype Mode = Predefined | Rle | FseCompressed | Repeat

  function ModeOf(bits: nat): Mode {
    if bits % 4 == 0 then Predefined else if bits % 4 == 1 then Rle else if bits % 4 == 2 then FseCompressed else Repeat
  }

  /** What a block may say about a part's table: `C` stands for normalized counts. */
  datatype Declaration<C> = UsesPredefined | UsesRle(symbol: byte) | UsesCounts(counts: C)

  /** The table builders: `D` stands for plain tables and `S` for decoding tables. */
  datatype Builders<!C, !D, !S> = Builders(
    readCounts: (Part, seq<byte>) -> Option<(C, nat)>,
    plain: (Part, Declaration<C>) -> Option<D>,
    direct: (Part, Declaration<C>) -> Option<S>,
    convert: (Part, D) -> S,
    blank: S)

  /** Which tables a caller reads. */
  datatype Target = DecodingOnly | Both

  // ----- what a block says

  /** One part's declaration, if it is not a repeat, and where it ends; None when it is malformed. */
  function ReadDeclaration<C, D, S>(b: Builders<C, D, S>, part: Part, mode: Mode, src: seq<byte>, cursor: nat)
    : (r: Option<(Option<Declaration<C>>, nat)>)
    ensures r.Some? && cursor <= |src| ==> cursor <= r.value.1 <= |src|
    ensures r.Some? ==> (r.value.0 == None <==> mode == Repeat)
  {
    match mode
    case Predefined => Some((Some(UsesPredefined), cursor))
    case Rle =>
      if cursor >= |src| || src[cursor] > part.MaxSymbolValue() then None
      else Some((Some(UsesRle(src[cursor])), cursor + 1))
    case FseCompressed =>
      if cursor > |src| then None
      else
        var read := b.readCounts(part, src[cursor..]);
        if read == None || cursor + read.value.1 > |src| then None
        else Some((Some(UsesCounts(read.value.0)), cursor + read.value.1))
    case Repeat => Some((None, cursor))
  }

  /** What the three parts' tables were last declared to be; the dictionary comes before the frame's first block. */
  datatype Source<C, D> = FromDictionary(table: D) | Declared(declaration: Declaration<C>)

  function TableOf<C, D, S>(b: Builders<C, D, S>, part: Part, source: Source<C, D>): Option<S> {
    match source
    case FromDictionary(table) => Some(b.convert(part, table))
    case Declared(declaration) => b.direct(part, declaration)
  }

  /** The latest source once a block has been heard; None when it repeats what there is not, or cannot be built. */
  function Heard<C, D, S>(b: Builders<C, D, S>, part: Part, target: Target, latest: Option<Source<C, D>>, said: Option<Declaration<C>>)
    : Option<Source<C, D>>
  {
    if said == None then latest
    else if b.direct(part, said.value) == None || (target == Both && b.plain(part, said.value) == None) then None
    else Some(Declared(said.value))
  }

  // ----- one part

  class PartTables<C(!new), D(!new), S(!new)> {
    const part: Part
    var slot: Option<D>
    var table: S
    var dirty: bool
    var has: bool

    /** Where the part's table came from, and whether every section so far also kept the plain one. */
    ghost var latest: Option<Source<C, D>>
    ghost var kept: bool

    ghost predicate Valid(b: Builders<C, D, S>)
      reads this
    {
      && has == latest.Some?
      && match latest
         case None => dirty && slot == None
         case Some(FromDictionary(d)) => slot == Some(d) && (dirty || table == b.convert(part, d))
         case Some(Declared(x)) =>
           !dirty && b.direct(part, x) == Some(table) && (kept ==> slot == b.plain(part, x) && slot.Some?)
    }

    constructor (b: Builders<C, D, S>, part: Part, dictionary: Option<D>)
      ensures Valid(b) && this.part == part && kept
      ensures latest == if dictionary == None then None else Some(FromDictionary(dictionary.value))
    {
      this.part := part;
      slot := dictionary;
      table := b.blank;
      dirty := true;
      has := dictionary.Some?;
      latest := if dictionary == None then None else Some(FromDictionary(dictionary.value));
      kept := true;
    }

    /** Build from a declaration: the decoding table, and the plain one if it is wanted. */
    method Build(b: Builders<C, D, S>, declaration: Declaration<C>, target: Target) returns (ok: bool)
      requires Valid(b)
      modifies this
      ensures ok <==> Heard(b, part, target, latest, Some(declaration)).Some?
      ensures ok ==> Valid(b) && latest == Some(Declared(declaration)) && kept == (old(kept) && target == Both)
    {
      if target == Both {
        var plain := b.plain(part, declaration);
        if plain == None {
          return false;
        }
        slot := plain;
      } else {
        slot := None;
      }
      var direct := b.direct(part, declaration);
      if direct == None {
        return false;
      }
      table := direct.value;
      has := true;
      dirty := false;
      latest := Some(Declared(declaration));
      kept := kept && target == Both;
      return true;
    }

    /** Read the part's declaration at `cursor`; the cursor behind it, or None. */
    method Decode(b: Builders<C, D, S>, src: seq<byte>, cursor: nat, mode: Mode, target: Target) returns (next: Option<nat>)
      requires Valid(b) && cursor <= |src|
      modifies this
      ensures var read := ReadDeclaration(b, part, mode, src, cursor);
              var heard := if read == None then None else Heard(b, part, target, old(latest), read.value.0);
              if heard == None then next == None
              else next == Some(read.value.1) && Valid(b) && latest == heard
                   && kept == (old(kept) && (read.value.0 == None || target == Both))
    {
      var declaration: Declaration<C>;
      var end := cursor;
      match mode {
        case Predefined =>
          declaration := UsesPredefined;
        case Rle =>
          if cursor == |src| || src[cursor] > part.MaxSymbolValue() {
            return None;
          }
          declaration := UsesRle(src[cursor]);
          end := cursor + 1;
        case FseCompressed =>
          var read := b.readCounts(part, src[cursor..]);
          if read == None || cursor + read.value.1 > |src| {
            return None;
          }
          declaration := UsesCounts(read.value.0);
          end := cursor + read.value.1;
        case Repeat =>
          return if has then Some(cursor) else None;
      }
      var ok := Build(b, declaration, target);
      return if ok then Some(end) else None;
    }

    /** Bring the decoding table up to date; None when there is nothing to decode with. */
    method Setup(b: Builders<C, D, S>) returns (current: Option<S>)
      requires Valid(b)
      modifies this
      ensures Valid(b) && latest == old(latest) && kept == old(kept)
      ensures current == if latest == None then None else TableOf(b, part, latest.value)
      ensures latest.Some? ==> current.Some?
    {
      if dirty {
        if slot == None {
          return None;
        }
        table := b.convert(part, slot.value);
        dirty := false;
        has := true;
      } else if !has {
        return None;
      }
      return Some(table);
    }
  }

  // ----- a block's sequence section

  /** The number of sequences, and how many bytes say so. */
  function ReadCount(src: seq<byte>): (r: Option<(nat, nat)>)
    ensures r.Some? ==> 0 < r.value.1 <= |src|
  {
    if src == [] then None
    else
      var first := src[0] as int;
      if first < 128 then Some((first, 1))
      else if first < 255 then if |src| < 2 then None else Some(((first - 128) * 256 + src[1] as int, 2))
      else if |src| < 3 then None
      else Some((0x7F00 + src[1] as int + src[2] as int * 256, 3))
  }

  /** What a section says about each part's table. */
  datatype Said<C> = Said(literalLengths: Option<Declaration<C>>, offsets: Option<Declaration<C>>,
                          matchLengths: Option<Declaration<C>>)
  {
    function About(part: Part): Option<Declaration<C>> {
      match part
      case LiteralLength => literalLengths
      case Offset => offsets
      case MatchLength => matchLengths
    }
  }

  datatype Section<C> =
    | NoSequences(headerSize: nat)
    | Sequences(count: nat, headerSize: nat, said: Said<C>)

  function ReadSection<C, D, S>(b: Builders<C, D, S>, src: seq<byte>): Option<Section<C>> {
    var count := ReadCount(src);
    if count == None then None
    else if count.value.0 == 0 then Some(NoSequences(count.value.1))
    else if count.value.1 >= |src| || src[count.value.1] as int % 4 != 0 then None
    else
      var modes, cursor := src[count.value.1] as int, count.value.1 + 1;
      var ll := ReadDeclaration(b, LiteralLength, ModeOf(modes / 64), src, cursor);
      if ll == None then None
      else
        var of := ReadDeclaration(b, Offset, ModeOf(modes / 16), src, ll.value.1);
        if of == None then None
        else
          var ml := ReadDeclaration(b, MatchLength, ModeOf(modes / 4), src, of.value.1);
          if ml == None || ml.value.1 >= |src| then None
          else Some(Sequences(count.value.0, ml.value.1, Said(ll.value.0, of.value.0, ml.value.0)))
  }

  /** Where each part's table comes from. */
  datatype Sources<C, D> = Sources(literalLengths: Option<Source<C, D>>, offsets: Option<Source<C, D>>,
                                   matchLengths: Option<Source<C, D>>)
  {
    function Of(part: Part): Option<Source<C, D>> {
      match part
      case LiteralLength => literalLengths
      case Offset => offsets
      case MatchLength => matchLengths
    }
  }

  function AllHeard<C, D, S>(b: Builders<C, D, S>, target: Target, sources: Sources<C, D>, said: Said<C>): Option<Sources<C, D>> {
    var ll := Heard(b, LiteralLength, target, sources.literalLengths, said.literalLengths);
    var of := Heard(b, Offset, target, sources.offsets, said.offsets);
    var ml := Heard(b, MatchLength, target, sources.matchLengths, said.matchLengths);
    if ll == None || of == None || ml == None then None else Some(Sources(ll, of, ml))
  }

  /** The three tables a block decodes with. */
  function Tables<C, D, S>(b: Builders<C, D, S>, sources: Sources<C, D>): Option<(S, S, S)> {
    if sources.literalLengths == None || sources.offsets == None || sources.matchLengths == None then None
    else
      var ll := TableOf(b, LiteralLength, sources.literalLengths.value);
      var of := TableOf(b, Offset, sources.offsets.value);
      var ml := TableOf(b, MatchLength, sources.matchLengths.value);
      if ll == None || of == None || ml == None then None else Some((ll.value, of.value, ml.value))
  }

  class SequenceTablesState<C(!new), D(!new), S(!new)> {
    const ll: PartTables<C, D, S>
    const of: PartTables<C, D, S>
    const ml: PartTables<C, D, S>

    ghost predicate Valid(b: Builders<C, D, S>)
      reads ll, of, ml
    {
      && ll.part == LiteralLength && of.part == Offset && ml.part == MatchLength
      && ll.Valid(b) && of.Valid(b) && ml.Valid(b)
    }

    ghost function Latest(): Sources<C, D>
      reads ll, of, ml
    {
      Sources(ll.latest, of.latest, ml.latest)
    }

    constructor (b: Builders<C, D, S>, llTable: Option<D>, ofTable: Option<D>, mlTable: Option<D>)
      ensures Valid(b) && fresh(ll) && fresh(of) && fresh(ml)
      ensures Latest() == Sources(Given(llTable), Given(ofTable), Given(mlTable))
    {
      ll := new PartTables(b, LiteralLength, llTable);
      of := new PartTables(b, Offset, ofTable);
      ml := new PartTables(b, MatchLength, mlTable);
    }

    /** Read a section's header, declarations and all: how many sequences, and where their bitstream starts. */
    method ParseSequenceSection(b: Builders<C, D, S>, src: seq<byte>, target: Target) returns (r: Option<(nat, nat)>)
      requires Valid(b)
      modifies ll, of, ml
      ensures match ReadSection(b, src)
              case None => r == None
              case Some(NoSequences(size)) => r == Some((0, size)) && Valid(b) && Latest() == old(Latest())
              case Some(Sequences(count, size, said)) =>
                var heard := AllHeard(b, target, old(Latest()), said);
                if heard == None then r == None
                else 0 < count && r == Some((count, size)) && Valid(b) && Latest() == heard.value
    {
      hide ReadCount;
      hide ReadDeclaration;
      hide Heard;
      hide PartTables.Valid;
      var count := ReadCount(src);
      if count == None {
        return None;
      }
      var (number, size) := count.value;
      if number == 0 {
        return Some((0, size));
      }
      if size >= |src| || src[size] as int % 4 != 0 {
        return None;
      }
      var modes := src[size] as int;
      var afterLl := ll.Decode(b, src, size + 1, ModeOf(modes / 64), target);
      if afterLl == None {
        return None;
      }
      var afterOf := of.Decode(b, src, afterLl.value, ModeOf(modes / 16), target);
      if afterOf == None {
        return None;
      }
      var afterMl := ml.Decode(b, src, afterOf.value, ModeOf(modes / 4), target);
      if afterMl == None || afterMl.value == |src| {
        return None;
      }
      return Some((number, afterMl.value));
    }

    /** The tables the block's sequences are decoded with; None when a part has none. */
    method DecodeSetup(b: Builders<C, D, S>) returns (tables: Option<(S, S, S)>)
      requires Valid(b)
      modifies ll, of, ml
      ensures Valid(b) && Latest() == old(Latest())
      ensures tables == Tables(b, Latest())
    {
      var llTable := ll.Setup(b);
      if llTable == None {
        return None;
      }
      var ofTable := of.Setup(b);
      if ofTable == None {
        return None;
      }
      var mlTable := ml.Setup(b);
      if mlTable == None {
        return None;
      }
      return Some((llTable.value, ofTable.value, mlTable.value));
    }
  }

  function Given<C, D>(dictionary: Option<D>): Option<Source<C, D>> {
    if dictionary == None then None else Some(FromDictionary(dictionary.value))
  }

  // ----- a run of blocks

  /** The sources once one more section has been heard; None when it is refused. */
  function Next<C, D, S>(b: Builders<C, D, S>, target: Target, sources: Sources<C, D>, src: seq<byte>): Option<Sources<C, D>> {
    match ReadSection(b, src)
    case None => None
    case Some(NoSequences(_)) => Some(sources)
    case Some(Sequences(_, _, said)) => AllHeard(b, target, sources, said)
  }

  predicate HasSequences<C, D, S>(b: Builders<C, D, S>, src: seq<byte>) {
    ReadSection(b, src).Some? && ReadSection(b, src).value.Sequences?
  }

  /** The sources behind a run of sections, and the tables each section with sequences was decoded with. */
  function Run<C, D, S>(b: Builders<C, D, S>, target: Target, sources: Sources<C, D>, sections: seq<seq<byte>>)
    : Option<(Sources<C, D>, seq<(S, S, S)>)>
    decreases |sections|
  {
    if sections == [] then Some((sources, []))
    else
      var next := Next(b, target, sources, sections[0]);
      if next == None then None
      else
        var used := Tables(b, next.value);
        if HasSequences(b, sections[0]) && used == None then None
        else
          var rest := Run(b, target, next.value, sections[1..]);
          if rest == None then None
          else Some((rest.value.0, (if HasSequences(b, sections[0]) then [used.value] else []) + rest.value.1))
  }

  /** A run that began with the tables in `used`. */
  function Behind<X, T>(used: seq<T>, run: Option<(X, seq<T>)>): Option<(X, seq<T>)> {
    if run == None then None else Some((run.value.0, used + run.value.1))
  }

  lemma BehindNothing<X, T>(run: Option<(X, seq<T>)>)
    ensures Behind([], run) == run
  {
    if run.Some? {
      assert [] + run.value.1 == run.value.1;
    }
  }

  lemma AtTheEnd<X, T>(used: seq<T>, end: X)
    ensures Behind(used, Some((end, []))) == Some((end, used))
  {
    assert used + [] == used;
  }

  /** The first of the sections still to read. */
  lemma RunNext<C, D, S>(b: Builders<C, D, S>, target: Target, sources: Sources<C, D>, sections: seq<seq<byte>>, i: nat,
                         used: seq<(S, S, S)>)
    requires i < |sections|
    ensures var next := Next(b, target, sources, sections[i]);
            Behind(used, Run(b, target, sources, sections[i..]))
            == if next == None then None
               else if !HasSequences(b, sections[i]) then Behind(used, Run(b, target, next.value, sections[i + 1..]))
               else if Tables(b, next.value) == None then None
               else Behind(used + [Tables(b, next.value).value], Run(b, target, next.value, sections[i + 1..]))
  {
    hide HasSequences;
    hide Next;
    hide Tables;
    assert sections[i..][1..] == sections[i + 1..];
    var next := Next(b, target, sources, sections[i]);
    if next.Some? {
      var rest := Run(b, target, next.value, sections[i + 1..]);
      if rest.Some? {
        assert used + ([] + rest.value.1) == used + rest.value.1;
        if Tables(b, next.value).Some? {
          Regroup(used, [Tables(b, next.value).value], rest.value.1);
        }
      }
    }
  }

  /** What a section says about one part. */
  function SaidBy<C, D, S>(b: Builders<C, D, S>, part: Part, src: seq<byte>): Option<Declaration<C>> {
    match ReadSection(b, src)
    case Some(Sequences(_, _, said)) => said.About(part)
    case _ => None
  }

  /** The last declaration in the run about one part, if there is one. */
  function LastDeclared<C, D, S>(b: Builders<C, D, S>, part: Part, sections: seq<seq<byte>>): Option<Declaration<C>>
    decreases |sections|
  {
    if sections == [] then None
    else
      var later := LastDeclared(b, part, sections[1..]);
      if later.Some? then later else SaidBy(b, part, sections[0])
  }

  /** Where each part's table should come from: its last declaration in the run, or else where it came from before. */
  function LatestSources<C, D, S>(b: Builders<C, D, S>, sources: Sources<C, D>, sections: seq<seq<byte>>): Sources<C, D> {
    Sources(LatestOf(b, LiteralLength, sources, sections), LatestOf(b, Offset, sources, sections),
            LatestOf(b, MatchLength, sources, sections))
  }

  function LatestOf<C, D, S>(b: Builders<C, D, S>, part: Part, sources: Sources<C, D>, sections: seq<seq<byte>>)
    : Option<Source<C, D>>
  {
    var last := LastDeclared(b, part, sections);
    if last == None then sources.Of(part) else Some(Declared(last.value))
  }

  lemma LastOfOne<C, D, S>(b: Builders<C, D, S>, part: Part, src: seq<byte>)
    ensures LastDeclared(b, part, [src]) == SaidBy(b, part, src)
  {
    assert LastDeclared(b, part, [src][1..]) == None;
  }

  /** One section moves a part's source to what it says, if it says anything. */
  lemma NextIsLatest<C, D, S>(b: Builders<C, D, S>, target: Target, sources: Sources<C, D>, src: seq<byte>)
    requires Next(b, target, sources, src).Some?
    ensures Next(b, target, sources, src).value == LatestSources(b, sources, [src])
  {
    hide ReadSection;
    LastOfOne(b, LiteralLength, src);
    LastOfOne(b, Offset, src);
    LastOfOne(b, MatchLength, src);
  }

  /** The first section's part in a run. */
  lemma LatestFromFirst<C, D, S>(b: Builders<C, D, S>, sources: Sources<C, D>, sections: seq<seq<byte>>)
    requires sections != []
    ensures LatestSources(b, LatestSources(b, sources, [sections[0]]), sections[1..]) == LatestSources(b, sources, sections)
  {
    hide SaidBy;
    LastOfOne(b, LiteralLength, sections[0]);
    LastOfOne(b, Offset, sections[0]);
    LastOfOne(b, MatchLength, sections[0]);
  }

  /** Each part's source at the end of a run is its last declaration, or else the one it began with. */
  lemma {:induction false} LatestDeclarationWins<C, D, S>(b: Builders<C, D, S>, target: Target, sources: Sources<C, D>,
                                                          sections: seq<seq<byte>>)
    requires Run(b, target, sources, sections).Some?
    ensures Run(b, target, sources, sections).value.0 == LatestSources(b, sources, sections)
    decreases |sections|
  {
    if sections != [] {
      hide Next;
      hide LatestSources;
      NextIsLatest(b, target, sources, sections[0]);
      LatestDeclarationWins(b, target, Next(b, target, sources, sections[0]).value, sections[1..]);
      LatestFromFirst(b, sources, sections);
    }
  }

  /** How many of the sections have sequences. */
  function WithSequences<C, D, S>(b: Builders<C, D, S>, sections: seq<seq<byte>>): nat
    decreases |sections|
  {
    if sections == [] then 0 else (if HasSequences(b, sections[0]) then 1 else 0) + WithSequences(b, sections[1..])
  }

  /** Block `k` of a run, if it has sequences, was decoded with the tables of the latest declarations up to its own. */
  ghost predicate ReadsLatest<C, D, S>(b: Builders<C, D, S>, sources: Sources<C, D>, sections: seq<seq<byte>>,
                                       used: seq<(S, S, S)>, k: nat)
    requires k < |sections|
  {
    HasSequences(b, sections[k]) ==>
      var j := WithSequences(b, sections[..k]);
      j < |used| && Tables(b, LatestSources(b, sources, sections[..k + 1])) == Some(used[j])
  }

  lemma {:induction false} BlockReadsLatest<C, D, S>(b: Builders<C, D, S>, target: Target, sources: Sources<C, D>,
                                                     sections: seq<seq<byte>>, k: nat)
    requires Run(b, target, sources, sections).Some? && k < |sections|
    ensures ReadsLatest(b, sources, sections, Run(b, target, sources, sections).value.1, k)
    decreases |sections|
  {
    hide Next;
    hide Tables;
    hide LatestSources;
    hide HasSequences;
    NextIsLatest(b, target, sources, sections[0]);
    if k == 0 {
      assert sections[..1] == [sections[0]];
    } else {
      BlockReadsLatest(b, target, Next(b, target, sources, sections[0]).value, sections[1..], k - 1);
      assert sections[..k][1..] == sections[1..][..k - 1];
      assert sections[..k + 1][1..] == sections[1..][..k];
      LatestFromFirst(b, sources, sections[..k + 1]);
    }
  }

  /** A run reads as many tables as it has blocks with sequences. */
  lemma {:induction false} AsManyTables<C, D, S>(b: Builders<C, D, S>, target: Target, sources: Sources<C, D>,
                                                 sections: seq<seq<byte>>)
    requires Run(b, target, sources, sections).Some?
    ensures |Run(b, target, sources, sections).value.1| == WithSequences(b, sections)
    decreases |sections|
  {
    if sections != [] {
      hide HasSequences;
      hide Tables;
      AsManyTables(b, target, Next(b, target, sources, sections[0]).value, sections[1..]);
    }
  }

  /** Parse and set up each section in turn. */
  method ReadSections<C(!new), D(!new), S(!new)>(b: Builders<C, D, S>, state: SequenceTablesState<C, D, S>, target: Target,
                                                 sections: seq<seq<byte>>)
    returns (tables: Option<seq<(S, S, S)>>)
    requires state.Valid(b)
    modifies state.ll, state.of, state.ml
    ensures match Run(b, target, old(state.Latest()), sections)
            case None => tables == None
            case Some((sources, used)) => tables == Some(used) && state.Valid(b) && state.Latest() == sources
    ensures tables.Some? ==>
              && |tables.value| == WithSequences(b, sections)
              && forall k :: 0 <= k < |sections| ==> ReadsLatest(b, old(state.Latest()), sections, tables.value, k)
  {
    hide ReadSection;
    hide AllHeard;
    hide Tables;
    hide Run;
    hide Behind;
    hide SequenceTablesState.Valid;
    hide SequenceTablesState.Latest;
    hide ReadsLatest;
    hide WithSequences;
    var used: seq<(S, S, S)>, i := [], 0;
    ghost var initial := state.Latest();
    ghost var latest := initial;
    ghost var whole := Run(b, target, latest, sections);
    BehindNothing(whole);
    assert sections[0..] == sections;
    while i < |sections|
      invariant 0 <= i <= |sections| && state.Valid(b) && latest == state.Latest()
      invariant whole == Behind(used, Run(b, target, latest, sections[i..]))
    {
      RunNext(b, target, latest, sections, i, used);
      var parsed := state.ParseSequenceSection(b, sections[i], target);
      if parsed == None {
        return None;
      }
      latest := Next(b, target, latest, sections[i]).value;
      if parsed.value.0 != 0 {
        var tables := state.DecodeSetup(b);
        if tables == None {
          return None;
        }
        used := used + [tables.value];
      }
      i := i + 1;
    }
    RunOfNone(b, target, latest, sections[i..]);
    AtTheEnd(used, latest);
    AsManyTables(b, target, initial, sections);
    forall k | 0 <= k < |sections|
      ensures ReadsLatest(b, initial, sections, used, k)
    {
      BlockReadsLatest(b, target, initial, sections, k);
    }
    return Some(used);
  }

  lemma RunOfNone<C, D, S>(b: Builders<C, D, S>, target: Target, sources: Sources<C, D>, sections: seq<seq<byte>>)
    requires |sections| == 0
    ensures Run(b, target, sources, sections) == Some((sources, []))
  {
  }

  /** Repeating what there never was is refused. */
  lemma RepeatNeedsATable<C, D, S>(b: Builders<C, D, S>, target: Target, sources: Sources<C, D>, src: seq<byte>, part: Part)
    requires HasSequences(b, src) && SaidBy(b, part, src) == None && sources.Of(part) == None
    ensures Next(b, target, sources, src) == None
  {
  }
}
