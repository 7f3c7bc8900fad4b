/**
 The containers of a module and their encoding: the module header
 (`ModuleHeader::assemble`), basic blocks, functions and the module itself
 (`BasicBlock::assemble`, `Function::assemble`, `Module::assemble`). Each
 container's words are the plain concatenation of its parts' words, which
 is the same as the words of its instructions taken in order; the physical
 layout is that of section 2.3 of the SPIR-V Specification.
 */
module Containers {
  import opened Words
  import opened Instructions

  /** The magic number that opens every SPIR-V module (section 3.1). */
  const MagicNumber: Word := 0x0723_0203

  datatype ModuleHeader = ModuleHeader(
    magicNumber: Word,
    version: Word,
    generator: Word,
    bound: Word,
    reservedWord: Word)

  datatype BasicBlock = BasicBlock(labelInst: Option<Instruction>, instructions: seq<Instruction>)

  datatype Function = Function(
    def: Option<Instruction>,
    basicBlocks: seq<BasicBlock>,
    end: Option<Instruction>)

  /**
   A module: an optional header, the global instructions already in the
   section order the format mandates, and the functions.
   */
  datatype Module = Module(
    header: Option<ModuleHeader>,
    globals: seq<Instruction>,
    functions: seq<Function>)

  /** The version word for a major and minor version number. */
  function VersionWord(major: Byte, minor: Byte): Word
  {
    major * 0x1_0000 + minor * 0x100
  }

  /**
   Encodes a header as its five words: magic number, version, generator,
   bound and reserved word, in that order.
   */
  function AssembleHeader(h: ModuleHeader): (r: seq<Word>)
    ensures |r| == 5
    ensures r[0] == h.magicNumber && r[1] == h.version && r[2] == h.generator
    ensures r[3] == h.bound && r[4] == h.reservedWord
  {
    [h.magicNumber, h.version, h.generator, h.bound, h.reservedWord]
  }

  /** Reads a header from the first five words of a stream. */
  function DecodeHeader(words: seq<Word>): Option<ModuleHeader>
  {
    if |words| < 5 then None
    else Some(ModuleHeader(words[0], words[1], words[2], words[3], words[4]))
  }

  /** The five header words read back as the same header, whatever follows them. */
  lemma DecodeAssembleHeader(h: ModuleHeader, rest: seq<Word>)
    ensures DecodeHeader(AssembleHeader(h) + rest) == Some(h)
  {
  }

  /** Zero or one instruction, for an optional label, definition or end. */
  function OptInst(o: Option<Instruction>): seq<Instruction>
  {
    if o.Some? then [o.value] else []
  }

  predicate OptAssemblable(o: Option<Instruction>)
  {
    o.Some? ==> InstAssemblable(o.value)
  }

  /** The words of an optional instruction: nothing when it is absent. */
  function AssembleOpt(o: Option<Instruction>): (r: seq<Word>)
    requires OptAssemblable(o)
    ensures InstsAssemblable(OptInst(o)) && r == AssembleInsts(OptInst(o))
  {
    if o.Some? then
      var w := AssembleInstruction(o.value);
      assert [o.value][1..] == [];
      w
    else []
  }

  // ---------------------------------------------------------------- blocks

  /** The instructions of a block in encoding order: its label, then its body. */
  function BlockInsts(b: BasicBlock): seq<Instruction>
  {
    OptInst(b.labelInst) + b.instructions
  }

  predicate BlockAssemblable(b: BasicBlock)
  {
    OptAssemblable(b.labelInst) && InstsAssemblable(b.instructions)
  }

  /**
   Encodes a block: the label's words if there is a label, then the body's.
   These are the words of the block's instructions in order, so the length
   is the sum of their word counts.
   */
  function AssembleBlock(b: BasicBlock): (r: seq<Word>)
    requires BlockAssemblable(b)
    ensures InstsAssemblable(BlockInsts(b)) && r == AssembleInsts(BlockInsts(b))
  {
    AssembleInstsAppend(OptInst(b.labelInst), b.instructions);
    AssembleOpt(b.labelInst) + AssembleInsts(b.instructions)
  }

  predicate BlocksAssemblable(bs: seq<BasicBlock>)
  {
    forall i :: 0 <= i < |bs| ==> BlockAssemblable(bs[i])
  }

  /** The instructions of a block sequence, block after block. */
  function BlocksInsts(bs: seq<BasicBlock>): seq<Instruction>
  {
    if |bs| == 0 then [] else BlockInsts(bs[0]) + BlocksInsts(bs[1..])
  }

  /** Encodes blocks one after the other: the words of all their instructions in order. */
  function AssembleBlocks(bs: seq<BasicBlock>): (r: seq<Word>)
    requires BlocksAssemblable(bs)
    ensures InstsAssemblable(BlocksInsts(bs)) && r == AssembleInsts(BlocksInsts(bs))
  {
    if |bs| == 0 then
      []
    else
      var head, tail := AssembleBlock(bs[0]), AssembleBlocks(bs[1..]);
      AssembleInstsAppend(BlockInsts(bs[0]), BlocksInsts(bs[1..]));
      head + tail
  }

  // ------------------------------------------------------------- functions

  /** The instructions of a function in encoding order: definition, blocks, end. */
  function FunctionInsts(f: Function): seq<Instruction>
  {
    OptInst(f.def) + BlocksInsts(f.basicBlocks) + OptInst(f.end)
  }

  predicate FunctionAssemblable(f: Function)
  {
    OptAssemblable(f.def) && BlocksAssemblable(f.basicBlocks) && OptAssemblable(f.end)
  }

  /**
   Encodes a function: its definition if present, then its blocks, then its
   end if present; that is, the words of its instructions in order.
   */
  function AssembleFunction(f: Function): (r: seq<Word>)
    requires FunctionAssemblable(f)
    ensures InstsAssemblable(FunctionInsts(f)) && r == AssembleInsts(FunctionInsts(f))
  {
    var d, bs, e := AssembleOpt(f.def), AssembleBlocks(f.basicBlocks), AssembleOpt(f.end);
    AssembleInstsAppend(OptInst(f.def), BlocksInsts(f.basicBlocks));
    AssembleInstsAppend(OptInst(f.def) + BlocksInsts(f.basicBlocks), OptInst(f.end));
    d + bs + e
  }

  predicate FunctionsAssemblable(fs: seq<Function>)
  {
    forall i :: 0 <= i < |fs| ==> FunctionAssemblable(fs[i])
  }

  function FunctionsInsts(fs: seq<Function>): seq<Instruction>
  {
    if |fs| == 0 then [] else FunctionInsts(fs[0]) + FunctionsInsts(fs[1..])
  }

  /** Encodes functions one after the other: the words of all their instructions in order. */
  function AssembleFunctions(fs: seq<Function>): (r: seq<Word>)
    requires FunctionsAssemblable(fs)
    ensures InstsAssemblable(FunctionsInsts(fs)) && r == AssembleInsts(FunctionsInsts(fs))
  {
    if |fs| == 0 then
      []
    else
      var head, tail := AssembleFunction(fs[0]), AssembleFunctions(fs[1..]);
      AssembleInstsAppend(FunctionInsts(fs[0]), FunctionsInsts(fs[1..]));
      head + tail
  }

  // ---------------------------------------------------------------- module

  /** The instructions of a module in encoding order: globals, then every function's. */
  function ModuleInsts(m: Module): seq<Instruction>
  {
    m.globals + FunctionsInsts(m.functions)
  }

  predicate ModuleAssemblable(m: Module)
  {
    InstsAssemblable(m.globals) && FunctionsAssemblable(m.functions)
  }

  /** The header's words, or nothing for a module without a header. */
  function HeaderWords(h: Option<ModuleHeader>): (r: seq<Word>)
    ensures |r| == if h.Some? then 5 else 0
  {
    if h.Some? then AssembleHeader(h.value) else []
  }

  /**
   Encodes a module: its header (nothing when there is none), then its
   global instructions, then its functions. After the header come exactly
   the words of the module's instructions in order.
   */
  function AssembleModule(m: Module): (r: seq<Word>)
    requires ModuleAssemblable(m)
    ensures InstsAssemblable(ModuleInsts(m))
    ensures r == HeaderWords(m.header) + AssembleInsts(ModuleInsts(m))
  {
    var h, g, fs := HeaderWords(m.header), AssembleInsts(m.globals), AssembleFunctions(m.functions);
    AssembleInstsAppend(m.globals, FunctionsInsts(m.functions));
    AppendAssoc(h, g, fs);
    h + g + fs
  }

  lemma AppendAssoc(a: seq<Word>, b: seq<Word>, c: seq<Word>)
    ensures a + b + c == a + (b + c)
  {
  }

  /**
   A module occupies its header's words plus the sum of the word counts of
   its instructions.
   */
  lemma AssembleModuleLength(m: Module)
    requires ModuleAssemblable(m)
    ensures |AssembleModule(m)| == (if m.header.Some? then 5 else 0) + InstsWordCount(ModuleInsts(m))
  {
    var r := AssembleModule(m);
  }

  /**
   The words of a module with a header read back as that header, and the
   words after it split, by word count alone, into exactly the encodings of
   the module's instructions in order, when every instruction fits the
   count field.
   */
  lemma SplitAssembleModule(m: Module)
    requires ModuleAssemblable(m) && m.header.Some?
    requires CountsFit(ModuleInsts(m))
    ensures DecodeHeader(AssembleModule(m)) == Some(m.header.value)
    ensures SplitWords(AssembleModule(m)[5..]) == Some(InstWords(ModuleInsts(m)))
  {
    var r := AssembleModule(m);
    DecodeAssembleHeader(m.header.value, AssembleInsts(ModuleInsts(m)));
    assert r[5..] == AssembleInsts(ModuleInsts(m));
    SplitAssembleInsts(ModuleInsts(m));
  }
}
