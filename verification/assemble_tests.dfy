/**
 The unit tests of the assembler, restated as lemmas about the model: the
 string examples, bitmask and enumerant pass-through, four instructions of
 different shapes, and the encoding of a whole minimal module. Opcode and
 enumerant numbers are those of the SPIR-V Specification (section 3).
 */
module AssembleTests {
  import opened Words
  import opened LiteralStrings
  import opened Operands
  import opened Instructions
  import opened Containers

  const OpNop: Opcode := 0
  const OpMemoryModel: Opcode := 14
  const OpTypeVoid: Opcode := 19
  const OpTypeInt: Opcode := 21
  const OpTypeFunction: Opcode := 33
  const OpFunction: Opcode := 54
  const OpFunctionEnd: Opcode := 56
  const OpIAdd: Opcode := 128
  const OpLabel: Opcode := 248
  const OpReturn: Opcode := 253

  const AddressingModelLogical: Word := 0
  const AddressingModelPhysical32: Word := 1
  const MemoryModelSimple: Word := 0
  const MemoryModelOpenCL: Word := 2

  const FunctionControlDontInline: Word := 0x2
  const FunctionControlPure: Word := 0x4
  const FunctionControlConst: Word := 0x8

  const BuiltInPosition: Word := 0
  const BuiltInPointSize: Word := 1
  const BuiltInInstanceId: Word := 6

  /** The expected header word of an instruction: word count high, opcode low. */
  function WcOp(wc: nat, op: Opcode): Word
    requires wc < 0x1_0000
  {
    wc * 0x1_0000 + op
  }

  /** The empty string encodes as the single zero word. */
  lemma AssembleStrNone()
    ensures AssembleStr([]) == [0]
  {
    EmptyStr([]);
  }

  lemma EmptyStr(s: seq<Byte>)
    requires |s| == 0
    ensures AssembleStr(s) == [0]
  {
    var r := AssembleStr(s);
    PackLeEmpty(s[0..]);
    assert |r| == 1 && r[0] == 0;
  }

  /** A string of one byte encodes as one word holding it and three zero bytes. */
  lemma AssembleStrOne(a: Byte)
    ensures AssembleStr([a]) == [Pack4(a, 0, 0, 0)]
  {
    AssembleStrWords([a]);
  }

  /** A string of four bytes fills one word exactly, so a zero terminator word follows it. */
  lemma AssembleStrFour(a: Byte, b: Byte, c: Byte, d: Byte)
    ensures AssembleStr([a, b, c, d]) == [Pack4(a, b, c, d), 0]
  {
    var s := [a, b, c, d];
    var r := AssembleStr(s);
    PackLeEmpty(s[4..]);
    assert s[0..] == s;
    assert |r| == 2 && r[0] == Pack4(a, b, c, d) && r[1] == 0;
  }

  /** A string of five bytes spills one byte into a second, zero-padded word. */
  lemma AssembleStrFive(a: Byte, b: Byte, c: Byte, d: Byte, e: Byte)
    ensures AssembleStr([a, b, c, d, e]) == [Pack4(a, b, c, d), Pack4(e, 0, 0, 0)]
  {
    AssembleStrWords([a, b, c, d, e]);
  }

  /** `""`, `"h"`, `"hell"` and `"hello"`, as the source's string tests spell them. */
  lemma AssembleStrExamples()
    ensures AssembleStr([]) == [0]
    ensures AssembleStr([0x68]) == [Pack4(0x68, 0, 0, 0)]
    ensures AssembleStr([0x68, 0x65, 0x6c, 0x6c]) == [Pack4(0x68, 0x65, 0x6c, 0x6c), 0]
    ensures AssembleStr([0x68, 0x65, 0x6c, 0x6c, 0x6f]) == [Pack4(0x68, 0x65, 0x6c, 0x6c), Pack4(0x6f, 0, 0, 0)]
  {
    AssembleStrNone();
    AssembleStrOne(0x68);
    AssembleStrFour(0x68, 0x65, 0x6c, 0x6c);
    AssembleStrFive(0x68, 0x65, 0x6c, 0x6c, 0x6f);
  }

  /**
   A function-control bitmask, a single flag or a union of flags (whose
   disjoint bits make the bitwise or a sum), encodes as its bit pattern.
   */
  lemma AssembleBitmaskExamples()
    ensures AssembleOperand(Bitmask(FunctionControl, FunctionControlDontInline)) == [FunctionControlDontInline]
    ensures AssembleOperand(Bitmask(FunctionControl, FunctionControlPure)) == [FunctionControlPure]
    ensures AssembleOperand(Bitmask(FunctionControl, FunctionControlConst)) == [FunctionControlConst]
    ensures AssembleOperand(Bitmask(FunctionControl, FunctionControlDontInline + FunctionControlConst)) == [0xA]
    ensures AssembleOperand(Bitmask(FunctionControl,
              FunctionControlDontInline + FunctionControlPure + FunctionControlConst)) == [0xE]
  {
  }

  /** A built-in enumerant encodes as its numeric value. */
  lemma AssembleEnumExamples()
    ensures AssembleOperand(Enumerant(BuiltIn, BuiltInPosition)) == [0]
    ensures AssembleOperand(Enumerant(BuiltIn, BuiltInPointSize)) == [1]
    ensures AssembleOperand(Enumerant(BuiltIn, BuiltInInstanceId)) == [6]
  {
  }

  /**
   With a word count that fits, an instruction is its `WcOp` header, its
   optional ids and its operands' words.
   */
  lemma InstructionLayout(inst: Instruction)
    requires InstAssemblable(inst) && InstructionWordCount(inst) < 0x1_0000
    ensures AssembleInstruction(inst)
            == [WcOp(InstructionWordCount(inst), inst.opcode)]
               + OptWord(inst.resultType) + OptWord(inst.resultId) + AssembleOperands(inst.operands)
  {
    var r := AssembleInstruction(inst);
    var ty, id, ops := OptWord(inst.resultType), OptWord(inst.resultId), AssembleOperands(inst.operands);
    HeaderWordFits(inst.opcode, |r|);
    assert r == [r[0]] + r[1..];
    PrependAssoc([r[0]], ty, id, ops);
  }

  /** A count below 2^16 is kept whole in the header word. */
  lemma HeaderWordFits(op: Opcode, n: nat)
    requires n < 0x1_0000
    ensures HeaderWord(op, n) == WcOp(n, op)
  {
  }

  lemma PrependAssoc(x: seq<Word>, a: seq<Word>, b: seq<Word>, c: seq<Word>)
    ensures x + (a + b + c) == x + a + b + c
  {
  }

  lemma TwoOperands(a: Operand, b: Operand)
    requires Assemblable(a) && Assemblable(b)
    ensures AllAssemblable([a, b]) && AssembleOperands([a, b]) == AssembleOperand(a) + AssembleOperand(b)
    ensures OperandsWordCount([a, b]) == OperandWordCount(a) + OperandWordCount(b)
  {
    assert [a, b][1..] == [b];
    assert [b][1..] == [];
  }

  /** An instruction with no ids and no operands is its header word alone. */
  lemma AssembleNop()
    ensures AssembleInstruction(Instruction(OpNop, None, None, [])) == [WcOp(1, OpNop)]
  {
    InstructionLayout(Instruction(OpNop, None, None, []));
  }

  /** No result type and no result id: header then the two enumerant operands. */
  lemma AssembleMemoryModel()
    ensures AssembleInstruction(Instruction(OpMemoryModel, None, None,
              [Enumerant(AddressingModel, AddressingModelPhysical32), Enumerant(MemoryModel, MemoryModelOpenCL)]))
            == [WcOp(3, OpMemoryModel), AddressingModelPhysical32, MemoryModelOpenCL]
  {
    var a, b := Enumerant(AddressingModel, AddressingModelPhysical32), Enumerant(MemoryModel, MemoryModelOpenCL);
    var inst := Instruction(OpMemoryModel, None, None, [a, b]);
    TwoOperands(a, b);
    assert InstructionWordCount(inst) == 3;
    assert AssembleOperands(inst.operands) == [AddressingModelPhysical32, MemoryModelOpenCL];
    InstructionLayout(inst);
  }

  /** A result id but no result type. */
  lemma AssembleTypeInt()
    ensures AssembleInstruction(Instruction(OpTypeInt, None, Some(42),
              [Scalar(LiteralInt32, 32), Scalar(LiteralInt32, 1)]))
            == [WcOp(4, OpTypeInt), 42, 32, 1]
  {
    var a, b := Scalar(LiteralInt32, 32), Scalar(LiteralInt32, 1);
    var inst := Instruction(OpTypeInt, None, Some(42), [a, b]);
    TwoOperands(a, b);
    assert InstructionWordCount(inst) == 4;
    assert AssembleOperands(inst.operands) == [32, 1];
    InstructionLayout(inst);
  }

  /** Both a result type and a result id. */
  lemma AssembleIAdd()
    ensures AssembleInstruction(Instruction(OpIAdd, Some(0xab), Some(0xcd),
              [Scalar(IdRef, 0xef), Scalar(IdRef, 0x78)]))
            == [WcOp(5, OpIAdd), 0xab, 0xcd, 0xef, 0x78]
  {
    var a, b := Scalar(IdRef, 0xef), Scalar(IdRef, 0x78);
    var inst := Instruction(OpIAdd, Some(0xab), Some(0xcd), [a, b]);
    TwoOperands(a, b);
    assert InstructionWordCount(inst) == 5;
    assert AssembleOperands(inst.operands) == [0xef, 0x78];
    InstructionLayout(inst);
  }

  /**
   The module a builder makes for a memory model, a void type, a
   void(void) function type and a constant function with one block that
   only returns; the ids are 1 for void, 2 for the function type, 3 for the
   function and 4 for the label, so the bound is 5.
   */
  function ExampleModule(major: Byte, minor: Byte): Module
  {
    var header := ModuleHeader(MagicNumber, VersionWord(major, minor), 0xffff_ffff, 5, 0);
    var block := BasicBlock(Some(ExampleLabel), [ExampleReturn]);
    Module(Some(header), [ExampleMemoryModel, ExampleTypeVoid, ExampleTypeFunction],
      [Function(Some(ExampleFunction), [block], Some(ExampleFunctionEnd))])
  }

  const ExampleMemoryModel := Instruction(OpMemoryModel, None, None,
    [Enumerant(AddressingModel, AddressingModelLogical), Enumerant(MemoryModel, MemoryModelSimple)])
  const ExampleTypeVoid := Instruction(OpTypeVoid, None, Some(1), [])
  const ExampleTypeFunction := Instruction(OpTypeFunction, None, Some(2), [Scalar(IdRef, 1), Scalar(IdRef, 1)])
  const ExampleFunction := Instruction(OpFunction, Some(1), Some(3),
    [Bitmask(FunctionControl, FunctionControlConst), Scalar(IdRef, 2)])
  const ExampleLabel := Instruction(OpLabel, None, Some(4), [])
  const ExampleReturn := Instruction(OpReturn, None, None, [])
  const ExampleFunctionEnd := Instruction(OpFunctionEnd, None, None, [])

  /** An instruction with neither ids nor operands is its header word alone. */
  lemma LayoutBare(op: Opcode)
    ensures AssembleInstruction(Instruction(op, None, None, [])) == [WcOp(1, op)]
  {
    InstructionLayout(Instruction(op, None, None, []));
  }

  /** An instruction with only a result id. */
  lemma LayoutId(op: Opcode, id: Word)
    ensures AssembleInstruction(Instruction(op, None, Some(id), [])) == [WcOp(2, op), id]
  {
    InstructionLayout(Instruction(op, None, Some(id), []));
  }

  /** An instruction whose two operands encode to one word each. */
  lemma LayoutTwo(op: Opcode, rt: Option<Word>, id: Option<Word>, a: Operand, b: Operand, x: Word, y: Word)
    requires Assemblable(a) && Assemblable(b)
    requires AssembleOperand(a) == [x] && AssembleOperand(b) == [y]
    ensures AllAssemblable([a, b])
    ensures AssembleInstruction(Instruction(op, rt, id, [a, b]))
            == [WcOp(3 + |OptWord(rt)| + |OptWord(id)|, op)] + OptWord(rt) + OptWord(id) + [x, y]
  {
    TwoOperands(a, b);
    InstructionLayout(Instruction(op, rt, id, [a, b]));
  }

  lemma ExampleMemoryModelWords()
    ensures InstAssemblable(ExampleMemoryModel)
    ensures AssembleInstruction(ExampleMemoryModel) == [WcOp(3, OpMemoryModel), AddressingModelLogical, MemoryModelSimple]
  {
    LayoutTwo(OpMemoryModel, None, None, Enumerant(AddressingModel, AddressingModelLogical),
      Enumerant(MemoryModel, MemoryModelSimple), AddressingModelLogical, MemoryModelSimple);
  }

  lemma ExampleTypeVoidWords()
    ensures AssembleInstruction(ExampleTypeVoid) == [WcOp(2, OpTypeVoid), 1]
  {
    LayoutId(OpTypeVoid, 1);
  }

  lemma ExampleTypeFunctionWords()
    ensures InstAssemblable(ExampleTypeFunction)
    ensures AssembleInstruction(ExampleTypeFunction) == [WcOp(4, OpTypeFunction), 2, 1, 1]
  {
    LayoutTwo(OpTypeFunction, None, Some(2), Scalar(IdRef, 1), Scalar(IdRef, 1), 1, 1);
  }

  lemma ExampleFunctionWords()
    ensures InstAssemblable(ExampleFunction)
    ensures AssembleInstruction(ExampleFunction) == [WcOp(5, OpFunction), 1, 3, FunctionControlConst, 2]
  {
    LayoutTwo(OpFunction, Some(1), Some(3), Bitmask(FunctionControl, FunctionControlConst), Scalar(IdRef, 2),
      FunctionControlConst, 2);
  }

  lemma ExampleLabelWords()
    ensures AssembleInstruction(ExampleLabel) == [WcOp(2, OpLabel), 4]
  {
    LayoutId(OpLabel, 4);
  }

  lemma ExampleReturnWords()
    ensures AssembleInstruction(ExampleReturn) == [WcOp(1, OpReturn)]
  {
    LayoutBare(OpReturn);
  }

  lemma ExampleFunctionEndWords()
    ensures AssembleInstruction(ExampleFunctionEnd) == [WcOp(1, OpFunctionEnd)]
  {
    LayoutBare(OpFunctionEnd);
  }

  /** The example's instructions in encoding order. */
  lemma ExampleModuleInsts(major: Byte, minor: Byte)
    ensures ModuleAssemblable(ExampleModule(major, minor))
    ensures ModuleInsts(ExampleModule(major, minor)) == [ExampleMemoryModel, ExampleTypeVoid, ExampleTypeFunction]
      + [ExampleFunction, ExampleLabel, ExampleReturn, ExampleFunctionEnd]
  {
    var m := ExampleModule(major, minor);
    var f := m.functions[0];
    var block := f.basicBlocks[0];
    assert BlockAssemblable(block);
    assert FunctionAssemblable(f);
    assert BlocksInsts([block]) == [ExampleLabel, ExampleReturn] by {
      assert BlocksInsts([block]) == BlockInsts(block) + BlocksInsts([]);
    }
    assert FunctionsInsts([f]) == FunctionInsts(f) + FunctionsInsts([]);
  }

  /** The example's global instructions encode to each one's words in turn. */
  lemma ExampleGlobalsWords()
    ensures InstsAssemblable([ExampleMemoryModel, ExampleTypeVoid, ExampleTypeFunction])
    ensures AssembleInsts([ExampleMemoryModel, ExampleTypeVoid, ExampleTypeFunction])
      == [WcOp(3, OpMemoryModel), AddressingModelLogical, MemoryModelSimple]
      + ([WcOp(2, OpTypeVoid), 1] + [WcOp(4, OpTypeFunction), 2, 1, 1])
  {
    ExampleTypesWords();
    ExampleMemoryModelWords();
    ConsThree(ExampleMemoryModel, ExampleTypeVoid, ExampleTypeFunction,
      [WcOp(3, OpMemoryModel), AddressingModelLogical, MemoryModelSimple],
      [WcOp(2, OpTypeVoid), 1] + [WcOp(4, OpTypeFunction), 2, 1, 1]);
  }

  lemma ExampleTypesWords()
    ensures InstsAssemblable([ExampleTypeVoid, ExampleTypeFunction])
    ensures AssembleInsts([ExampleTypeVoid, ExampleTypeFunction])
      == [WcOp(2, OpTypeVoid), 1] + [WcOp(4, OpTypeFunction), 2, 1, 1]
  {
    ExampleTypeVoidWords();
    ExampleTypeFunctionWords();
    SingleWords(ExampleTypeFunction, [WcOp(4, OpTypeFunction), 2, 1, 1]);
    ConsTwo(ExampleTypeVoid, ExampleTypeFunction, [WcOp(2, OpTypeVoid), 1], [WcOp(4, OpTypeFunction), 2, 1, 1]);
  }

  /** The example function's instructions encode to each one's words in turn. */
  lemma ExampleFunctionInstsWords()
    ensures InstsAssemblable([ExampleFunction, ExampleLabel, ExampleReturn, ExampleFunctionEnd])
    ensures AssembleInsts([ExampleFunction, ExampleLabel, ExampleReturn, ExampleFunctionEnd])
      == [WcOp(5, OpFunction), 1, 3, FunctionControlConst, 2]
      + ([WcOp(2, OpLabel), 4] + ([WcOp(1, OpReturn)] + [WcOp(1, OpFunctionEnd)]))
  {
    ExampleBlockWords();
    ExampleFunctionWords();
    ConsFour(ExampleFunction, ExampleLabel, ExampleReturn, ExampleFunctionEnd,
      [WcOp(5, OpFunction), 1, 3, FunctionControlConst, 2],
      [WcOp(2, OpLabel), 4] + ([WcOp(1, OpReturn)] + [WcOp(1, OpFunctionEnd)]));
  }

  lemma ExampleBlockWords()
    ensures InstsAssemblable([ExampleLabel, ExampleReturn, ExampleFunctionEnd])
    ensures AssembleInsts([ExampleLabel, ExampleReturn, ExampleFunctionEnd])
      == [WcOp(2, OpLabel), 4] + ([WcOp(1, OpReturn)] + [WcOp(1, OpFunctionEnd)])
  {
    ExampleEndWords();
    ExampleLabelWords();
    ConsThree(ExampleLabel, ExampleReturn, ExampleFunctionEnd, [WcOp(2, OpLabel), 4],
      [WcOp(1, OpReturn)] + [WcOp(1, OpFunctionEnd)]);
  }

  lemma ExampleEndWords()
    ensures InstsAssemblable([ExampleReturn, ExampleFunctionEnd])
    ensures AssembleInsts([ExampleReturn, ExampleFunctionEnd]) == [WcOp(1, OpReturn)] + [WcOp(1, OpFunctionEnd)]
  {
    ExampleReturnWords();
    ExampleFunctionEndWords();
    SingleWords(ExampleFunctionEnd, [WcOp(1, OpFunctionEnd)]);
    ConsTwo(ExampleReturn, ExampleFunctionEnd, [WcOp(1, OpReturn)], [WcOp(1, OpFunctionEnd)]);
  }

  /** A single instruction encodes to its own words. */
  lemma SingleWords(a: Instruction, w: seq<Word>)
    requires InstAssemblable(a) && AssembleInstruction(a) == w
    ensures InstsAssemblable([a]) && AssembleInsts([a]) == w
  {
    ConsWords(a, [], w, []);
    assert [a] + [] == [a];
  }

  /** Two instructions encode to the first's words, then the second's. */
  lemma ConsTwo(a: Instruction, b: Instruction, w: seq<Word>, ws: seq<Word>)
    requires InstAssemblable(a) && InstsAssemblable([b])
    requires AssembleInstruction(a) == w && AssembleInsts([b]) == ws
    ensures InstsAssemblable([a, b]) && AssembleInsts([a, b]) == w + ws
  {
    ConsWords(a, [b], w, ws);
    assert [a] + [b] == [a, b];
  }

  /** Three instructions encode to the first's words, then the other two's. */
  lemma ConsThree(a: Instruction, b: Instruction, c: Instruction, w: seq<Word>, ws: seq<Word>)
    requires InstAssemblable(a) && InstsAssemblable([b, c])
    requires AssembleInstruction(a) == w && AssembleInsts([b, c]) == ws
    ensures InstsAssemblable([a, b, c]) && AssembleInsts([a, b, c]) == w + ws
  {
    ConsWords(a, [b, c], w, ws);
    assert [a] + [b, c] == [a, b, c];
  }

  /** Four instructions encode to the first's words, then the other three's. */
  lemma ConsFour(a: Instruction, b: Instruction, c: Instruction, d: Instruction, w: seq<Word>, ws: seq<Word>)
    requires InstAssemblable(a) && InstsAssemblable([b, c, d])
    requires AssembleInstruction(a) == w && AssembleInsts([b, c, d]) == ws
    ensures InstsAssemblable([a, b, c, d]) && AssembleInsts([a, b, c, d]) == w + ws
  {
    ConsWords(a, [b, c, d], w, ws);
    assert [a] + [b, c, d] == [a, b, c, d];
  }

  /** One more instruction in front, with its words and the rest's words known. */
  lemma ConsWords(inst: Instruction, rest: seq<Instruction>, w: seq<Word>, ws: seq<Word>)
    requires InstAssemblable(inst) && InstsAssemblable(rest)
    requires AssembleInstruction(inst) == w && AssembleInsts(rest) == ws
    ensures InstsAssemblable([inst] + rest) && AssembleInsts([inst] + rest) == w + ws
  {
    AssembleInstsCons(inst, rest);
  }

  /** The example's expected words, one piece per part. */
  lemma ExamplePieces(major: Byte, minor: Byte)
    ensures [MagicNumber, VersionWord(major, minor), 0xffff_ffff, 5, 0]
      + (([WcOp(3, OpMemoryModel), AddressingModelLogical, MemoryModelSimple]
      + ([WcOp(2, OpTypeVoid), 1] + [WcOp(4, OpTypeFunction), 2, 1, 1]))
      + ([WcOp(5, OpFunction), 1, 3, FunctionControlConst, 2]
      + ([WcOp(2, OpLabel), 4] + ([WcOp(1, OpReturn)] + [WcOp(1, OpFunctionEnd)]))))
      == ExampleWords(major, minor)
  {
  }

  /** The words the source's module test expects, for a version major.minor. */
  function ExampleWords(major: Byte, minor: Byte): seq<Word>
  {
    [ MagicNumber, VersionWord(major, minor), 0xffff_ffff, 5, 0,
      WcOp(3, OpMemoryModel), AddressingModelLogical, MemoryModelSimple,
      WcOp(2, OpTypeVoid), 1,
      WcOp(4, OpTypeFunction), 2, 1, 1,
      WcOp(5, OpFunction), 1, 3, FunctionControlConst, 2,
      WcOp(2, OpLabel), 4,
      WcOp(1, OpReturn),
      WcOp(1, OpFunctionEnd)]
  }

  /** The whole module assembles to the word sequence the source's test expects. */
  lemma AssembleExampleModule(major: Byte, minor: Byte)
    ensures ModuleAssemblable(ExampleModule(major, minor))
    ensures AssembleModule(ExampleModule(major, minor)) == ExampleWords(major, minor)
  {
    var m := ExampleModule(major, minor);
    ExampleModuleInsts(major, minor);
    ExampleGlobalsWords();
    ExampleFunctionInstsWords();
    AssembleInstsAppend([ExampleMemoryModel, ExampleTypeVoid, ExampleTypeFunction],
      [ExampleFunction, ExampleLabel, ExampleReturn, ExampleFunctionEnd]);
    var r := AssembleModule(m);
    ExamplePieces(major, minor);
  }
}
