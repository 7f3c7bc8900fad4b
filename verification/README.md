# rspirv binary assembler, modelled in Dafny

This project models the assembler of rspirv (`rspirv/binary/assemble.rs`),
which turns the in-memory representation of a SPIR-V module into the
module's binary form: a sequence of 32-bit words laid out as section 2.3 of
the SPIR-V Specification prescribes. The model covers every `assemble`
implementation in that file:

- the module header;
- literal strings (`assemble_str`);
- operands, instructions, basic blocks, functions and whole modules;
- the file's unit tests, restated as lemmas.

Modules, one per file:

- `Words` (`words.dfy`) defines words and bytes as integer ranges and the
  little-endian packing of four bytes into a word.
- `LiteralStrings` (`strings.dfy`) holds `AssembleStr`. Its partner is the
  NUL-terminated decoder `DecodeStr`.
- `Operands` (`operands.dfy`) holds the operand encoding. Its partner is
  `ParseOperand`, which reads an operand back given its kind.
- `Instructions` (`instructions.dfy`) holds the instruction encoding and the
  header word. Its partners are `ParseInstruction`, which reads an
  instruction back given its shape (result type, result id, operand kinds),
  and `SplitWords`, which cuts a stream by word counts.
- `Containers` (`containers.dfy`) covers the header, blocks, functions and
  modules. Each container's words are proved to be exactly the words of its
  instructions, in order.
- `AssembleTests` (`assemble_tests.dfy`) restates the unit tests as lemmas.
  Opcode and enumerant numbers come from section 3 of the SPIR-V
  Specification.

The decoders belong to the model only. They state what the encoding means by
proving round trips; they are not rspirv's parser.

Section 2.3 of the SPIR-V Specification gives an instruction's word count
the high 16 bits of its first word, so an instruction of 2^16 words or more
has no valid encoding. The code does not check the count: it computes
`opcode | (len as u32) << 16`, which keeps only len mod 2^16. The model
follows the code. `Instructions.AssembleInstruction` states the reduced
count for every instruction, and the exact count whenever the instruction
has fewer than 2^16 words.

## Model

| member | source | states |
|---|---|---|
| Words.Pack4Bytes | rspirv/binary/assemble.rs:161-164 | The word built from four bytes unpacks, least significant byte first, to exactly those four bytes. |
| Words.PackLeBytes | rspirv/binary/assemble.rs:34 | The word packed from the tail of a byte string unpacks to its first four bytes, with zeros past the end of the string. |
| Words.PackLeEmpty | rspirv/binary/assemble.rs:35-37 | Packing an empty remainder gives the zero word. |
| LiteralStrings.AssembleStr | rspirv/binary/assemble.rs:31-39 | A string of n bytes takes ⌊n/4⌋ + 1 words. Word i is the zero-filled packing of the bytes from 4i on, so the extra word for n a multiple of 4 is zero. |
| LiteralStrings.AssembleStrBytes | rspirv/binary/assemble.rs:31-39 | Word i holds bytes 4i .. 4i+3 of the string in little-endian order, zero past its end. |
| LiteralStrings.AssembleStrTerminated | rspirv/binary/assemble.rs:33-37 | The top byte of the last word is zero, so the string always carries its NUL terminator. |
| LiteralStrings.AssembleStrWords | rspirv/binary/assemble.rs:34 | Every word of the encoding equals the packing of its own four bytes. |
| LiteralStrings.StrGroupWords | rspirv/binary/assemble.rs:33-34 | Prefixing a string with four bytes prefixes its encoding with exactly their word. |
| LiteralStrings.DecodeAssembleStr | rspirv/binary/assemble.rs:31-39 | Reading the encoding of a NUL-free string back gives the string, and consumes exactly the words the encoding produced, whatever follows them. |
| Operands.AssembleOperand | rspirv/binary/assemble.rs:41-86 | The operand's encoding takes as many words as its kind demands: one for every scalar kind, ⌊n/4⌋ + 1 for a string. Bitmasks give their bits, enumerants their value, and ids, 32-bit literals, float bit patterns and spec-constant opcodes their word. The 64-bit literals are refused because the source aborts on them. |
| Operands.ParseAssembleOperand | rspirv/binary/assemble.rs:41-86 | An encoded operand read back by its kind gives the same operand and its exact word length, whatever follows. This holds for every assemblable operand whose string bytes, if any, contain no NUL. |
| Operands.AssembleOperands | rspirv/binary/assemble.rs:97-99 | An operand list occupies the sum of its operands' word counts. |
| Operands.ParseAssembleOperands | rspirv/binary/assemble.rs:97-99 | The concatenated operand words, read back by the operands' kinds, give the operand list, when no string operand contains a NUL byte. |
| Instructions.AssembleInstruction | rspirv/binary/assemble.rs:88-103 | The header word's low 16 bits are the opcode and its high 16 bits the total word count modulo 2^16. That count is exact when the instruction has fewer than 2^16 words. After the header come the result type if present, the result id if present, and the operands' words. |
| Instructions.HeaderWord | rspirv/binary/assemble.rs:100 | The first word's low 16 bits are the opcode and its high 16 bits the word count modulo 2^16. |
| Instructions.ParseAssembleInstruction | rspirv/binary/assemble.rs:88-103 | An instruction reads back with its own shape as the same instruction, consuming exactly its words, whatever follows. This holds when its count fits 16 bits and none of its string operands contains a NUL byte. |
| Instructions.AssembleInsts | rspirv/binary/assemble.rs:140-142 | Appending each instruction's words in turn gives a sequence as long as the sum of the instructions' word counts. |
| Instructions.AssembleInstsConcat | rspirv/binary/assemble.rs:111-113 | The appended words are exactly the instructions' separate encodings concatenated in order. |
| Instructions.AssembleInstsAppend | rspirv/binary/assemble.rs:105-148 | Encoding two instruction sequences one after the other gives the encoding of their concatenation. |
| Instructions.SplitAssembleInsts | rspirv/binary/assemble.rs:100 | When every instruction's count fits 16 bits, the words of an instruction sequence split by header counts alone into exactly each instruction's encoding. String contents do not matter. |
| Containers.AssembleHeader | rspirv/binary/assemble.rs:25-29 | A header is five words: magic number, version, generator, bound and reserved word, in that order. |
| Containers.DecodeAssembleHeader | rspirv/binary/assemble.rs:25-29 | The five header words read back as the same header. |
| Containers.AssembleOpt | rspirv/binary/assemble.rs:108-110 | An optional instruction gives its words when present and nothing when absent. |
| Containers.AssembleBlock | rspirv/binary/assemble.rs:105-116 | A block's words are those of its instructions taken in order: the label, if any, then the body. |
| Containers.AssembleBlocks | rspirv/binary/assemble.rs:124-126 | Consecutive blocks give the words of all their instructions in order. |
| Containers.AssembleFunction | rspirv/binary/assemble.rs:118-132 | A function's words are those of its definition, its blocks' instructions and its end, in that order. |
| Containers.AssembleFunctions | rspirv/binary/assemble.rs:143-145 | Consecutive functions give the words of all their instructions in order. |
| Containers.HeaderWords | rspirv/binary/assemble.rs:136-139 | A module with a header starts with five words; one without a header starts with none. |
| Containers.AssembleModule | rspirv/binary/assemble.rs:134-148 | A module's words are its header's words followed by exactly the words of its global and function instructions, in order. |
| Containers.AssembleModuleLength | rspirv/binary/assemble.rs:134-148 | A module occupies 5 words for its header, if any, plus the sum of its instructions' word counts. |
| Containers.SplitAssembleModule | rspirv/binary/assemble.rs:134-148 | A module's words read back as its header. When every instruction's count fits 16 bits, the rest splits into exactly its instructions' encodings. |
| AssembleTests.AssembleStrNone | rspirv/binary/assemble.rs:160 | The empty string encodes as the single zero word. |
| AssembleTests.AssembleStrOne | rspirv/binary/assemble.rs:161 | A one-byte string encodes as one word holding that byte and three zeros. |
| AssembleTests.AssembleStrFour | rspirv/binary/assemble.rs:162 | A four-byte string encodes as its word followed by a zero word. |
| AssembleTests.AssembleStrFive | rspirv/binary/assemble.rs:163-164 | A five-byte string spills its last byte into a second, zero-padded word. |
| AssembleTests.AssembleStrExamples | rspirv/binary/assemble.rs:158-165 | `""`, `"h"`, `"hell"` and `"hello"` encode to the words the test expects. |
| AssembleTests.AssembleBitmaskExamples | rspirv/binary/assemble.rs:167-180 | Function-control flags, and their unions, encode as their bit pattern. |
| AssembleTests.AssembleEnumExamples | rspirv/binary/assemble.rs:182-190 | Built-in enumerants encode as their numeric values. |
| AssembleTests.InstructionLayout | rspirv/binary/assemble.rs:192-194 | An instruction whose count fits encodes as `wc_op(count, opcode)`, then its ids and operands. |
| AssembleTests.LayoutBare | rspirv/binary/assemble.rs:88-103 | An instruction with no ids and no operands is its header word alone, with count 1. |
| AssembleTests.LayoutId | rspirv/binary/assemble.rs:88-103 | An instruction with only a result id is its header word, with count 2, then the id. |
| AssembleTests.LayoutTwo | rspirv/binary/assemble.rs:88-103 | An instruction with two one-word operands is its header, its ids, then the two words. |
| AssembleTests.AssembleNop | rspirv/binary/assemble.rs:196-201 | `OpNop` encodes as `wc_op(1, Nop)`. |
| AssembleTests.AssembleMemoryModel | rspirv/binary/assemble.rs:203-212 | `OpMemoryModel Physical32 OpenCL` encodes as its header with count 3, then the two enumerant values. |
| AssembleTests.AssembleTypeInt | rspirv/binary/assemble.rs:214-220 | `OpTypeInt` with result id 42 encodes as `[wc_op(4, TypeInt), 42, 32, 1]`. |
| AssembleTests.AssembleIAdd | rspirv/binary/assemble.rs:222-229 | `OpIAdd` with a result type and a result id encodes as `[wc_op(5, IAdd), 0xab, 0xcd, 0xef, 0x78]`. |
| AssembleTests.ExampleMemoryModelWords | rspirv/binary/assemble.rs:247-249 | The example's memory-model instruction gives the three expected words. |
| AssembleTests.ExampleTypeVoidWords | rspirv/binary/assemble.rs:250-251 | The void type gives its header and id 1. |
| AssembleTests.ExampleTypeFunctionWords | rspirv/binary/assemble.rs:252-255 | The function type gives its header, id 2, return type 1 and parameter type 1. |
| AssembleTests.ExampleFunctionWords | rspirv/binary/assemble.rs:256-260 | `OpFunction` gives its header, result type 1, id 3, the `Const` control bits and function type 2. |
| AssembleTests.ExampleLabelWords | rspirv/binary/assemble.rs:261-262 | The label gives its header and id 4. |
| AssembleTests.ExampleReturnWords | rspirv/binary/assemble.rs:263 | `OpReturn` is its header word alone. |
| AssembleTests.ExampleFunctionEndWords | rspirv/binary/assemble.rs:264 | `OpFunctionEnd` is its header word alone. |
| AssembleTests.ExampleModuleInsts | rspirv/binary/assemble.rs:233-240 | The example module's instructions, in encoding order, are its globals (the memory model and the two types), then its function's instructions (the function, the label, the return and the function end). |
| AssembleTests.ExampleGlobalsWords | rspirv/binary/assemble.rs:247-255 | The example's global instructions give the expected words, one instruction after another. |
| AssembleTests.ExampleFunctionInstsWords | rspirv/binary/assemble.rs:256-264 | The example function's instructions give the expected words, one instruction after another. |
| AssembleTests.AssembleExampleModule | rspirv/binary/assemble.rs:231-266 | The whole example module assembles to the 23 words the test expects. The version word is left as a parameter. |

## Left out

- `utils::num` is not part of this model. `bytes_to_u32_le` is defined here
  as little-endian packing of the first four bytes, zero-filled (`PackLe`).
- `f32_to_u32` is not modelled either. A 32-bit float operand carries its
  IEEE-754 bit pattern as an opaque word, so floating point never enters the
  model.
- `LiteralInt64` and `LiteralFloat64` reach `unimplemented!()` and abort in
  the source. They get no encoding: the `Assemblable` precondition keeps them
  away from the encoders.
- `Module::global_inst_iter` and the builder are not part of this model. A
  module's global instructions are one explicit sequence, already in the
  section order the format mandates. The example module is written out as
  the builder would produce it.
- The `spirv` crate's constants (opcodes, enumerants, `MAJOR_VERSION`,
  `MINOR_VERSION`) are generated by `codegen/build.rs`, which is not
  modelled. Opcode and enumerant numbers are taken from the SPIR-V
  Specification. The version word takes the major and minor numbers as
  parameters.
- `usize` arithmetic in `assemble_str` (`(len + 3) >> 2` and `i << 2`) is
  modelled with unbounded integers. A byte string long enough to overflow
  it cannot exist in memory.
- Strings are byte sequences. The UTF-8 validity that `&str` guarantees is
  not modelled, so the encoding is stated for every byte sequence.
- LiteralStrings.DecodeAssembleStr: holds only for NUL-free strings. A NUL
  inside a string ends it when read back, so such a string's encoding is not
  invertible.
- Instructions.ParseAssembleInstruction: holds only for instructions of
  fewer than 2^16 words whose string operands contain no NUL byte. The
  source truncates larger counts, and a NUL inside a string ends it when
  read back, so neither case can be read back.
- Instructions.SplitAssembleInsts: holds only for instructions of fewer than
  2^16 words, because the source truncates larger counts.
- Containers.SplitAssembleModule: holds only for instructions of fewer than
  2^16 words, for the same reason.
- The decoders follow the instruction's own shape rather than rspirv's
  grammar table. rspirv's parser and the table's repeat and optional-operand
  rules are not part of this model.
