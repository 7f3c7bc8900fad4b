/**
 Operands and their encoding (`Operand::assemble`). The source has one
 operand variant per operand kind; here they are collapsed by encoding
 category, keeping the kind as a tag so that no information is lost.
 */
module Operands {
  import opened Words
  import opened LiteralStrings

  /** Operand kinds whose value is a set of bit flags (`bitflags` types). */
  datatype BitmaskKind =
    | ImageOperands | FPFastMathMode | SelectionControl | LoopControl
    | FunctionControl | MemorySemantics | MemoryAccess | KernelProfilingInfo

  /** Operand kinds whose value is one enumerant, encoded by its numeric value. */
  datatype EnumKind =
    | SourceLanguage | ExecutionModel | AddressingModel | MemoryModel
    | ExecutionMode | StorageClass | Dim | SamplerAddressingMode
    | SamplerFilterMode | ImageFormat | ImageChannelOrder | ImageChannelDataType
    | FPRoundingMode | LinkageType | AccessQualifier | FunctionParameterAttribute
    | Decoration | BuiltIn | Scope | GroupOperation | KernelEnqueueFlags | Capability

  /** Operand kinds that hold one raw `u32`: ids and 32-bit integer literals. */
  datatype WordKind = IdMemorySemantics | IdScope | IdRef | LiteralInt32 | LiteralExtInstInteger

  datatype Operand =
    | Bitmask(maskKind: BitmaskKind, bits: Word)
    | Enumerant(enumKind: EnumKind, value: Word)
    | Scalar(wordKind: WordKind, word: Word)
    | LiteralInt64(int64: nat)
    | LiteralFloat32(float32Bits: Word)   // the IEEE-754 bit pattern, opaque
    | LiteralFloat64(float64Bits: nat)
    | SpecConstantOpInteger(opValue: Word)
    | LiteralString(bytes: seq<Byte>)

  /** The tag of an operand, as the grammar table names it per operand position. */
  datatype OperandKind =
    | MaskKind(maskKind: BitmaskKind)
    | EnumerantKind(enumKind: EnumKind)
    | ScalarKind(wordKind: WordKind)
    | Int64Kind
    | Float32Kind
    | Float64Kind
    | SpecConstantOpKind
    | StringKind

  function KindOf(o: Operand): OperandKind
  {
    match o
    case Bitmask(k, _) => MaskKind(k)
    case Enumerant(k, _) => EnumerantKind(k)
    case Scalar(k, _) => ScalarKind(k)
    case LiteralInt64(_) => Int64Kind
    case LiteralFloat32(_) => Float32Kind
    case LiteralFloat64(_) => Float64Kind
    case SpecConstantOpInteger(_) => SpecConstantOpKind
    case LiteralString(_) => StringKind
  }

  /**
   The operands the source can encode: the 64-bit literals reach
   `unimplemented!()` and abort, so callers must not pass them.
   */
  predicate Assemblable(o: Operand)
  {
    !o.LiteralInt64? && !o.LiteralFloat64?
  }

  /** Operands whose encoding can be read back: strings must hold no NUL byte. */
  predicate Reparsable(o: Operand)
  {
    Assemblable(o) && (o.LiteralString? ==> NulFree(o.bytes))
  }

  predicate AllAssemblable(ops: seq<Operand>)
  {
    forall i :: 0 <= i < |ops| ==> Assemblable(ops[i])
  }

  predicate AllReparsable(ops: seq<Operand>)
    ensures AllReparsable(ops) ==> AllAssemblable(ops)
  {
    forall i :: 0 <= i < |ops| ==> Reparsable(ops[i])
  }

  /**
   The number of words an operand occupies, by category alone: one word for
   every scalar category, ⌊n/4⌋ + 1 words for a string of n bytes.
   */
  function OperandWordCount(o: Operand): nat
  {
    if o.LiteralString? then |o.bytes| / 4 + 1 else 1
  }

  /**
   Encodes one operand. Bitmasks give their bit pattern, enumerants their
   numeric value, ids and 32-bit literals their word verbatim, all as a
   single word; strings use the literal-string packing.
   */
  function AssembleOperand(o: Operand): (r: seq<Word>)
    requires Assemblable(o)
    ensures |r| == OperandWordCount(o) >= 1
    ensures o.Bitmask? ==> r == [o.bits]
    ensures o.Enumerant? ==> r == [o.value]
    ensures o.Scalar? ==> r == [o.word]
    ensures o.LiteralFloat32? ==> r == [o.float32Bits]
    ensures o.SpecConstantOpInteger? ==> r == [o.opValue]
  {
    match o
    case Bitmask(_, bits) => [bits]
    case Enumerant(_, v) => [v]
    case Scalar(_, v) => [v]
    case LiteralFloat32(v) => [v]
    case SpecConstantOpInteger(v) => [v]
    case LiteralString(s) => AssembleStr(s)
  }

  /**
   Reads one operand of the given kind from the front of a word stream,
   returning it with the number of words consumed. The 64-bit kinds have
   no encoding and are refused, as are streams too short for the kind.
   */
  function ParseOperand(k: OperandKind, words: seq<Word>): (r: Option<(Operand, nat)>)
    ensures r.Some? ==> 1 <= r.value.1 <= |words| && KindOf(r.value.0) == k
  {
    match k
    case StringKind =>
      (match DecodeStr(words)
       case None => None
       case Some((s, n)) => Some((LiteralString(s), n)))
    case Int64Kind => None
    case Float64Kind => None
    case _ =>
      if |words| == 0 then None
      else
        var w := words[0];
        var o := match k
          case MaskKind(m) => Bitmask(m, w)
          case EnumerantKind(e) => Enumerant(e, w)
          case ScalarKind(s) => Scalar(s, w)
          case Float32Kind => LiteralFloat32(w)
          case _ => SpecConstantOpInteger(w);
        Some((o, 1))
  }

  /** Reading an encoded operand back by its kind gives the operand and its length. */
  lemma ParseAssembleOperand(o: Operand, rest: seq<Word>)
    requires Reparsable(o)
    ensures ParseOperand(KindOf(o), AssembleOperand(o) + rest) == Some((o, |AssembleOperand(o)|))
  {
    if o.LiteralString? {
      DecodeAssembleStr(o.bytes, rest);
    }
  }

  /** The encoding of an operand list: each operand's words, in order. */
  function AssembleOperands(ops: seq<Operand>): (r: seq<Word>)
    requires AllAssemblable(ops)
    ensures |r| == OperandsWordCount(ops)
  {
    if |ops| == 0 then [] else AssembleOperand(ops[0]) + AssembleOperands(ops[1..])
  }

  function OperandsWordCount(ops: seq<Operand>): nat
  {
    if |ops| == 0 then 0 else OperandWordCount(ops[0]) + OperandsWordCount(ops[1..])
  }

  /**
   Reads operands of the given kinds, in order, and requires them to use up
   the words exactly.
   */
  function ParseOperands(kinds: seq<OperandKind>, words: seq<Word>): (r: Option<seq<Operand>>)
    ensures r.Some? ==> |r.value| == |kinds|
    decreases |kinds|
  {
    if |kinds| == 0 then
      if |words| == 0 then Some([]) else None
    else
      match ParseOperand(kinds[0], words)
      case None => None
      case Some((o, n)) =>
        match ParseOperands(kinds[1..], words[n..])
        case None => None
        case Some(tail) => Some([o] + tail)
  }

  function KindsOf(ops: seq<Operand>): (ks: seq<OperandKind>)
    ensures |ks| == |ops|
    ensures forall i :: 0 <= i < |ops| ==> ks[i] == KindOf(ops[i])
  {
    seq(|ops|, i requires 0 <= i < |ops| => KindOf(ops[i]))
  }

  /** Reading an encoded operand list back by its kinds gives the operands. */
  lemma {:induction false} ParseAssembleOperands(ops: seq<Operand>)
    requires AllReparsable(ops)
    ensures ParseOperands(KindsOf(ops), AssembleOperands(ops)) == Some(ops)
    decreases |ops|
  {
    if |ops| > 0 {
      var head, tail := AssembleOperand(ops[0]), AssembleOperands(ops[1..]);
      ParseAssembleOperand(ops[0], tail);
      assert KindsOf(ops)[1..] == KindsOf(ops[1..]);
      assert (head + tail)[|head|..] == tail;
      ParseAssembleOperands(ops[1..]);
      assert [ops[0]] + ops[1..] == ops;
    }
  }
}
