/**
 Instructions and their encoding (`Instruction::assemble`), following the
 instruction layout of section 2.3 of the SPIR-V Specification: one header
 word carrying the opcode in its low 16 bits and the instruction's total
 word count in its high 16 bits, then the optional result type, the
 optional result id and the operands.
 */
module Instructions {
  import opened Words
  import opened Operands

  /** An opcode: every SPIR-V opcode fits the 16-bit opcode field. */
  type Opcode = x: int | 0 <= x < 0x1_0000

  datatype Instruction = Instruction(
    opcode: Opcode,
    resultType: Option<Word>,
    resultId: Option<Word>,
    operands: seq<Operand>)

  /** The instructions the source can encode without aborting. */
  predicate InstAssemblable(inst: Instruction)
  {
    AllAssemblable(inst.operands)
  }

  /** Zero or one word, for an optional id. */
  function OptWord(w: Option<Word>): (r: seq<Word>)
    ensures |r| == if w.Some? then 1 else 0
  {
    if w.Some? then [w.value] else []
  }

  /**
   The total number of words an instruction occupies, counted from its
   parts: the header word, one word per present id, and each operand's
   words.
   */
  function InstructionWordCount(inst: Instruction): nat
  {
    1 + (if inst.resultType.Some? then 1 else 0) + (if inst.resultId.Some? then 1 else 0)
      + OperandsWordCount(inst.operands)
  }

  /**
   The header word `opcode | (len as u32) << 16`. The cast keeps len modulo
   2^32 and the shift then drops all but its low 16 bits, so the count field
   is len modulo 2^16; an opcode below 2^16 shares no bit with it, so the
   bitwise or is a sum. Nothing rejects a length of 2^16 words or more.
   */
  function HeaderWord(opcode: Opcode, len: nat): (w: Word)
    ensures OpcodeField(w) == opcode && WordCountField(w) == len % 0x1_0000
  {
    opcode + 0x1_0000 * (len % 0x1_0000)
  }

  /** The opcode field (low 16 bits) of a header word. */
  function OpcodeField(w: Word): Opcode
  {
    w % 0x1_0000
  }

  /** The word-count field (high 16 bits) of a header word. */
  function WordCountField(w: Word): nat
  {
    w / 0x1_0000
  }

  /**
   Encodes an instruction: the header word, the result type if present, the
   result id if present, then each operand's words in order. The header's
   low 16 bits are the opcode and its high 16 bits the total word count,
   header included, reduced modulo 2^16 because the source never checks
   the count fits.
   */
  function AssembleInstruction(inst: Instruction): (r: seq<Word>)
    requires InstAssemblable(inst)
    ensures |r| == InstructionWordCount(inst)
    ensures r[0] == HeaderWord(inst.opcode, |r|)
    ensures OpcodeField(r[0]) == inst.opcode
    ensures WordCountField(r[0]) == |r| % 0x1_0000
    ensures |r| < 0x1_0000 ==> WordCountField(r[0]) == |r|
    ensures r[1..] == OptWord(inst.resultType) + OptWord(inst.resultId) + AssembleOperands(inst.operands)
  {
    var body := OptWord(inst.resultType) + OptWord(inst.resultId) + AssembleOperands(inst.operands);
    [HeaderWord(inst.opcode, 1 + |body|)] + body
  }

  /** The numbers an instruction needs to be read back: its words fit the count field. */
  predicate InstReparsable(inst: Instruction)
    ensures InstReparsable(inst) ==> InstAssemblable(inst)
  {
    AllReparsable(inst.operands) && InstructionWordCount(inst) < 0x1_0000
  }

  /**
   What the grammar table says about an opcode, per instruction: whether it
   carries a result type and a result id, and the kinds of its operands.
   */
  datatype Shape = Shape(hasResultType: bool, hasResultId: bool, kinds: seq<OperandKind>)

  function ShapeOf(inst: Instruction): Shape
  {
    Shape(inst.resultType.Some?, inst.resultId.Some?, KindsOf(inst.operands))
  }

  /** Reads an optional id word from the front of words when the shape says it is there. */
  function ParseOptWord(present: bool, words: seq<Word>): (r: Option<(Option<Word>, seq<Word>)>)
    ensures r.Some? ==> |OptWord(r.value.0)| + |r.value.1| == |words|
    ensures r.Some? ==> (r.value.0.Some? <==> present)
  {
    if !present then Some((None, words))
    else if |words| == 0 then None
    else Some((Some(words[0]), words[1..]))
  }

  /**
   Reads one instruction from the front of a word stream, returning it with
   the number of words consumed: splits the header into opcode and word
   count, then reads exactly count - 1 further words as the optional ids and
   the operands the shape names. Fails on a zero or overlong count, or when
   the operands do not use up the counted words exactly.
   */
  function ParseInstruction(shape: Shape, words: seq<Word>): (r: Option<(Instruction, nat)>)
    ensures r.Some? ==> 1 <= r.value.1 <= |words|
    ensures r.Some? ==> r.value.0.opcode == OpcodeField(words[0]) && r.value.1 == WordCountField(words[0])
  {
    if |words| == 0 then None
    else
      var count := WordCountField(words[0]);
      if count == 0 || count > |words| then None
      else
        match ParseOptWord(shape.hasResultType, words[1..count])
        case None => None
        case Some((resultType, afterType)) =>
          match ParseOptWord(shape.hasResultId, afterType)
          case None => None
          case Some((resultId, afterId)) =>
            match ParseOperands(shape.kinds, afterId)
            case None => None
            case Some(ops) => Some((Instruction(OpcodeField(words[0]), resultType, resultId, ops), count))
  }

  /**
   Reading an encoded instruction back with its own shape gives the same
   instruction and consumes exactly its words, whatever follows them.
   */
  lemma ParseAssembleInstruction(inst: Instruction, rest: seq<Word>)
    requires InstReparsable(inst)
    ensures ParseInstruction(ShapeOf(inst), AssembleInstruction(inst) + rest)
            == Some((inst, |AssembleInstruction(inst)|))
  {
    var code := AssembleInstruction(inst);
    var words := code + rest;
    var ty, id, ops := OptWord(inst.resultType), OptWord(inst.resultId), AssembleOperands(inst.operands);
    assert code == [code[0]] + (ty + id + ops);
    assert WordCountField(words[0]) == |code|;
    assert words[1..|code|] == ty + id + ops;
    assert ParseOptWord(inst.resultType.Some?, ty + id + ops) == Some((inst.resultType, id + ops)) by {
      assert (ty + id + ops)[|ty|..] == id + ops;
    }
    assert ParseOptWord(inst.resultId.Some?, id + ops) == Some((inst.resultId, ops)) by {
      assert (id + ops)[|id|..] == ops;
    }
    ParseAssembleOperands(inst.operands);
  }

  predicate InstsAssemblable(insts: seq<Instruction>)
  {
    forall i :: 0 <= i < |insts| ==> InstAssemblable(insts[i])
  }

  /** The concatenation of a sequence of word sequences. */
  function Concat(pieces: seq<seq<Word>>): seq<Word>
  {
    if |pieces| == 0 then [] else pieces[0] + Concat(pieces[1..])
  }

  lemma {:induction false} ConcatAppend(p: seq<seq<Word>>, q: seq<seq<Word>>)
    ensures Concat(p + q) == Concat(p) + Concat(q)
    decreases |p|
  {
    if |p| == 0 {
      assert p + q == q;
    } else {
      assert (p + q)[1..] == p[1..] + q;
      ConcatAppend(p[1..], q);
    }
  }

  /** The encoding of each instruction of a sequence, one piece per instruction. */
  function InstWords(insts: seq<Instruction>): (r: seq<seq<Word>>)
    requires InstsAssemblable(insts)
    ensures |r| == |insts|
    ensures forall i :: 0 <= i < |insts| ==> r[i] == AssembleInstruction(insts[i])
  {
    seq(|insts|, i requires 0 <= i < |insts| => AssembleInstruction(insts[i]))
  }

  function InstsWordCount(insts: seq<Instruction>): nat
  {
    if |insts| == 0 then 0 else InstructionWordCount(insts[0]) + InstsWordCount(insts[1..])
  }

  /**
   The encoding of an instruction sequence, as the source appends it: the
   first instruction's words, then the rest's. It occupies the sum of the
   instructions' word counts.
   */
  function AssembleInsts(insts: seq<Instruction>): (r: seq<Word>)
    requires InstsAssemblable(insts)
    ensures |r| == InstsWordCount(insts)
    decreases |insts|
  {
    if |insts| == 0 then [] else AssembleInstruction(insts[0]) + AssembleInsts(insts[1..])
  }

  /** The appended encoding is the concatenation of the instructions' separate encodings. */
  lemma {:induction false} AssembleInstsConcat(insts: seq<Instruction>)
    requires InstsAssemblable(insts)
    ensures AssembleInsts(insts) == Concat(InstWords(insts))
    decreases |insts|
  {
    if |insts| > 0 {
      assert InstWords(insts)[1..] == InstWords(insts[1..]);
      AssembleInstsConcat(insts[1..]);
    }
  }

  /** Prefixing an instruction prefixes the encoding with its words. */
  lemma AssembleInstsCons(inst: Instruction, rest: seq<Instruction>)
    requires InstAssemblable(inst) && InstsAssemblable(rest)
    ensures InstsAssemblable([inst] + rest)
    ensures AssembleInsts([inst] + rest) == AssembleInstruction(inst) + AssembleInsts(rest)
  {
    var insts := [inst] + rest;
    forall i | 0 <= i < |insts|
      ensures InstAssemblable(insts[i])
    {
      if i > 0 { assert insts[i] == rest[i - 1]; }
    }
    assert insts[1..] == rest;
  }

  /** Encoding a concatenation of instruction sequences concatenates their encodings. */
  lemma {:induction false} AssembleInstsAppend(a: seq<Instruction>, b: seq<Instruction>)
    requires InstsAssemblable(a) && InstsAssemblable(b)
    ensures InstsAssemblable(a + b)
    ensures AssembleInsts(a + b) == AssembleInsts(a) + AssembleInsts(b)
    decreases |a|
  {
    InstsAssemblableAppend(a, b);
    if |a| == 0 {
      assert a + b == b;
    } else {
      assert (a + b)[0] == a[0] && (a + b)[1..] == a[1..] + b;
      AssembleInstsAppend(a[1..], b);
      WordsAssoc(AssembleInstruction(a[0]), AssembleInsts(a[1..]), AssembleInsts(b));
    }
  }

  lemma InstsAssemblableAppend(a: seq<Instruction>, b: seq<Instruction>)
    requires InstsAssemblable(a) && InstsAssemblable(b)
    ensures InstsAssemblable(a + b)
  {
    forall i | 0 <= i < |a + b|
      ensures InstAssemblable((a + b)[i])
    {
      if i < |a| { assert (a + b)[i] == a[i]; } else { assert (a + b)[i] == b[i - |a|]; }
    }
  }

  lemma WordsAssoc(x: seq<Word>, y: seq<Word>, z: seq<Word>)
    ensures x + y + z == x + (y + z)
  {
  }

  /**
   Cuts a word stream into instructions by reading only each header's
   word-count field. Fails on a zero count or a count that runs past the
   end. The pieces always concatenate back to the stream.
   */
  function SplitWords(words: seq<Word>): (r: Option<seq<seq<Word>>>)
    ensures r.Some? ==> Concat(r.value) == words
    decreases |words|
  {
    if |words| == 0 then Some([])
    else
      var count := WordCountField(words[0]);
      if count == 0 || count > |words| then None
      else
        match SplitWords(words[count..])
        case None => None
        case Some(tail) =>
          assert words[..count] + words[count..] == words;
          Some([words[..count]] + tail)
  }

  /** A piece that starts with a header word counting exactly its own length. */
  predicate SelfCounting(piece: seq<Word>)
  {
    |piece| >= 1 && WordCountField(piece[0]) == |piece|
  }

  /** Pieces that each count their own length are recovered from their concatenation. */
  lemma {:induction false} SplitConcat(pieces: seq<seq<Word>>)
    requires forall i :: 0 <= i < |pieces| ==> SelfCounting(pieces[i])
    ensures SplitWords(Concat(pieces)) == Some(pieces)
    decreases |pieces|
  {
    if |pieces| > 0 {
      var head, tail := pieces[0], Concat(pieces[1..]);
      assert SelfCounting(head);
      assert (head + tail)[..|head|] == head;
      assert (head + tail)[|head|..] == tail;
      SplitConcat(pieces[1..]);
      assert [head] + pieces[1..] == pieces;
    }
  }

  /** Every instruction of a sequence fits the 16-bit word-count field. */
  predicate CountsFit(insts: seq<Instruction>)
  {
    forall i :: 0 <= i < |insts| ==> InstructionWordCount(insts[i]) < 0x1_0000
  }

  /**
   The encoding of a sequence of instructions whose lengths fit the count
   field splits back into exactly the encodings of those instructions.
   */
  lemma SplitAssembleInsts(insts: seq<Instruction>)
    requires InstsAssemblable(insts) && CountsFit(insts)
    ensures SplitWords(AssembleInsts(insts)) == Some(InstWords(insts))
  {
    var pieces := InstWords(insts);
    forall i | 0 <= i < |pieces|
      ensures SelfCounting(pieces[i])
    {
      assert InstructionWordCount(insts[i]) < 0x1_0000;
    }
    SplitConcat(pieces);
    AssembleInstsConcat(insts);
  }
}
