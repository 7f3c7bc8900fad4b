/**
 Words and bytes of a SPIR-V binary, and the little-endian packing of up to
 four bytes into one word that the literal-string encoding is built on
 (section 2.2.1 of the Khronos SPIR-V Specification).

 Words and bytes are unsigned integers in range rather than bit-vectors, so
 the arithmetic that relates a word to its bytes is plain multiplication and
 division by powers of two.
 */
module Words {

  /** The format's atomic unit: an unsigned 32-bit word (`u32`). */
  type Word = x: int | 0 <= x < 0x1_0000_0000

  /** One byte of a UTF-8 string (`u8`). */
  type Byte = x: int | 0 <= x < 0x100

  datatype Option<+T> = None | Some(value: T)

  /** The byte at index k of b, or zero past its end (the zero fill). */
  function ByteAt(b: seq<Byte>, k: nat): Byte
  {
    if k < |b| then b[k] else 0
  }

  /** The four bytes of a word, least significant first. */
  function WordBytes(w: Word): (b: seq<Byte>)
    ensures |b| == 4
  {
    [w % 0x100, (w / 0x100) % 0x100, ((w / 0x100) / 0x100) % 0x100, ((w / 0x100) / 0x100) / 0x100]
  }

  lemma DivModByte(a: Byte, q: nat)
    ensures (a + 0x100 * q) % 0x100 == a
    ensures (a + 0x100 * q) / 0x100 == q
  {
  }

  /** The word whose little-endian bytes are b0, b1, b2, b3. */
  function Pack4(b0: Byte, b1: Byte, b2: Byte, b3: Byte): Word
  {
    b0 + 0x100 * (b1 + 0x100 * (b2 + 0x100 * b3))
  }

  /** Unpacking a packed word gives back its four bytes. */
  lemma Pack4Bytes(b0: Byte, b1: Byte, b2: Byte, b3: Byte)
    ensures WordBytes(Pack4(b0, b1, b2, b3)) == [b0, b1, b2, b3]
  {
    DivModByte(b0, b1 + 0x100 * (b2 + 0x100 * b3));
    DivModByte(b1, b2 + 0x100 * b3);
    DivModByte(b2, b3);
  }

  /**
   Little-endian packing of the first (up to) four bytes of b with missing
   bytes set to zero: the `bytes_to_u32_le` helper the string encoding calls
   on the tail of the byte string.
   */
  function PackLe(b: seq<Byte>): Word
  {
    Pack4(ByteAt(b, 0), ByteAt(b, 1), ByteAt(b, 2), ByteAt(b, 3))
  }

  /** Unpacking the packed word gives back exactly the first four bytes, zero-filled. */
  lemma PackLeBytes(b: seq<Byte>)
    ensures WordBytes(PackLe(b)) == [ByteAt(b, 0), ByteAt(b, 1), ByteAt(b, 2), ByteAt(b, 3)]
  {
    Pack4Bytes(ByteAt(b, 0), ByteAt(b, 1), ByteAt(b, 2), ByteAt(b, 3));
  }

  /** Packing no bytes at all gives the zero word. */
  lemma PackLeEmpty(b: seq<Byte>)
    requires |b| == 0
    ensures PackLe(b) == 0
  {
  }

  /** A byte string with no NUL byte in it. */
  predicate NulFree(s: seq<Byte>)
  {
    forall i :: 0 <= i < |s| ==> s[i] != 0
  }
}
