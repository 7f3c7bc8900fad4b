/**
 The literal-string operand encoding (`assemble_str`): the UTF-8 bytes packed
 four to a word, little-endian, NUL-padded to a word boundary, with an extra
 all-zero word when the byte length is a multiple of four, so that a NUL
 terminator is always present (section 2.2.1 of the SPIR-V Specification).
 */
module LiteralStrings {
  import opened Words

  /** The word holding bytes 4i .. 4i+3 of s, missing bytes zero. */
  ghost predicate HoldsBytes(s: seq<Byte>, i: nat, w: Word)
  {
    WordBytes(w) == [ByteAt(s, 4 * i), ByteAt(s, 4 * i + 1), ByteAt(s, 4 * i + 2), ByteAt(s, 4 * i + 3)]
  }

  lemma ByteAtSuffix(s: seq<Byte>, j: nat, k: nat)
    requires j <= |s|
    ensures ByteAt(s[j..], k) == ByteAt(s, j + k)
  {
  }

  /**
   Encodes the bytes of a string. The first ⌈n/4⌉ words are the packed
   four-byte groups; when n is a multiple of four one zero word follows.
   Either way there are ⌊n/4⌋ + 1 words, and word i is the zero-filled
   packing of the bytes from 4i on, so the extra word is that of the empty
   remainder.
   */
  function AssembleStr(s: seq<Byte>): (r: seq<Word>)
    ensures |r| == |s| / 4 + 1
    ensures forall i :: 0 <= i < |r| ==> 4 * i <= |s| && r[i] == PackLe(s[4 * i..])
  {
    var len := (|s| + 3) / 4;
    GroupCount(|s|);
    var words := GroupWords(s, len);
    if |s| % 4 == 0 then
      PackLeEmpty(s[4 * len..]);
      words + [0]
    else
      words
  }

  /** The packed groups of four bytes starting at 0, 4, .., 4(len - 1). */
  function GroupWords(s: seq<Byte>, len: nat): (r: seq<Word>)
    requires 4 * len <= |s| + 3
    ensures |r| == len
    ensures forall i :: 0 <= i < len ==> 4 * i <= |s| && r[i] == PackLe(s[4 * i..])
  {
    seq(len, i requires 0 <= i < len => PackLe(s[4 * i..]))
  }

  /** The number ⌈n/4⌉ of four-byte groups, in terms of ⌊n/4⌋. */
  lemma GroupCount(n: nat)
    ensures 4 * ((n + 3) / 4) <= n + 3 && 4 * (n / 4) <= n
    ensures n % 4 == 0 ==> (n + 3) / 4 == n / 4 && 4 * (n / 4) == n
    ensures n % 4 != 0 ==> (n + 3) / 4 == n / 4 + 1
  {
  }

  /** The top byte of the last word is zero: every encoding carries its NUL terminator. */
  lemma AssembleStrTerminated(s: seq<Byte>)
    ensures WordBytes(AssembleStr(s)[|AssembleStr(s)| - 1])[3] == 0
  {
    var r := AssembleStr(s);
    PackLeBytes(s[4 * (|r| - 1)..]);
  }

  /**
   Word i of an encoding holds bytes 4i .. 4i+3 of the string in
   little-endian order, zero past the end.
   */
  lemma AssembleStrBytes(s: seq<Byte>)
    ensures forall i :: 0 <= i < |AssembleStr(s)| ==> HoldsBytes(s, i, AssembleStr(s)[i])
  {
    var r := AssembleStr(s);
    forall i | 0 <= i < |r|
      ensures HoldsBytes(s, i, r[i])
    {
      PackLeBytes(s[4 * i..]);
      ByteAtSuffix(s, 4 * i, 0);
      ByteAtSuffix(s, 4 * i, 1);
      ByteAtSuffix(s, 4 * i, 2);
      ByteAtSuffix(s, 4 * i, 3);
    }
  }

  /**
   Reads one NUL-terminated string from the front of a word stream: bytes
   are taken in little-endian order until a zero byte; the result is the
   bytes before it and the number of words consumed. Fails when the words
   run out before a NUL is found.
   */
  function DecodeStr(words: seq<Word>): (r: Option<(seq<Byte>, nat)>)
    ensures r.Some? ==> 1 <= r.value.1 <= |words|
    ensures r.Some? ==> NulFree(r.value.0)
    ensures r.Some? ==> |r.value.0| < 4 * r.value.1
    decreases |words|
  {
    if |words| == 0 then None
    else
      var b := WordBytes(words[0]);
      if b[0] == 0 then Some(([], 1))
      else if b[1] == 0 then Some(([b[0]], 1))
      else if b[2] == 0 then Some(([b[0], b[1]], 1))
      else if b[3] == 0 then Some(([b[0], b[1], b[2]], 1))
      else
        match DecodeStr(words[1..])
        case None => None
        case Some((tail, n)) => Some((b + tail, n + 1))
  }

  /**
   Decoding the words of a NUL-free string recovers its bytes and consumes
   exactly the words the encoding produced, whatever follows them.
   */
  lemma {:induction false} DecodeAssembleStr(s: seq<Byte>, rest: seq<Word>)
    requires NulFree(s)
    ensures DecodeStr(AssembleStr(s) + rest) == Some((s, |AssembleStr(s)|))
    decreases |s|
  {
    if |s| < 4 {
      var words := AssembleStr(s) + rest;
      assert s[0..] == s;
      DecodeShortStr(s, words);
    } else {
      var g, t := s[..4], s[4..];
      assert NulFree(t) && NulFree(g);
      DecodeAssembleStr(t, rest);
      DecodeLongStr(g, t, rest);
      assert g + t == s;
    }
  }

  /** The inductive step: a first full group of four bytes, then the rest of the string. */
  lemma DecodeLongStr(g: seq<Byte>, t: seq<Byte>, rest: seq<Word>)
    requires |g| == 4 && NulFree(g)
    requires DecodeStr(AssembleStr(t) + rest) == Some((t, |AssembleStr(t)|))
    ensures DecodeStr(AssembleStr(g + t) + rest) == Some((g + t, |AssembleStr(g + t)|))
  {
    var w, a, at := PackLe(g), AssembleStr(g + t), AssembleStr(t);
    PackGroup(g);
    StrGroupWords(g, t);
    ConsAppend(w, at, rest);
    DecodeGroupStep(w, at + rest, a + rest, g, t, |at|);
  }

  /** A group of four bytes unpacks from its word exactly. */
  lemma PackGroup(g: seq<Byte>)
    requires |g| == 4
    ensures WordBytes(PackLe(g)) == g
  {
    PackLeBytes(g);
  }

  lemma ConsAppend(w: Word, at: seq<Word>, rest: seq<Word>)
    ensures [w] + at + rest == [w] + (at + rest)
  {
  }

  /** Decoding a stream that starts with a word holding four non-zero bytes. */
  lemma DecodeGroupStep(w: Word, ws: seq<Word>, xs: seq<Word>, g: seq<Byte>, t: seq<Byte>, n: nat)
    requires xs == [w] + ws && WordBytes(w) == g && NulFree(g)
    requires DecodeStr(ws) == Some((t, n))
    ensures DecodeStr(xs) == Some((g + t, n + 1))
  {
    assert g[0] != 0 && g[1] != 0 && g[2] != 0 && g[3] != 0;
    DecodeFullWord(w, ws, t, n);
  }

  /** Prefixing a string with a group of four bytes prefixes its encoding with their word. */
  lemma StrGroupWords(g: seq<Byte>, t: seq<Byte>)
    requires |g| == 4
    ensures AssembleStr(g + t) == [PackLe(g)] + AssembleStr(t)
  {
    var r, rt := AssembleStr(g + t), AssembleStr(t);
    forall i | 0 <= i < |r|
      ensures r[i] == ([PackLe(g)] + rt)[i]
    {
      if i == 0 {
        StrGroupFirst(g, t);
      } else {
        StrGroupLater(g, t, i);
      }
    }
  }

  lemma StrGroupFirst(g: seq<Byte>, t: seq<Byte>)
    requires |g| == 4
    ensures AssembleStr(g + t)[0] == PackLe(g)
  {
    assert (g + t)[0..] == g + t;
    assert ByteAt(g + t, 0) == ByteAt(g, 0) && ByteAt(g + t, 1) == ByteAt(g, 1);
    assert ByteAt(g + t, 2) == ByteAt(g, 2) && ByteAt(g + t, 3) == ByteAt(g, 3);
  }

  lemma StrGroupLater(g: seq<Byte>, t: seq<Byte>, i: nat)
    requires |g| == 4 && 1 <= i <= |t| / 4 + 1
    ensures AssembleStr(g + t)[i] == AssembleStr(t)[i - 1]
  {
    assert (g + t)[4 * i..] == t[4 * (i - 1)..];
  }

  /** A word with no zero byte contributes all four bytes and decoding goes on. */
  lemma DecodeFullWord(w: Word, ws: seq<Word>, tail: seq<Byte>, n: nat)
    requires WordBytes(w)[0] != 0 && WordBytes(w)[1] != 0 && WordBytes(w)[2] != 0 && WordBytes(w)[3] != 0
    requires DecodeStr(ws) == Some((tail, n))
    ensures DecodeStr([w] + ws) == Some((WordBytes(w) + tail, n + 1))
  {
    assert ([w] + ws)[1..] == ws;
  }

  /** A string of fewer than four bytes is read back from its single word. */
  lemma DecodeShortStr(s: seq<Byte>, words: seq<Word>)
    requires NulFree(s) && |s| < 4
    requires |words| > 0 && words[0] == PackLe(s)
    ensures DecodeStr(words) == Some((s, 1))
  {
    var b := WordBytes(words[0]);
    PackLeBytes(s);
    assert b[|s|] == 0;
    assert b[..|s|] == s;
    DecodeStopsAt(words, |s|);
  }

  /** Decoding stops inside the first word at its first zero byte. */
  lemma DecodeStopsAt(words: seq<Word>, k: nat)
    requires |words| > 0 && k < 4
    requires WordBytes(words[0])[k] == 0
    requires forall j :: 0 <= j < k ==> WordBytes(words[0])[j] != 0
    ensures DecodeStr(words) == Some((WordBytes(words[0])[..k], 1))
  {
    var b := WordBytes(words[0]);
    if k == 1 {
      assert b[..1] == [b[0]];
    } else if k == 2 {
      assert b[..2] == [b[0], b[1]];
    } else if k == 3 {
      assert b[..3] == [b[0], b[1], b[2]];
    }
  }

  /** Every word of an encoding equals the packing of its four bytes. */
  lemma AssembleStrWords(s: seq<Byte>)
    ensures forall i :: 0 <= i < |AssembleStr(s)| ==>
      AssembleStr(s)[i] == Pack4(ByteAt(s, 4 * i), ByteAt(s, 4 * i + 1), ByteAt(s, 4 * i + 2), ByteAt(s, 4 * i + 3))
  {
    var r := AssembleStr(s);
    forall i | 0 <= i < |r|
      ensures r[i] == Pack4(ByteAt(s, 4 * i), ByteAt(s, 4 * i + 1), ByteAt(s, 4 * i + 2), ByteAt(s, 4 * i + 3))
    {
      ByteAtSuffix(s, 4 * i, 0);
      ByteAtSuffix(s, 4 * i, 1);
      ByteAtSuffix(s, 4 * i, 2);
      ByteAtSuffix(s, 4 * i, 3);
    }
  }
}
