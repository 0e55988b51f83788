/** Base64 with the standard alphabet and `=` padding, section 4 of RFC 4648.
    Every 3 bytes become 4 characters of 6 bits each; a final group of 1 or 2 bytes
    becomes 2 or 3 characters followed by `==` or `=`. Decoding accepts exactly the
    canonical texts that encoding produces (correct length, padding only at the end,
    unused bits of the last character zero). */
module Base64 {
  import opened Wrappers

  type byte = x: int | 0 <= x < 256
  type sextet = x: int | 0 <= x < 64

  const PadChar: char := '='

  /** The 64-character alphabet of RFC 4648, Table 1. */
  function AlphabetChar(v: sextet): char {
    if v < 26 then (('A' as int) + v) as char
    else if v < 52 then (('a' as int) + (v - 26)) as char
    else if v < 62 then (('0' as int) + (v - 52)) as char
    else if v == 62 then '+'
    else '/'
  }

  /** The value of an alphabet character; `None` for any other character, padding included. */
  function AlphabetIndex(c: char): (r: Option<sextet>)
    ensures r.Some? ==> AlphabetChar(r.value) == c
    ensures r.None? ==> forall v: sextet :: AlphabetChar(v) != c
  {
    if 'A' <= c <= 'Z' then Some((c as int) - ('A' as int))
    else if 'a' <= c <= 'z' then Some((c as int) - ('a' as int) + 26)
    else if '0' <= c <= '9' then Some((c as int) - ('0' as int) + 52)
    else if c == '+' then Some(62)
    else if c == '/' then Some(63)
    else None
  }

  lemma AlphabetIndexOfChar(v: sextet)
    ensures AlphabetIndex(AlphabetChar(v)) == Some(v)
  {
  }

  /** The four characters of a final group of one byte: two sextets, then `==`. */
  function EncodeOne(b0: byte): (q: string)
    ensures |q| == 4
  {
    [AlphabetChar(b0 / 4), AlphabetChar((b0 % 4) * 16), PadChar, PadChar]
  }

  /** The four characters of a final group of two bytes: three sextets, then `=`. */
  function EncodeTwo(b0: byte, b1: byte): (q: string)
    ensures |q| == 4
  {
    [AlphabetChar(b0 / 4), AlphabetChar((b0 % 4) * 16 + b1 / 16), AlphabetChar((b1 % 16) * 4), PadChar]
  }

  /** The four characters of a full group of three bytes. */
  function EncodeThree(b0: byte, b1: byte, b2: byte): (q: string)
    ensures |q| == 4
  {
    [AlphabetChar(b0 / 4), AlphabetChar((b0 % 4) * 16 + b1 / 16),
     AlphabetChar((b1 % 16) * 4 + b2 / 64), AlphabetChar(b2 % 64)]
  }

  function Encode(bytes: seq<byte>): (s: string)
    ensures |s| == (|bytes| + 2) / 3 * 4
  {
    if |bytes| == 0 then []
    else if |bytes| == 1 then EncodeOne(bytes[0])
    else if |bytes| == 2 then EncodeTwo(bytes[0], bytes[1])
    else EncodeThree(bytes[0], bytes[1], bytes[2]) + Encode(bytes[3..])
  }

  /** One group of four characters; padding is admitted only in the final group. */
  function DecodeQuantum(q: string, final: bool): Option<seq<byte>>
    requires |q| == 4
  {
    var v0 :- AlphabetIndex(q[0]);
    var v1 :- AlphabetIndex(q[1]);
    if final && q[2] == PadChar && q[3] == PadChar then
      if v1 % 16 == 0 then Some([v0 * 4 + v1 / 16]) else None
    else
      var v2 :- AlphabetIndex(q[2]);
      if final && q[3] == PadChar then
        if v2 % 4 == 0 then Some([v0 * 4 + v1 / 16, (v1 % 16) * 16 + v2 / 4]) else None
      else
        var v3 :- AlphabetIndex(q[3]);
        Some([v0 * 4 + v1 / 16, (v1 % 16) * 16 + v2 / 4, (v2 % 4) * 64 + v3])
  }

  function Decode(s: string): Option<seq<byte>>
    decreases |s|
  {
    if |s| == 0 then Some([])
    else if |s| < 4 then None
    else
      var head :- DecodeQuantum(s[..4], |s| == 4);
      var tail :- Decode(s[4..]);
      Some(head + tail)
  }

  /** The bit arithmetic of one group, from bytes to characters and back. */
  lemma BytesToSextets(b0: byte, b1: byte, b2: byte)
    ensures var v1 := (b0 % 4) * 16 + b1 / 16;
            var v2 := (b1 % 16) * 4 + b2 / 64;
      && (b0 / 4) * 4 + v1 / 16 == b0
      && (v1 % 16) * 16 + v2 / 4 == b1
      && (v2 % 4) * 64 + b2 % 64 == b2
  {
  }

  lemma SextetsToBytes(v0: sextet, v1: sextet, v2: sextet, v3: sextet)
    ensures var b0 := v0 * 4 + v1 / 16;
            var b1 := (v1 % 16) * 16 + v2 / 4;
            var b2 := (v2 % 4) * 64 + v3;
      && 0 <= b0 < 256 && 0 <= b1 < 256 && 0 <= b2 < 256
      && b0 / 4 == v0
      && (b0 % 4) * 16 + b1 / 16 == v1
      && (b1 % 16) * 4 + b2 / 64 == v2
      && b2 % 64 == v3
  {
  }

  lemma DecodeOneByteGroup(b0: byte)
    ensures DecodeQuantum(EncodeOne(b0), true) == Some([b0])
  {
    BytesToSextets(b0, 0, 0);
    AlphabetIndexOfChar(b0 / 4);
    AlphabetIndexOfChar((b0 % 4) * 16);
  }

  lemma DecodeTwoByteGroup(b0: byte, b1: byte)
    ensures DecodeQuantum(EncodeTwo(b0, b1), true) == Some([b0, b1])
  {
    BytesToSextets(b0, b1, 0);
    AlphabetIndexOfChar(b0 / 4);
    AlphabetIndexOfChar((b0 % 4) * 16 + b1 / 16);
    AlphabetIndexOfChar((b1 % 16) * 4);
  }

  lemma DecodeThreeByteGroup(b0: byte, b1: byte, b2: byte, final: bool)
    ensures DecodeQuantum(EncodeThree(b0, b1, b2), final) == Some([b0, b1, b2])
  {
    BytesToSextets(b0, b1, b2);
    AlphabetIndexOfChar(b0 / 4);
    AlphabetIndexOfChar((b0 % 4) * 16 + b1 / 16);
    AlphabetIndexOfChar((b1 % 16) * 4 + b2 / 64);
    AlphabetIndexOfChar(b2 % 64);
  }

  lemma DecodeLastQuantum(s: string)
    requires |s| == 4
    ensures Decode(s) == DecodeQuantum(s, true)
  {
    assert s[..4] == s;
    assert s[4..] == [];
    if DecodeQuantum(s, true).Some? {
      var head := DecodeQuantum(s, true).value;
      assert head + [] == head;
    }
  }

  /** Decoding undoes encoding. */
  lemma {:induction false} DecodeEncode(bytes: seq<byte>)
    ensures Decode(Encode(bytes)) == Some(bytes)
    decreases |bytes|, 1
  {
    var s := Encode(bytes);
    if |bytes| == 1 {
      DecodeOneByteGroup(bytes[0]);
      DecodeLastQuantum(s);
      assert bytes == [bytes[0]];
    } else if |bytes| == 2 {
      DecodeTwoByteGroup(bytes[0], bytes[1]);
      DecodeLastQuantum(s);
      assert bytes == [bytes[0], bytes[1]];
    } else if |bytes| > 2 {
      DecodeLongerInput(bytes);
    }
  }

  lemma {:induction false} DecodeLongerInput(bytes: seq<byte>)
    requires |bytes| > 2
    ensures Decode(Encode(bytes)) == Some(bytes)
    decreases |bytes|, 0
  {
    var b0, b1, b2 := bytes[0], bytes[1], bytes[2];
    var group := EncodeThree(b0, b1, b2);
    var tailBytes := bytes[3..];
    var rest := Encode(tailBytes);
    assert bytes == [b0, b1, b2] + tailBytes;
    DecodeThreeByteGroup(b0, b1, b2, |rest| == 0);
    if |rest| == 0 {
      DecodeLastQuantum(group);
      assert group + rest == group;
      assert tailBytes == [];
    } else {
      DecodeEncode(tailBytes);
      DecodeGroupThenRest(group, rest);
    }
  }

  /** A group that is not the last one decodes on its own, ahead of the rest. */
  lemma DecodeGroupThenRest(q: string, rest: string)
    requires |q| == 4 && |rest| > 0
    ensures Decode(q + rest) ==
      match (DecodeQuantum(q, false), Decode(rest))
      case (Some(head), Some(tail)) => Some(head + tail)
      case _ => None
  {
    var s := q + rest;
    assert s[..4] == q;
    assert s[4..] == rest;
  }

  /** Decoding accepts only canonical texts: whatever decodes re-encodes to the same text,
      so distinct texts never decode to the same bytes. */
  lemma {:induction false} EncodeDecode(s: string)
    requires Decode(s).Some?
    ensures Encode(Decode(s).value) == s
  {
    if |s| > 0 {
      var q := s[..4];
      var head := DecodeQuantum(q, |s| == 4).value;
      var tail := Decode(s[4..]).value;
      assert Decode(s).value == head + tail;
      EncodeDecode(s[4..]);
      EncodeQuantum(q, |s| == 4);
      if |s| == 4 {
        assert tail == [];
        assert head + tail == head;
        assert s == q;
      } else {
        EncodeGroupThenRest(head, tail);
        assert s == q + s[4..];
      }
    }
  }

  lemma EncodeGroupThenRest(head: seq<byte>, tail: seq<byte>)
    requires |head| == 3
    ensures Encode(head + tail) == Encode(head) + Encode(tail)
  {
    assert (head + tail)[3..] == tail;
    assert head[3..] == [];
  }

  lemma EncodeQuantum(q: string, final: bool)
    requires |q| == 4 && DecodeQuantum(q, final).Some?
    ensures var b := DecodeQuantum(q, final).value;
      && (if final then 1 <= |b| <= 3 else |b| == 3)
      && Encode(b) == q
  {
    var b := DecodeQuantum(q, final).value;
    var v0, v1 := AlphabetIndex(q[0]).value, AlphabetIndex(q[1]).value;
    if final && q[2] == PadChar && q[3] == PadChar {
      EncodeOneByteQuantum(q, v0, v1, b);
    } else {
      var v2 := AlphabetIndex(q[2]).value;
      if final && q[3] == PadChar {
        EncodeTwoByteQuantum(q, v0, v1, v2, b);
      } else {
        EncodeThreeByteQuantum(q, v0, v1, v2, AlphabetIndex(q[3]).value, b);
      }
    }
  }

  lemma EncodeOneByteQuantum(q: string, v0: sextet, v1: sextet, b: seq<byte>)
    requires |q| == 4 && q[2] == PadChar && q[3] == PadChar && v1 % 16 == 0
    requires AlphabetIndex(q[0]) == Some(v0) && AlphabetIndex(q[1]) == Some(v1)
    requires b == [v0 * 4 + v1 / 16]
    ensures Encode(b) == q
  {
    SextetsToBytes(v0, v1, 0, 0);
    assert EncodeOne(b[0]) == [AlphabetChar(v0), AlphabetChar(v1), PadChar, PadChar];
    assert q == [q[0], q[1], q[2], q[3]];
    EncodeSingleGroup(b[0], 0, 0);
  }

  lemma EncodeTwoByteQuantum(q: string, v0: sextet, v1: sextet, v2: sextet, b: seq<byte>)
    requires |q| == 4 && q[3] == PadChar && v2 % 4 == 0
    requires AlphabetIndex(q[0]) == Some(v0) && AlphabetIndex(q[1]) == Some(v1)
    requires AlphabetIndex(q[2]) == Some(v2)
    requires b == [v0 * 4 + v1 / 16, (v1 % 16) * 16 + v2 / 4]
    ensures Encode(b) == q
  {
    SextetsToBytes(v0, v1, v2, 0);
    assert EncodeTwo(b[0], b[1]) == [AlphabetChar(v0), AlphabetChar(v1), AlphabetChar(v2), PadChar];
    assert q == [q[0], q[1], q[2], q[3]];
    EncodeSingleGroup(b[0], b[1], 0);
  }

  lemma EncodeThreeByteQuantum(q: string, v0: sextet, v1: sextet, v2: sextet, v3: sextet, b: seq<byte>)
    requires |q| == 4
    requires AlphabetIndex(q[0]) == Some(v0) && AlphabetIndex(q[1]) == Some(v1)
    requires AlphabetIndex(q[2]) == Some(v2) && AlphabetIndex(q[3]) == Some(v3)
    requires b == [v0 * 4 + v1 / 16, (v1 % 16) * 16 + v2 / 4, (v2 % 4) * 64 + v3]
    ensures Encode(b) == q
  {
    SextetsToBytes(v0, v1, v2, v3);
    assert EncodeThree(b[0], b[1], b[2]) == [AlphabetChar(v0), AlphabetChar(v1), AlphabetChar(v2), AlphabetChar(v3)];
    assert q == [q[0], q[1], q[2], q[3]];
    EncodeSingleGroup(b[0], b[1], b[2]);
  }

  /** Inputs of one to three bytes make a single group. */
  lemma EncodeSingleGroup(b0: byte, b1: byte, b2: byte)
    ensures Encode([b0]) == EncodeOne(b0)
    ensures Encode([b0, b1]) == EncodeTwo(b0, b1)
    ensures Encode([b0, b1, b2]) == EncodeThree(b0, b1, b2)
  {
    assert [b0, b1, b2][3..] == [];
    assert Encode([b0, b1, b2]) == EncodeThree(b0, b1, b2) + Encode([]);
  }

  lemma EncodeInjective(a: seq<byte>, b: seq<byte>)
    requires Encode(a) == Encode(b)
    ensures a == b
  {
    DecodeEncode(a);
    DecodeEncode(b);
  }
}
