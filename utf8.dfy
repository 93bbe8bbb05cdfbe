/** UTF-8 as defined by RFC 3629: the encoding of a Unicode scalar value into
    one to four bytes (section 3) and the well-formed byte sequences (section 4),
    with their decoding. The string types of the model keep their bytes in
    this form. */
module Utf8 {
  import opened Base

  /** A Unicode scalar value: a code point that is not a surrogate. */
  predicate IsScalar(c: int) {
    0 <= c <= 0x10FFFF && !(0xD800 <= c <= 0xDFFF)
  }

  type Scalar = c: int | IsScalar(c)

  /** U+FFFD, the replacement character. */
  const REPLACEMENT: Scalar := 0xFFFD

  /** A continuation byte, `10xxxxxx`. */
  predicate IsCont(b: Byte) {
    0x80 <= b < 0xC0
  }

  /** The number of bytes in the encoding of `c` (`char::len_utf8`). */
  function EncodedLen(c: Scalar): (n: nat)
    ensures 1 <= n <= 4
  {
    if c < 0x80 then 1 else if c < 0x800 then 2 else if c < 0x10000 then 3 else 4
  }

  /** The UTF-8 encoding of a scalar value (section 3 of RFC 3629). */
  function Encode(c: Scalar): (bs: seq<Byte>)
    ensures |bs| == EncodedLen(c)
    ensures !IsCont(bs[0])
    ensures forall k :: 1 <= k < |bs| ==> IsCont(bs[k])
  {
    assert IsScalar(c);
    if c < 0x80 then [c as Byte]
    else if c < 0x800 then [(0xC0 + c / 64) as Byte, (0x80 + c % 64) as Byte]
    else if c < 0x10000 then
      [(0xE0 + c / 4096) as Byte, (0x80 + (c / 64) % 64) as Byte, (0x80 + c % 64) as Byte]
    else
      [(0xF0 + c / 262144) as Byte, (0x80 + (c / 4096) % 64) as Byte,
       (0x80 + (c / 64) % 64) as Byte, (0x80 + c % 64) as Byte]
  }

  /** One decoded scalar and the number of bytes it occupied. */
  datatype Decoded = Decoded(c: Scalar, len: nat)

  /** Allowed second bytes after a three-byte lead (section 4 of RFC 3629). */
  predicate Second3(b0: Byte, b1: Byte) {
    if b0 == 0xE0 then 0xA0 <= b1 <= 0xBF
    else if b0 == 0xED then 0x80 <= b1 <= 0x9F
    else IsCont(b1)
  }

  /** Allowed second bytes after a four-byte lead (section 4 of RFC 3629). */
  predicate Second4(b0: Byte, b1: Byte) {
    if b0 == 0xF0 then 0x90 <= b1 <= 0xBF
    else if b0 == 0xF4 then 0x80 <= b1 <= 0x8F
    else IsCont(b1)
  }

  /** Decodes the well-formed character at the head of `bs`, if there is one. */
  function DecodeFirst(bs: seq<Byte>): (r: Option<Decoded>)
    ensures r.Some? ==> 1 <= r.value.len <= |bs|
  {
    if |bs| == 0 then None
    else if bs[0] < 0x80 then Some(Decoded(bs[0], 1))
    else if 0xC2 <= bs[0] <= 0xDF then
      if |bs| >= 2 && IsCont(bs[1])
      then Some(Decoded((bs[0] as int - 0xC0) * 64 + (bs[1] as int - 0x80), 2))
      else None
    else if 0xE0 <= bs[0] <= 0xEF then
      if |bs| >= 3 && Second3(bs[0], bs[1]) && IsCont(bs[2])
      then Some(Decoded((bs[0] as int - 0xE0) * 4096 + (bs[1] as int - 0x80) * 64
                        + (bs[2] as int - 0x80), 3))
      else None
    else if 0xF0 <= bs[0] <= 0xF4 then
      if |bs| >= 4 && Second4(bs[0], bs[1]) && IsCont(bs[2]) && IsCont(bs[3])
      then Some(Decoded((bs[0] as int - 0xF0) * 262144 + (bs[1] as int - 0x80) * 4096
                        + (bs[2] as int - 0x80) * 64 + (bs[3] as int - 0x80), 4))
      else None
    else None
  }

  /** `bs` is a sequence of well-formed UTF-8 characters with nothing left over. */
  predicate IsValid(bs: seq<Byte>)
    decreases |bs|
  {
    bs == [] || (DecodeFirst(bs).Some? && IsValid(bs[DecodeFirst(bs).value.len..]))
  }

  /** The scalar values that a valid byte sequence encodes, in order. */
  function Decode(bs: seq<Byte>): seq<Scalar>
    requires IsValid(bs)
    decreases |bs|
  {
    if bs == [] then []
    else [DecodeFirst(bs).value.c] + Decode(bs[DecodeFirst(bs).value.len..])
  }

  /** The concatenated encodings of a sequence of scalar values. */
  function EncodeAll(cs: seq<Scalar>): seq<Byte>
  {
    if cs == [] then [] else EncodeAll(cs[..|cs| - 1]) + Encode(cs[|cs| - 1])
  }

  lemma {:induction false} EncodeAllAppend(a: seq<Scalar>, b: seq<Scalar>)
    ensures EncodeAll(a + b) == EncodeAll(a) + EncodeAll(b)
    decreases |b|
  {
    if b == [] {
      assert a + b == a;
    } else {
      var n := |b| - 1;
      assert (a + b)[..|a + b| - 1] == a + b[..n];
      EncodeAllAppend(a, b[..n]);
    }
  }

  /** Every scalar takes at least one byte, so a string never has more
      characters than bytes. */
  lemma {:induction false} EncodeAllLength(cs: seq<Scalar>)
    ensures |EncodeAll(cs)| >= |cs|
    ensures cs != [] ==> |EncodeAll(cs)| > 0
  {
    if cs != [] {
      EncodeAllLength(cs[..|cs| - 1]);
    }
  }

  lemma EncodeDecode2(b0: Byte, b1: Byte)
    requires 0xC2 <= b0 <= 0xDF && IsCont(b1)
    ensures var c := (b0 - 0xC0) * 64 + (b1 - 0x80);
            IsScalar(c) && EncodedLen(c) == 2 && Encode(c) == [b0, b1]
  {
  }

  lemma EncodeDecode3(b0: Byte, b1: Byte, b2: Byte)
    requires 0xE0 <= b0 <= 0xEF && Second3(b0, b1) && IsCont(b2)
    ensures var c := (b0 - 0xE0) * 4096 + (b1 - 0x80) * 64 + (b2 - 0x80);
            IsScalar(c) && EncodedLen(c) == 3 && Encode(c) == [b0, b1, b2]
  {
    var c := (b0 - 0xE0) * 4096 + (b1 - 0x80) * 64 + (b2 - 0x80);
    var t := (b0 - 0xE0) * 64 + (b1 - 0x80);
    assert c == t * 64 + (b2 - 0x80);
    assert c / 64 == t && c % 64 == b2 - 0x80;
    assert t / 64 == b0 - 0xE0 && t % 64 == b1 - 0x80;
    assert c / 4096 == b0 - 0xE0;
    assert 0x800 <= c < 0x10000;
    assert IsScalar(c);
  }

  lemma EncodeDecode4(b0: Byte, b1: Byte, b2: Byte, b3: Byte)
    requires 0xF0 <= b0 <= 0xF4 && Second4(b0, b1) && IsCont(b2) && IsCont(b3)
    ensures var c := (b0 - 0xF0) * 262144 + (b1 - 0x80) * 4096 + (b2 - 0x80) * 64 + (b3 - 0x80);
            IsScalar(c) && EncodedLen(c) == 4 && Encode(c) == [b0, b1, b2, b3]
  {
    var c := (b0 - 0xF0) * 262144 + (b1 - 0x80) * 4096 + (b2 - 0x80) * 64 + (b3 - 0x80);
    var u := (b0 - 0xF0) * 64 + (b1 - 0x80);
    var t := u * 64 + (b2 - 0x80);
    assert c == t * 64 + (b3 - 0x80);
    assert c / 64 == t && c % 64 == b3 - 0x80;
    assert t / 64 == u && t % 64 == b2 - 0x80;
    assert u / 64 == b0 - 0xF0 && u % 64 == b1 - 0x80;
    assert c / 4096 == u;
    assert c / 262144 == b0 - 0xF0;
    assert 0x10000 <= c <= 0x10FFFF;
    assert IsScalar(c);
  }

  /** Conversely, a character that decodes is exactly the encoding of the
      scalar it decodes to: well-formed sequences have one encoding only. */
  lemma EncodeDecodeFirst(bs: seq<Byte>)
    requires DecodeFirst(bs).Some?
    ensures DecodeFirst(bs).value.len == EncodedLen(DecodeFirst(bs).value.c)
    ensures bs[..DecodeFirst(bs).value.len] == Encode(DecodeFirst(bs).value.c)
  {
    if bs[0] < 0x80 {
    } else if 0xC2 <= bs[0] <= 0xDF {
      EncodeDecode2(bs[0], bs[1]);
    } else if 0xE0 <= bs[0] <= 0xEF {
      EncodeDecode3(bs[0], bs[1], bs[2]);
    } else {
      EncodeDecode4(bs[0], bs[1], bs[2], bs[3]);
    }
  }

  /** Decoding the encoding of `c` at the head of any sequence gives back `c`
      and the length of its encoding. */
  lemma DecodeFirstEncode(c: Scalar, rest: seq<Byte>)
    ensures DecodeFirst(Encode(c) + rest) == Some(Decoded(c, EncodedLen(c)))
  {
    assert IsScalar(c);
    var bs := Encode(c) + rest;
    if c < 0x80 {
    } else if c < 0x800 {
      EncodeIs2(c);
    } else if c < 0x10000 {
      EncodeIs3(c);
    } else {
      EncodeIs4(c);
    }
  }

  lemma EncodeIs2(c: Scalar)
    requires 0x80 <= c < 0x800
    ensures var bs := Encode(c);
            0xC2 <= bs[0] <= 0xDF && IsCont(bs[1]) && c == (bs[0] as int - 0xC0) * 64 + (bs[1] as int - 0x80)
  {
  }

  lemma EncodeIs3(c: Scalar)
    requires 0x800 <= c < 0x10000
    ensures var bs := Encode(c);
            0xE0 <= bs[0] <= 0xEF && Second3(bs[0], bs[1]) && IsCont(bs[2])
            && c == (bs[0] as int - 0xE0) * 4096 + (bs[1] as int - 0x80) * 64 + (bs[2] as int - 0x80)
  {
    assert IsScalar(c);
    var h, m, l := c / 4096, (c / 64) % 64, c % 64;
    assert c == 4096 * h + 64 * m + l;
    if h == 0 {
      assert m >= 32;
    } else if h == 13 {
      assert c < 0xD800;
      assert m < 32;
    }
  }

  lemma EncodeIs4(c: Scalar)
    requires 0x10000 <= c
    ensures var bs := Encode(c);
            0xF0 <= bs[0] <= 0xF4 && Second4(bs[0], bs[1]) && IsCont(bs[2]) && IsCont(bs[3])
            && c == (bs[0] as int - 0xF0) * 262144 + (bs[1] as int - 0x80) * 4096 + (bs[2] as int - 0x80) * 64 + (bs[3] as int - 0x80)
  {
    assert IsScalar(c);
    var h, m1, m2, l := c / 262144, (c / 4096) % 64, (c / 64) % 64, c % 64;
    assert c == 262144 * h + 4096 * m1 + 64 * m2 + l;
    if h == 0 {
      assert m1 >= 16;
    } else if h == 4 {
      assert m1 < 16;
    }
  }

  /** Encoding any sequence of scalar values gives valid UTF-8 that decodes
      back to the same scalars. */
  lemma {:induction false} DecodeEncodeAll(cs: seq<Scalar>)
    ensures IsValid(EncodeAll(cs))
    ensures Decode(EncodeAll(cs)) == cs
    decreases |cs|
  {
    if cs != [] {
      EncodeAllAppend([cs[0]], cs[1..]);
      assert [cs[0]] + cs[1..] == cs;
      assert EncodeAll([cs[0]]) == Encode(cs[0]) by {
        assert [cs[0]][..0] == [];
      }
      var bs := EncodeAll(cs);
      assert bs == Encode(cs[0]) + EncodeAll(cs[1..]);
      DecodeFirstEncode(cs[0], EncodeAll(cs[1..]));
      assert bs[EncodedLen(cs[0])..] == EncodeAll(cs[1..]);
      DecodeEncodeAll(cs[1..]);
    }
  }

  /** Every valid byte sequence is the encoding of the scalars it decodes to. */
  lemma {:induction false} EncodeAllDecode(bs: seq<Byte>)
    requires IsValid(bs)
    ensures EncodeAll(Decode(bs)) == bs
    decreases |bs|
  {
    if bs != [] {
      var d := DecodeFirst(bs).value;
      EncodeDecodeFirst(bs);
      EncodeAllDecode(bs[d.len..]);
      EncodeAllAppend([d.c], Decode(bs[d.len..]));
      assert EncodeAll([d.c]) == Encode(d.c) by {
        assert [d.c][..0] == [];
      }
      assert bs == bs[..d.len] + bs[d.len..];
    }
  }

  /** The valid byte sequences are exactly the encodings of scalar sequences. */
  lemma ValidIffEncoding(bs: seq<Byte>)
    ensures IsValid(bs) <==> exists cs: seq<Scalar> :: EncodeAll(cs) == bs
  {
    if IsValid(bs) {
      EncodeAllDecode(bs);
    }
    if exists cs: seq<Scalar> :: EncodeAll(cs) == bs {
      var cs: seq<Scalar> :| EncodeAll(cs) == bs;
      DecodeEncodeAll(cs);
    }
  }

  /** Concatenating two valid sequences gives a valid sequence whose scalars
      are those of the first followed by those of the second. */
  lemma ValidConcat(a: seq<Byte>, b: seq<Byte>)
    requires IsValid(a) && IsValid(b)
    ensures IsValid(a + b)
    ensures Decode(a + b) == Decode(a) + Decode(b)
  {
    EncodeAllDecode(a);
    EncodeAllDecode(b);
    EncodeAllAppend(Decode(a), Decode(b));
    DecodeEncodeAll(Decode(a) + Decode(b));
  }

  /** Splitting off the last scalar of a valid sequence: what remains is
      valid, and its bytes are the original minus the last scalar's encoding. */
  lemma {:induction false} DropLast(bs: seq<Byte>)
    requires IsValid(bs) && bs != []
    ensures Decode(bs) != []
    ensures var cs := Decode(bs);
            var n := |bs| - EncodedLen(cs[|cs| - 1]);
            0 <= n && IsValid(bs[..n]) && Decode(bs[..n]) == cs[..|cs| - 1]
            && bs[n..] == Encode(cs[|cs| - 1])
  {
    var cs := Decode(bs);
    EncodeAllDecode(bs);
    var init := cs[..|cs| - 1];
    assert bs == EncodeAll(init) + Encode(cs[|cs| - 1]);
    var n := |bs| - EncodedLen(cs[|cs| - 1]);
    assert bs[..n] == EncodeAll(init);
    DecodeEncodeAll(init);
  }
}
