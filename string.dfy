/** `NSTDString`: a growable UTF-8 string. Its bytes live in a vector of
    stride 1 and are always valid UTF-8 (RFC 3629), which the string view it
    hands out relies on without checking. */
module Strings {
  import opened Base
  import opened Slices
  import opened Vectors
  import opened Utf8
  import opened Strs

  class String {
    /** The underlying UTF-8 encoded byte buffer. */
    var bytes: Vec

    ghost predicate Valid()
      reads this, bytes, bytes.buf
    {
      bytes.Valid() && bytes.stride == 1 && IsValid(bytes.Bytes())
    }

    /** The string's scalar values. */
    function Chars(): (cs: seq<Scalar>)
      reads this, bytes, bytes.buf
      requires Valid()
      ensures EncodeAll(cs) == bytes.Bytes()
    {
      EncodeAllDecode(bytes.Bytes());
      Decode(bytes.Bytes())
    }

    /** `nstd_string_new`: an empty string over a vector of stride 1. */
    constructor New()
      ensures Valid() && fresh(bytes) && fresh(bytes.buf)
      ensures bytes.stride == 1 && bytes.Bytes() == [] && Chars() == []
    {
      bytes := new Vec.New(1);
    }

    /** `nstd_string_new_with_cap`: an empty string with room for `cap` bytes
        (none if the allocation fails). A zero capacity is a panic. */
    constructor NewWithCap(cap: nat)
      requires cap > 0
      ensures Valid() && fresh(bytes) && fresh(bytes.buf)
      ensures bytes.stride == 1 && bytes.Bytes() == [] && Chars() == []
      ensures bytes.cap == cap || bytes.cap == 0
    {
      bytes := new Vec.NewWithCap(1, cap);
    }

    /** `nstd_string_clone`: a deep copy; `null` stands for the panic on
        allocation failure. */
    method Clone() returns (c: String?)
      requires Valid()
      ensures c != null ==> fresh(c) && fresh(c.bytes) && fresh(c.bytes.buf) && c.Valid()
      ensures c != null ==> c.bytes.Bytes() == bytes.Bytes() && c.Chars() == Chars()
    {
      var v := bytes.Clone();
      if v == null {
        return null;
      }
      c := new String.FromVec(v);
    }

    /** A string over a vector already known to hold valid UTF-8. */
    constructor FromVec(v: Vec)
      requires v.Valid() && v.stride == 1 && IsValid(v.Bytes())
      ensures bytes == v && Valid()
    {
      bytes := v;
    }

    /** `nstd_string_as_str`: a string view of the bytes, valid without any
        check because the string keeps its bytes valid UTF-8. */
    function AsStr(): (s: Str)
      reads this, bytes, bytes.buf
      requires Valid()
      ensures s.Valid() && s.Content() == bytes.Bytes() && Decode(s.Content()) == Chars()
    {
      FromBytes(bytes.AsSlice())
    }

    /** `nstd_string_as_bytes`: a byte slice of the string's active data. */
    function AsBytes(): (s: Slice)
      reads this, bytes, bytes.buf
      requires Valid()
      ensures s.stride == 1 && s.InBounds() && s.Bytes() == bytes.Bytes()
    {
      bytes.AsSlice()
    }

    /** `nstd_string_push`: 1 if `chr` is not a Unicode scalar value (nothing
        changes); otherwise appends the scalar's UTF-8 encoding and returns
        the extension's error code, nothing changing if that fails. */
    method Push(chr: int) returns (errc: int)
      requires Valid() && 0 <= chr < 0x1_0000_0000
      modifies bytes, bytes.buf
      ensures Valid()
      ensures !IsScalar(chr) ==> errc == 1
      ensures errc != 0 ==> bytes.Bytes() == old(bytes.Bytes())
      ensures errc == 0 ==> IsScalar(chr) && bytes.Bytes() == PushSpec(old(bytes.Bytes()), chr)
      ensures errc == 0 ==> Chars() == old(Chars()) + [chr]
      ensures bytes.buf == old(bytes.buf) || fresh(bytes.buf)
    {
      if !IsScalar(chr) {
        return 1;
      }
      var enc := Encode(chr);
      var tmp := new Byte[4];
      Store(tmp, 0, enc);
      var s := Slice(Ptr(tmp, 0), 1, EncodedLen(chr));
      assert s.Bytes() == enc;
      ghost var before := bytes.Bytes();
      var e := bytes.Extend(s);
      errc := e.Code();
      if errc == 0 {
        DecodeEncode(chr);
        ValidConcat(before, enc);
      }
    }

    /** `nstd_string_push_str`: appends the bytes a string view holds after
        the existing bytes and returns the extension's error code; nothing
        changes if that fails. */
    method PushStr(str: Str) returns (errc: int)
      requires Valid() && str.Valid()
      modifies bytes, bytes.buf
      ensures Valid()
      ensures errc != 0 ==> bytes.Bytes() == old(bytes.Bytes())
      ensures errc == 0 ==> bytes.Bytes() == old(bytes.Bytes()) + old(str.Content())
      ensures errc == 0 ==> Chars() == old(Chars()) + old(Decode(str.Content()))
      ensures bytes.buf == old(bytes.buf) || fresh(bytes.buf)
    {
      ghost var before := bytes.Bytes();
      ghost var added := str.Content();
      var e := bytes.Extend(str.bytes);
      errc := e.Code();
      if errc == 0 {
        ValidConcat(before, added);
      }
    }

    /** `nstd_string_pop`: removes the last scalar value, shortening the
        bytes by exactly its encoded length, and returns it; U+FFFD with
        nothing changed when the string is empty. */
    method Pop() returns (chr: Scalar)
      requires Valid()
      modifies bytes
      ensures Valid() && bytes.buf == old(bytes.buf)
      ensures (chr, bytes.Bytes()) == PopSpec(old(bytes.Bytes()))
      ensures old(Chars()) == [] ==> chr == REPLACEMENT && Chars() == []
      ensures old(Chars()) != [] ==> Chars() + [chr] == old(Chars())
    {
      var cs := Decode(bytes.Bytes());
      if cs == [] {
        return REPLACEMENT;
      }
      chr := cs[|cs| - 1];
      DropLast(bytes.Bytes());
      bytes.Truncate(bytes.len - EncodedLen(chr));
    }

    /** `nstd_string_free`: releases the byte buffer. */
    method Free()
      requires Valid()
      modifies bytes
      ensures Valid() && bytes.Bytes() == [] && bytes.cap == 0
    {
      bytes.Free();
    }
  }

  /** The bytes after pushing `c`: its encoding appended. */
  function PushSpec(bs: seq<Byte>, c: Scalar): (r: seq<Byte>)
    ensures IsValid(bs) ==> IsValid(r) && Decode(r) == Decode(bs) + [c]
  {
    DecodeEncode(c);
    if IsValid(bs) then ValidConcat(bs, Encode(c)); bs + Encode(c) else bs + Encode(c)
  }

  /** One scalar's encoding is valid and decodes to that scalar. */
  lemma DecodeEncode(c: Scalar)
    ensures IsValid(Encode(c)) && Decode(Encode(c)) == [c]
  {
    DecodeEncodeAll([c]);
    assert EncodeAll([c]) == Encode(c) by { assert [c][..0] == []; }
  }

  /** The popped scalar and the remaining bytes: the last scalar and the
      bytes without its encoding, or U+FFFD and the bytes unchanged when
      there is none. */
  function PopSpec(bs: seq<Byte>): (r: (Scalar, seq<Byte>))
    requires IsValid(bs)
    ensures IsValid(r.1)
    ensures bs == [] ==> r == (REPLACEMENT, bs)
    ensures bs != [] ==> Decode(r.1) + [r.0] == Decode(bs) && r.1 + Encode(r.0) == bs
  {
    if bs == [] then (REPLACEMENT, bs)
    else
      DropLast(bs);
      var cs := Decode(bs);
      var c := cs[|cs| - 1];
      var n := |bs| - EncodedLen(c);
      assert bs == bs[..n] + bs[n..];
      (c, bs[..n])
  }

  /** The scalars of `cs` in reverse order. */
  function Reverse(cs: seq<Scalar>): (r: seq<Scalar>)
    ensures |r| == |cs|
  {
    if cs == [] then [] else [cs[|cs| - 1]] + Reverse(cs[..|cs| - 1])
  }

  /** Pops `n` times: the scalars returned, in order, and the bytes left. */
  function PopMany(bs: seq<Byte>, n: nat): (seq<Scalar>, seq<Byte>)
    requires IsValid(bs)
  {
    if n == 0 then ([], bs)
    else
      var (c, rest) := PopSpec(bs);
      var (more, left) := PopMany(rest, n - 1);
      ([c] + more, left)
  }

  /** Pushing `c1 .. cn` onto a string and then popping `n` times returns
      `cn .. c1` and leaves the string as it was. */
  lemma {:induction false} PushThenPop(bs: seq<Byte>, cs: seq<Scalar>)
    requires IsValid(bs)
    ensures IsValid(bs + EncodeAll(cs))
    ensures PopMany(bs + EncodeAll(cs), |cs|) == (Reverse(cs), bs)
    decreases |cs|
  {
    DecodeEncodeAll(cs);
    ValidConcat(bs, EncodeAll(cs));
    if cs == [] {
      assert bs + EncodeAll(cs) == bs;
    } else {
      var init, c := cs[..|cs| - 1], cs[|cs| - 1];
      var pushed := bs + EncodeAll(cs);
      assert pushed == (bs + EncodeAll(init)) + Encode(c);
      PushThenPop(bs, init);
      var rest := bs + EncodeAll(init);
      assert pushed == PushSpec(rest, c);
      var (c', rest') := PopSpec(pushed);
      assert Decode(rest') + [c'] == Decode(rest) + [c];
      assert c' == c by {
        assert (Decode(rest') + [c'])[|Decode(rest')|] == c';
      }
      assert rest' == rest by {
        assert rest' + Encode(c) == rest + Encode(c);
        assert rest' == (rest' + Encode(c))[..|rest'|];
      }
    }
  }

  /** Pushing a scalar and popping it back leaves the bytes as they were. */
  lemma PushPop(bs: seq<Byte>, c: Scalar)
    requires IsValid(bs)
    ensures IsValid(PushSpec(bs, c))
    ensures PopSpec(PushSpec(bs, c)) == (c, bs)
  {
    PushThenPop(bs, [c]);
    assert EncodeAll([c]) == Encode(c) by { assert [c][..0] == []; }
  }
}
