/** `NSTDStr`: an unowned view of UTF-8 encoded bytes, kept as a byte slice
    (`bytes`, stride 1). */
module Strs {
  import opened Base
  import opened Slices
  import opened Utf8

  datatype Str = Str(bytes: Slice)
  {
    /** The view is in bounds, has stride 1 and holds valid UTF-8. */
    ghost predicate Valid()
      reads bytes.ptr.buf
    {
      bytes.stride == 1 && bytes.InBounds() && IsValid(bytes.Bytes())
    }

    /** The viewed bytes. */
    function Content(): (bs: seq<Byte>)
      reads bytes.ptr.buf
      requires Valid()
      ensures |bs| == bytes.len && IsValid(bs)
    {
      bytes.Bytes()
    }

    /** `nstd_core_str_byte_len`: the number of bytes viewed. */
    function ByteLen(): (n: nat)
      reads bytes.ptr.buf
      requires Valid()
      ensures n == |Content()|
    {
      bytes.len
    }

    /** `nstd_core_str_len`: the number of Unicode scalar values, which is
        never more than the number of bytes. It counts the bytes that start a
        character, as the source's character iterator does. */
    function Len(): (n: nat)
      reads bytes.ptr.buf
      requires Valid()
      ensures n == |Decode(Content())|
      ensures n <= ByteLen()
    {
      CountLeadingDecode(Content());
      EncodeAllDecode(Content());
      EncodeAllLength(Decode(Content()));
      CountLeading(Content())
    }

    /** `nstd_core_str_get_char`: the scalar at character index `pos`, or
        U+FFFD when there are not that many characters. */
    function GetChar(pos: nat): (c: Scalar)
      reads bytes.ptr.buf
      requires Valid()
      ensures pos < Len() ==> c == Decode(Content())[pos]
      ensures pos >= Len() ==> c == REPLACEMENT
    {
      CharAtDecode(Content(), pos);
      CharAt(Content(), pos)
    }

    /** `nstd_core_str_substr`: the view of bytes `[start, end)`. The end past
        the byte length, a start past the end, and a range that is not valid
        UTF-8 are panics. */
    function Substr(start: nat, end: nat): (r: Str)
      reads bytes.ptr.buf
      requires Valid()
      requires end <= ByteLen() && start <= end
      requires IsValid(Content()[start..end])
      ensures r.Valid() && r.bytes.ptr.buf == bytes.ptr.buf
      ensures r.Content() == Content()[start..end]
    {
      var r := Str(Slice(bytes.ptr.Add(start), 1, end - start));
      assert r.bytes.Bytes() == Content()[start..end];
      r
    }
  }

  /** `nstd_core_str_from_bytes`: a string view of a byte slice. A stride
      other than 1 or bytes that are not valid UTF-8 are panics. */
  function FromBytes(bytes: Slice): (s: Str)
    reads bytes.ptr.buf
    requires bytes.InBounds() && bytes.stride == 1 && IsValid(bytes.Bytes())
    ensures s.Valid() && s.bytes == bytes
    ensures s.Content() == bytes.Bytes() && s.ByteLen() == bytes.len
  {
    Str(bytes)
  }

  /** The number of bytes that are not continuation bytes. */
  function CountLeading(bs: seq<Byte>): nat
  {
    if bs == [] then 0 else (if IsCont(bs[0]) then 0 else 1) + CountLeading(bs[1..])
  }

  lemma {:induction false} CountLeadingAppend(a: seq<Byte>, b: seq<Byte>)
    ensures CountLeading(a + b) == CountLeading(a) + CountLeading(b)
    decreases |a|
  {
    if a == [] {
      assert a + b == b;
    } else {
      assert (a + b)[1..] == a[1..] + b;
      CountLeadingAppend(a[1..], b);
    }
  }

  /** The encoding of one scalar starts exactly one character. */
  lemma CountLeadingEncode(c: Scalar)
    ensures CountLeading(Encode(c)) == 1
  {
    CountLeadingNone(Encode(c)[1..]);
  }

  /** A run of continuation bytes starts no character. */
  lemma {:induction false} CountLeadingNone(bs: seq<Byte>)
    requires forall k :: 0 <= k < |bs| ==> IsCont(bs[k])
    ensures CountLeading(bs) == 0
  {
    if bs != [] {
      CountLeadingNone(bs[1..]);
    }
  }

  /** Counting the bytes that start a character counts the characters. */
  lemma {:induction false} CountLeadingDecode(bs: seq<Byte>)
    requires IsValid(bs)
    ensures CountLeading(bs) == |Decode(bs)|
  {
    EncodeAllDecode(bs);
    CountLeadingEncodeAll(Decode(bs));
  }

  lemma {:induction false} CountLeadingEncodeAll(cs: seq<Scalar>)
    ensures CountLeading(EncodeAll(cs)) == |cs|
  {
    if cs != [] {
      var init := cs[..|cs| - 1];
      CountLeadingEncodeAll(init);
      CountLeadingAppend(EncodeAll(init), Encode(cs[|cs| - 1]));
      CountLeadingEncode(cs[|cs| - 1]);
    }
  }

  /** Walks `pos` characters forward and decodes the one found there. */
  function CharAt(bs: seq<Byte>, pos: nat): (c: Scalar)
    requires IsValid(bs)
    decreases |bs|
  {
    if bs == [] then REPLACEMENT
    else if pos == 0 then DecodeFirst(bs).value.c
    else CharAt(bs[DecodeFirst(bs).value.len..], pos - 1)
  }

  lemma {:induction false} CharAtDecode(bs: seq<Byte>, pos: nat)
    requires IsValid(bs)
    ensures pos < |Decode(bs)| ==> CharAt(bs, pos) == Decode(bs)[pos]
    ensures pos >= |Decode(bs)| ==> CharAt(bs, pos) == REPLACEMENT
    decreases |bs|
  {
    if bs != [] && pos > 0 {
      CharAtDecode(bs[DecodeFirst(bs).value.len..], pos - 1);
    }
  }
}
