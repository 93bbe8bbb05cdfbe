/** Raw C strings: a pointer to bytes that run up to a null byte. The length of
    such a string is the position of its first null byte, so every operation
    here is specified by `FirstNull` of the bytes from the pointer to the end
    of its allocation. */
module RawCStrs {
  import opened Base
  import opened CStrs

  /** The bytes from `p` to the end of its allocation. */
  function Tail(p: Ptr): (bs: seq<Byte>)
    reads p.buf
    requires p.offset <= p.buf.Length
    ensures |bs| == p.buf.Length - p.offset
  {
    p.buf[p.offset..]
  }

  /** `p` points to a null-terminated C string: a null byte follows it
      inside its allocation. */
  ghost predicate Terminated(p: Ptr)
    reads p.buf
  {
    p.offset <= p.buf.Length && FirstNull(Tail(p)).Some?
  }

  /** The characters of the C string at `p`, without the null byte. */
  ghost function Content(p: Ptr): (bs: seq<Byte>)
    reads p.buf
    requires Terminated(p)
    ensures |bs| == FirstNull(Tail(p)).value
    ensures forall k :: 0 <= k < |bs| ==> bs[k] != 0
    ensures p.ValidFor(|bs| + 1) && p.buf[p.offset + |bs|] == 0
  {
    p.buf[p.offset..p.offset + FirstNull(Tail(p)).value]
  }

  /** `nstd_core_cstr_raw_len`: the number of characters before the null
      byte. */
  method RawLen(cstr: Ptr) returns (n: nat)
    requires Terminated(cstr)
    ensures n == |Content(cstr)|
    ensures Some(n) == FirstNull(Tail(cstr))
  {
    ghost var end := FirstNull(Tail(cstr)).value;
    var i := 0;
    while cstr.buf[cstr.offset + i] != 0
      invariant 0 <= i <= end
      decreases end - i
    {
      assert Tail(cstr)[i] != 0;
      i := i + 1;
    }
    assert Tail(cstr)[i] == 0;
    n := i;
  }

  /** `nstd_core_cstr_raw_len_with_null`: the length counting the null byte. */
  method RawLenWithNull(cstr: Ptr) returns (n: nat)
    requires Terminated(cstr)
    ensures n == |Content(cstr)| + 1
    ensures cstr.ValidFor(n) && cstr.Read(n) == Content(cstr) + [0]
  {
    n := RawLen(cstr);
    n := n + 1;
    assert cstr.Read(n) == Content(cstr) + [0];
  }

  /** `nstd_core_cstr_raw_compare`: true exactly when both strings have the
      same characters. A pointer compared with itself is equal at once. */
  method RawCompare(cstr1: Ptr, cstr2: Ptr) returns (eq: bool)
    requires Terminated(cstr1) && Terminated(cstr2)
    ensures eq <==> Content(cstr1) == Content(cstr2)
  {
    if cstr1 == cstr2 {
      return true;
    }
    ghost var c1, c2 := Content(cstr1), Content(cstr2);
    var i := 0;
    while true
      invariant i <= |c1| && i <= |c2|
      invariant c1[..i] == c2[..i]
      decreases |c1| - i
    {
      var b1, b2 := cstr1.buf[cstr1.offset + i], cstr2.buf[cstr2.offset + i];
      if b1 != b2 {
        if i < |c1| && i < |c2| {
          assert c1[i] != c2[i];
        } else {
          assert |c1| != |c2|;
        }
        return false;
      } else if b1 == 0 {
        assert c1 == c1[..i] && c2 == c2[..i];
        return true;
      }
      assert c1[i] == c2[i];
      assert c1[..i + 1] == c1[..i] + [c1[i]];
      assert c2[..i + 1] == c2[..i] + [c2[i]];
      i := i + 1;
    }
  }

  /** `nstd_core_cstr_raw_copy`: writes `src`'s characters, without the null
      byte, to `dest`; nothing else in `dest`'s allocation changes. The two
      strings lie in different allocations. */
  method RawCopy(dest: Ptr, src: Ptr)
    requires Terminated(src) && dest.buf != src.buf
    requires dest.ValidFor(|Content(src)|)
    modifies dest.buf
    ensures dest.buf[..] == Written(old(dest.buf[..]), dest.offset, Content(src))
  {
    ghost var c := Content(src);
    ghost var before := dest.buf[..];
    var i := 0;
    while src.buf[src.offset + i] != 0
      invariant 0 <= i <= |c|
      invariant dest.buf[..] == Written(before, dest.offset, c[..i])
      decreases |c| - i
    {
      dest.buf[dest.offset + i] := src.buf[src.offset + i];
      assert c[..i + 1] == c[..i] + [c[i]];
      i := i + 1;
    }
    assert c[..i] == c;
  }

  /** `nstd_core_cstr_raw_copy_with_null`: writes `src`'s characters and its
      null byte to `dest`; nothing else in `dest`'s allocation changes. */
  method RawCopyWithNull(dest: Ptr, src: Ptr)
    requires Terminated(src) && dest.buf != src.buf
    requires dest.ValidFor(|Content(src)| + 1)
    modifies dest.buf
    ensures dest.buf[..] == Written(old(dest.buf[..]), dest.offset, Content(src) + [0])
    ensures Terminated(dest) && Content(dest) == Content(src)
  {
    ghost var c := Content(src) + [0];
    ghost var before := dest.buf[..];
    var i := 0;
    dest.buf[dest.offset] := src.buf[src.offset];
    assert c[..1] == [c[0]];
    while src.buf[src.offset + i] != 0
      invariant 0 <= i < |c|
      invariant dest.buf[..] == Written(before, dest.offset, c[..i + 1])
      decreases |c| - i
    {
      i := i + 1;
      dest.buf[dest.offset + i] := src.buf[src.offset + i];
      assert c[..i + 1] == c[..i] + [c[i]];
    }
    assert c[..i + 1] == c;
    TerminatedAt(dest, Content(src));
  }

  /** Characters followed by a null byte at `p` make `p` a C string with
      those characters. */
  lemma TerminatedAt(p: Ptr, c: seq<Byte>)
    requires p.ValidFor(|c| + 1) && p.Read(|c| + 1) == c + [0]
    requires forall k :: 0 <= k < |c| ==> c[k] != 0
    ensures Terminated(p) && Content(p) == c
  {
    var t := Tail(p);
    assert t[..|c| + 1] == c + [0];
    assert forall k :: 0 <= k < |c| ==> t[k] == c[k];
    FirstNullPrefix(t, |c|);
  }

  /** The first null byte of a sequence is found within any prefix that
      reaches it. */
  lemma FirstNullPrefix(bs: seq<Byte>, n: nat)
    requires n < |bs| && bs[n] == 0
    requires forall k :: 0 <= k < n ==> bs[k] != 0
    ensures FirstNull(bs) == Some(n)
  {
  }

  /** The documented example: `"Hello, world!"` has 13 characters before its
      null byte (14 with it). */
  lemma RawLenExample(hello: string)
    requires hello == "Hello, world!\0"
    ensures FirstNull(Ascii(hello)) == Some(13)
  {
    var bs := Ascii(hello);
    assert forall k :: 0 <= k < 13 ==> hello[k] != '\0';
    FirstNullPrefix(bs, 13);
  }
}
