/** `NSTDSlice` and `NSTDSliceMut`: views of `len` values of `stride` bytes
    each, starting at a pointer. A slice does not own its memory. */
module Slices {
  import opened Base

  /** An immutable view: the pointer to the first value, the number of bytes
      each value takes (the pointer's `size`), and the number of values. */
  datatype Slice = Slice(ptr: Ptr, stride: nat, len: nat)
  {
    /** The viewed bytes lie inside the allocation. */
    predicate InBounds() {
      ptr.ValidFor(len * stride)
    }

    /** The bytes the slice views, in order. */
    function Bytes(): (bs: seq<Byte>)
      reads ptr.buf
      requires InBounds()
      ensures |bs| == len * stride
    {
      ptr.Read(len * stride)
    }

    /** The element at `pos`: null unless `pos < len`. A view longer than
        `NSTDInt`'s maximum in bytes is a panic. */
    function Get(pos: nat): (r: Option<Ptr>)
      requires len * stride <= INT_MAX
      ensures r.Some? <==> pos < len
      ensures r.Some? ==> r.value.buf == ptr.buf && r.value.offset == ptr.offset + pos * stride
      ensures r.Some? ==> ptr.offset <= r.value.offset
                          && r.value.offset + stride <= ptr.offset + len * stride
    {
      if pos < len then
        MulLe(pos + 1, len, stride);
        Some(ptr.Add(pos * stride))
      else None
    }

    /** The first element, or null if the slice is empty. */
    function First(): (r: Option<Ptr>)
      ensures r.Some? <==> len > 0
      ensures r.Some? ==> r.value == ptr
    {
      if len > 0 then Some(ptr) else None
    }

    /** The last element, or null if the slice is empty. */
    function Last(): (r: Option<Ptr>)
      requires len * stride <= INT_MAX
      ensures r.Some? <==> len > 0
      ensures r.Some? ==> r.value.buf == ptr.buf
                          && r.value.offset + stride == ptr.offset + len * stride
    {
      if len > 0 then Get(len - 1) else None
    }
  }

  /** The element a pointer returned by `Get` designates is the `pos`-th
      group of `stride` bytes of the view. */
  lemma GetReadsElement(s: Slice, pos: nat)
    requires s.InBounds() && s.len * s.stride <= INT_MAX && pos < s.len
    ensures s.Get(pos).value.ValidFor(s.stride)
    ensures s.Get(pos).value.Read(s.stride) == s.Bytes()[pos * s.stride..(pos + 1) * s.stride]
  {
    MulLe(pos + 1, s.len, s.stride);
  }

  /** `First` and `Last` are `Get` at the two ends of the view. */
  lemma FirstLastAreGet(s: Slice)
    requires s.len * s.stride <= INT_MAX
    ensures s.First() == s.Get(0)
    ensures s.len > 0 ==> s.Last() == s.Get(s.len - 1)
  {
  }

  /** A mutable view; the same layout as `Slice`. */
  datatype SliceMut = SliceMut(ptr: Ptr, stride: nat, len: nat)
  {
    /** The same view, read-only. */
    function AsConst(): (r: Slice)
      ensures r.ptr == ptr && r.stride == stride && r.len == len
    {
      Slice(ptr, stride, len)
    }
  }

  /** `nstd_core_slice_mut_copy`: 1 if the lengths differ, 2 if the strides
      differ, otherwise `dest` receives `src`'s bytes and 0 is returned.
      Nothing outside `dest`'s view changes. */
  method MutCopy(dest: SliceMut, src: Slice) returns (errc: int)
    requires dest.AsConst().InBounds() && src.InBounds()
    modifies dest.ptr.buf
    ensures errc == 0 || errc == 1 || errc == 2
    ensures errc == 1 <==> dest.len != src.len
    ensures errc == 2 <==> dest.len == src.len && dest.stride != src.stride
    ensures errc != 0 ==> unchanged(dest.ptr.buf)
    ensures errc == 0 ==> dest.ptr.buf[..] == Written(old(dest.ptr.buf[..]), dest.ptr.offset, old(src.Bytes()))
  {
    if dest.len != src.len {
      return 1;
    }
    if dest.stride != src.stride {
      return 2;
    }
    var data := src.Bytes();
    var a, off := dest.ptr.buf, dest.ptr.offset;
    forall k | 0 <= k < |data| {
      a[off + k] := data[k];
    }
    assert a[..] == Written(old(a[..]), off, data);
    errc := 0;
  }
}
