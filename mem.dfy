/** Raw memory operations over byte buffers: comparison and search, which only
    read, and zeroing, filling, copying and swapping, which write the buffer
    in place one byte at a time. */
module Mem {
  import opened Base

  /** `n` copies of the byte `b`. */
  function Repeat(b: Byte, n: nat): (bs: seq<Byte>)
    ensures |bs| == n && forall k :: 0 <= k < n ==> bs[k] == b
  {
    seq(n, _ => b)
  }

  /** Byte-by-byte comparison of two equally long byte runs. */
  function Equal(a: seq<Byte>, b: seq<Byte>): (r: bool)
    requires |a| == |b|
    ensures r <==> a == b
  {
    if a == [] then true
    else a[0] == b[0] && Equal(a[1..], b[1..])
  }

  /** The position of the first `delim` in `bs`, if any. */
  function IndexOf(bs: seq<Byte>, delim: Byte): (r: Option<nat>)
    ensures r.Some? ==> r.value < |bs| && bs[r.value] == delim
                        && forall k :: 0 <= k < r.value ==> bs[k] != delim
    ensures r.None? <==> forall k :: 0 <= k < |bs| ==> bs[k] != delim
  {
    if bs == [] then None
    else if bs[0] == delim then Some(0)
    else match IndexOf(bs[1..], delim)
      case None => None
      case Some(i) => Some(i + 1)
  }

  /** `nstd_core_mem_compare`: true exactly when the first `num` bytes of the
      two buffers are the same; always false when `num` exceeds `NSTDInt`'s
      maximum, in which case nothing is read. */
  function Compare(buf1: Ptr, buf2: Ptr, num: nat): (r: bool)
    reads buf1.buf, buf2.buf
    requires num > INT_MAX || (buf1.ValidFor(num) && buf2.ValidFor(num))
    ensures r <==> num <= INT_MAX && buf1.Read(num) == buf2.Read(num)
  {
    if num > INT_MAX then false else Equal(buf1.Read(num), buf2.Read(num))
  }

  /** `nstd_core_mem_search`: a pointer to the first `delim` among the `size`
      bytes at `buf`, or null when there is none. */
  function Search(buf: Ptr, size: nat, delim: Byte): (r: Option<Ptr>)
    reads buf.buf
    requires buf.ValidFor(size)
    ensures r.None? <==> forall j :: buf.offset <= j < buf.offset + size ==> buf.buf[j] != delim
    ensures r.Some? ==> r.value.buf == buf.buf
                        && buf.offset <= r.value.offset < buf.offset + size
                        && buf.buf[r.value.offset] == delim
                        && forall k :: buf.offset <= k < r.value.offset ==> buf.buf[k] != delim
  {
    match IndexOf(buf.Read(size), delim)
    case None => None
    case Some(i) => Some(buf.Add(i))
  }

  /** `nstd_core_mem_zero`: sets the `size` bytes at `buf` to zero; nothing
      else changes. */
  method Zero(buf: Ptr, size: nat)
    requires buf.ValidFor(size)
    modifies buf.buf
    ensures buf.buf[..] == Written(old(buf.buf[..]), buf.offset, Repeat(0, size))
  {
    ghost var before := buf.buf[..];
    var i := 0;
    while i < size
      invariant i <= size
      invariant buf.buf[..] == Written(before, buf.offset, Repeat(0, i))
    {
      buf.buf[buf.offset + i] := 0;
      i := i + 1;
    }
  }

  /** `nstd_core_mem_fill`: sets the `size` bytes at `buf` to `fill`;
      nothing else changes. */
  method Fill(buf: Ptr, size: nat, fill: Byte)
    requires buf.ValidFor(size)
    modifies buf.buf
    ensures buf.buf[..] == Written(old(buf.buf[..]), buf.offset, Repeat(fill, size))
  {
    ghost var before := buf.buf[..];
    var i := 0;
    while i < size
      invariant i <= size
      invariant buf.buf[..] == Written(before, buf.offset, Repeat(fill, i))
    {
      buf.buf[buf.offset + i] := fill;
      i := i + 1;
    }
  }

  /** The two ranges of `num` bytes do not share a byte. */
  predicate Disjoint(p: Ptr, q: Ptr, num: nat) {
    p.buf != q.buf || p.offset + num <= q.offset || q.offset + num <= p.offset
  }

  /** `nstd_core_mem_copy`: `dest` receives the `num` bytes at `src`, which
      must not overlap it; afterwards the two compare equal. */
  method Copy(dest: Ptr, src: Ptr, num: nat)
    requires dest.ValidFor(num) && src.ValidFor(num) && Disjoint(dest, src, num)
    modifies dest.buf
    ensures dest.buf[..] == Written(old(dest.buf[..]), dest.offset, old(src.Read(num)))
    ensures num <= INT_MAX ==> Compare(dest, src, num)
  {
    CopyForwards(dest, src, num);
  }

  /** `nstd_core_mem_copy_overlapping`: `dest` receives the `num` bytes that
      were at `src`, even when the two ranges overlap. The copy runs forwards
      unless the destination starts inside the source, and backwards then, so
      no byte is overwritten before it has been read. */
  method CopyOverlapping(dest: Ptr, src: Ptr, num: nat)
    requires dest.ValidFor(num) && src.ValidFor(num)
    modifies dest.buf
    ensures dest.buf[..] == Written(old(dest.buf[..]), dest.offset, old(src.Read(num)))
  {
    if dest.buf != src.buf || dest.offset <= src.offset || src.offset + num <= dest.offset {
      CopyForwards(dest, src, num);
    } else {
      CopyBackwards(dest, src, num);
    }
  }

  /** Copies from the first byte to the last; correct when every source byte
      is read before the destination byte written over it, that is unless the
      destination starts inside the source. */
  method CopyForwards(dest: Ptr, src: Ptr, num: nat)
    requires dest.ValidFor(num) && src.ValidFor(num)
    requires dest.buf != src.buf || dest.offset <= src.offset || src.offset + num <= dest.offset
    modifies dest.buf
    ensures dest.buf[..] == Written(old(dest.buf[..]), dest.offset, old(src.Read(num)))
  {
    var a, d, sb, s := dest.buf, dest.offset, src.buf, src.offset;
    ghost var before := a[..];
    ghost var data := src.Read(num);
    var i := 0;
    while i < num
      invariant i <= num
      invariant forall j :: 0 <= j < d || d + i <= j < a.Length ==> a[j] == before[j]
      invariant forall j :: d <= j < d + i ==> a[j] == data[j - d]
      invariant forall k :: i <= k < num ==> sb[s + k] == data[k]
    {
      a[d + i] := sb[s + i];
      i := i + 1;
    }
    assert a[..] == Written(before, d, data);
  }

  /** Copies from the last byte to the first; correct when the destination
      starts inside the source. */
  method CopyBackwards(dest: Ptr, src: Ptr, num: nat)
    requires dest.ValidFor(num) && src.ValidFor(num)
    requires dest.buf == src.buf && src.offset < dest.offset
    modifies dest.buf
    ensures dest.buf[..] == Written(old(dest.buf[..]), dest.offset, old(src.Read(num)))
  {
    var a, d, s := dest.buf, dest.offset, src.offset;
    ghost var before := a[..];
    ghost var data := a[s..s + num];
    var i := num;
    while i > 0
      invariant 0 <= i <= num
      invariant forall j :: 0 <= j < d + i || d + num <= j < a.Length ==> a[j] == before[j]
      invariant forall j :: d + i <= j < d + num ==> a[j] == data[j - d]
    {
      i := i - 1;
      a[d + i] := a[s + i];
    }
    assert a[..] == Written(before, d, data);
  }

  /** The contents of two distinct buffers after exchanging the `num` bytes
      at `xoff` in `xs` with those at `yoff` in `ys`. */
  function Swapped(xs: seq<Byte>, xoff: nat, ys: seq<Byte>, yoff: nat, num: nat): (r: (seq<Byte>, seq<Byte>))
    requires xoff + num <= |xs| && yoff + num <= |ys|
    ensures |r.0| == |xs| && |r.1| == |ys|
    ensures r.0[xoff..xoff + num] == ys[yoff..yoff + num]
    ensures r.1[yoff..yoff + num] == xs[xoff..xoff + num]
  {
    (Written(xs, xoff, ys[yoff..yoff + num]), Written(ys, yoff, xs[xoff..xoff + num]))
  }

  /** Swapping the same ranges twice gives back both buffers. */
  lemma SwapTwice(xs: seq<Byte>, xoff: nat, ys: seq<Byte>, yoff: nat, num: nat)
    requires xoff + num <= |xs| && yoff + num <= |ys|
    ensures var once := Swapped(xs, xoff, ys, yoff, num);
            Swapped(once.0, xoff, once.1, yoff, num) == (xs, ys)
  {
    var once := Swapped(xs, xoff, ys, yoff, num);
    WrittenRestore(xs, xoff, ys[yoff..yoff + num]);
    WrittenRestore(ys, yoff, xs[xoff..xoff + num]);
  }

  /** `nstd_core_mem_swap`: exchanges the `num` bytes at `x` with those at
      `y`, which lie in different buffers; nothing else changes. */
  method Swap(x: Ptr, y: Ptr, num: nat)
    requires x.ValidFor(num) && y.ValidFor(num) && x.buf != y.buf
    modifies x.buf, y.buf
    ensures (x.buf[..], y.buf[..]) == Swapped(old(x.buf[..]), x.offset, old(y.buf[..]), y.offset, num)
  {
    ghost var xs, ys := x.buf[..], y.buf[..];
    var i := 0;
    while i < num
      invariant i <= num
      invariant x.buf[..] == Written(xs, x.offset, ys[y.offset..y.offset + i])
      invariant y.buf[..] == Written(ys, y.offset, xs[x.offset..x.offset + i])
    {
      var t := x.buf[x.offset + i];
      x.buf[x.offset + i] := y.buf[y.offset + i];
      y.buf[y.offset + i] := t;
      assert ys[y.offset..y.offset + i + 1] == ys[y.offset..y.offset + i] + [ys[y.offset + i]];
      assert xs[x.offset..x.offset + i + 1] == xs[x.offset..x.offset + i] + [xs[x.offset + i]];
      i := i + 1;
    }
  }

  /** After filling, a search for the fill byte stops at the first byte, and
      a search for any other byte finds nothing. */
  lemma IndexOfRepeat(b: Byte, n: nat, delim: Byte)
    ensures IndexOf(Repeat(b, n), delim) == if n > 0 && b == delim then Some(0) else None
  {
  }
}
