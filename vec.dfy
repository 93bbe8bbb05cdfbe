/** `NSTDVec`: a growable buffer of values that all take `stride` bytes. The
    vector owns `buf`, which holds `cap` values, of which the first `len` are
    active. A vector that has not allocated (the "null vector") has an empty
    buffer and no capacity. */
module Vectors {
  import opened Base
  import opened Slices

  /** The bytes of value `pos` lie inside the first `len` values. */
  lemma ElementBounds(pos: nat, len: nat, stride: nat)
    requires pos < len
    ensures pos * stride + stride == (pos + 1) * stride <= len * stride
  {
    MulLe(pos + 1, len, stride);
  }

  class Vec {
    /** The number of bytes each value takes up. */
    const stride: nat
    /** The memory buffer (`ptr`); `cap * stride` bytes. */
    var buf: array<Byte>
    /** The number of active values. */
    var len: nat
    /** The number of values the buffer has room for. */
    var cap: nat

    ghost predicate Valid()
      reads this
    {
      && stride > 0
      && len <= cap
      && buf.Length == cap * stride
      && len * stride <= buf.Length
      && buf.Length <= INT_MAX
    }

    /** The active bytes: `len` values of `stride` bytes each. */
    function Bytes(): (bs: seq<Byte>)
      reads this, buf
      requires Valid()
      ensures |bs| == len * stride
    {
      buf[..len * stride]
    }

    /** The active value at `pos`. */
    function Element(pos: nat): (e: seq<Byte>)
      reads this, buf
      requires Valid() && pos < len
      ensures |e| == stride
      ensures e == Bytes()[pos * stride..(pos + 1) * stride]
    {
      ElementBounds(pos, len, stride);
      var bs := buf[..len * stride];
      assert bs[pos * stride..(pos + 1) * stride] == buf[pos * stride..(pos + 1) * stride];
      buf[pos * stride..(pos + 1) * stride]
    }

    /** `nstd_vec_new`: an empty vector that allocates nothing. A zero
        element size is a panic. */
    constructor New(elementSize: nat)
      requires elementSize > 0
      ensures Valid() && fresh(buf)
      ensures stride == elementSize && len == 0 && cap == 0
    {
      stride := elementSize;
      buf := new Byte[0];
      len, cap := 0, 0;
    }

    /** `nstd_vec_new_with_cap`: an empty vector with room for `capacity`
        values, or the null vector if the allocation fails. A zero element size
        or capacity is a panic. */
    constructor NewWithCap(elementSize: nat, capacity: nat)
      requires elementSize > 0 && capacity > 0
      ensures Valid() && fresh(buf)
      ensures stride == elementSize && len == 0
      ensures cap == capacity || cap == 0
    {
      stride := elementSize;
      len := 0;
      var a := Allocate(capacity * elementSize);
      if a == null {
        buf := new Byte[0];
        cap := 0;
      } else {
        buf := a;
        cap := capacity;
      }
    }

    /** `nstd_vec_clone`: a deep copy holding the same values with capacity
        equal to the length; `null` stands for the panic on allocation failure. */
    method Clone() returns (c: Vec?)
      requires Valid()
      ensures c != null ==> fresh(c) && fresh(c.buf) && c.Valid()
      ensures c != null ==> c.stride == stride && c.len == len && c.cap == len
                            && c.Bytes() == Bytes()
    {
      var n := len * stride;
      var a := Allocate(n);
      if a == null {
        return null;
      }
      forall k | 0 <= k < n {
        a[k] := buf[k];
      }
      c := new Vec.FromParts(stride, a, len);
      assert c.Bytes() == a[..];
    }

    /** A vector over an existing buffer whose values are all active. */
    constructor FromParts(elementSize: nat, a: array<Byte>, n: nat)
      requires elementSize > 0 && a.Length == n * elementSize && a.Length <= INT_MAX
      ensures Valid() && stride == elementSize && buf == a && len == n && cap == n
    {
      stride := elementSize;
      buf := a;
      len, cap := n, n;
    }

    /** `nstd_vec_as_slice`: a view of the active values. */
    function AsSlice(): (s: Slice)
      reads this, buf
      requires Valid()
      ensures s.stride == stride && s.len == len && s.ptr.buf == buf
      ensures s.InBounds() && s.Bytes() == Bytes()
    {
      Slice(Ptr(buf, 0), stride, len)
    }

    /** `nstd_vec_get` and `nstd_vec_get_mut`: a pointer to the value at
        `pos`, or null when `pos` is not below the length. */
    function Get(pos: nat): (r: Option<Ptr>)
      reads this, buf
      requires Valid()
      ensures r.Some? <==> pos < len
      ensures r.Some? ==> r.value.buf == buf && r.value.ValidFor(stride)
                          && r.value.Read(stride) == Element(pos)
    {
      if pos < len then
        MulLe(pos + 1, len, stride);
        Some(Ptr(buf, pos * stride))
      else None
    }

    /** Grows the buffer to hold `newCap` values, keeping the active bytes.
        On allocation failure nothing changes. */
    method Grow(newCap: nat) returns (errc: AllocError)
      requires Valid() && newCap >= cap
      modifies this
      ensures Valid() && len == old(len) && Bytes() == old(Bytes())
      ensures errc == ErrorNone || errc == OutOfMemory
      ensures errc == ErrorNone ==> cap == newCap && fresh(buf)
      ensures errc != ErrorNone ==> cap == old(cap) && buf == old(buf)
    {
      var a := Allocate(newCap * stride);
      if a == null {
        return OutOfMemory;
      }
      var n := len * stride;
      MulLe(cap, newCap, stride);
      var kept := buf[..n];
      Store(a, 0, kept);
      assert a[..n] == kept;
      buf := a;
      cap := newCap;
      errc := ErrorNone;
    }

    /** `nstd_vec_reserve`: room for at least `size` more values. A zero
        `size` is a panic. On failure the vector is unchanged. */
    method Reserve(size: nat) returns (errc: AllocError)
      requires Valid() && size > 0
      modifies this
      ensures Valid() && len == old(len) && Bytes() == old(Bytes())
      ensures errc == ErrorNone ==> cap >= len + size && fresh(buf)
      ensures errc != ErrorNone ==> cap == old(cap) && buf == old(buf)
    {
      errc := Grow(cap + size);
    }

    /** `nstd_vec_push`: appends one value of `stride` bytes. The buffer grows
        only when it is full; if that fails the vector is unchanged. */
    method Push(value: seq<Byte>) returns (errc: AllocError)
      requires Valid() && |value| == stride
      modifies this, buf
      ensures Valid()
      ensures errc == ErrorNone ==> len == old(len) + 1 && Bytes() == old(Bytes()) + value
      ensures errc != ErrorNone ==> len == old(len) && Bytes() == old(Bytes())
      ensures errc != ErrorNone ==> cap == old(cap) && buf == old(buf)
      ensures old(len) < old(cap) ==> errc == ErrorNone && cap == old(cap) && buf == old(buf)
      ensures buf == old(buf) || fresh(buf)
    {
      if len == cap {
        errc := Reserve(if cap == 0 then 1 else cap);
        if errc != ErrorNone {
          return;
        }
      }
      errc := WriteAt(len, value);
      len := len + 1;
    }

    /** Writes `value` over the slot of value `pos` (which may be the first
        spare slot), leaving every other byte of the buffer as it was. */
    method WriteAt(pos: nat, value: seq<Byte>) returns (errc: AllocError)
      requires Valid() && pos < cap && |value| == stride
      modifies buf
      ensures errc == ErrorNone
      ensures (pos + 1) * stride <= buf.Length
      ensures buf[..] == Written(old(buf[..]), pos * stride, value)
    {
      MulLe(pos + 1, cap, stride);
      Store(buf, pos * stride, value);
      errc := ErrorNone;
    }

    /** `nstd_vec_pop`: removes the last value and returns a pointer to it
        (its bytes stay in the buffer), or null when the vector is empty. */
    method Pop() returns (r: Option<Ptr>)
      requires Valid()
      modifies this
      ensures Valid() && buf == old(buf) && cap == old(cap)
      ensures r.Some? <==> old(len) > 0
      ensures old(len) == 0 ==> len == 0
      ensures r.Some? ==> len == old(len) - 1
                          && Bytes() == old(Bytes())[..len * stride]
                          && r.value.buf == buf && r.value.ValidFor(stride)
                          && r.value.Read(stride) == old(Element(len - 1))
    {
      if len == 0 {
        return None;
      }
      ghost var last := Element(len - 1);
      ghost var bytes := Bytes();
      ElementBounds(len - 1, len, stride);
      len := len - 1;
      r := Some(Ptr(buf, len * stride));
      assert r.value.Read(stride) == last;
      assert Bytes() == bytes[..len * stride];
    }

    /** `nstd_vec_insert`: 1 if `index` is past the end (nothing changes), 2 if
        growing the buffer fails (nothing changes), otherwise 0 with `value`
        inserted at `index` and the values from `index` on shifted up by one. */
    method Insert(value: seq<Byte>, index: nat) returns (errc: int)
      requires Valid() && |value| == stride
      modifies this, buf
      ensures Valid()
      ensures errc == 0 || errc == 1 || errc == 2
      ensures errc == 1 <==> index > old(len)
      ensures errc == 2 ==> old(len) == old(cap)
      ensures errc != 0 ==> len == old(len) && Bytes() == old(Bytes())
      ensures errc != 0 ==> cap == old(cap) && buf == old(buf)
      ensures errc == 0 ==> len == old(len) + 1
                            && Bytes() == old(Bytes())[..index * stride] + value
                                          + old(Bytes())[index * stride..]
      ensures buf == old(buf) || fresh(buf)
    {
      if index > len {
        return 1;
      }
      if len == cap {
        var e := Reserve(if cap == 0 then 1 else cap);
        if e != ErrorNone {
          return 2;
        }
      }
      InsertFits(value, index);
      errc := 0;
    }

    /** Inserts `value` at `index` when the buffer has a spare slot. */
    method InsertFits(value: seq<Byte>, index: nat)
      requires Valid() && |value| == stride && index <= len < cap
      modifies buf, `len
      ensures Valid() && len == old(len) + 1
      ensures Bytes() == old(Bytes())[..index * stride] + value + old(Bytes())[index * stride..]
    {
      var before := Bytes();
      MulLe(index, len, stride);
      MulLe(len + 1, cap, stride);
      var lo := index * stride;
      var moved := before[..lo] + value + before[lo..];
      assert |moved| == (len + 1) * stride;
      Store(buf, 0, moved);
      len := len + 1;
      assert buf[..|moved|] == moved;
    }

    /** `nstd_vec_remove`: nonzero if `index` is not below the length (nothing
        changes), otherwise 0 with that value removed and the rest kept in
        order. */
    method Remove(index: nat) returns (errc: int)
      requires Valid()
      modifies this, buf
      ensures Valid() && buf == old(buf) && cap == old(cap)
      ensures errc != 0 <==> index >= old(len)
      ensures errc != 0 ==> len == old(len) && Bytes() == old(Bytes())
      ensures errc == 0 ==> len == old(len) - 1
                            && Bytes() == old(Bytes())[..index * stride]
                                          + old(Bytes())[(index + 1) * stride..]
    {
      if index >= len {
        return 1;
      }
      var before := Bytes();
      MulLe(index + 1, len, stride);
      var lo := index * stride;
      var moved := before[..lo] + before[lo + stride..];
      assert |moved| == (len - 1) * stride;
      Store(buf, 0, moved);
      len := len - 1;
      assert buf[..|moved|] == moved;
      errc := 0;
    }

    /** `nstd_vec_extend`: appends every value `values` views, in order. The
        strides must match (a panic otherwise). If growing the buffer fails
        the vector is unchanged. */
    method Extend(values: Slice) returns (errc: AllocError)
      requires Valid() && values.stride == stride && values.InBounds()
      modifies this, buf
      ensures Valid()
      ensures errc == ErrorNone ==> len == old(len) + values.len
                                    && Bytes() == old(Bytes()) + old(values.Bytes())
      ensures errc != ErrorNone ==> len == old(len) && Bytes() == old(Bytes())
      ensures errc != ErrorNone ==> cap == old(cap) && buf == old(buf)
      ensures old(len) + values.len <= old(cap) ==> errc == ErrorNone && cap == old(cap) && buf == old(buf)
      ensures buf == old(buf) || fresh(buf)
    {
      var data := values.Bytes();
      if len + values.len > cap {
        errc := Reserve(values.len);
        if errc != ErrorNone {
          return;
        }
      }
      AppendFits(data, values.len);
      errc := ErrorNone;
    }

    /** Appends the bytes of whole values when the buffer has room for them. */
    method AppendFits(data: seq<Byte>, n: nat)
      requires Valid() && |data| == n * stride && len + n <= cap
      modifies buf, `len
      ensures Valid() && len == old(len) + n
      ensures Bytes() == old(Bytes()) + data
    {
      MulLe(len + n, cap, stride);
      var off := len * stride;
      assert off + |data| == (len + n) * stride;
      Store(buf, off, data);
      len := len + n;
      assert buf[..off + |data|] == old(Bytes()) + data;
    }

    /** `nstd_vec_truncate`: keeps the first `n` values; does nothing when the
        vector has no more than `n`. The capacity never changes. */
    method Truncate(n: nat)
      requires Valid()
      modifies this
      ensures Valid() && buf == old(buf) && cap == old(cap)
      ensures old(len) <= n ==> len == old(len)
      ensures old(len) > n ==> len == n
      ensures Bytes() == old(Bytes())[..len * stride]
    {
      if n < len {
        MulLe(n, len, stride);
        len := n;
      }
    }

    /** `nstd_vec_shrink`: makes the capacity equal to the length, keeping the
        values. If the smaller allocation fails nothing changes. */
    method Shrink() returns (errc: AllocError)
      requires Valid()
      modifies this
      ensures Valid() && len == old(len) && Bytes() == old(Bytes())
      ensures errc == ErrorNone ==> cap == len
      ensures errc != ErrorNone ==> cap == old(cap) && buf == old(buf)
      ensures buf == old(buf) || fresh(buf)
    {
      if len == cap {
        return ErrorNone;
      }
      var n := len * stride;
      var a := Allocate(n);
      if a == null {
        return OutOfMemory;
      }
      forall k | 0 <= k < n {
        a[k] := buf[k];
      }
      assert a[..] == buf[..n];
      buf := a;
      cap := len;
      errc := ErrorNone;
    }

    /** `nstd_vec_free`: releases the buffer; the vector is left as the null
        vector. */
    method Free()
      requires Valid()
      modifies this
      ensures Valid() && len == 0 && cap == 0 && fresh(buf)
    {
      buf := new Byte[0];
      len, cap := 0, 0;
    }
  }

  /** The values of an active byte sequence, `stride` bytes each. */
  function Values(bs: seq<Byte>, stride: nat): (vs: seq<seq<Byte>>)
    requires stride > 0
    decreases |bs|
  {
    if |bs| < stride then [] else [bs[..stride]] + Values(bs[stride..], stride)
  }

  /** Seen value by value, an insertion puts `value` at `index` and keeps the
      values before and after it in order. */
  lemma {:induction false} ValuesInsert(bs: seq<Byte>, stride: nat, index: nat, value: seq<Byte>)
    requires stride > 0 && |value| == stride && index * stride <= |bs|
    ensures |Values(bs, stride)| >= index
    ensures Values(bs[..index * stride] + value + bs[index * stride..], stride)
            == Values(bs, stride)[..index] + [value] + Values(bs, stride)[index..]
    decreases index
  {
    ValuesLength(bs, stride, index);
    var lo := index * stride;
    var ins := bs[..lo] + value + bs[lo..];
    if index == 0 {
      assert ins == value + bs;
      assert ins[..stride] == value && ins[stride..] == bs;
    } else {
      MulLe(1, index, stride);
      var tail := bs[stride..];
      var lo' := (index - 1) * stride;
      assert lo' == lo - stride;
      assert ins[..stride] == bs[..stride];
      assert ins[stride..] == tail[..lo'] + value + tail[lo'..];
      ValuesInsert(tail, stride, index - 1, value);
      var vs, vt := Values(bs, stride), Values(tail, stride);
      assert vs == [bs[..stride]] + vt;
      assert vs[..index] == [bs[..stride]] + vt[..index - 1];
      assert vs[index..] == vt[index - 1..];
    }
  }

  /** Seen value by value, a removal drops the value at `index` and keeps the
      others in order. */
  lemma {:induction false} ValuesRemove(bs: seq<Byte>, stride: nat, index: nat)
    requires stride > 0 && (index + 1) * stride <= |bs|
    ensures |Values(bs, stride)| > index
    ensures Values(bs[..index * stride] + bs[(index + 1) * stride..], stride)
            == Values(bs, stride)[..index] + Values(bs, stride)[index + 1..]
    decreases index
  {
    ValuesLength(bs, stride, index + 1);
    var lo := index * stride;
    var rem := bs[..lo] + bs[lo + stride..];
    if index == 0 {
      assert rem == bs[stride..];
    } else {
      MulLe(1, index, stride);
      var tail := bs[stride..];
      var lo' := (index - 1) * stride;
      assert lo' == lo - stride;
      assert rem[..stride] == bs[..stride];
      assert rem[stride..] == tail[..lo'] + tail[lo' + stride..];
      ValuesRemove(tail, stride, index - 1);
      var vs, vt := Values(bs, stride), Values(tail, stride);
      assert vs == [bs[..stride]] + vt;
      assert vs[..index] == [bs[..stride]] + vt[..index - 1];
      assert vs[index + 1..] == vt[index..];
    }
  }

  /** A byte sequence holding at least `n` whole values has at least `n` values. */
  lemma {:induction false} ValuesLength(bs: seq<Byte>, stride: nat, n: nat)
    requires stride > 0 && n * stride <= |bs|
    ensures |Values(bs, stride)| >= n
    decreases n
  {
    if n > 0 {
      ValuesLength(bs[stride..], stride, n - 1);
    }
  }
}
