/** Machine-level vocabulary shared by every module of the model: bytes, the
    pointer-sized integer limits of a 64-bit target, pointers into allocations,
    the allocator's error codes and the allocator itself, whose success is not
    under the caller's control. */
module Base {

  /** `NSTDByte`: an unsigned 8-bit integer. */
  type Byte = b: int | 0 <= b < 256

  /** `NSTDInt`'s maximum value on a 64-bit target (`ptrdiff_t`). */
  const INT_MAX: int := 0x7FFF_FFFF_FFFF_FFFF
  /** `NSTDUInt`'s maximum value on a 64-bit target (`size_t`). */
  const UINT_MAX: int := 0xFFFF_FFFF_FFFF_FFFF
  /** The size in bytes of a `usize` on a 64-bit target. */
  const USIZE_SIZE: nat := 8

  datatype Option<T> = None | Some(value: T)

  /** A raw pointer: the allocation it points into and a byte offset within it.
      The null pointer is represented by `None` wherever a function may return it. */
  datatype Ptr = Ptr(buf: array<Byte>, offset: nat)
  {
    /** The pointer advanced by `n` bytes (`ptr.add(n)`). */
    function Add(n: nat): (p: Ptr)
      ensures p.buf == buf && p.offset == offset + n
    {
      Ptr(buf, offset + n)
    }

    /** True when `n` bytes starting at this pointer lie inside its allocation. */
    predicate ValidFor(n: nat) {
      offset + n <= buf.Length
    }

    /** The `n` bytes starting at this pointer. */
    function Read(n: nat): (s: seq<Byte>)
      reads buf
      requires ValidFor(n)
      ensures |s| == n
      ensures forall k :: 0 <= k < n ==> s[k] == buf[offset + k]
    {
      buf[offset..offset + n]
    }
  }

  /** `NSTDAllocError`: the outcome of an operation that may allocate. */
  datatype AllocError = ErrorNone | OutOfMemory | InvalidLayout
  {
    /** The error as an `NSTDErrorCode`: zero exactly when there is no error. */
    function Code(): (c: int)
      ensures c == 0 <==> this == ErrorNone
    {
      match this
      case ErrorNone => 0
      case OutOfMemory => 1
      case InvalidLayout => 2
    }
  }

  /** The sequence `s` after the bytes `d` have been written at offset `off`. */
  function Written(s: seq<Byte>, off: nat, d: seq<Byte>): (r: seq<Byte>)
    requires off + |d| <= |s|
    ensures |r| == |s|
    ensures r[off..off + |d|] == d
    ensures forall k :: 0 <= k < |s| && !(off <= k < off + |d|) ==> r[k] == s[k]
  {
    s[..off] + d + s[off + |d|..]
  }

  /** Writing back the bytes that a write replaced restores the original sequence. */
  lemma {:induction false} WrittenRestore(s: seq<Byte>, off: nat, d: seq<Byte>)
    requires off + |d| <= |s|
    ensures Written(Written(s, off, d), off, s[off..off + |d|]) == s
  {
    var w := Written(s, off, d);
    var r := Written(w, off, s[off..off + |d|]);
    forall k | 0 <= k < |s| ensures r[k] == s[k] {
      if off <= k < off + |d| {
        assert r[off..off + |d|][k - off] == s[off..off + |d|][k - off];
      }
    }
  }

  /** Stores the bytes `d` into `a` at offset `off`; nothing else changes. */
  method Store(a: array<Byte>, off: nat, d: seq<Byte>)
    requires off + |d| <= a.Length
    modifies a
    ensures a[..] == Written(old(a[..]), off, d)
  {
    forall k | 0 <= k < |d| {
      a[off + k] := d[k];
    }
    assert a[..] == Written(old(a[..]), off, d);
  }

  /** Multiplication by a natural number is monotonic (for byte offsets `i * stride`). */
  lemma {:induction false} MulLe(a: nat, b: nat, s: nat)
    requires a <= b
    ensures a * s <= b * s
    decreases b - a
  {
    if a < b {
      MulLe(a, b - 1, s);
    }
  }

  /** The allocator: `size` bytes, or null. A request larger than `NSTDInt`'s
      maximum never succeeds; any other request may or may not, at the
      allocator's discretion. */
  method Allocate(size: nat) returns (a: array?<Byte>)
    ensures a != null ==> fresh(a) && a.Length == size && size <= INT_MAX
  {
    var granted: bool := *;
    if size <= INT_MAX && granted {
      a := new Byte[size];
    } else {
      a := null;
    }
  }

  /** The zero-initialising allocator: `size` zero bytes, or null. */
  method AllocateZeroed(size: nat) returns (a: array?<Byte>)
    ensures a != null ==> fresh(a) && a.Length == size && size <= INT_MAX
    ensures a != null ==> forall k :: 0 <= k < size ==> a[k] == 0
  {
    var granted: bool := *;
    if size <= INT_MAX && granted {
      a := new Byte[size](_ => 0);
    } else {
      a := null;
    }
  }
}
