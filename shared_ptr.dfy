/** `NSTDSharedPtr`: a reference-counted pointer. One allocation holds the
    shared object followed by a word-sized count of the pointers sharing it;
    the last pointer freed releases the allocation. The count is not atomic,
    so everything here is single-threaded. */
module SharedPtrs {
  import opened Base

  /** The number of bytes of a word: `usize` on a 64-bit target. */
  const WORD: nat := USIZE_SIZE

  /** `256^n`. */
  function Pow256(n: nat): (p: nat)
    ensures p >= 1
  {
    if n == 0 then 1 else 256 * Pow256(n - 1)
  }

  /** The `n`-byte little-endian representation of `v` (modulo `256^n`). */
  function EncodeWord(v: nat, n: nat): (bs: seq<Byte>)
    ensures |bs| == n
  {
    if n == 0 then [] else [v % 256] + EncodeWord(v / 256, n - 1)
  }

  /** The value of little-endian bytes. */
  function DecodeWord(bs: seq<Byte>): (v: nat)
    ensures v < Pow256(|bs|)
  {
    if bs == [] then 0 else bs[0] + 256 * DecodeWord(bs[1..])
  }

  /** A word stores every value below `256^n` faithfully. */
  lemma {:induction false} DecodeEncodeWord(v: nat, n: nat)
    requires v < Pow256(n)
    ensures DecodeWord(EncodeWord(v, n)) == v
  {
    if n > 0 {
      var bs := EncodeWord(v, n);
      assert bs[1..] == EncodeWord(v / 256, n - 1);
      DecodeEncodeWord(v / 256, n - 1);
    }
  }

  /** The largest value a `usize` counter holds. */
  lemma WordMax()
    ensures Pow256(WORD) == UINT_MAX + 1
  {
  }

  /** One allocation made for a shared object: `mem` holds the object and
      then the count. `deallocs` counts how often it has been released. */
  class Block {
    const mem: array<Byte>
    ghost var deallocs: nat

    constructor (a: array<Byte>)
      ensures mem == a && deallocs == 0
    {
      mem := a;
      deallocs := 0;
    }
  }

  /** The shared pointer: the start of the allocation (`ptr.raw`) and its
      total size in bytes (`ptr.size`), which includes the count. */
  datatype SharedPtr = SharedPtr(raw: Block, size: nat)
  {
    /** The allocation is as large as the descriptor says and can hold the
        count. */
    ghost predicate Valid()
      reads raw
    {
      size >= WORD && raw.mem.Length == size
    }

    /** The allocation has not been released. */
    ghost predicate Live()
      reads raw
    {
      raw.deallocs == 0
    }

    /** `nstd_shared_ptr_size`: the size of the shared object, the total size
        less the count's word. */
    function ObjectSize(): (n: nat)
      requires Valid()
      reads raw
      ensures n + WORD == size
    {
      size - WORD
    }

    /** The count's offset (`ptrs`): right after the shared object. */
    function CountOffset(): (off: nat)
      requires Valid()
      reads raw
      ensures off + WORD == raw.mem.Length
    {
      ObjectSize()
    }

    /** The number of pointers sharing the object, read from its word. */
    function Count(): (c: nat)
      requires Valid()
      reads raw, raw.mem
      ensures c <= UINT_MAX
    {
      WordMax();
      DecodeWord(raw.mem[CountOffset()..])
    }

    /** The shared object's bytes. */
    function Object(): (bs: seq<Byte>)
      requires Valid()
      reads raw, raw.mem
      ensures |bs| == ObjectSize()
    {
      raw.mem[..ObjectSize()]
    }

    /** `nstd_shared_ptr_get_const`: the address of the shared object, the
        start of the allocation. */
    function GetConst(): (p: Ptr)
      requires Valid()
      reads raw
      ensures p.buf == raw.mem && p.offset == 0 && p.ValidFor(ObjectSize())
    {
      Ptr(raw.mem, 0)
    }
  }

  /** Writes the count's word. */
  method SetCount(sp: SharedPtr, c: nat)
    requires sp.Valid() && c <= UINT_MAX
    modifies sp.raw.mem
    ensures sp.Count() == c && sp.Object() == old(sp.Object())
  {
    var off := sp.CountOffset();
    WordMax();
    var w := EncodeWord(c, WORD);
    Store(sp.raw.mem, off, w);
    assert sp.raw.mem[off..] == w;
    DecodeEncodeWord(c, WORD);
  }

  /** `nstd_shared_ptr_new_zeroed`: a new pointer to `elementSize` zero bytes
      with a count of 1, in one allocation of `elementSize` bytes plus a word.
      `None` stands for the panic when the allocation fails. */
  method NewZeroed(elementSize: nat) returns (r: Option<SharedPtr>)
    requires elementSize + WORD <= UINT_MAX
    ensures r.Some? ==> var sp := r.value;
      && fresh(sp.raw) && fresh(sp.raw.mem) && sp.Valid() && sp.Live()
      && sp.size == elementSize + WORD && sp.ObjectSize() == elementSize
      && sp.Count() == 1
      && forall k :: 0 <= k < elementSize ==> sp.Object()[k] == 0
  {
    var a := AllocateZeroed(elementSize + WORD);
    if a == null {
      return None;
    }
    var b := new Block(a);
    var sp := SharedPtr(b, elementSize + WORD);
    SetCount(sp, 1);
    r := Some(sp);
  }

  /** `nstd_shared_ptr_share`: one more sharer. The count goes up by exactly
      one and the new pointer is a copy of the descriptor; nothing is
      allocated. */
  method Share(sp: SharedPtr) returns (s: SharedPtr)
    requires sp.Valid() && sp.Live() && sp.Count() < UINT_MAX
    modifies sp.raw.mem
    ensures s == sp
    ensures sp.Count() == old(sp.Count()) + 1
    ensures sp.Object() == old(sp.Object())
  {
    SetCount(sp, sp.Count() + 1);
    s := SharedPtr(sp.raw, sp.size);
  }

  /** `nstd_shared_ptr_free`: one sharer fewer. The count goes down by one
      and the allocation is released exactly when it reaches 0. */
  method Free(sp: SharedPtr)
    requires sp.Valid() && sp.Live() && sp.Count() >= 1
    modifies sp.raw.mem, sp.raw
    ensures sp.Count() == old(sp.Count()) - 1
    ensures sp.Object() == old(sp.Object())
    ensures sp.raw.deallocs == if sp.Count() == 0 then 1 else 0
  {
    SetCount(sp, sp.Count() - 1);
    if sp.Count() == 0 {
      sp.raw.deallocs := sp.raw.deallocs + 1;
    }
  }

  /** A pointer shared `n` times and then freed `n + 1` times is released
      exactly once, by the last free; every earlier free leaves it live. */
  method ShareThenFreeAll(sp: SharedPtr, n: nat)
    requires sp.Valid() && sp.Live() && sp.Count() == 1 && n < UINT_MAX
    modifies sp.raw.mem, sp.raw
    ensures sp.raw.deallocs == 1 && sp.Count() == 0
  {
    var copies: seq<SharedPtr> := [];
    var i := 0;
    while i < n
      invariant 0 <= i <= n && |copies| == i
      invariant sp.Live() && sp.Count() == i + 1
      invariant forall k :: 0 <= k < i ==> copies[k] == sp
    {
      var s := Share(sp);
      copies := copies + [s];
      i := i + 1;
    }
    while i > 0
      invariant 0 <= i <= n && |copies| == n
      invariant sp.Live() && sp.Count() == i + 1
      invariant forall k :: 0 <= k < n ==> copies[k] == sp
    {
      Free(copies[i - 1]);
      i := i - 1;
    }
    Free(sp);
  }
}
