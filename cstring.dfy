/** `NSTDCString`: an owned, growable C string. Its characters live in a
    vector of stride 1 that always ends with a null byte until the string is
    freed. */
module CStrings {
  import opened Base
  import opened Slices
  import opened Vectors
  import opened CStrs
  import opened RawCStrs

  class CString {
    /** The underlying vector of `NSTDChar`s, null byte included. */
    var bytes: Vec

    /** The vector has stride 1 and its last active byte is the null byte. */
    ghost predicate Valid()
      reads this, bytes, bytes.buf
    {
      bytes.Valid() && bytes.stride == 1 && bytes.len >= 1
      && bytes.Bytes()[bytes.len - 1] == 0
    }

    /** The characters: the active bytes before the final null byte. */
    function Chars(): (cs: seq<Byte>)
      reads this, bytes, bytes.buf
      requires Valid()
      ensures |cs| + 1 == bytes.len && bytes.Bytes() == cs + [0]
    {
      bytes.Bytes()[..bytes.len - 1]
    }

    /** The final null byte is the only one. Every operation but
        `FromBytes` establishes or keeps this. */
    ghost predicate OneNull()
      reads this, bytes, bytes.buf
      requires Valid()
    {
      forall k :: 0 <= k < |Chars()| ==> Chars()[k] != 0
    }

    /** A string with a single null byte is exactly a null-terminated run of
        bytes in the sense of `nstd_core_cstr_is_null_terminated`. */
    lemma OneNullIsNullTerminated()
      requires Valid()
      ensures OneNull() <==> NullTerminated(bytes.Bytes())
    {
      assert forall k :: 0 <= k < |Chars()| ==> bytes.Bytes()[k] == Chars()[k];
    }

    /** A C string over a vector already known to end with a null byte. */
    constructor FromVec(v: Vec)
      requires v.Valid() && v.stride == 1 && v.len >= 1 && v.Bytes()[v.len - 1] == 0
      ensures bytes == v && Valid()
    {
      bytes := v;
    }

    /** `nstd_cstring_new`: an empty C string, holding only its null byte;
        `null` stands for the panic when allocating for the null byte fails. */
    static method New() returns (c: CString?)
      ensures c != null ==> fresh(c) && fresh(c.bytes) && fresh(c.bytes.buf)
      ensures c != null ==> c.Valid() && c.Chars() == [] && c.OneNull()
    {
      var v := new Vec.New(1);
      var e := v.Push([0]);
      if e != ErrorNone {
        return null;
      }
      c := new CString.FromVec(v);
    }

    /** `nstd_cstring_new_with_cap`: an empty C string with room for `cap`
        bytes; `null` stands for the panic when allocating fails. A zero
        capacity is a panic. */
    static method NewWithCap(cap: nat) returns (c: CString?)
      requires cap > 0
      ensures c != null ==> fresh(c) && fresh(c.bytes) && fresh(c.bytes.buf)
      ensures c != null ==> c.Valid() && c.Chars() == [] && c.OneNull() && c.Cap() == cap
    {
      var v := new Vec.NewWithCap(1, cap);
      if v.cap == 0 {
        return null;
      }
      var e := v.Push([0]);
      c := new CString.FromVec(v);
    }

    /** `nstd_cstring_from_cstr_unchecked`: an owned copy of the characters a
        C string view holds, which the caller promises contain no null byte;
        `null` when allocating fails. A view longer than `NSTDInt`'s maximum
        is a panic. */
    static method FromCStrUnchecked(cstr: CStr) returns (c: CString?)
      requires cstr.InBounds() && cstr.len <= INT_MAX
      requires forall k :: 0 <= k < cstr.len ==> cstr.Bytes()[k] != 0
      ensures c != null ==> fresh(c) && fresh(c.bytes) && fresh(c.bytes.buf)
      ensures c != null ==> c.Valid() && c.Chars() == cstr.Bytes() && c.OneNull()
    {
      var v := new Vec.NewWithCap(1, cstr.len + 1);
      if v.cap == 0 {
        return null;
      }
      var chars := Slice(cstr.ptr, 1, cstr.len);
      assert chars.Bytes() == cstr.Bytes();
      var e := v.Extend(chars);
      assert v.Bytes() == cstr.Bytes();
      e := v.Push([0]);
      assert v.Bytes() == cstr.Bytes() + [0];
      c := new CString.FromVec(v);
    }

    /** `nstd_cstring_from_cstr`: as `FromCStrUnchecked`, but `null` when the
        view contains a null byte. */
    static method FromCStr(cstr: CStr) returns (c: CString?)
      requires cstr.InBounds() && cstr.len <= INT_MAX
      ensures cstr.GetNull().Some? ==> c == null
      ensures c != null ==> fresh(c) && fresh(c.bytes) && fresh(c.bytes.buf)
      ensures c != null ==> c.Valid() && c.Chars() == cstr.Bytes() && c.OneNull()
    {
      if cstr.GetNull().Some? {
        return null;
      }
      c := FromCStrUnchecked(cstr);
    }

    /** `nstd_cstring_from_bytes`: takes ownership of `bytes` when its last
        byte is a null byte, `null` otherwise (an empty vector included). A
        stride other than 1 is a panic. Null bytes before the last one are
        not rejected. */
    static method FromBytes(bytes: Vec) returns (c: CString?)
      requires bytes.Valid() && bytes.stride == 1
      ensures c != null <==> bytes.len >= 1 && bytes.Bytes()[bytes.len - 1] == 0
      ensures c != null ==> fresh(c) && c.bytes == bytes && c.Valid()
    {
      if bytes.len == 0 || bytes.buf[bytes.len - 1] != 0 {
        return null;
      }
      c := new CString.FromVec(bytes);
    }

    /** `nstd_cstring_clone`: a deep copy; `null` when allocating fails. */
    method Clone() returns (c: CString?)
      requires Valid()
      ensures c != null ==> fresh(c) && fresh(c.bytes) && fresh(c.bytes.buf)
      ensures c != null ==> c.Valid() && c.Chars() == Chars()
    {
      var v := bytes.Clone();
      if v == null {
        return null;
      }
      c := new CString.FromVec(v);
    }

    /** `nstd_cstring_as_bytes`: a byte slice of the active data, null byte
        included. */
    function AsBytes(): (s: Slice)
      reads this, bytes, bytes.buf
      requires Valid()
      ensures s.stride == 1 && s.len == LenWithNull() && s.InBounds()
      ensures s.Bytes() == Chars() + [0]
    {
      bytes.AsSlice()
    }

    /** `nstd_cstring_as_ptr`: the address of the characters. */
    function AsPtr(): (p: Ptr)
      reads this, bytes, bytes.buf
      requires Valid()
      ensures p.buf == bytes.buf && p.ValidFor(LenWithNull())
      ensures p.Read(LenWithNull()) == Chars() + [0]
    {
      Ptr(bytes.buf, 0)
    }

    /** With a single null byte, the address handed out is a raw C string
        whose characters are the string's. */
    lemma AsPtrIsRawCStr()
      requires Valid() && OneNull()
      ensures Terminated(AsPtr()) && Content(AsPtr()) == Chars()
    {
      TerminatedAt(AsPtr(), Chars());
    }

    /** `nstd_cstring_len`: the number of characters, null byte excluded. */
    function Len(): (n: nat)
      reads this, bytes, bytes.buf
      requires Valid()
      ensures n == |Chars()|
    {
      bytes.len - 1
    }

    /** `nstd_cstring_len_with_null`: the number of characters counting the
        null byte, one more than `Len`. */
    function LenWithNull(): (n: nat)
      reads this, bytes, bytes.buf
      requires Valid()
      ensures n == Len() + 1 && n == bytes.len
    {
      bytes.len
    }

    /** `nstd_cstring_cap`: the number of bytes the buffer has room for. */
    function Cap(): (n: nat)
      reads this, bytes, bytes.buf
      requires Valid()
      ensures n == bytes.cap && n >= LenWithNull()
    {
      bytes.cap
    }

    /** `nstd_cstring_push`: appends `chr` before the null byte; a null `chr`
        has no effect. `aborted` stands for the panic when the buffer cannot
        grow, which leaves the bytes unchanged. */
    method Push(chr: Byte) returns (aborted: bool)
      requires Valid()
      modifies bytes, bytes.buf
      ensures Valid()
      ensures chr == 0 ==> !aborted && Chars() == old(Chars())
      ensures aborted ==> Chars() == old(Chars())
      ensures chr != 0 && !aborted ==> Chars() == old(Chars()) + [chr]
      ensures old(OneNull()) ==> OneNull()
      ensures old(bytes.len) < old(bytes.cap) ==> !aborted
    {
      if chr == 0 {
        return false;
      }
      ghost var before := Chars();
      var e := bytes.Push([0]);
      if e != ErrorNone {
        return true;
      }
      e := bytes.WriteAt(bytes.len - 2, [chr]);
      assert bytes.Bytes() == before + [chr, 0];
      aborted := false;
    }

    /** `nstd_cstring_push_cstr`: appends the characters of a view before the
        null byte and returns the allocation's error code; on an error nothing
        changes. A view containing a null byte, or a resulting length past
        `NSTDInt`'s maximum, is a panic; `aborted` stands for the panic when
        the null byte cannot be appended again. */
    method PushCStr(cstr: CStr) returns (errc: AllocError, aborted: bool)
      requires Valid() && cstr.InBounds()
      requires forall k :: 0 <= k < cstr.len ==> cstr.Bytes()[k] != 0
      requires LenWithNull() + cstr.len <= INT_MAX
      modifies bytes, bytes.buf
      ensures !aborted ==> Valid()
      ensures errc != ErrorNone ==> !aborted && Chars() == old(Chars())
      ensures errc == ErrorNone && !aborted ==> Chars() == old(Chars()) + old(cstr.Bytes())
      ensures !aborted && old(OneNull()) ==> OneNull()
    {
      ghost var before := Chars();
      ghost var added := cstr.Bytes();
      bytes.Truncate(bytes.len - 1);
      assert bytes.Bytes() == before;
      errc := bytes.Extend(Slice(cstr.ptr, 1, cstr.len));
      var e := bytes.Push([0]);
      aborted := e != ErrorNone;
    }

    /** `nstd_cstring_pop`: removes the last character and returns it; the
        null character, with nothing changed, when there is none. */
    method Pop() returns (chr: Byte)
      requires Valid()
      modifies bytes, bytes.buf
      ensures Valid() && bytes.buf == old(bytes.buf) && bytes.cap == old(bytes.cap)
      ensures old(Len()) == 0 ==> chr == 0 && Chars() == old(Chars())
      ensures old(Len()) > 0 ==> Chars() + [chr] == old(Chars())
      ensures old(OneNull()) ==> OneNull()
    {
      if bytes.len == 1 {
        return 0;
      }
      ghost var before := Chars();
      chr := bytes.buf[bytes.len - 2];
      var e := bytes.WriteAt(bytes.len - 2, [0]);
      bytes.Truncate(bytes.len - 1);
      assert Chars() == before[..|before| - 1];
    }

    /** `nstd_cstring_clear`: removes every character, keeping the null byte
        and the capacity. */
    method Clear()
      requires Valid()
      modifies bytes, bytes.buf
      ensures Valid() && Chars() == [] && OneNull()
      ensures bytes.buf == old(bytes.buf) && bytes.cap == old(bytes.cap)
    {
      var e := bytes.WriteAt(0, [0]);
      bytes.Truncate(1);
    }

    /** `nstd_cstring_free`: releases the buffer; the null byte goes with it. */
    method Free()
      requires Valid()
      modifies bytes
      ensures bytes.Valid() && bytes.len == 0 && bytes.cap == 0
    {
      bytes.Free();
    }
  }
}
