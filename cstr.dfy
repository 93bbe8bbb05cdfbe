/** `NSTDCStr`: an unowned view of `len` C characters (bytes) starting at a
    pointer, together with the scans that look for null bytes in it. */
module CStrs {
  import opened Base
  import opened Mem

  /** The position of the first zero byte of `bs`, if any: the search for
      the null delimiter. */
  function FirstNull(bs: seq<Byte>): (r: Option<nat>)
    ensures r.Some? ==> r.value < |bs| && bs[r.value] == 0
                        && forall k :: 0 <= k < r.value ==> bs[k] != 0
    ensures r.None? <==> forall k :: 0 <= k < |bs| ==> bs[k] != 0
  {
    IndexOf(bs, 0)
  }

  /** The scan of `nstd_core_cstr_is_null_terminated`: the bytes end at their
      first zero byte. */
  function NullTerminated(bs: seq<Byte>): (b: bool)
    ensures b <==> |bs| > 0 && bs[|bs| - 1] == 0
                   && forall k :: 0 <= k < |bs| - 1 ==> bs[k] != 0
  {
    if bs == [] then false
    else if bs[0] == 0 then |bs| == 1
    else NullTerminated(bs[1..])
  }

  /** Null termination is the first null byte being the last byte. */
  lemma NullTerminatedFirstNull(bs: seq<Byte>)
    ensures NullTerminated(bs) <==> FirstNull(bs) == Some(|bs| - 1)
  {
  }

  datatype CStr = CStr(ptr: Ptr, len: nat)
  {
    predicate InBounds() {
      ptr.ValidFor(len)
    }

    /** The viewed characters. */
    function Bytes(): (bs: seq<Byte>)
      reads ptr.buf
      requires InBounds()
      ensures |bs| == len
    {
      ptr.Read(len)
    }

    /** `nstd_core_cstr_len`: the length the view was created with. */
    function Len(): (n: nat)
      ensures n == len
    {
      len
    }

    /** `nstd_core_cstr_is_null_terminated`: true exactly when the last
        character is the only null byte of the view. */
    function IsNullTerminated(): (b: bool)
      reads ptr.buf
      requires InBounds()
      ensures b <==> len > 0 && Bytes()[len - 1] == 0
                     && forall k :: 0 <= k < len - 1 ==> Bytes()[k] != 0
    {
      NullTerminated(Bytes())
    }

    /** `nstd_core_cstr_get_null`: a pointer to the first null byte, or null
        if the view has none. */
    function GetNull(): (r: Option<Ptr>)
      reads ptr.buf
      requires InBounds()
      ensures r.None? <==> forall k :: 0 <= k < len ==> Bytes()[k] != 0
      ensures r.Some? ==> r.value.buf == ptr.buf && ptr.offset <= r.value.offset < ptr.offset + len
                          && ptr.buf[r.value.offset] == 0
                          && forall k :: ptr.offset <= k < r.value.offset ==> ptr.buf[k] != 0
    {
      match FirstNull(Bytes())
      case None => None
      case Some(i) => Some(ptr.Add(i))
    }

    /** `nstd_core_cstr_get`: a pointer to the character at `pos`, or null
        when `pos` is outside the view. */
    function Get(pos: nat): (r: Option<Ptr>)
      ensures r.Some? <==> pos < len
      ensures r.Some? ==> r.value.buf == ptr.buf && r.value.offset == ptr.offset + pos
    {
      if pos < len then Some(ptr.Add(pos)) else None
    }
  }

  /** `nstd_core_cstr_new`: a view of `len` characters at `raw`. */
  function New(raw: Ptr, len: nat): (c: CStr)
    ensures c.ptr == raw && c.Len() == len
  {
    CStr(raw, len)
  }

  /** The bytes of an ASCII text. */
  function Ascii(s: string): (bs: seq<Byte>)
    requires forall k :: 0 <= k < |s| ==> s[k] < 128 as char
    ensures |bs| == |s| && forall k :: 0 <= k < |s| ==> bs[k] == s[k] as int
  {
    if s == [] then [] else [s[0] as int] + Ascii(s[1..])
  }

  /** An ASCII text is null-terminated as bytes exactly when it is as text. */
  lemma AsciiNullTerminated(s: string)
    requires forall k :: 0 <= k < |s| ==> s[k] < 128 as char
    ensures NullTerminated(Ascii(s)) <==>
      |s| > 0 && s[|s| - 1] == '\0' && forall k :: 0 <= k < |s| - 1 ==> s[k] != '\0'
  {
  }

  /** `nstd_core_cstr_is_null_terminated`'s documented examples: a text with
      no null byte is not null-terminated. */
  lemma NoNullExample(none: string)
    requires none == "Hello, world!"
    ensures !NullTerminated(Ascii(none))
  {
    AsciiNullTerminated(none);
    assert none[|none| - 1] == '!';
  }

  /** A text whose only null byte is its last is null-terminated. */
  lemma TrailingNullExample(end: string)
    requires end == "Hello, world!\0"
    ensures NullTerminated(Ascii(end))
  {
    AsciiNullTerminated(end);
    assert end[|end| - 1] == '\0';
    assert forall k :: 0 <= k < |end| - 1 ==> end[k] != '\0';
  }

  /** A text with a null byte in the middle is not null-terminated. */
  lemma MiddleNullExample(middle: string)
    requires middle == "Hello, \0world!"
    ensures !NullTerminated(Ascii(middle))
  {
    AsciiNullTerminated(middle);
    assert middle[7] == '\0';
  }
}
