# nstd core, modelled in Dafny

This project models the memory layer of `nstd`, a C-compatible standard library
written in Rust, together with the byte, string and integer utilities it is built
on. Every operation below is modelled on a 64-bit target: `NSTDInt` and `NSTDUInt`
are 64 bits wide, and `usize` takes 8 bytes.

Memory is a set of byte arrays (`array<Byte>`). A pointer is an array plus an
offset (`Base.Ptr`), and a null pointer is `None`.

The modules are:

- **`Vectors`** models `NSTDVec`, a class with a buffer, a stride, a length and a
  capacity. Every operation that changes it is a method that updates those
  fields. Its contracts state the new active bytes in terms of the old ones.
  `Values` views the same bytes value by value.
- **`Strings`** models `NSTDString`, a stride-1 vector whose bytes stay valid
  UTF-8 as RFC 3629 defines it (`Utf8`). Its characters are the decoding of those
  bytes. `push` appends an encoding and `pop` removes the last one.
- **`SharedPtrs`** models `NSTDSharedPtr`: one allocation holding the shared
  object followed by a word-sized count, stored as little-endian bytes. A ghost
  counter on the allocation records how often it was released.
- **`CStrs`, `RawCStrs` and `CStrings`** cover C strings:
  - `CStrs` is the `NSTDCStr` view.
  - `RawCStrs` holds the raw null-terminated scans and copies, specified by the
    first null byte of the memory after the pointer.
  - `CStrings` is the owned `NSTDCString`, whose vector always ends with a null
    byte.
- **`Slices`, `Strs` and `Mem`** are the bounds-checked views and the in-place
  buffer operations.
- **`Layouts`** checks memory layouts.
- **`IntTypes`, `IntMath` and `Ops`** model the fixed-width integer types and
  their arithmetic. A result that does not fit its type is a panic in the
  library, and a precondition here.

Two rules apply throughout:

- A panic the caller can avoid (a bad argument, an overflow) is a precondition.
- An allocation failure the caller cannot avoid follows the library:
  - a returned error code where the library returns one;
  - `null`, `None` or an `aborted` flag where the library panics.

Allocation itself (`Base.Allocate`) succeeds or fails nondeterministically.

## Model

| member | source | states |
|---|---|---|
| Vectors.Vec.New | include/nstd/vec.h:20-33 | an element size of 0 is excluded; the new vector has that stride, length 0 and capacity 0 |
| Vectors.Vec.NewWithCap | include/nstd/vec.h:35-58 | a vector of length 0 with exactly `cap` free slots, or no capacity at all when allocation fails |
| Vectors.Vec.Clone | include/nstd/vec.h:60-73 | a fresh vector with the same stride, length and active bytes, whose capacity equals its length; null when allocation fails |
| Vectors.Vec.AsSlice | include/nstd/vec.h:110-119 | the slice views exactly the active bytes, with the vector's stride and length |
| Vectors.Vec.Get | include/nstd/vec.h:154-171 | a pointer exists exactly when `pos < len`, and it reads the value stored at `pos * stride` |
| Vectors.Vec.Push | include/nstd/vec.h:192-213 | on success one value is appended and the earlier bytes are unchanged; on failure nothing changes; with spare capacity it cannot fail |
| Vectors.Vec.Pop | include/nstd/vec.h:215-234 | null and no change on an empty vector; otherwise the length drops by one and the pointer reads the old last value |
| Vectors.Vec.Insert | include/nstd/vec.h:236-268 | 1 with no change exactly when `index > len`, and 2 with no change when growing fails (length, bytes, buffer and capacity all kept); otherwise `value` is inserted at `index` and later values shift up |
| Vectors.ValuesInsert | include/nstd/vec.h:236-268 | seen value by value, the bytes after an insertion are the old values with `value` placed at `index` |
| Vectors.Vec.Remove | include/nstd/vec.h:270-281 | nonzero with no change exactly when `index >= len`; otherwise that value's bytes are removed and the rest keep their order |
| Vectors.ValuesRemove | include/nstd/vec.h:270-281 | seen value by value, a removal deletes exactly the value at `index` |
| Vectors.Vec.Extend | include/nstd/vec.h:283-302 | strides must match; on success the slice's bytes are appended in order; on failure nothing changes |
| Vectors.Vec.Truncate | include/nstd/vec.h:304-315 | no change when `len <= n`; otherwise the first `n` values are kept; the capacity and buffer stay the same |
| Vectors.Vec.Reserve | include/nstd/vec.h:317-333 | on success the capacity is at least `len + size` and the active bytes are kept; on failure nothing changes |
| Vectors.Vec.Shrink | include/nstd/vec.h:335-344 | the active bytes are kept, and on success the capacity equals the length |
| Vectors.Vec.Free | include/nstd/vec.h:346-355 | the buffer is released, leaving length and capacity 0 |
| Strings.String.New | src/string.rs:23-34 | an empty string over a stride-1 vector |
| Strings.String.NewWithCap | src/string.rs:36-55 | an empty string over a stride-1 vector with room for `cap` bytes |
| Strings.String.Clone | src/string.rs:57-76 | a fresh string with the same bytes and so the same characters; null stands for the allocation panic |
| Strings.String.AsStr | src/string.rs:78-93 | the view holds the string's bytes, which are valid UTF-8 and decode to its characters |
| Strings.String.AsBytes | src/string.rs:95-112 | a stride-1 slice of exactly the string's bytes |
| Strings.String.Push | src/string.rs:114-135 | a value that is not a Unicode scalar gives 1 and no change; on success the bytes gain its UTF-8 encoding and the characters gain it |
| Strings.PushSpec | src/string.rs:127-135 | appending an encoding keeps the bytes valid UTF-8 and adds exactly that character |
| Strings.String.PushStr | src/string.rs:137-152 | on success the view's bytes are appended verbatim, so its characters follow the old ones |
| Strings.String.Pop | src/string.rs:154-174 | U+FFFD and no change when empty; otherwise the last character is returned and removed |
| Strings.PopSpec | src/string.rs:165-174 | the bytes left are valid UTF-8, and they plus the encoding of the returned scalar give back the old bytes |
| Strings.PushPop | src/string.rs:114-174 | popping right after pushing `c` returns `c` and restores the bytes |
| Strings.PushThenPop | src/string.rs:114-174 | pushing `c1..cn` then popping `n` times returns `cn..c1` and restores the original bytes |
| Strings.String.Free | src/string.rs:176-185 | the bytes become empty with no capacity |
| Utf8.DecodeEncodeAll | src/string.rs:127-135 | any run of scalars encodes to valid UTF-8 that decodes back to the same scalars (RFC 3629, section 3) |
| Utf8.EncodeAllDecode | src/string.rs:89-92 | valid UTF-8 is exactly the encoding of what it decodes to |
| Utf8.ValidIffEncoding | src/string.rs:89-92 | a byte sequence is valid UTF-8 if and only if it encodes some run of scalars |
| Utf8.EncodeDecodeFirst | src/string.rs:165-171 | a decoded leading character spans exactly its own encoding |
| Strs.FromBytes | include/nstd/core/str.h:48-61 | requires stride 1 and valid UTF-8 (otherwise a panic); the view holds exactly the slice's bytes |
| Strs.Str.Len | include/nstd/core/str.h:105-123 | the number of scalars the bytes decode to, which is at most the byte length |
| Strs.CountLeadingDecode | include/nstd/core/str.h:105-123 | counting the bytes that start a character gives the number of decoded scalars |
| Strs.Str.ByteLen | include/nstd/core/str.h:125-134 | the number of bytes viewed |
| Strs.Str.GetChar | include/nstd/core/str.h:136-156 | the `pos`-th decoded scalar, counted in characters; U+FFFD past the end |
| Strs.CharAtDecode | include/nstd/core/str.h:136-156 | the scan by leading bytes agrees with the decoded characters at every position |
| Strs.Str.Substr | include/nstd/core/str.h:158-184 | the panics (`end` past the length, `start > end`, invalid UTF-8) are excluded; the result views bytes `[start, end)` of the same buffer |
| SharedPtrs.SharedPtr.CountOffset | src/shared_ptr.rs:19-23 | the count starts at the object size and takes the last word of the allocation |
| SharedPtrs.DecodeEncodeWord | src/shared_ptr.rs:19-23 | a count stored in a word reads back unchanged |
| SharedPtrs.NewZeroed | src/shared_ptr.rs:26-55 | one allocation of `element_size` plus a word, an all-zero object and a count of 1; `None` stands for the allocation panic |
| SharedPtrs.Share | src/shared_ptr.rs:57-78 | the count rises by exactly one; the copy is the same descriptor; the object is unchanged |
| SharedPtrs.SharedPtr.ObjectSize | src/shared_ptr.rs:80-93 | the total size less the word taken by the count |
| SharedPtrs.SharedPtr.GetConst | src/shared_ptr.rs:95-112 | the start of the allocation, covering the whole object |
| SharedPtrs.Free | src/shared_ptr.rs:114-131 | the count drops by one and the allocation is released exactly when it reaches 0 |
| SharedPtrs.ShareThenFreeAll | src/shared_ptr.rs:57-131 | after `n` shares and `n + 1` frees the allocation has been released exactly once |
| RawCStrs.RawLen | src/core/cstr/raw.rs:29-37 | the index of the first null byte after the pointer |
| RawCStrs.RawLenExample | src/core/cstr/raw.rs:4-28 | `"Hello, world!\0"` has its first null at 13 |
| RawCStrs.RawLenWithNull | src/core/cstr/raw.rs:72-74 | one more than `RawLen`; the bytes it covers are the characters followed by the null byte |
| RawCStrs.RawCompare | src/core/cstr/raw.rs:104-122 | true exactly when both strings have the same characters up to their null bytes |
| RawCStrs.RawCopy | src/core/cstr/raw.rs:155-164 | `dest` receives the characters without the null byte; nothing else in its buffer changes |
| RawCStrs.RawCopyWithNull | src/core/cstr/raw.rs:198-209 | `dest` receives the characters and the null byte, and becomes a C string with the same characters |
| CStrs.New | include/nstd/core/cstr/cstr.h:15-26 | the view keeps the pointer and the length it was given |
| CStrs.CStr.Len | include/nstd/core/cstr/cstr.h:82-91 | the stored length |
| CStrs.CStr.IsNullTerminated | include/nstd/core/cstr/cstr.h:93-132 | true if and only if the last byte is null and no earlier byte is |
| CStrs.NoNullExample | include/nstd/core/cstr/cstr.h:117-130 | `"Hello, world!"` without a null byte is not null-terminated |
| CStrs.TrailingNullExample | include/nstd/core/cstr/cstr.h:117-130 | `"Hello, world!\0"` is null-terminated |
| CStrs.MiddleNullExample | include/nstd/core/cstr/cstr.h:117-130 | `"Hello, \0world!"` is not null-terminated |
| CStrs.CStr.GetNull | include/nstd/core/cstr/cstr.h:134-148 | null exactly when no byte is 0; otherwise a pointer to the first null byte |
| CStrs.CStr.Get | include/nstd/core/cstr/cstr.h:150-161 | a pointer to the character at `pos` exactly when `pos < len` |
| CStrings.CString.Chars | include/nstd/cstring.h:10-16 | the vector's bytes are the characters followed by a null byte |
| CStrings.CString.OneNullIsNullTerminated | include/nstd/cstring.h:10-16 | with no interior null, the bytes are null-terminated in the sense of `is_null_terminated` |
| CStrings.CString.New | include/nstd/cstring.h:21-30 | an empty C string holding only its null byte |
| CStrings.CString.NewWithCap | include/nstd/cstring.h:32-45 | an empty C string whose capacity is `cap`; a zero capacity is excluded |
| CStrings.CString.FromCStr | include/nstd/cstring.h:47-65 | null when the view contains a null byte; otherwise a copy of its characters |
| CStrings.CString.FromCStrUnchecked | include/nstd/cstring.h:67-90 | a copy of the view's characters followed by one null byte |
| CStrings.CString.FromBytes | include/nstd/cstring.h:92-110 | a C string exactly when the vector is not empty and ends with a null byte |
| CStrings.CString.Clone | include/nstd/cstring.h:112-122 | a fresh C string with the same characters |
| CStrings.CString.AsBytes | include/nstd/cstring.h:135-144 | a stride-1 slice of the characters and the null byte |
| CStrings.CString.AsPtr | include/nstd/cstring.h:146-155 | a pointer to the start of the vector's buffer, from which the characters and then the null byte can be read |
| CStrings.CString.AsPtrIsRawCStr | include/nstd/cstring.h:146-155 | the address handed out is a raw C string whose characters are the string's |
| CStrings.CString.Len | include/nstd/cstring.h:168-177 | the number of characters, without the null byte |
| CStrings.CString.LenWithNull | include/nstd/cstring.h:179-188 | `Len() + 1` |
| CStrings.CString.Cap | include/nstd/cstring.h:190-201 | the vector's capacity, never below the length with the null byte |
| CStrings.CString.Push | include/nstd/cstring.h:203-216 | a null `chr` changes nothing; any other is appended before the null byte |
| CStrings.CString.PushCStr | include/nstd/cstring.h:218-245 | an input with a null byte is excluded; on success its characters are appended; on an error nothing changes |
| CStrings.CString.Pop | include/nstd/cstring.h:247-260 | 0 and no change when empty; otherwise the last character is returned and removed |
| CStrings.CString.Clear | include/nstd/cstring.h:262-267 | no characters remain; the null byte and the capacity stay |
| CStrings.CString.Free | include/nstd/cstring.h:269-274 | the vector is released |
| Slices.Slice.Get | include/nstd/core/slice.h:69-85 | a pointer exactly when `pos < len`, into the same buffer at offset `pos * stride` past the slice's start, with room for one value; requires `len * stride` within `NSTDInt` |
| Slices.GetReadsElement | include/nstd/core/slice.h:69-85 | the pointer `Get` returns reads the `pos`-th value of the viewed bytes |
| Slices.Slice.First | include/nstd/core/slice.h:87-97 | null exactly when the slice is empty, else its start |
| Slices.Slice.Last | include/nstd/core/slice.h:99-113 | null exactly when empty, else the last value's address; requires `len * stride` within `NSTDInt` |
| Slices.FirstLastAreGet | include/nstd/core/slice.h:87-113 | `first` is `get(0)` and `last` is `get(len - 1)` |
| Slices.SliceMut.AsConst | include/nstd/core/slice.h:144-153 | the same pointer, length and stride |
| Slices.MutCopy | include/nstd/core/slice.h:291-312 | 1 when the lengths differ, 2 when only the strides differ, both with no change; otherwise 0 and `dest` holds `src`'s bytes |
| Mem.Compare | include/nstd/core/mem.h:6-29 | true exactly when the first `num` bytes agree; false when `num` exceeds `NSTDInt`'s maximum |
| Mem.Search | include/nstd/core/mem.h:31-50 | a pointer to the first `delim` in the range, or null when there is none |
| Mem.Zero | include/nstd/core/mem.h:52-64 | exactly `size` bytes become 0 and nothing else changes |
| Mem.Fill | include/nstd/core/mem.h:66-80 | exactly `size` bytes become `fill` and nothing else changes |
| Mem.IndexOfRepeat | include/nstd/core/mem.h:31-80 | after a fill, searching finds the fill byte at once and nothing else |
| Mem.Copy | include/nstd/core/mem.h:82-97 | for ranges that do not overlap, `dest` receives the old `src` bytes, after which the two compare equal |
| Mem.CopyOverlapping | include/nstd/core/mem.h:99-115 | the same result when the ranges overlap |
| Mem.Swap | include/nstd/core/mem.h:117-132 | the two ranges exchange their bytes and nothing else changes |
| Mem.SwapTwice | include/nstd/core/mem.h:117-132 | swapping the same ranges twice gives back both buffers |
| Layouts.LayoutNew | include/nstd/core/alloc.h:17-29 | a layout exactly when `size` is at most `NSTDInt`'s maximum and `align` is a power of two |
| Layouts.LayoutNewUnchecked | include/nstd/core/alloc.h:31-48 | under those conditions, the same layout `layout_new` gives |
| Layouts.LayoutArray | include/nstd/core/alloc.h:50-66 | a layout of `size * len` bytes exactly when `align` is a power of two, `size` is a multiple of it, and the product fits `NSTDInt` |
| Layouts.LayoutArrayUnchecked | include/nstd/core/alloc.h:68-94 | a zero `align` (a panic) and the unsafe cases are excluded; the same layout `layout_array` gives |
| Layouts.ArrayOfOne | include/nstd/core/alloc.h:17-66 | an array of one element has the element's own layout, unless its size is not a multiple of its alignment |
| Layouts.Size | include/nstd/core/alloc.h:96-105 | the layout's size, the one it was made with (see `AccessorsRoundTrip`) |
| Layouts.Align | include/nstd/core/alloc.h:107-116 | the layout's alignment, the one it was made with (see `AccessorsRoundTrip`) |
| Layouts.AccessorsRoundTrip | include/nstd/core/alloc.h:96-116 | `size` and `align` give back what a layout was made from, and rebuild it |
| Layouts.PowerOfTwoIsPow2 | include/nstd/core/alloc.h:17-29 | every power of two accepted as an alignment is `2^k` |
| IntMath.Abs | include/nstd/core/math.h:47-64 | the magnitude of `x`, non-negative and within the type |
| IntMath.AbsExamples | include/nstd/core/math.h:56-63 | `abs(10) == 10` and `abs(-10) == 10` |
| IntMath.Pow | include/nstd/core/math.h:139-157 | `x` raised to `exp`, computed by squaring, equals the product by definition |
| IntMath.PowExamples | include/nstd/core/math.h:148-156 | `pow(2, 3) == 8` and `pow(4, 5) == 1024` |
| IntMath.Clamp | include/nstd/core/math.h:383-404 | `min > max` is excluded; the result lies in `[min, max]`, is `x` when `x` is inside, else the nearer bound |
| IntMath.ClampIdempotent | include/nstd/core/math.h:383-404 | clamping twice is clamping once, and `x` is its own clamp exactly when it lies within the bounds |
| IntMath.DivCeil | include/nstd/core/math.h:604-623 | the quotient rounded up, which fits the type |
| IntMath.DivFloor | include/nstd/core/math.h:805-824 | the quotient rounded down, which fits the type |
| IntMath.FloorUnique | include/nstd/core/math.h:805-824 | rounding down has exactly one answer |
| IntMath.CeilUnique | include/nstd/core/math.h:604-623 | rounding up has exactly one answer |
| IntMath.FloorCeil | include/nstd/core/math.h:604-824 | the two roundings agree exactly when `y` divides `x`, and otherwise differ by one |
| Ops.Cell.Inc | src/core/ops.rs:13-24 | the maximum (an overflow panic) is excluded; the value rises by exactly one in place |
| Ops.Cell.Dec | src/core/ops.rs:56-67 | the minimum is excluded; the value falls by exactly one in place |
| Ops.IncThenDec | src/core/ops.rs:13-67 | an increment then a decrement restore the value |
| Ops.Neg | src/core/ops.rs:100-115 | signed types only; the minimum is excluded; `r + x == 0` |
| Ops.NegInvolution | src/core/ops.rs:100-115 | negating twice gives back `x`, and negating is subtracting from 0 |
| Ops.Add | src/core/ops.rs:127-146 | a sum that does not fit the type (an overflow panic) is excluded; otherwise the exact sum, within the type; `Sub` undoes it (`AddSubInverse`) |
| Ops.Sub | src/core/ops.rs:161-180 | a difference that does not fit is excluded; otherwise the exact difference, within the type; `Add` undoes it (`AddSubInverse`) |
| Ops.Mul | src/core/ops.rs:195-214 | a product that does not fit is excluded; otherwise the exact product, within the type; `Div` undoes it (`MulDivInverse`) |
| Ops.AddSubInverse | src/core/ops.rs:127-178 | under the no-overflow preconditions, subtraction undoes addition and addition undoes subtraction |
| Ops.Div | src/core/ops.rs:229-246 | a zero divisor and `MIN / -1` are excluded; the quotient rounded toward zero, within the type |
| Ops.DivIsFloorOrCeil | src/core/ops.rs:229-246 | division rounds down when the exact quotient is not negative and up when it is |
| Ops.Rem | src/core/ops.rs:263-280 | `(x / y) * y + x % y == x`, the remainder is smaller than `y` in magnitude, and it takes `x`'s sign |
| Ops.MulDivInverse | src/core/ops.rs:195-246 | dividing a product by one factor gives the other, with remainder 0 |
| Ops.Shl | src/core/ops.rs:297-314 | a shift of the width or more is excluded; the result lies in the type and differs from `x * 2^y` by a multiple of `2^bits` (the low bits are kept), and is exactly `x * 2^y` when that fits |
| Ops.ShlExample | src/core/ops.rs:297-314 | shifting 1 left by 7 in an 8-bit signed type gives -128 |
| Ops.Shr | src/core/ops.rs:329-346 | a shift of the width or more is excluded; the result is `x / 2^y` rounded down (an arithmetic shift) |
| Ops.ShlShrInverse | src/core/ops.rs:297-346 | shifting left without losing bits, then right by the same amount, gives back `x` |

## Left out

- Allocators are not modelled: `malloc`, `realloc` and the platform heaps. Allocation succeeds or fails nondeterministically.
- The x86 assembly path of `nstd_core_cstr_raw_len` cannot be modelled, so the model follows the portable loop.
- Floating-point variants (the float `ops`, `clamp_f32`/`clamp_f64`, degree/radian conversion) are left out.
- The mutable twins (`nstd_vec_get_mut`, `nstd_core_slice_mut_get`/`first`/`last`, `nstd_core_cstr_mut_*`, `NSTDStrMut`) are not separate members. They compute the same addresses as the `const` versions.
- The plain field accessors (`nstd_vec_len`/`cap`/`stride`, `nstd_core_slice_len`/`stride`/`as_ptr`, `nstd_vec_as_ptr`) are read as the fields of the model.
- The string parsers (`to_int`, `to_f32`, ...) and `str_from_cstr` are left out. The first delegate to the host language's parsing; the second is a thin wrapper over `from_bytes`.
- `nstd_cstring_as_cstr` and `nstd_cstring_into_bytes` are left out. The header does not say whether the view includes the null byte, and `into_bytes` only hands the vector back.
- The shared pointer's count is not atomic, and the model is single-threaded. Concurrency is not modelled.
- Vectors.Vec.Push: the growth policy (doubling) and the choice of `OutOfMemory` as the failure code are the model's. `vec.h` shows only the contract.
- Vectors.Vec.Extend: the source bytes are read before the buffer grows, so an overlapping source is not treated as undefined behaviour.
- Slices.MutCopy: all of `src` is read before `dest` is written, so an overlapping source is not treated as undefined behaviour.
- RawCStrs.RawCopy: requires `dest` and `src` in different buffers. Overlapping copies are not modelled.
- RawCStrs.RawCopyWithNull: requires `dest` and `src` in different buffers. Overlapping copies are not modelled.
- Mem.Swap: requires the two ranges in different buffers. Overlapping swaps are not modelled.
- CStrings.CString.FromBytes: accepts interior null bytes, as the header documents. The single-null invariant (`OneNull`) is established only by the other constructors.
- CStrings.CString.PushCStr: the panic when the null byte cannot be appended again is the `aborted` flag.
- CStrings.CString.Push: the panic when growing fails is the `aborted` flag.
- SharedPtrs.NewZeroed: `src/shared_ptr.rs:44-45` panics when allocation fails; `None` stands for that panic. `include/nstd/shared_ptr.h` instead documents an optional result; the model follows the Rust body.
- Strings.String.PushStr: follows `src/string.rs`, which returns an error code. `include/nstd/string.h` declares an `NSTDAllocError` result instead.
- IntMath.Abs: requires `x != MIN`. The header does not say what happens at the minimum, whose magnitude does not fit.
- IntMath.Pow: overflow is a precondition rather than a panic.
- IntMath.DivCeil: excludes `MIN / -1` as an overflow, beyond the documented panic for `y == 0`.
- IntMath.DivFloor: excludes `MIN / -1` as an overflow, beyond the documented panic for `y == 0`.
- Ops.Shl: the shift amount is an integer from 0 to the width minus 1. `src/core/ops.rs` types it as the operand's type, while `include/nstd/core/ops.h` declares `NSTDUInt32`.
- Ops.Shr: the shift amount is an integer from 0 to the width minus 1. `src/core/ops.rs` types it as the operand's type, while `include/nstd/core/ops.h` declares `NSTDUInt32`.
- Ops.Add, Ops.Sub and Ops.Mul: overflow is a precondition. The library panics there, and the model does not wrap.
- Integer overflow of lengths and sizes in the vector, C string and shared pointer code is a precondition.
