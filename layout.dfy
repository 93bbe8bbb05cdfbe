/** `NSTDAllocLayout`: the size and alignment of a block of memory, and the
    checks that make a layout valid. */
module Layouts {
  import opened Base
  import opened IntTypes

  /** `n` is a power of two (1, 2, 4, ...). */
  predicate IsPowerOfTwo(n: nat)
  {
    n >= 1 && (n == 1 || (n % 2 == 0 && IsPowerOfTwo(n / 2)))
  }

  /** The base-two logarithm, rounded down, of a positive number. */
  function Log2(n: nat): (k: nat)
    requires n >= 1
    ensures Pow2(k) <= n
  {
    if n == 1 then 0 else 1 + Log2(n / 2)
  }

  /** Every `2^k` is a power of two. */
  lemma {:induction false} Pow2IsPowerOfTwo(k: nat)
    ensures IsPowerOfTwo(Pow2(k))
  {
    if k > 0 {
      Pow2IsPowerOfTwo(k - 1);
      assert Pow2(k) / 2 == Pow2(k - 1);
    }
  }

  /** Every power of two is `2^k`, for `k` its logarithm. */
  lemma {:induction false} PowerOfTwoIsPow2(n: nat)
    requires IsPowerOfTwo(n)
    ensures Pow2(Log2(n)) == n
  {
    if n > 1 {
      PowerOfTwoIsPow2(n / 2);
    }
  }

  /** A layout: `size` bytes aligned to `align`. */
  datatype Layout = Layout(size: nat, align: nat)
  {
    /** What every layout handed out satisfies: the size does not exceed
        `NSTDInt`'s maximum and the alignment is a power of two. */
    predicate Valid() {
      size <= INT_MAX && IsPowerOfTwo(align)
    }
  }

  /** `nstd_core_alloc_layout_new`: a layout for `size` and `align`, none when
      `size` exceeds `NSTDInt`'s maximum or `align` is not a power of two. */
  function LayoutNew(size: nat, align: nat): (r: Option<Layout>)
    requires size <= UINT_MAX && align <= UINT_MAX
    ensures r.Some? <==> size <= INT_MAX && IsPowerOfTwo(align)
    ensures r.Some? ==> r.value.Valid() && r.value.size == size && r.value.align == align
  {
    if size <= INT_MAX && IsPowerOfTwo(align) then Some(Layout(size, align)) else None
  }

  /** `nstd_core_alloc_layout_new_unchecked`: the same layout, for a caller
      that guarantees the two conditions. */
  function LayoutNewUnchecked(size: nat, align: nat): (r: Layout)
    requires size <= INT_MAX && IsPowerOfTwo(align) && align <= UINT_MAX
    ensures r.Valid() && LayoutNew(size, align) == Some(r)
  {
    Layout(size, align)
  }

  /** `nstd_core_alloc_layout_array`: a layout for `len` elements of `size`
      bytes aligned to `align`; none when `align` is not a power of two,
      `size` is not a multiple of `align`, or `size * len` exceeds `NSTDInt`'s
      maximum. */
  function LayoutArray(size: nat, align: nat, len: nat): (r: Option<Layout>)
    requires size <= UINT_MAX && align <= UINT_MAX && len <= UINT_MAX
    ensures r.Some? <==> IsPowerOfTwo(align) && size % align == 0 && size * len <= INT_MAX
    ensures r.Some? ==> r.value.Valid() && r.value.size == size * len && r.value.align == align
  {
    if !IsPowerOfTwo(align) then None
    else if size % align != 0 then None
    else if size * len > INT_MAX then None
    else Some(Layout(size * len, align))
  }

  /** `nstd_core_alloc_layout_array_unchecked`: the same layout, for a caller
      that guarantees the three conditions. A zero `align` is a panic. */
  function LayoutArrayUnchecked(size: nat, align: nat, len: nat): (r: Layout)
    requires size <= UINT_MAX && align <= UINT_MAX && len <= UINT_MAX
    requires align != 0
    requires IsPowerOfTwo(align) && size % align == 0 && size * len <= INT_MAX
    ensures r.Valid() && LayoutArray(size, align, len) == Some(r)
  {
    Layout(size * len, align)
  }

  /** `nstd_core_alloc_layout_size`. */
  function Size(layout: Layout): (n: nat)
    ensures n == layout.size
  {
    layout.size
  }

  /** `nstd_core_alloc_layout_align`. */
  function Align(layout: Layout): (n: nat)
    ensures n == layout.align
  {
    layout.align
  }

  /** The accessors give back what a layout was made from, and the two make
      the layout again. */
  lemma AccessorsRoundTrip(size: nat, align: nat)
    requires size <= UINT_MAX && align <= UINT_MAX
    ensures LayoutNew(size, align).Some? ==>
              Size(LayoutNew(size, align).value) == size
              && Align(LayoutNew(size, align).value) == align
    ensures forall l: Layout :: l.Valid() ==> l.align <= UINT_MAX ==>
              LayoutNew(Size(l), Align(l)) == Some(l)
  {
  }

  /** An array of one element has the layout of the element itself, unless
      the element's size is not a multiple of its alignment. */
  lemma ArrayOfOne(size: nat, align: nat)
    requires size <= UINT_MAX && align <= UINT_MAX
    ensures LayoutArray(size, align, 1)
            == if IsPowerOfTwo(align) && size % align != 0 then None else LayoutNew(size, align)
  {
  }
}
