// The size policy of the cached cell texture (`CachedSrgbTexture2d` in
// `ui/src/gridview/render/textures.rs`): a request for at least w x h texels
// keeps the current texture when it is big enough, and otherwise allocates a
// new one whose sides are the next powers of two. The texture itself is
// represented by whether it exists and by a count of allocations.
module Textures {
  import opened Wrappers
  import opened Numbers

  const U32_MODULUS: nat := 0x1_0000_0000

  type U32 = n: nat | n < U32_MODULUS

  /** `u32::next_power_of_two` as built for release: past 2^31 there is no
      `u32` power of two to return and the result wraps to 0. */
  function NextPowerOfTwo(n: U32): (r: U32)
    ensures r == 0 <==> n > 0x8000_0000
  {
    if n <= 0x8000_0000 then Pow2Of31Covers(n); NextPow2(n) else 0
  }

  lemma {:induction false} Pow2Of31()
    ensures Pow2(31) == 0x8000_0000
  {
    assert Pow2(8) == 256;
    assert Pow2(7) == 128;
    Pow2Add(8, 7);
    assert Pow2(15) == 0x8000;
    Pow2Add(8, 8);
    assert Pow2(16) == 0x1_0000;
    Pow2Add(16, 15);
  }

  lemma {:induction false} Pow2Of31Covers(n: nat)
    requires n <= 0x8000_0000
    ensures NextPow2(n) <= 0x8000_0000
  {
    Pow2Of31();
    NextPow2Spec(n);
  }

  /** Without wrap-around, the result is the least power of two that is at
      least n. */
  lemma {:induction false} NextPowerOfTwoSpec(n: U32, k: nat)
    requires n <= 0x8000_0000
    ensures NextPowerOfTwo(n) >= n && NextPowerOfTwo(n) >= 1
    ensures Pow2(k) >= n ==> NextPowerOfTwo(n) <= Pow2(k)
    ensures NextPowerOfTwo(n) == Pow2(CeilLog2(n))
  {
    NextPow2Spec(n);
  }

  type Size = (U32, U32)

  /** A texture of this size has room for w x h texels. */
  predicate Covers(size: Size, w: U32, h: U32)
  {
    size.0 >= w && size.1 >= h
  }

  /** The size `at_min_size(w, h)` settles on, given the current size. */
  function MinSize(current: Option<Size>, w: U32, h: U32): Size
  {
    if current.Some? && Covers(current.value, w, h) then current.value
    else (NextPowerOfTwo(w), NextPowerOfTwo(h))
  }

  /** The settled size covers the request (unless a side wraps past 2^31); a
      current size that covers is kept; otherwise both sides are recomputed as
      powers of two, even when only one of them was too small. */
  lemma {:induction false} MinSizeSpec(current: Option<Size>, w: U32, h: U32)
    requires w <= 0x8000_0000 && h <= 0x8000_0000
    ensures Covers(MinSize(current, w, h), w, h)
    ensures current.Some? && Covers(current.value, w, h) ==> MinSize(current, w, h) == current.value
    ensures !(current.Some? && Covers(current.value, w, h)) ==>
      MinSize(current, w, h) == (Pow2(CeilLog2(w)), Pow2(CeilLog2(h)))
  {
    NextPowerOfTwoSpec(w, 0);
    NextPowerOfTwoSpec(h, 0);
  }

  /** Asking again for the same size, or for any smaller one, changes
      nothing. */
  lemma {:induction false} MinSizeIdempotent(current: Option<Size>, w: U32, h: U32, w2: U32, h2: U32)
    requires w <= 0x8000_0000 && h <= 0x8000_0000
    requires w2 <= w && h2 <= h
    ensures MinSize(Some(MinSize(current, w, h)), w2, h2) == MinSize(current, w, h)
  {
    MinSizeSpec(current, w, h);
  }

  /** The size changes, and so a new texture is allocated, exactly when the
      current size does not cover the request. */
  lemma {:induction false} ReallocatesIffNotCovered(current: Option<Size>, w: U32, h: U32)
    requires w <= 0x8000_0000 && h <= 0x8000_0000
    ensures current != Some(MinSize(current, w, h)) <==> !(current.Some? && Covers(current.value, w, h))
  {
    MinSizeSpec(current, w, h);
  }

  class CachedTexture {
    /** Whether a texture is allocated (`cached.is_some()`). */
    var hasTexture: bool
    var currentSize: Option<Size>
    /** How many textures have been created; stands for the allocations. */
    var allocations: nat

    ghost predicate Valid()
      reads this
    {
      hasTexture <==> currentSize.Some?
    }

    /** `Default`: no texture and no size. */
    constructor()
      ensures Valid()
      ensures !hasTexture && currentSize == None && allocations == 0
    {
      hasTexture := false;
      currentSize := None;
      allocations := 0;
    }

    /** Reallocates exactly when the requested size differs from the
        current one. */
    method SetSize(w: U32, h: U32)
      requires Valid()
      modifies this
      ensures Valid() && hasTexture
      ensures currentSize == Some((w, h))
      ensures allocations == old(allocations) + (if old(currentSize) == Some((w, h)) then 0 else 1)
    {
      if currentSize != Some((w, h)) {
        hasTexture := true;
        allocations := allocations + 1;
        currentSize := Some((w, h));
      }
    }

    /** Makes sure a texture of at least w x h exists and returns its size. */
    method AtMinSize(w: U32, h: U32) returns (size: Size)
      requires Valid()
      modifies this
      ensures Valid() && hasTexture
      ensures size == MinSize(old(currentSize), w, h) && currentSize == Some(size)
      ensures allocations == old(allocations) + (if old(currentSize) == Some(size) then 0 else 1)
    {
      var realW := NextPowerOfTwo(w);
      var realH := NextPowerOfTwo(h);
      if currentSize.Some? {
        var (currentW, currentH) := currentSize.value;
        if currentW >= w && currentH >= h {
          realW := currentW;
          realH := currentH;
        }
      }
      SetSize(realW, realH);
      size := (realW, realH);
    }

    /** Forgets the texture and its size. */
    method Reset()
      modifies this
      ensures Valid()
      ensures !hasTexture && currentSize == None && allocations == old(allocations)
    {
      hasTexture := false;
      currentSize := None;
    }
  }
}
