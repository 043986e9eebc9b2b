/**
 * The part of Julia's array object (jl_array_t) that the adapter reads: the
 * dimension count (flags.ndims), the per-dimension extents (nrows and the
 * extents stored after it) and the element buffer (data, of jl_array_len
 * elements). The object belongs to Julia's runtime and garbage collector;
 * the adapter never changes these three, so they are constants here, while
 * the elements of the buffer stay mutable. Julia itself may resize a vector
 * (push!, resize!); that is not captured, and an adapter built before such a
 * resize would hold a stale view of the buffer.
 */
module Julia {
  import opened Layout

  class JuliaArray<T(0)> {
    const ndims: nat
    const dims: seq<nat>
    const data: array<T>

    /** A well-formed Julia array: one extent per dimension, length the product of the extents. */
    ghost predicate Valid()
    {
      |dims| == ndims && data.Length == Product(dims)
    }

    /**
     * jl_new_array applied to an array type of rank |shape| and a dims tuple
     * holding shape: a fresh Julia array whose elements are whatever the
     * allocator leaves in the buffer.
     */
    constructor New(shape: seq<nat>)
      ensures Valid()
      ensures ndims == |shape| && dims == shape
      ensures fresh(data)
    {
      ndims := |shape|;
      dims := shape;
      data := new T[Product(shape)];
    }
  }
}
