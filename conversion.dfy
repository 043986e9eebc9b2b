/**
 * The conversion traits that jlcxx's marshalling layer uses for jltensor
 * (namespace jlcxx): a jltensor crosses into Julia as the Julia array it
 * holds, and a Julia array crosses into C++ by being wrapped.
 */
module Jlcxx {
  import opened Layout
  import opened Julia
  import opened Xt

  /**
   * ConvertToJulia: the held Julia array itself, no copy: its buffer is the
   * tensor's storage and its extents are the tensor's shape.
   */
  function ConvertToJulia<T(0)>(t: JlTensor<T>): (h: JuliaArray<T>)
    reads t
    requires t.Valid()
    ensures h.data == t.StorageImpl() && h.ndims == t.N && h.dims == t.ShapeImpl()
  {
    t.handle
  }

  /**
   * ConvertToCpp: a jltensor wrapping the given Julia array; it fails exactly
   * when the array's rank is not N, and converting the result back yields
   * the same Julia array.
   */
  method ConvertToCpp<T(0)>(n: nat, arr: JuliaArray<T>) returns (r: Result<JlTensor<T>>)
    requires arr.Valid()
    ensures r.Success? <==> arr.ndims == n
    ensures r.Success? ==> r.value.Valid() && r.value.N == n && ConvertToJulia(r.value) == arr
  {
    r := JlTensor<T>.Wrap(n, arr);
  }

  /**
   * Native to Julia and back: the rank always matches, so the conversion
   * succeeds, and the new adapter has the same shape and aliases the same
   * storage as the original.
   */
  method RoundTrip<T(0)>(t: JlTensor<T>) returns (u: JlTensor<T>)
    requires t.Valid()
    ensures u.Valid() && u.N == t.N && u.ShapeImpl() == t.ShapeImpl()
    ensures u.StorageImpl() == t.StorageImpl()
    ensures ConvertToJulia(u) == ConvertToJulia(t)
  {
    var r := ConvertToCpp(t.N, ConvertToJulia(t));
    u := r.value;
  }
}
