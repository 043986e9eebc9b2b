/**
 * The jltensor<T, N> adapter (namespace xt): a rank-N, column-major view over
 * the element buffer of an array owned by Julia. It either allocates a fresh
 * Julia array or wraps an existing one; in both cases its storage view
 * aliases the Julia buffer, and its shape, strides and backstrides are its
 * own bookkeeping, recomputed from the shape every time.
 */
module Xt {
  import opened Layout
  import opened Julia

  /** The runtime_error thrown when a wrapped Julia array has the wrong number of dimensions. */
  datatype Error = IncorrectDimensions

  datatype Result<R> = Success(value: R) | Failure(error: Error)

  /** std::fill over a whole buffer. */
  method FillElements<T>(a: array<T>, value: T)
    modifies a
    ensures forall i :: 0 <= i < a.Length ==> a[i] == value
  {
    var i := 0;
    while i < a.Length
      invariant 0 <= i <= a.Length
      invariant forall j :: 0 <= j < i ==> a[j] == value
    {
      a[i] := value;
      i := i + 1;
    }
  }

  /** std::copy from one buffer into another, distinct one of the same length. */
  method CopyElements<T>(src: array<T>, dst: array<T>)
    requires src.Length == dst.Length && src != dst
    modifies dst
    ensures dst[..] == src[..]
  {
    var i := 0;
    while i < src.Length
      invariant 0 <= i <= src.Length
      invariant forall j :: 0 <= j < i ==> dst[j] == src[j]
    {
      dst[i] := src[i];
      i := i + 1;
    }
  }

  /** std::copy of the first n extents of a Julia array into a shape. */
  method ReadExtents<T(0)>(jl: JuliaArray<T>, n: nat) returns (s: seq<nat>)
    requires n <= |jl.dims|
    ensures s == jl.dims[..n]
  {
    s := [];
    var i := 0;
    while i < n
      invariant 0 <= i <= n
      invariant s == jl.dims[..i]
    {
      s := s + [jl.dims[i]];
      i := i + 1;
    }
  }

  class JlTensor<T(0)> {
    /** The rank, the template parameter N. */
    const N: nat
    var shape: seq<nat>                  // m_shape
    var strides: seq<int>                // m_strides
    var backstrides: seq<int>            // m_backstrides
    var handle: JuliaArray?<T>           // p_array, held by the jlcontainer base
    var data: array?<T>                  // m_data: the buffer adaptor's pointer ...
    var size: nat                        // ... and its length

    /**
     * The adapter's invariant once constructed: N extents, strides and
     * backstrides derived from them column-major, a rank-N Julia array whose
     * extents are the shape, and a storage view that is exactly that array's
     * buffer.
     */
    ghost predicate Valid()
      reads this
    {
      |shape| == N
      && strides == ColumnMajorStrides(shape)
      && backstrides == ColumnMajorBackstrides(shape)
      && handle != null && handle.Valid() && handle.ndims == N && handle.dims == shape
      && data == handle.data && size == data.Length
    }

    /** A jltensor holding one element, T(), which is passed in as `zero`. */
    constructor Default(n: nat, zero: T)
      ensures Valid() && N == n
      ensures shape == Ones(n) && size == 1 && data[0] == zero
      ensures fresh(handle) && fresh(data)
    {
      N := n;
      shape := Ones(n);
      strides := ColumnMajorStrides(Ones(n));
      backstrides := ColumnMajorBackstrides(Ones(n));
      handle, data, size := null, null, 0;
      new;
      InitTensor(shape);
      ProductOfOnes(n);
      data[0] := zero;
    }

    /** An uninitialised jltensor of the given shape, in a freshly allocated Julia array. */
    constructor WithShape(n: nat, s: seq<nat>)
      requires |s| == n
      ensures Valid() && N == n && shape == s
      ensures fresh(handle) && fresh(data) && size == Product(s)
    {
      N := n;
      shape := s;
      strides := ColumnMajorStrides(s);
      backstrides := ColumnMajorBackstrides(s);
      handle, data, size := null, null, 0;
      new;
      InitTensor(shape);
    }

    /** A jltensor of the given shape whose every element is `value`. */
    constructor Filled(n: nat, s: seq<nat>, value: T)
      requires |s| == n
      ensures Valid() && N == n && shape == s
      ensures fresh(handle) && fresh(data) && size == Product(s)
      ensures forall i :: 0 <= i < size ==> data[i] == value
    {
      N := n;
      shape := s;
      strides := ColumnMajorStrides(s);
      backstrides := ColumnMajorBackstrides(s);
      handle, data, size := null, null, 0;
      new;
      InitTensor(shape);
      FillElements(data, value);
    }

    /** from_shape: the shape constructor, reached through a factory. */
    static method FromShape(n: nat, s: seq<nat>) returns (t: JlTensor<T>)
      requires |s| == n
      ensures t.Valid() && t.N == n && t.shape == s
      ensures fresh(t) && fresh(t.handle) && fresh(t.data)
    {
      t := new JlTensor<T>.WithShape(n, s);
    }

    /**
     * The base part of the jl_array_t* constructor: the Julia array is held,
     * nothing has been read from it yet. The adapter is not Valid() until
     * InitFromJulia succeeds; only Wrap uses this constructor.
     */
    constructor Bind(n: nat, jl: JuliaArray<T>)
      ensures N == n && handle == jl && data == null && size == 0
    {
      N := n;
      shape := seq(n, _ => 0);
      strides := seq(n, _ => 0);
      backstrides := seq(n, _ => 0);
      handle, data, size := jl, null, 0;
    }

    /**
     * The jl_array_t* constructor: wraps an existing Julia array without
     * allocating. A rank other than N is an error and yields no adapter.
     */
    static method Wrap(n: nat, jl: JuliaArray<T>) returns (r: Result<JlTensor<T>>)
      requires jl.Valid()
      ensures r.Success? <==> jl.ndims == n
      ensures r.Success? ==> fresh(r.value) && r.value.Valid() && r.value.N == n
      ensures r.Success? ==> r.value.handle == jl && r.value.data == jl.data && r.value.shape == jl.dims
    {
      var t := new JlTensor<T>.Bind(n, jl);
      var ok := t.InitFromJulia();
      if ok {
        r := Success(t);
      } else {
        r := Failure(IncorrectDimensions);
      }
    }

    /**
     * The copy constructor: same shape, a fresh Julia array, every element
     * copied; the source is left as it was.
     */
    constructor Copy(rhs: JlTensor<T>)
      requires rhs.Valid()
      ensures Valid() && N == rhs.N && shape == rhs.shape
      ensures fresh(handle) && fresh(data)
      ensures data[..] == rhs.data[..]
      ensures unchanged(rhs) && unchanged(rhs.data)
    {
      N := rhs.N;
      shape := rhs.shape;
      strides := ColumnMajorStrides(rhs.shape);
      backstrides := ColumnMajorBackstrides(rhs.shape);
      handle, data, size := null, null, 0;
      new;
      InitTensor(shape);
      CopyElements(rhs.data, data);
    }

    /** The defaulted move assignment: every member taken over from `other`, nothing allocated. */
    method MoveAssign(other: JlTensor<T>)
      requires other.Valid() && other.N == N
      modifies this
      ensures Valid()
      ensures handle == old(other.handle) && data == old(other.data) && size == old(other.size)
      ensures shape == old(other.shape) && strides == old(other.strides) && backstrides == old(other.backstrides)
    {
      handle := other.handle;
      shape := other.shape;
      strides := other.strides;
      backstrides := other.backstrides;
      data := other.data;
      size := other.size;
    }

    /**
     * Copy assignment by copy-and-swap: the target ends up with rhs's shape
     * and elements in a fresh Julia array, rhs keeps its shape and elements,
     * and the buffer the target held before is not written.
     */
    method Assign(rhs: JlTensor<T>)
      requires Valid() && rhs.Valid() && rhs.N == N
      modifies this
      ensures Valid() && shape == old(rhs.shape)
      ensures fresh(handle) && fresh(data) && data[..] == old(rhs.data[..])
      ensures rhs.shape == old(rhs.shape) && rhs.data[..] == old(rhs.data[..])
      ensures rhs != this ==> unchanged(rhs)
      ensures old(data)[..] == old(data[..])
    {
      var tmp := new JlTensor<T>.Copy(rhs);
      MoveAssign(tmp);
    }

    /**
     * init_tensor: allocates a Julia array of rank N with extents s and
     * points the storage view at its buffer, of jl_array_len elements.
     */
    method InitTensor(s: seq<nat>)
      requires |s| == N
      modifies this
      ensures handle != null && fresh(handle) && fresh(handle.data)
      ensures handle.Valid() && handle.ndims == N && handle.dims == s
      ensures data == handle.data && size == Product(s)
      ensures shape == old(shape) && strides == old(strides) && backstrides == old(backstrides)
    {
      var a := new JuliaArray<T>.New(s);
      handle := a;
      data := a.data;
      size := a.data.Length;
    }

    /**
     * init_from_julia: checks the held Julia array's rank before touching
     * anything, then reads its N extents, derives the strides and points the
     * storage view at its buffer.
     */
    method InitFromJulia() returns (ok: bool)
      requires handle != null && handle.Valid()
      modifies this
      ensures handle == old(handle)
      ensures ok <==> handle.ndims == N
      ensures !ok ==> unchanged(this)
      ensures ok ==> Valid() && shape == handle.dims[..N] && data == handle.data
    {
      if handle.ndims != N {
        return false;
      }
      shape := ReadExtents(handle, N);
      assert handle.dims[..N] == handle.dims;
      strides := ColumnMajorStrides(shape);
      backstrides := ColumnMajorBackstrides(shape);
      data := handle.data;
      size := handle.data.Length;
      ok := true;
    }

    /** shape_impl: N extents whose product is the length of the storage. */
    function ShapeImpl(): (s: seq<nat>)
      reads this
      requires Valid()
      ensures |s| == N && Product(s) == size
    {
      shape
    }

    /** strides_impl: the column-major strides of the shape, not the Julia array's own. */
    function StridesImpl(): (s: seq<int>)
      reads this
      requires Valid()
      ensures |s| == N
      ensures forall i :: 0 <= i < N ==> s[i] == if shape[i] == 1 then 0 else Product(shape[..i])
    {
      strides
    }

    /** backstrides_impl: per dimension, stride times (extent - 1). */
    function BackstridesImpl(): (s: seq<int>)
      reads this
      requires Valid()
      ensures |s| == N
      ensures forall i :: 0 <= i < N ==> s[i] == StridesImpl()[i] * (shape[i] as int - 1)
    {
      backstrides
    }

    /**
     * storage_impl: the Julia array's own buffer, of exactly Product(shape)
     * elements, and every in-bounds index addresses an element inside it.
     */
    function StorageImpl(): (a: array<T>)
      reads this
      requires Valid()
      ensures a == handle.data && a.Length == Product(shape)
      ensures forall index :: InBounds(index, shape) ==> 0 <= Offset(index, strides) < a.Length
    {
      OffsetsInStorage(shape);
      data
    }
  }

  /**
   * A copy does not share storage with its source: writing an element of the
   * copy leaves the source's shape and elements as they were.
   */
  method CopyThenWrite<T(0)>(a: JlTensor<T>, k: nat, v: T) returns (b: JlTensor<T>)
    requires a.Valid() && k < a.size
    ensures b.Valid() && fresh(b.data) && b.shape == a.shape
    ensures b.data[k] == v
    ensures forall j :: 0 <= j < b.size && j != k ==> b.data[j] == a.data[j]
    ensures a.shape == old(a.shape) && a.data[..] == old(a.data[..])
  {
    b := new JlTensor<T>.Copy(a);
    b.data[k] := v;
  }
}
