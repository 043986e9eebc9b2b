# jltensor: a verified model of xtensor-julia's adapter

xtensor-julia lets the xtensor container library work directly on arrays
owned by the Julia runtime. Its core is the class template `jltensor<T, N>`
in `include/xtensor-julia/jltensor.hpp`. A `jltensor` is a rank-N,
column-major view over the element buffer of a Julia array (`jl_array_t`).
It either allocates a fresh Julia array or wraps an existing one. In both
cases the storage view (`m_data`) aliases the Julia buffer. The shape,
strides and backstrides are the adapter's own bookkeeping, recomputed from
the shape on every construction path. Two conversion traits in namespace
`jlcxx` move the adapter across the C++/Julia boundary: `ConvertToJulia`
hands back the held Julia array, and `ConvertToCpp` wraps a Julia array.

The model has four modules:

- `Layout` (`layout.dfy`): the number of elements of a shape, and the
  column-major strides and backstrides. It also proves what these strides
  mean for addressing:
  - every in-bounds index lands inside the buffer;
  - distinct indices address distinct elements;
  - every element is addressed by some index;
  - the first index varies fastest;
  - the backstrides add up to the offset of the last element.

  The stride computation itself is xtensor's `compute_strides`, which is not
  part of this model. It is taken to follow xtensor's rule. Dimension i's
  stride is the product of the extents before it. A dimension of extent 1
  gets stride 0. A backstride is stride times (extent - 1), in signed
  arithmetic.
- `Julia` (`julia.dfy`): the Julia array as the adapter sees it. It has a
  dimension count, extents and an element buffer. Allocation
  (`jl_new_array`) is the constructor `JuliaArray.New`, which returns a
  fresh object and a fresh buffer.
- `Xt` (`jltensor.dfy`): the class `JlTensor` with the fields of `jltensor`
  (`m_shape`, `m_strides`, `m_backstrides`, `m_data` as pointer and length,
  and `p_array` as `handle`). It covers the constructors, `from_shape`,
  `init_tensor`, `init_from_julia`, copy and move assignment, the `*_impl`
  accessors, and the `std::fill`/`std::copy` loops the constructors run.
  The object invariant `Valid()` says four things. The shape has N
  extents. The strides are the column-major strides of the shape. The
  backstrides are the column-major backstrides of the shape. The storage
  view is exactly the held Julia array's buffer, whose extents are the
  shape.
- `Jlcxx` (`conversion.dfy`): `ConvertToJulia`, `ConvertToCpp`, and the
  round trip native → Julia → native.

The wrapping constructor `jltensor(jl_array_t*)` can throw. It is modelled
as the static method `JlTensor.Wrap`, which returns a `Result`.
`Wrap` runs the base part of the constructor (`Bind`) and then
`InitFromJulia`. `InitFromJulia` checks the rank before it changes anything.
On a mismatch, `Wrap` returns `Failure(IncorrectDimensions)` and no adapter
comes into existence.

Where the documentation and the code differ, the model follows the code:

- The shape constructor is documented as allocating an uninitialised
  jltensor (line 180) and its code (lines 184-190) writes no element, so
  `WithShape` says nothing about the elements: they are as the allocator
  left them. Only the shape-and-value constructor fills them.
- The doc comment above the `jl_array_t*` constructor (lines 206-208) says
  that it allocates one element. The code wraps the given array and
  allocates nothing; that is what `Wrap` models.

## Model

| member | source | states |
|---|---|---|
| `Layout.ProductOfOnes` | include/xtensor-julia/jltensor.hpp:162 | a shape of N ones has exactly one element, for every N |
| `Layout.ColumnMajorStrides` | include/xtensor-julia/jltensor.hpp:163 | the strides every `compute_strides` call (lines 163, 188, 236, 266, 313) stores: one stride per dimension; stride i is the product of the extents before i, or 0 when extent i is 1 (xtensor's column-major rule) |
| `Layout.ColumnMajorBackstrides` | include/xtensor-julia/jltensor.hpp:163 | one backstride per dimension, equal to that dimension's stride times (extent - 1) |
| `Layout.OffsetInStorage` | include/xtensor-julia/jltensor.hpp:313 | with column-major strides, every in-bounds index has an offset in [0, product of extents): inside the storage view |
| `Layout.OffsetInjective` | include/xtensor-julia/jltensor.hpp:188 | two in-bounds indices with the same offset are the same index: no two elements share a slot |
| `Layout.OffsetCoversStorage` | include/xtensor-julia/jltensor.hpp:313 | every slot k below the product of extents is the offset of the in-bounds index `Unravel(k)`: the view covers the whole buffer |
| `Layout.FirstIndexVariesFastest` | include/xtensor-julia/jltensor.hpp:56 | the declared column-major layout, as the strides of line 163 realise it: stepping the first index by one moves the offset by exactly one |
| `Layout.BackstridesReachLast` | include/xtensor-julia/jltensor.hpp:163 | when no extent is 0, the backstrides add up to the offset of the last element, product of extents - 1 |
| `Julia.JuliaArray.New` | include/xtensor-julia/jltensor.hpp:294-296 | a fresh Julia array whose rank is the number of given extents, with those extents and a fresh buffer of product-of-extents elements |
| `Xt.FillElements` | include/xtensor-julia/jltensor.hpp:203 | afterwards every element of the buffer equals the value |
| `Xt.CopyElements` | include/xtensor-julia/jltensor.hpp:238 | afterwards the destination holds the source's elements in order; the source is not written |
| `Xt.ReadExtents` | include/xtensor-julia/jltensor.hpp:312 | the result is the Julia array's first n extents |
| `Xt.JlTensor.Default` | include/xtensor-julia/jltensor.hpp:158-166 | shape of N ones, a fresh Julia array of exactly one element, and that element equal to T() |
| `Xt.JlTensor.WithShape` | include/xtensor-julia/jltensor.hpp:184-190 | shape equals the argument, the strides are derived from it, and the storage is a fresh Julia buffer of product-of-extents elements |
| `Xt.JlTensor.Filled` | include/xtensor-julia/jltensor.hpp:198-204 | as `WithShape`, and every storage element equals the fill value |
| `Xt.JlTensor.FromShape` | include/xtensor-julia/jltensor.hpp:216-222 | a new adapter with the given shape over a fresh Julia array |
| `Xt.JlTensor.Bind` | include/xtensor-julia/jltensor.hpp:210-211 | the base part of wrapping: the Julia array is held and no storage is bound yet |
| `Xt.JlTensor.Wrap` | include/xtensor-julia/jltensor.hpp:209-214 | fails exactly when the Julia array's rank is not N; otherwise the shape is the array's extents, the storage is the array's own buffer, and the array is held, not copied |
| `Xt.JlTensor.InitTensor` | include/xtensor-julia/jltensor.hpp:282-302 | allocates a fresh rank-N Julia array with the given extents and binds the storage view to its buffer, whose length is the product of the extents; shape and strides are untouched |
| `Xt.JlTensor.InitFromJulia` | include/xtensor-julia/jltensor.hpp:304-316 | a rank mismatch is reported before any field changes; otherwise shape = the first N extents, column-major strides, and storage = the array's buffer |
| `Xt.JlTensor.Copy` | include/xtensor-julia/jltensor.hpp:232-239 | same rank and shape, a freshly allocated buffer with elements equal to rhs's, and rhs unchanged |
| `Xt.JlTensor.MoveAssign` | include/xtensor-julia/jltensor.hpp:112 | every member, including the Julia array and the storage view, is taken over unchanged, with no allocation |
| `Xt.JlTensor.Assign` | include/xtensor-julia/jltensor.hpp:244-250 | target gets rhs's shape and elements in a fresh buffer; rhs keeps its shape and elements; the buffer the target held before is not written |
| `Xt.JlTensor.ShapeImpl` | include/xtensor-julia/jltensor.hpp:318-328 | N extents whose product is the length of the storage view |
| `Xt.JlTensor.StridesImpl` | include/xtensor-julia/jltensor.hpp:330-340 | the column-major strides of the shape, not values read from the Julia array |
| `Xt.JlTensor.BackstridesImpl` | include/xtensor-julia/jltensor.hpp:342-352 | per dimension, stride times (extent - 1) |
| `Xt.JlTensor.StorageImpl` | include/xtensor-julia/jltensor.hpp:354-364 | the held Julia array's own buffer, of exactly product-of-extents elements; every in-bounds index has its offset inside it |
| `Xt.CopyThenWrite` | include/xtensor-julia/jltensor.hpp:232-239 | writing one element of a copy changes only that element of the copy; the source's shape and elements stay as they were |
| `Jlcxx.ConvertToJulia` | include/xtensor-julia/jltensor.hpp:373-381 | the held Julia array itself: its buffer is the adapter's storage, its extents the adapter's shape, its rank N |
| `Jlcxx.ConvertToCpp` | include/xtensor-julia/jltensor.hpp:383-390 | fails exactly when the array's rank is not N; on success, converting the adapter back gives the same Julia array |
| `Jlcxx.RoundTrip` | include/xtensor-julia/jltensor.hpp:373-390 | native → Julia → native always succeeds and gives an adapter with the same shape over the same storage and the same Julia array |

## Left out

- The nested-initializer-list constructor (lines 171-177) is not modelled. It relies on `jlcontainer::resize` and xtensor's `nested_copy`; jlcontainer.hpp and xtensor are not part of this model.
- The expression constructor and expression assignment (lines 260-279) are not modelled. They run xtensor's generic broadcast and assignment engine, which is not part of this model.
- The `std::complex` specialisation of the container traits (lines 59-74) is not modelled. It changes two things against the generic traits (lines 42-57): the storage pointer type (line 62), and the temporary type (line 72), which becomes `jltensor<T, N>` with `T` the real component type, so the temporary of `jltensor<std::complex<double>, N>` is the real-valued `jltensor<double, N>`. xtensor builds that temporary when it assigns an expression, which is the expression assignment at lines 274-279, itself not modelled. From a reading of the code, not executed, this looks like a defect in the source: `jltensor<std::complex<T>, N>` was evidently meant, as the generic traits keep the full element type at line 55.
- The move constructor (line 111) is not modelled on its own. The defaulted move assignment is modelled as `MoveAssign`, the step copy assignment uses.
- `Xt.JlTensor.MoveAssign`: the moved-from object is left as it was. The C++ leaves it valid but unspecified.
- `static_type_mapping` and `julia_type_factory` (lines 392-406) are not modelled. They declare types and register a Julia type descriptor, with no state the adapter keeps.
- Garbage-collector rooting (`JL_GC_PUSH3`/`JL_GC_POP`, lines 289 and 301) and the building of the array type and dims tuple (`make_julia_array_type`, `make_julia_shape_type`, `jl_new_bits`, lines 291-295) are not modelled. They are Julia runtime plumbing, replaced by the abstract allocation `JuliaArray.New`.
- The Julia array's rank, extents and buffer are constants in the model (`Julia.JuliaArray`). Julia code that resizes a wrapped array afterwards (`push!` or `resize!` on a vector) is not captured. The C++ storage view is a snapshot of `data` and `jl_array_len` taken once (lines 299-300 and 314-315) and would go stale then; in the model it cannot.
- `Xt.JlTensor.Wrap`: the length and aliasing facts of `Valid()` rest on Julia's own invariant that `jl_array_len` equals the product of the extents (`JuliaArray.Valid()`). The adapter never checks this; the model takes it as a requirement of wrapping.
- `Julia.JuliaArray.New` cannot fail. A Julia allocation failure propagates as a fatal error in the C++; the model has no such path.
- `Xt.JlTensor.Default`: `T()` cannot be named for a generic Dafny type, so the value-initialised element is passed in as the parameter `zero`.
- `Xt.JlTensor.FromShape`: `from_shape` accepts any shape-like sequence and converts it with `xtl::forward_sequence`. The model takes a sequence of exactly N extents, so the conversion from a container of another length is not modelled.
- Integers are unbounded. `size_t` extents and `ptrdiff_t` strides do not overflow in the model. A 0 extent gives backstride `-stride`. That matches the C++, where `size_t(0) - 1` converted to `ptrdiff_t` is -1.
- `Layout.ColumnMajorStrides`: xtensor's `compute_strides` is not part of this model. Its column-major rule, with stride 0 for extents of 1, is an assumption of the model, not something checked against xtensor's code.
- The `jlcontainer` base class (`wrapped()`, `resize`, iteration) is not part of this model. `ConvertToJulia` reads the held array (`p_array`) directly, which is what `wrapped()` returns. Only the const forms of `shape_impl`, `strides_impl`, `backstrides_impl` and `storage_impl` (lines 325, 337, 349 and 361) are modelled, as the read-only functions `ShapeImpl`, `StridesImpl`, `BackstridesImpl` and `StorageImpl`. The non-const forms (lines 319, 331, 343 and 355) return writable references through which the base class may rewrite the shape, strides or storage; their only writers are `resize` and the base-class machinery, which are left out.
- Element access through xtensor's iterators and indexing is not modelled. The `Layout` lemmas state what the strides guarantee to that machinery.
- test/main.cpp starts and stops the Julia interpreter and gtest. include/xtensor-julia/xtensor_julia_config.hpp holds only version macros. Neither is modelled.
