# FeatureBuffer: a circular buffer of feature frames

This project models `FeatureBuffer.hh` from AaltoASR. The header has two classes:

- `FeatureBuffer` stores `num_frames` frames of `dim` values each in one flat vector. Any signed logical frame number is mapped to a physical slot by the private `modulo`, which takes the C++ `%` and adds `b` when the result is negative.
- `FeatureVec` is a non-owning `(pointer, dim)` view of one slot. Every element access checks the index against `[0, dim)` and throws when it is outside.

The stored `float`s are only stored and handed back, so the element type is a type parameter `T`.

Files:

- `cpp_int.dfy`, module `CppInt`. It defines C++ integer division and remainder (`TruncDiv`, `TruncRem`), which truncate toward zero. Dafny's own `/` and `%` are Euclidean. The module proves the identity `(a / b) * b + a % b == a` that section [expr.mul] of ISO/IEC 14882 states.
- `features.dfy`, module `Features`. It contains:
  - `Modulo` and its laws.
  - The slot layout (`SlotOffset`, and `Unflatten` from the flat storage to a sequence of frames).
  - The view `FeatureVec`. It is a datatype of an `array?<T>`, an offset and a dimension. A null array stands for the NULL pointer. The two-argument constructor is the datatype constructor, and `dim()` is its `dim` field.
  - The class `FeatureBuffer`. It owns an `array<T>`.

A buffer's abstract value is `Contents()`, its frames slot by slot. `ReadFrames` and `WriteFrames` say what reading and writing one value of a logical frame mean. They use Dafny's Euclidean `%` as the reference for the wraparound, not the C++ arithmetic. The class's `Read` and `Write` are proved against them. `ExampleWraparound` is a client of the class. It configures 3 frames of 2 values, and its assertions, proved by the verifier, state that frames -1, 3 and 5 read back slots 2, 0 and 2.

The const and mutable `operator[]` overloads are modelled as separate read and write operations:

- `FeatureBuffer.Frame` models both overloads of `FeatureBuffer::operator[]`. It returns the view.
- `FeatureVec.Get` is the const element access.
- `FeatureVec.Set` is the mutable element access followed by an assignment through the returned reference.
- `FeatureBuffer.Read` and `FeatureBuffer.Write` are the compositions `buf[f][p]` and `buf[f][p] = x`.

Two details follow the code:

- `resize` checks its arguments with `assert`, so a non-positive argument is a precondition of `Resize`, not an error result.
- The default-constructed view holds a NULL pointer. Its dimension is 0, so every access on it fails.

## Model

| member | source | states |
|---|---|---|
| CppInt.TruncRem | FeatureBuffer.hh:90 | The C++ remainder is smaller in magnitude than the divisor. It is non-negative for a non-negative dividend and non-positive for a negative one. |
| CppInt.TruncDivRem | FeatureBuffer.hh:90 | The C++ quotient and remainder recombine to the dividend: `(a / b) * b + a % b == a`. |
| Features.Modulo | FeatureBuffer.hh:88-94 | For every `b > 0` and every `a`, including negative `a` and `a` far from zero, the result lies in `[0, b)`. |
| Features.ModuloIsEuclidean | FeatureBuffer.hh:88-94 | Adding `b` to a negative C++ remainder gives the mathematical (Euclidean) remainder `a mod b`. |
| Features.ModuloPeriodic | FeatureBuffer.hh:88-94 | `modulo(a + k*b, b) == modulo(a, b)` for every integer `k`. The case `k = 1` is the stated periodicity. |
| Features.ModuloIdentity | FeatureBuffer.hh:88-94 | `modulo(i, b) == i` for `0 <= i < b`. |
| Features.SlotOffset | FeatureBuffer.hh:73-74 | The offset `index * m_dim` of a frame's slot equals `(frame mod num_frames) * dim`. It is non-negative, and the offset plus `dim` never exceeds `num_frames * dim`, the storage length. |
| Features.Unflatten | FeatureBuffer.hh:98 | The flat storage of `num_frames * dim` values reads as exactly `num_frames` frames of `dim` values each. |
| Features.CellIndexInjective | FeatureBuffer.hh:74 | Distinct (slot, position) pairs address distinct storage cells. Frames never overlap. |
| Features.ReadFrames | FeatureBuffer.hh:23-28 | Reading a logical frame fails exactly when the position is outside `[0, dim)`. |
| Features.WriteFrames | FeatureBuffer.hh:31-36 | Writing keeps the number and the shape of the frames. An out-of-range position changes nothing. |
| Features.ReadAfterWrite | FeatureBuffer.hh:78-82 | After writing `x` at position `p` of frame `f`, reading position `p` returns `x` under frame `f` and under every frame `f + k*num_frames`. `k = 1` is the aliasing law. |
| Features.WriteLeavesOthers | FeatureBuffer.hh:31-36 | A write leaves every other (slot, position) reading what it read before. |
| Features.FeatureVec.Get | FeatureBuffer.hh:23-28 | Const element access fails exactly when `index < 0` or `index >= dim`. Otherwise it returns the value at `ptr + index`, which lies inside the storage. |
| Features.FeatureVec.Set | FeatureBuffer.hh:31-36 | Mutable element access fails exactly when `index < 0` or `index >= dim`, and then nothing changes. Otherwise exactly the cell `ptr + index` becomes `x`. |
| Features.EmptyVec | FeatureBuffer.hh:13 | The default view has dimension 0 and a null pointer, and every indexed access on it fails. |
| Features.FeatureBuffer.constructor | FeatureBuffer.hh:51 | The default buffer has `dim() == 1`, `num_frames() == 1` and storage of length 1, so the size invariant holds from construction. |
| Features.FeatureBuffer.Resize | FeatureBuffer.hh:55-62 | Given `num_frames > 0` and `dim > 0`, afterwards `num_frames()` and `dim()` equal the arguments and the new storage holds `num_frames * dim` values. |
| Features.FeatureBuffer.Dim | FeatureBuffer.hh:65 | `dim()` is positive, and it times `num_frames` is the storage length. |
| Features.FeatureBuffer.NumFrames | FeatureBuffer.hh:68 | `num_frames()` is positive, and it times `dim` is the storage length. |
| Features.FeatureBuffer.Frame | FeatureBuffer.hh:71-82 | For any signed `frame`, the view points into the buffer's storage with dimension `dim()`. It starts at `(frame mod num_frames) * dim` and ends inside the storage. |
| Features.FeatureBuffer.FrameAliases | FeatureBuffer.hh:71-82 | Logical frames `num_frames` multiples apart get the same view. |
| Features.FeatureBuffer.Read | FeatureBuffer.hh:71-75 | `buf[frame][p]` on a read-only buffer reads value `p` of frame `frame mod num_frames` of the contents. It fails exactly when `p` is outside `[0, dim)`. |
| Features.FeatureBuffer.AccessBoundaries | FeatureBuffer.hh:23-28 | Positions `0` and `dim - 1` of every frame can be read. Positions `-1` and `dim` fail with the out-of-bounds error. |
| Features.FeatureBuffer.Write | FeatureBuffer.hh:78-82 | `buf[frame][p] = x` changes only storage cell `modulo(frame, n) * dim + p`. It changes the contents as `WriteFrames` says, keeps the size invariant, and fails with nothing changed when `p` is out of range. |

## Left out

- Integer width: frame numbers, positions and sizes are unbounded integers. `Resize` requires `num_frames * dim` to fit in a 32-bit `int`, because the C++ product overflows otherwise. This bound also keeps `index * m_dim` in range. Overflow behaviour itself is not modelled.
- Features.FeatureBuffer.Resize: allocates fresh storage and promises nothing about its values. `std::vector::resize` keeps a prefix of the old values, but the header documents the data as invalidated. The constructor's storage likewise holds the element type's default value, which for `float` is 0.0; the model does not state this.
- View lifetime: a `FeatureVec` obtained before a `Resize` still refers to the old array in the model. In C++ it may dangle (when `resize` reallocates); otherwise it points into storage laid out under the new configuration. Pointer validity is not modelled.
- C++ const-correctness, including the `const_cast` in the mutable `FeatureVec::operator[]`: it is type-level only. Read and write are separate operations.
- The exception payload (the string "FeatureVec out of bounds") is modelled as the single error value `OutOfBounds`.
- Floating-point semantics: values are opaque and never computed with.
- `resize`'s `assert` is modelled as a precondition. What happens when it fails (abort, or nothing under `NDEBUG`) is not modelled.
