/** The circular feature buffer of FeatureBuffer.hh.
 *
 *  A `FeatureBuffer` stores `numFrames` frames of `dim` values each in one
 *  flat array. Any signed logical frame number is mapped to a physical slot
 *  with `Modulo`, and a `FeatureVec` is a bounds-checked, non-owning window
 *  onto that slot's `dim` values. The stored values are only stored and
 *  handed back, so their type is a parameter `T`. */
module Features {
  import opened CppInt

  /** The one failure element access raises ("FeatureVec out of bounds"). */
  datatype Error = OutOfBounds

  datatype Result<T> = Success(value: T) | Failure(error: Error)

  datatype Outcome = Pass | Fail(error: Error)

  // ---------------------------------------------------------------------
  // Wraparound

  /** `FeatureBuffer::modulo`: the C++ remainder, plus `b` when it is negative. */
  function Modulo(a: int, b: int): (r: int)
    requires b > 0
    ensures 0 <= r < b
  {
    var result := TruncRem(a, b);
    if result < 0 then result + b else result
  }

  /** The sign correction turns the C++ remainder into the mathematical one. */
  lemma {:induction false} ModuloIsEuclidean(a: int, b: int)
    requires b > 0
    ensures Modulo(a, b) == a % b
  {
    var q, t := TruncDiv(a, b), TruncRem(a, b);
    TruncDivRem(a, b);
    if t >= 0 {
      EuclideanUnique(a, b, q, t);
    } else {
      assert a == (q - 1) * b + (t + b);
      EuclideanUnique(a, b, q - 1, t + b);
    }
  }

  /** Frame numbers that differ by a multiple of `b` share a slot. */
  lemma {:induction false} ModuloPeriodic(a: int, k: int, b: int)
    requires b > 0
    ensures Modulo(a + k * b, b) == Modulo(a, b)
  {
    ModuloIsEuclidean(a, b);
    ModuloIsEuclidean(a + k * b, b);
    assert a + k * b == (a / b + k) * b + a % b;
    EuclideanUnique(a + k * b, b, a / b + k, a % b);
  }

  /** Frame numbers already in `[0, b)` are their own slot. */
  lemma ModuloIdentity(i: int, b: int)
    requires 0 <= i < b
    ensures Modulo(i, b) == i
  {
    EuclideanUnique(i, b, 0, i);
  }

  // ---------------------------------------------------------------------
  // Storage layout

  /** Slot `slot` of `numFrames` slots of `dim` values ends inside the storage. */
  lemma {:induction false} SlotFits(slot: int, numFrames: int, dim: int)
    requires 0 <= slot < numFrames && dim > 0
    ensures 0 <= slot * dim && slot * dim + dim <= numFrames * dim
  {
    if slot > 0 {
      NonZeroMultiple(slot, dim);
    }
    NonZeroMultiple(numFrames - slot, dim);
    assert numFrames * dim == slot * dim + (numFrames - slot) * dim;
  }

  /** Offset of the first value of logical frame `frame` in the flat storage
   *  (`index * m_dim` in `operator[]`). */
  function SlotOffset(frame: int, numFrames: int, dim: int): (off: int)
    requires numFrames > 0 && dim > 0
    ensures 0 <= off && off + dim <= numFrames * dim
    ensures off == (frame % numFrames) * dim
  {
    var slot := Modulo(frame, numFrames);
    ModuloIsEuclidean(frame, numFrames);
    SlotFits(slot, numFrames, dim);
    slot * dim
  }

  /** Each cell of the flat storage belongs to exactly one (slot, position). */
  lemma {:induction false} CellIndexInjective(i: int, p: int, j: int, q: int, dim: int)
    requires dim > 0 && 0 <= p < dim && 0 <= q < dim
    requires i * dim + p == j * dim + q
    ensures i == j && p == q
  {
    EuclideanUnique(i * dim + p, dim, i, p);
    EuclideanUnique(j * dim + q, dim, j, q);
  }

  /** The flat storage cut into `numFrames` consecutive frames of `dim` values. */
  ghost function Unflatten<T>(s: seq<T>, numFrames: nat, dim: nat): (frames: seq<seq<T>>)
    requires dim > 0 && |s| == numFrames * dim
    ensures |frames| == numFrames && Shaped(frames, dim)
    decreases numFrames
  {
    if numFrames == 0 then []
    else
      assert |s| == dim + (numFrames - 1) * dim;
      [s[..dim]] + Unflatten(s[dim..], numFrames - 1, dim)
  }

  /** Value `p` of frame `k` is cell `k * dim + p` of the flat storage. */
  lemma {:induction false} UnflattenAt<T>(s: seq<T>, numFrames: nat, dim: nat, k: int, p: int)
    requires dim > 0 && |s| == numFrames * dim
    requires 0 <= k < numFrames && 0 <= p < dim
    ensures 0 <= k * dim + p < |s|
    ensures Unflatten(s, numFrames, dim)[k][p] == s[k * dim + p]
    decreases k
  {
    SlotFits(k, numFrames, dim);
    assert |s| == dim + (numFrames - 1) * dim;
    if k > 0 {
      UnflattenAt(s[dim..], numFrames - 1, dim, k - 1, p);
      assert (k - 1) * dim + p + dim == k * dim + p;
    }
  }

  /** Writing one cell of the flat storage changes exactly one value of one frame. */
  lemma {:induction false} UnflattenUpdate<T>(s: seq<T>, numFrames: nat, dim: nat, slot: int, p: int, x: T)
    requires dim > 0 && |s| == numFrames * dim
    requires 0 <= slot < numFrames && 0 <= p < dim
    ensures 0 <= slot * dim + p < |s|
    ensures Unflatten(s[slot * dim + p := x], numFrames, dim)
         == Unflatten(s, numFrames, dim)[slot := Unflatten(s, numFrames, dim)[slot][p := x]]
  {
    SlotFits(slot, numFrames, dim);
    var before, after := Unflatten(s, numFrames, dim), Unflatten(s[slot * dim + p := x], numFrames, dim);
    forall k | 0 <= k < numFrames
      ensures after[k] == before[slot := before[slot][p := x]][k]
    {
      UnflattenUpdateFrame(s, numFrames, dim, slot, p, x, k);
    }
  }

  lemma {:induction false} UnflattenUpdateFrame<T>(s: seq<T>, numFrames: nat, dim: nat, slot: int, p: int, x: T, k: int)
    requires dim > 0 && |s| == numFrames * dim
    requires 0 <= slot < numFrames && 0 <= p < dim && 0 <= k < numFrames
    ensures 0 <= slot * dim + p < |s|
    ensures Unflatten(s[slot * dim + p := x], numFrames, dim)[k]
         == if k == slot then Unflatten(s, numFrames, dim)[k][p := x] else Unflatten(s, numFrames, dim)[k]
  {
    SlotFits(slot, numFrames, dim);
    var s' := s[slot * dim + p := x];
    var before, after := Unflatten(s, numFrames, dim)[k], Unflatten(s', numFrames, dim)[k];
    var expected := if k == slot then before[p := x] else before;
    UnflattenAt(s, numFrames, dim, k, 0);
    UnflattenAt(s', numFrames, dim, k, 0);
    forall j | 0 <= j < dim
      ensures after[j] == expected[j]
    {
      UnflattenAt(s, numFrames, dim, k, j);
      UnflattenAt(s', numFrames, dim, k, j);
      if k * dim + j == slot * dim + p {
        CellIndexInjective(k, j, slot, p, dim);
      }
    }
  }

  // ---------------------------------------------------------------------
  // Frames as the client sees them

  /** Every frame holds `dim` values. */
  ghost predicate Shaped<T>(frames: seq<seq<T>>, dim: int) {
    forall k :: 0 <= k < |frames| ==> |frames[k]| == dim
  }

  /** Reading position `p` of logical frame `frame`: frame numbers wrap
   *  around the number of frames, positions outside `[0, dim)` fail. */
  ghost function ReadFrames<T>(frames: seq<seq<T>>, dim: int, frame: int, p: int): (r: Result<T>)
    requires |frames| > 0 && Shaped(frames, dim)
    ensures r.Failure? <==> p < 0 || p >= dim
  {
    if p < 0 || p >= dim then Failure(OutOfBounds) else Success(frames[frame % |frames|][p])
  }

  /** Writing `x` at position `p` of logical frame `frame`; an out-of-range
   *  position leaves every frame as it was. */
  ghost function WriteFrames<T>(frames: seq<seq<T>>, dim: int, frame: int, p: int, x: T): (r: seq<seq<T>>)
    requires |frames| > 0 && Shaped(frames, dim)
    ensures |r| == |frames| && Shaped(r, dim)
    ensures p < 0 || p >= dim ==> r == frames
  {
    if p < 0 || p >= dim then frames
    else
      var slot := frame % |frames|;
      frames[slot := frames[slot][p := x]]
  }

  /** What is written is read back, under the same frame number and under
   *  every frame number `|frames|` multiples away from it. */
  lemma {:induction false} ReadAfterWrite<T>(frames: seq<seq<T>>, dim: int, frame: int, p: int, x: T, k: int)
    requires |frames| > 0 && Shaped(frames, dim)
    requires 0 <= p < dim
    ensures ReadFrames(WriteFrames(frames, dim, frame, p, x), dim, frame + k * |frames|, p) == Success(x)
  {
    var n := |frames|;
    ModuloPeriodic(frame, k, n);
    ModuloIsEuclidean(frame, n);
    ModuloIsEuclidean(frame + k * n, n);
  }

  /** A write leaves every other (slot, position) as it was. */
  lemma {:induction false} WriteLeavesOthers<T>(frames: seq<seq<T>>, dim: int, frame: int, p: int, x: T, other: int, q: int)
    requires |frames| > 0 && Shaped(frames, dim)
    requires other % |frames| != frame % |frames| || p != q
    ensures ReadFrames(WriteFrames(frames, dim, frame, p, x), dim, other, q) == ReadFrames(frames, dim, other, q)
  {
  }

  // ---------------------------------------------------------------------
  // FeatureVec

  /** A non-owning window of `dim` values starting at `ptr[offset]`. The
   *  two-argument constructor is the datatype constructor; `dim()` is the
   *  `dim` field. */
  datatype FeatureVec<T> = FeatureVec(ptr: array?<T>, offset: int, dim: int)
  {
    /** The window lies inside the storage it points into. */
    ghost predicate Valid() {
      dim <= 0 || (ptr != null && 0 <= offset && offset + dim <= ptr.Length)
    }

    /** Constant `operator[]`: the value at `index`, or the out-of-bounds failure. */
    function Get(index: int): (r: Result<T>)
      requires Valid()
      reads ptr
      ensures r.Failure? <==> index < 0 || index >= dim
      ensures r.Success? ==> ptr != null && 0 <= offset + index < ptr.Length && r.value == ptr[offset + index]
    {
      if index < 0 || index >= dim then Failure(OutOfBounds) else Success(ptr[offset + index])
    }

    /** Mutable `operator[]` followed by an assignment through the reference. */
    method Set(index: int, x: T) returns (r: Outcome)
      requires Valid()
      modifies ptr
      ensures r.Fail? <==> index < 0 || index >= dim
      ensures r.Pass? ==> ptr != null && 0 <= offset + index < ptr.Length
                          && ptr[..] == old(ptr[..])[offset + index := x]
      ensures r.Fail? && ptr != null ==> ptr[..] == old(ptr[..])
    {
      if index < 0 || index >= dim {
        return Fail(OutOfBounds);
      }
      ptr[offset + index] := x;
      r := Pass;
    }
  }

  /** The default `FeatureVec()`: no storage and dimension 0. */
  function EmptyVec<T>(): (v: FeatureVec<T>)
    ensures v.Valid() && v.dim == 0 && v.ptr == null
    ensures forall index :: v.Get(index).Failure?
  {
    FeatureVec(null, 0, 0)
  }

  // ---------------------------------------------------------------------
  // FeatureBuffer

  class FeatureBuffer<T(0)> {
    var dim: int
    var numFrames: int
    var buffer: array<T>

    /** The size invariant: `numFrames * dim` values, and the product fits a C++ `int`. */
    ghost predicate Valid()
      reads this
    {
      dim > 0 && numFrames > 0 && buffer.Length == numFrames * dim && numFrames * dim <= INT32_MAX
    }

    /** The buffer's frames, slot by slot. */
    ghost function Contents(): (frames: seq<seq<T>>)
      reads this, buffer
      requires Valid()
      ensures |frames| == numFrames && Shaped(frames, dim)
    {
      Unflatten(buffer[..], numFrames, dim)
    }

    /** The default configuration: one frame of one value. */
    constructor ()
      ensures Valid() && fresh(buffer)
      ensures dim == 1 && numFrames == 1 && buffer.Length == 1
    {
      dim, numFrames := 1, 1;
      buffer := new T[1];
    }

    /** Reconfigure to `numFrames` frames of `dim` values. The storage is
     *  replaced, so nothing is promised about the values it holds. */
    method Resize(numFrames: int, dim: int)
      requires numFrames > 0 && dim > 0
      requires numFrames * dim <= INT32_MAX
      modifies this
      ensures Valid() && fresh(buffer)
      ensures this.numFrames == numFrames && this.dim == dim
      ensures buffer.Length == numFrames * dim
    {
      this.numFrames := numFrames;
      this.dim := dim;
      buffer := new T[numFrames * dim];
    }

    function Dim(): (d: int)
      reads this
      requires Valid()
      ensures d > 0 && d * numFrames == buffer.Length
    {
      dim
    }

    function NumFrames(): (n: int)
      reads this
      requires Valid()
      ensures n > 0 && n * dim == buffer.Length
    {
      numFrames
    }

    /** Both `operator[](int frame)` overloads: the window onto the slot of
     *  logical frame `frame`, for any signed `frame`. */
    function Frame(frame: int): (v: FeatureVec<T>)
      reads this
      requires Valid()
      ensures v.ptr == buffer && v.dim == dim && v.Valid()
      ensures v.offset == (frame % numFrames) * dim
      ensures 0 <= v.offset && v.offset + dim <= buffer.Length
    {
      FeatureVec(buffer, SlotOffset(frame, numFrames, dim), dim)
    }

    /** Logical frames `numFrames` multiples apart get the same window. */
    lemma {:induction false} FrameAliases(frame: int, k: int)
      requires Valid()
      ensures Frame(frame + k * numFrames) == Frame(frame)
    {
      ModuloPeriodic(frame, k, numFrames);
      ModuloIsEuclidean(frame, numFrames);
      ModuloIsEuclidean(frame + k * numFrames, numFrames);
    }

    /** `buffer[frame][p]` on a read-only buffer. */
    function Read(frame: int, p: int): (r: Result<T>)
      reads this, buffer
      requires Valid()
      ensures r == ReadFrames(Contents(), dim, frame, p)
    {
      var v := Frame(frame);
      if 0 <= p < dim then
        UnflattenAt(buffer[..], numFrames, dim, frame % numFrames, p);
        v.Get(p)
      else
        v.Get(p)
    }

    /** The first and last positions of every frame can be accessed; the
     *  positions just outside them cannot. */
    lemma AccessBoundaries(frame: int)
      requires Valid()
      ensures Read(frame, 0).Success? && Read(frame, dim - 1).Success?
      ensures Read(frame, -1) == Failure(OutOfBounds) && Read(frame, dim) == Failure(OutOfBounds)
    {
    }

    /** `buffer[frame][p] = x`: one cell of the storage changes, and no more. */
    method Write(frame: int, p: int, x: T) returns (r: Outcome)
      requires Valid()
      modifies buffer
      ensures Valid()
      ensures r.Fail? <==> p < 0 || p >= dim
      ensures buffer[..] == if r.Pass? then old(buffer[..])[SlotOffset(frame, numFrames, dim) + p := x]
                            else old(buffer[..])
      ensures Contents() == WriteFrames(old(Contents()), dim, frame, p, x)
    {
      var v := Frame(frame);
      r := v.Set(p, x);
      if r.Pass? {
        UnflattenUpdate(old(buffer[..]), numFrames, dim, frame % numFrames, p, x);
      }
    }
  }

  /** A 3-frame buffer of 2 values: frames -1 and 5 name slot 2, frame 3 names slot 0. */
  method ExampleWraparound() {
    var b := new FeatureBuffer<int>();
    b.Resize(3, 2);
    var r := b.Write(0, 0, 1);
    r := b.Write(0, 1, 2);
    r := b.Write(1, 0, 3);
    r := b.Write(1, 1, 4);
    r := b.Write(2, 0, 5);
    r := b.Write(2, 1, 6);
    assert b.Read(-1, 0) == Success(5) && b.Read(-1, 1) == Success(6);
    assert b.Read(3, 0) == Success(1) && b.Read(3, 1) == Success(2);
    assert b.Read(5, 0) == Success(5) && b.Read(5, 1) == Success(6);
    assert b.Read(0, 2).Failure? && b.Read(0, -1).Failure?;
  }
}
