/** The array internal calls of icall.c: the constructors of
    multi-dimensional arrays, `GetValue`/`SetValue` with their row-major
    element position, the rank, length and lower-bound queries, and the
    registration of the internal-call table. */
module Icall {
  import opened Bytes
  import Objects

  /** A multi-dimensional array: its element class (and whether that is a
      value type), the rank of its array class, and the array object. */
  datatype MdArray = MdArray(elemClass: nat, elemValuetype: bool, rank: nat, obj: Objects.ArrayObject)

  // ---------------------------------------------------------------------
  // Element position
  // ---------------------------------------------------------------------

  /** The number of elements in the first `k` dimensions. */
  function Count(bounds: seq<Objects.ArrayBound>, k: nat): nat
    requires k <= |bounds|
  {
    if k == 0 then 1 else Count(bounds, k - 1) * bounds[k - 1].length
  }

  /** The lower bound of a dimension as managed code sees it (`gint32`). */
  function Lower(b: Objects.ArrayBound): int
  {
    Signed32(b.lowerBound)
  }

  /** Every index lies inside its dimension. */
  predicate InRange(ind: seq<I32>, bounds: seq<Objects.ArrayBound>)
  {
    |ind| == |bounds|
    && forall i :: 0 <= i < |ind| ==> Lower(bounds[i]) <= ind[i] < Lower(bounds[i]) + bounds[i].length
  }

  /** The row-major position of the element over the first `k`
      dimensions, in unbounded arithmetic. */
  function RowMajor(ind: seq<I32>, bounds: seq<Objects.ArrayBound>, k: nat): int
    requires 1 <= k <= |ind| && k <= |bounds|
  {
    if k == 1 then ind[0] - Lower(bounds[0])
    else RowMajor(ind, bounds, k - 1) * bounds[k - 1].length + ind[k - 1] - Lower(bounds[k - 1])
  }

  /** In-range indices give a position inside the element storage. */
  lemma {:induction false} RowMajorInside(ind: seq<I32>, bounds: seq<Objects.ArrayBound>, k: nat)
    requires InRange(ind, bounds) && 1 <= k <= |bounds|
    ensures 0 <= RowMajor(ind, bounds, k) < Count(bounds, k)
  {
    if k == 1 {
      assert Count(bounds, 1) == Count(bounds, 0) * bounds[0].length;
    } else {
      RowMajorInside(ind, bounds, k - 1);
      var a := RowMajor(ind, bounds, k - 1);
      var c := Count(bounds, k - 1);
      var len := bounds[k - 1].length;
      var d := ind[k - 1] - Lower(bounds[k - 1]);
      assert 0 <= d < len;
      assert RowMajor(ind, bounds, k) == a * len + d;
      assert Count(bounds, k) == c * len;
      DigitBound(a, c, d, len);
    }
  }

  /** A digit appended below a number under `c` gives a number under
      `c * len`. */
  lemma DigitBound(a: int, c: int, d: int, len: int)
    requires 0 <= a < c && 0 <= d < len
    ensures 0 <= a * len + d < c * len
  {
    MulLe(a, c - 1, len);
    assert (c - 1) * len == c * len - len;
  }

  /** `a * len + d` determines `a` and `d` when `0 <= d < len`. */
  lemma QuotRemUnique(a1: int, d1: int, a2: int, d2: int, len: int)
    requires 0 <= d1 < len && 0 <= d2 < len && a1 * len + d1 == a2 * len + d2
    ensures a1 == a2 && d1 == d2
  {
    if a1 < a2 {
      MulLe(a1 + 1, a2, len);
    } else if a2 < a1 {
      MulLe(a2 + 1, a1, len);
    }
  }

  /** Distinct in-range index tuples get distinct positions: no two
      elements share storage. */
  lemma {:induction false} RowMajorInjective(ind1: seq<I32>, ind2: seq<I32>, bounds: seq<Objects.ArrayBound>, k: nat)
    requires InRange(ind1, bounds) && InRange(ind2, bounds) && 1 <= k <= |bounds|
    requires RowMajor(ind1, bounds, k) == RowMajor(ind2, bounds, k)
    ensures ind1[..k] == ind2[..k]
  {
    if k > 1 {
      var len := bounds[k - 1].length;
      RowMajorInside(ind1, bounds, k - 1);
      RowMajorInside(ind2, bounds, k - 1);
      QuotRemUnique(RowMajor(ind1, bounds, k - 1), ind1[k - 1] - Lower(bounds[k - 1]),
                    RowMajor(ind2, bounds, k - 1), ind2[k - 1] - Lower(bounds[k - 1]), len);
      RowMajorInjective(ind1, ind2, bounds, k - 1);
      assert ind1[..k] == ind1[..k - 1] + [ind1[k - 1]];
      assert ind2[..k] == ind2[..k - 1] + [ind2[k - 1]];
    }
  }

  /** The position loop of `GetValue` and `SetValue`: `pos` starts at the
      first index minus its lower bound and takes each later dimension as
      `pos * length + index - lower_bound`, all in 32-bit arithmetic. */
  method ElementPosition(ind: seq<I32>, bounds: seq<Objects.ArrayBound>) returns (pos: I32)
    requires 1 <= |bounds| == |ind|
    ensures pos == Signed32(Wrap32(RowMajor(ind, bounds, |bounds|)))
  {
    var first := ind[0] - bounds[0].lowerBound;
    WrapMulAdd(0, 0, 0, first, ind[0] - Lower(bounds[0]));
    pos := Signed32(Wrap32(first));
    var i := 1;
    while i < |bounds|
      invariant 1 <= i <= |bounds|
      invariant Wrap32(pos) == Wrap32(RowMajor(ind, bounds, i))
    {
      var next := pos * bounds[i].length + (ind[i] - bounds[i].lowerBound);
      PositionStep(pos, ind, bounds, i);
      pos := Signed32(Wrap32(next));
      i := i + 1;
    }
  }

  lemma PositionStep(pos: int, ind: seq<I32>, bounds: seq<Objects.ArrayBound>, i: nat)
    requires 1 <= i < |bounds| == |ind| && Wrap32(pos) == Wrap32(RowMajor(ind, bounds, i))
    ensures Wrap32(pos * bounds[i].length + (ind[i] - bounds[i].lowerBound)) == Wrap32(RowMajor(ind, bounds, i + 1))
  {
    var len := bounds[i].length;
    WrapMulAdd(pos, RowMajor(ind, bounds, i), len, ind[i] - bounds[i].lowerBound, ind[i] - Lower(bounds[i]));
    assert RowMajor(ind, bounds, i + 1) == RowMajor(ind, bounds, i) * len + (ind[i] - Lower(bounds[i]));
  }

  /** With in-range indices and fewer than 2^31 elements, the 32-bit loop
      computes the exact row-major position. */
  lemma PositionExact(ind: seq<I32>, bounds: seq<Objects.ArrayBound>)
    requires InRange(ind, bounds) && 1 <= |bounds| && Count(bounds, |bounds|) <= 0x8000_0000
    ensures Signed32(Wrap32(RowMajor(ind, bounds, |bounds|))) == RowMajor(ind, bounds, |bounds|)
    ensures 0 <= RowMajor(ind, bounds, |bounds|) < Count(bounds, |bounds|)
  {
    RowMajorInside(ind, bounds, |bounds|);
  }

  // ---------------------------------------------------------------------
  // GetValue and SetValue
  // ---------------------------------------------------------------------

  /** The array is laid out as its class says: one bound per dimension,
      at least one dimension, element storage whose size fits in `int`,
      storage for every element, and reference elements one pointer wide. */
  predicate ArrayValid(a: MdArray)
  {
    a.rank >= 1 && |a.obj.bounds| == a.rank && a.obj.elemSize >= 1
    && Count(a.obj.bounds, a.rank) <= 0x8000_0000
    && Count(a.obj.bounds, a.rank) * a.obj.elemSize <= 0x8000_0000
    && Count(a.obj.bounds, a.rank) * a.obj.elemSize <= |a.obj.vector|
    && (!a.elemValuetype ==> a.obj.elemSize == 4)
  }

  /** The element's storage lies inside the vector. */
  lemma SlotInside(a: MdArray, pos: int)
    requires ArrayValid(a) && 0 <= pos < Count(a.obj.bounds, a.rank)
    ensures 0 <= pos * a.obj.elemSize && pos * a.obj.elemSize + a.obj.elemSize <= |a.obj.vector|
  {
    MulLe(pos + 1, Count(a.obj.bounds, a.rank), a.obj.elemSize);
    assert (pos + 1) * a.obj.elemSize == pos * a.obj.elemSize + a.obj.elemSize;
  }

  /** An element read from an array: a box holding a value-type element,
      or the object reference stored in a reference-type element. */
  datatype Element = BoxedValue(box: Objects.Boxed) | Reference(addr: U32)

  /** An object passed to `SetValue`: its address, its class and the bytes
      after its header. */
  datatype ObjectRef = ObjectRef(addr: U32, klass: nat, payload: seq<Byte>)

  /** The index array must be one-dimensional with one index per
      dimension of the array. */
  function IndexCheck(a: MdArray, idxRank: nat, idxs: seq<I32>): (r: Result<()>)
    ensures r.Ok? <==> idxRank == 1 && |idxs| == a.rank
  {
    if idxRank != 1 then Err("assertion failed: ic->rank == 1")
    else if |idxs| != a.rank then Err("assertion failed: io->bounds [0].length == ac->rank")
    else Ok(())
  }

  /** The element whose storage starts at byte `off`: the element's bytes
      boxed with the element class for a value type, the pointer stored
      there otherwise. */
  function ElementAt(a: MdArray, off: nat): Element
    requires off + a.obj.elemSize <= |a.obj.vector| && (!a.elemValuetype ==> a.obj.elemSize == 4)
  {
    var es := a.obj.elemSize;
    if a.elemValuetype then BoxedValue(Objects.Boxed(a.elemClass, a.obj.vector[off..off + es]))
    else Reference(Read32(a.obj.vector, off))
  }

  /** An element depends only on its own bytes. */
  lemma ElementAtSameBytes(a: MdArray, b: MdArray, off: nat)
    requires off + a.obj.elemSize <= |a.obj.vector| && (!a.elemValuetype ==> a.obj.elemSize == 4)
    requires b == a.(obj := b.obj) && b.obj.elemSize == a.obj.elemSize && |b.obj.vector| == |a.obj.vector|
    requires var es := a.obj.elemSize; b.obj.vector[off..off + es] == a.obj.vector[off..off + es]
    ensures ElementAt(b, off) == ElementAt(a, off)
  {
    var es := a.obj.elemSize;
    if !a.elemValuetype {
      Read32Slice(b.obj.vector, off, a.obj.vector[off..off + 4]);
      Read32Slice(a.obj.vector, off, a.obj.vector[off..off + 4]);
    }
  }

  /** The byte offset `pos * esize` the accessors add to the vector: the
      32-bit position times the element size, again in `gint32`
      arithmetic. Nothing compares the indices with the bounds, so an index
      outside its dimension addresses another element or memory outside
      the storage. */
  function Offset(a: MdArray, idxs: seq<I32>): I32
    requires ArrayValid(a) && |idxs| == a.rank
  {
    Signed32(Wrap32(Signed32(Wrap32(RowMajor(idxs, a.obj.bounds, a.rank))) * a.obj.elemSize))
  }

  /** The addressed element lies inside the vector. */
  predicate InStorage(a: MdArray, idxs: seq<I32>)
    requires ArrayValid(a) && |idxs| == a.rank
  {
    0 <= Offset(a, idxs) && Offset(a, idxs) + a.obj.elemSize <= |a.obj.vector|
  }

  /** `ves_icall_System_Array_GetValue`: after the index checks, the
      element at the offset the indices compute. An offset outside the
      vector is a read of memory the array does not own, reported here as
      an error. */
  function GetValue(a: MdArray, idxRank: nat, idxs: seq<I32>): (r: Result<Element>)
    requires ArrayValid(a)
    ensures r.Ok? <==> IndexCheck(a, idxRank, idxs).Ok? && InStorage(a, idxs)
    ensures r.Ok? ==> r.value == ElementAt(a, Offset(a, idxs))
  {
    if IndexCheck(a, idxRank, idxs).Err? then Err(IndexCheck(a, idxRank, idxs).msg)
    else if !InStorage(a, idxs) then Err("element outside the array storage")
    else Ok(ElementAt(a, Offset(a, idxs)))
  }

  /** The position of in-range indices, with the facts the accessors need. */
  function Position(a: MdArray, idxs: seq<I32>): (p: nat)
    requires ArrayValid(a) && |idxs| == a.rank && InRange(idxs, a.obj.bounds)
    ensures p == RowMajor(idxs, a.obj.bounds, a.rank) && p < Count(a.obj.bounds, a.rank)
    ensures 0 <= p * a.obj.elemSize && p * a.obj.elemSize + a.obj.elemSize <= |a.obj.vector|
  {
    PositionExact(idxs, a.obj.bounds);
    var p := RowMajor(idxs, a.obj.bounds, a.rank);
    SlotInside(a, p);
    p
  }

  /** For in-range indices the 32-bit offset is exact: it is the start of
      the element's slot, inside the vector. */
  lemma OffsetOfPosition(a: MdArray, idxs: seq<I32>)
    requires ArrayValid(a) && |idxs| == a.rank && InRange(idxs, a.obj.bounds)
    ensures Offset(a, idxs) == Position(a, idxs) * a.obj.elemSize
    ensures InStorage(a, idxs)
  {
    var p := Position(a, idxs);
    var es := a.obj.elemSize;
    PositionExact(idxs, a.obj.bounds);
    assert Signed32(Wrap32(RowMajor(idxs, a.obj.bounds, a.rank))) == p;
    MulLe(p + 1, Count(a.obj.bounds, a.rank), es);
    assert (p + 1) * es == p * es + es;
    var off := p * es;
    assert 0 <= off < 0x8000_0000;
    WrapSmall(off);
    assert Offset(a, idxs) == Signed32(Wrap32(off));
  }

  /** In-range indices always pass and read the element in their
      row-major slot. */
  lemma GetValueInRange(a: MdArray, idxs: seq<I32>)
    requires ArrayValid(a) && |idxs| == a.rank && InRange(idxs, a.obj.bounds)
    ensures GetValue(a, 1, idxs) == Ok(ElementAt(a, Position(a, idxs) * a.obj.elemSize))
  {
    OffsetOfPosition(a, idxs);
  }

  /** Without a bounds check, a two-dimensional index one past the end of
      its row reads the first element of the next row. */
  lemma PastRowEndAliases(a: MdArray, i: I32, j: I32)
    requires ArrayValid(a) && a.rank == 2
    requires j == Lower(a.obj.bounds[1]) + a.obj.bounds[1].length && i + 1 < 0x8000_0000
    ensures GetValue(a, 1, [i, j]) == GetValue(a, 1, [i + 1, Lower(a.obj.bounds[1])])
  {
    var b := a.obj.bounds;
    assert RowMajor([i, j], b, 2) == (i - Lower(b[0])) * b[1].length + b[1].length;
    assert RowMajor([i + 1, Lower(b[1])], b, 2) == (i + 1 - Lower(b[0])) * b[1].length;
  }

  /** `ves_icall_System_Array_SetValue`: after the index checks the value's
      class must be the element class; a value-type element receives the
      value's `elemSize` payload bytes, a reference-type element the value's
      address, at the offset the indices compute. An offset outside the
      vector is a write to memory the array does not own, reported here as
      an error. */
  function SetValue(a: MdArray, value: ObjectRef, idxRank: nat, idxs: seq<I32>): (r: Result<MdArray>)
    requires ArrayValid(a)
    requires a.elemValuetype ==> |value.payload| >= a.obj.elemSize
    ensures r.Ok? <==> IndexCheck(a, idxRank, idxs).Ok? && value.klass == a.elemClass && InStorage(a, idxs)
    ensures r.Ok? ==> ArrayValid(r.value) && r.value.obj.bounds == a.obj.bounds
    ensures r.Ok? ==> r.value == a.(obj := r.value.obj) && |r.value.obj.vector| == |a.obj.vector|
    ensures r.Ok? ==> var off := Offset(a, idxs);
      r.value.obj.vector[off..off + a.obj.elemSize] == StoredBytes(a, value)
      && forall k :: 0 <= k < |a.obj.vector| && !(off <= k < off + a.obj.elemSize) ==> r.value.obj.vector[k] == a.obj.vector[k]
  {
    if IndexCheck(a, idxRank, idxs).Err? then Err(IndexCheck(a, idxRank, idxs).msg)
    else if value.klass != a.elemClass then Err("assertion failed: ac->element_class == vo->obj.klass")
    else if !InStorage(a, idxs) then Err("element outside the array storage")
    else Ok(a.(obj := a.obj.(vector := Overwrite(a.obj.vector, Offset(a, idxs), StoredBytes(a, value)))))
  }

  lemma OverwriteRead(s: seq<Byte>, p: nat, w: seq<Byte>, q: nat, n: nat)
    requires p + |w| <= |s| && q + n <= |s|
    ensures q == p && n == |w| ==> Overwrite(s, p, w)[q..q + n] == w
    ensures q + n <= p || p + |w| <= q ==> Overwrite(s, p, w)[q..q + n] == s[q..q + n]
  {
  }

  /** Two different element positions have storage that does not
      overlap. */
  lemma SlotsApart(p: nat, q: nat, es: nat)
    requires p != q
    ensures q * es + es <= p * es || p * es + es <= q * es
  {
    if q < p {
      MulLe(q + 1, p, es);
    } else {
      MulLe(p + 1, q, es);
    }
  }

  /** Overwriting one slot leaves a different slot's bytes alone. */
  lemma SlotUntouched(s: seq<Byte>, p: nat, w: seq<Byte>, q: nat, es: nat)
    requires p != q && |w| == es && p * es + es <= |s| && q * es + es <= |s|
    ensures Overwrite(s, p * es, w)[q * es..q * es + es] == s[q * es..q * es + es]
  {
    SlotsApart(p, q, es);
    OverwriteRead(s, p * es, w, q * es, es);
  }

  /** The bytes `SetValue` writes into the element's storage. */
  function StoredBytes(a: MdArray, value: ObjectRef): (r: seq<Byte>)
    requires ArrayValid(a) && (a.elemValuetype ==> |value.payload| >= a.obj.elemSize)
    ensures |r| == a.obj.elemSize
  {
    if a.elemValuetype then value.payload[..a.obj.elemSize] else LE32(value.addr)
  }

  /** With in-range indices `SetValue` succeeds and overwrites exactly the
      element's slot. */
  lemma SetValueWrites(a: MdArray, value: ObjectRef, idxs: seq<I32>)
    requires ArrayValid(a) && |idxs| == a.rank && InRange(idxs, a.obj.bounds) && value.klass == a.elemClass
    requires a.elemValuetype ==> |value.payload| >= a.obj.elemSize
    ensures SetValue(a, value, 1, idxs).Ok?
    ensures SetValue(a, value, 1, idxs).value.obj.vector
      == Overwrite(a.obj.vector, Position(a, idxs) * a.obj.elemSize, StoredBytes(a, value))
  {
    OffsetOfPosition(a, idxs);
  }

  /** Setting an element and reading it back gives the value that was
      stored: its payload in a box, or its address. */
  lemma GetValueSetValue(a: MdArray, value: ObjectRef, idxs: seq<I32>)
    requires ArrayValid(a) && |idxs| == a.rank && InRange(idxs, a.obj.bounds)
    requires value.klass == a.elemClass
    requires a.elemValuetype ==> |value.payload| >= a.obj.elemSize
    ensures SetValue(a, value, 1, idxs).Ok?
    ensures var b := SetValue(a, value, 1, idxs).value;
      GetValue(b, 1, idxs) == Ok(if a.elemValuetype then BoxedValue(Objects.Boxed(a.elemClass, value.payload[..a.obj.elemSize]))
                                 else Reference(value.addr))
  {
    SetValueWrites(a, value, idxs);
    var b := SetValue(a, value, 1, idxs).value;
    var es := a.obj.elemSize;
    var p := Position(a, idxs);
    var bytes := StoredBytes(a, value);
    OverwriteRead(a.obj.vector, p * es, bytes, p * es, es);
    assert b.obj.vector[p * es..p * es + es] == bytes;
    assert Position(b, idxs) == p;
    GetValueInRange(b, idxs);
    if !a.elemValuetype {
      Read32Slice(b.obj.vector, p * es, LE32(value.addr));
      Read32OfLE32(value.addr);
    }
  }

  /** Different in-range index tuples name different slots. */
  lemma DistinctPositions(a: MdArray, idxs: seq<I32>, other: seq<I32>)
    requires ArrayValid(a) && |idxs| == a.rank && InRange(idxs, a.obj.bounds) && InRange(other, a.obj.bounds)
    requires other != idxs
    ensures Position(a, idxs) != Position(a, other)
  {
    assert idxs == idxs[..a.rank] && other == other[..a.rank];
    if Position(a, idxs) == Position(a, other) {
      RowMajorInjective(idxs, other, a.obj.bounds, a.rank);
    }
  }

  /** Setting an element leaves every other in-range element as it was. */
  lemma SetValueFrame(a: MdArray, value: ObjectRef, idxs: seq<I32>, other: seq<I32>)
    requires ArrayValid(a) && |idxs| == a.rank && InRange(idxs, a.obj.bounds) && InRange(other, a.obj.bounds)
    requires value.klass == a.elemClass && other != idxs
    requires a.elemValuetype ==> |value.payload| >= a.obj.elemSize
    ensures SetValue(a, value, 1, idxs).Ok?
    ensures var b := SetValue(a, value, 1, idxs).value;
      GetValue(b, 1, other) == GetValue(a, 1, other)
  {
    SetValueWrites(a, value, idxs);
    var b := SetValue(a, value, 1, idxs).value;
    var es := a.obj.elemSize;
    var p := Position(a, idxs);
    var q := Position(a, other);
    DistinctPositions(a, idxs, other);
    SlotInside(a, p);
    SlotInside(a, q);
    SlotUntouched(a.obj.vector, p, StoredBytes(a, value), q, es);
    assert Position(b, other) == q;
    GetValueInRange(a, other);
    GetValueInRange(b, other);
    ElementAtSameBytes(a, b, q * es);
  }

  // ---------------------------------------------------------------------
  // Constructors and queries
  // ---------------------------------------------------------------------

  /** The product of the lengths in 32-bit arithmetic, as the constructors
      compute it. */
  function LengthProduct(lengths: seq<I32>): (r: I32)
  {
    if |lengths| == 0 then 1 else Signed32(Wrap32(LengthProduct(lengths[..|lengths| - 1]) * lengths[|lengths| - 1]))
  }

  /** The storage size `len * esize` as handed to the allocator. */
  function StorageSize(len: I32, elemSize: nat): nat
  {
    Wrap32(len * elemSize)
  }

  /** `ves_icall_array_ctor`: the array class has rank at least 1 and one
      length per dimension is passed; each bound gets its length and lower
      bound 0, and the storage is the product of the lengths times the
      element size, zeroed. */
  function ArrayCtor(elemClass: nat, elemValuetype: bool, rank: nat, elemSize: nat, lengths: seq<I32>): (r: Result<MdArray>)
    requires |lengths| == rank
    ensures r.Ok? <==> rank >= 1
    ensures r.Ok? ==> r.value.rank == rank && |r.value.obj.bounds| == rank
    ensures r.Ok? ==> (forall i :: 0 <= i < rank ==> r.value.obj.bounds[i] == Objects.ArrayBound(Wrap32(lengths[i]), 0))
    ensures r.Ok? ==> r.value.obj.vector == Zeros(StorageSize(LengthProduct(lengths), elemSize))
  {
    if rank < 1 then Err("assertion failed: ac->rank >= 1")
    else
      var bounds := seq(rank, i requires 0 <= i < rank => Objects.ArrayBound(Wrap32(lengths[i]), 0));
      Ok(MdArray(elemClass, elemValuetype, rank,
                 Objects.ArrayObject(elemSize, bounds, Zeros(StorageSize(LengthProduct(lengths), elemSize)))))
  }

  /** `ves_icall_array_bound_ctor`: the arguments are the `rank` lower
      bounds followed by the `rank` lengths. */
  function ArrayBoundCtor(elemClass: nat, elemValuetype: bool, rank: nat, elemSize: nat, args: seq<I32>): (r: Result<MdArray>)
    requires |args| == 2 * rank
    ensures r.Ok? <==> rank >= 1
    ensures r.Ok? ==> r.value.rank == rank && |r.value.obj.bounds| == rank
    ensures r.Ok? ==> (forall i :: 0 <= i < rank ==> r.value.obj.bounds[i] == Objects.ArrayBound(Wrap32(args[rank + i]), Wrap32(args[i])))
    ensures r.Ok? ==> r.value.obj.vector == Zeros(StorageSize(LengthProduct(args[rank..]), elemSize))
  {
    if rank < 1 then Err("assertion failed: ac->rank >= 1")
    else
      var bounds := seq(rank, i requires 0 <= i < rank => Objects.ArrayBound(Wrap32(args[rank + i]), Wrap32(args[i])));
      Ok(MdArray(elemClass, elemValuetype, rank,
                 Objects.ArrayObject(elemSize, bounds, Zeros(StorageSize(LengthProduct(args[rank..]), elemSize)))))
  }

  /** `ves_icall_System_Array_GetRank`. */
  function GetRank(a: MdArray): (r: int)
    ensures r == a.rank
  {
    a.rank
  }

  /** `ves_icall_System_Array_GetLength`: the stored length, as `gint32`. */
  function GetLength(a: MdArray, dimension: nat): (r: I32)
    requires dimension < |a.obj.bounds|
    ensures Wrap32(r) == a.obj.bounds[dimension].length
  {
    Signed32(a.obj.bounds[dimension].length)
  }

  /** `ves_icall_System_Array_GetLowerBound`: the stored lower bound, as
      `gint32`. */
  function GetLowerBound(a: MdArray, dimension: nat): (r: I32)
    requires dimension < |a.obj.bounds|
    ensures Wrap32(r) == a.obj.bounds[dimension].lowerBound
  {
    Signed32(a.obj.bounds[dimension].lowerBound)
  }

  lemma SignedWrap(x: I32)
    ensures Signed32(Wrap32(x)) == x
  {
  }

  /** The queries give back what the constructors were passed. */
  lemma QueriesAfterBoundCtor(elemClass: nat, elemValuetype: bool, rank: nat, elemSize: nat, args: seq<I32>, d: nat)
    requires |args| == 2 * rank && d < rank
    ensures var a := ArrayBoundCtor(elemClass, elemValuetype, rank, elemSize, args).value;
      GetRank(a) == rank && GetLength(a, d) == args[rank + d] && GetLowerBound(a, d) == args[d]
  {
    SignedWrap(args[rank + d]);
    SignedWrap(args[d]);
  }

  lemma QueriesAfterCtor(elemClass: nat, elemValuetype: bool, rank: nat, elemSize: nat, lengths: seq<I32>, d: nat)
    requires |lengths| == rank && d < rank
    ensures var a := ArrayCtor(elemClass, elemValuetype, rank, elemSize, lengths).value;
      GetRank(a) == rank && GetLength(a, d) == lengths[d] && GetLowerBound(a, d) == 0
  {
    SignedWrap(lengths[d]);
  }

  /** A one-dimensional array made by `mono_new_szarray` reports its length
      and a lower bound of 0. */
  lemma QueriesAfterNewSzArray(elemSize: U32, n: U32)
    requires n < 0x8000_0000
    ensures var a := MdArray(0, false, 1, Objects.NewSzArray(elemSize, n));
      GetLength(a, 0) == n && GetLowerBound(a, 0) == 0
  {
  }

  /** The product of the lengths in unbounded arithmetic. */
  function Product(lengths: seq<I32>): int
  {
    if |lengths| == 0 then 1 else Product(lengths[..|lengths| - 1]) * lengths[|lengths| - 1]
  }

  /** With positive lengths whose product fits, the 32-bit product the
      constructors compute is the exact one. */
  lemma {:induction false} LengthProductExact(lengths: seq<I32>)
    requires forall i :: 0 <= i < |lengths| ==> lengths[i] >= 1
    requires Product(lengths) < 0x8000_0000
    ensures LengthProduct(lengths) == Product(lengths) >= 1
  {
    if |lengths| > 0 {
      var n := |lengths| - 1;
      var init := lengths[..n];
      var last := lengths[n];
      assert forall i :: 0 <= i < |init| ==> init[i] == lengths[i];
      PositiveProduct(init);
      var pi := Product(init);
      assert Product(lengths) == pi * last;
      PosMul(pi, last);
      LengthProductExact(init);
      assert LengthProduct(lengths) == Signed32(Wrap32(LengthProduct(init) * last));
    }
  }

  lemma PosMul(a: int, b: int)
    requires a >= 1 && b >= 1
    ensures a <= a * b && b <= a * b
  {
    MulLe(1, b, a);
    MulLe(1, a, b);
  }

  /** The element count of the bounds a constructor stores is the product
      of the lengths it was passed. */
  lemma {:induction false} CountOfLengths(lengths: seq<I32>, bounds: seq<Objects.ArrayBound>, k: nat)
    requires |bounds| == |lengths| && k <= |lengths|
    requires forall i :: 0 <= i < |lengths| ==> lengths[i] >= 1 && bounds[i].length == Wrap32(lengths[i])
    ensures Count(bounds, k) == Product(lengths[..k])
  {
    if k > 0 {
      CountOfLengths(lengths, bounds, k - 1);
      var prefix := lengths[..k];
      assert prefix[..k - 1] == lengths[..k - 1];
      assert prefix[k - 1] == lengths[k - 1];
      WrapSmall(lengths[k - 1]);
      assert bounds[k - 1].length == lengths[k - 1];
      assert Product(prefix) == Product(lengths[..k - 1]) * lengths[k - 1];
    }
  }

  /** An array made by `ves_icall_array_ctor` from positive lengths whose
      storage fits is well formed: every in-range element has its slot. */
  lemma ArrayCtorValid(elemClass: nat, elemValuetype: bool, rank: nat, elemSize: nat, lengths: seq<I32>)
    requires |lengths| == rank >= 1 && elemSize >= 1 && (!elemValuetype ==> elemSize == 4)
    requires forall i :: 0 <= i < rank ==> lengths[i] >= 1
    requires Product(lengths) * elemSize < 0x8000_0000
    ensures ArrayValid(ArrayCtor(elemClass, elemValuetype, rank, elemSize, lengths).value)
  {
    var a := ArrayCtor(elemClass, elemValuetype, rank, elemSize, lengths).value;
    PositiveProduct(lengths);
    var prod := Product(lengths);
    PosMul(prod, elemSize);
    LengthProductExact(lengths);
    var size := prod * elemSize;
    WrapSmall(size);
    assert StorageSize(LengthProduct(lengths), elemSize) == size;
    assert |a.obj.vector| == prod * elemSize;
    CountOfLengths(lengths, a.obj.bounds, rank);
    assert lengths[..rank] == lengths;
    assert Count(a.obj.bounds, a.rank) == prod;
  }

  lemma {:induction false} PositiveProduct(lengths: seq<I32>)
    requires forall i :: 0 <= i < |lengths| ==> lengths[i] >= 1
    ensures Product(lengths) >= 1
  {
    if |lengths| > 0 {
      var n := |lengths| - 1;
      assert forall i :: 0 <= i < n ==> lengths[..n][i] == lengths[i];
      PositiveProduct(lengths[..n]);
      PosMul(Product(lengths[..n]), lengths[n]);
    }
  }

  // ---------------------------------------------------------------------
  // Registration
  // ---------------------------------------------------------------------

  /** One slot pair of `icall_map`: a name (`None` for the NULL that ends
      the table) and the function registered under it. */
  datatype IcallEntry = IcallEntry(name: Option<string>, fn: nat)

  /** The entries before the first NULL name. */
  function Registered(entries: seq<IcallEntry>): (r: seq<IcallEntry>)
    ensures |r| <= |entries| && r == entries[..|r|]
    ensures forall i :: 0 <= i < |r| ==> r[i].name.Some?
    ensures |r| < |entries| ==> entries[|r|].name.None?
  {
    if |entries| == 0 || entries[0].name.None? then [] else [entries[0]] + Registered(entries[1..])
  }

  /** The internal-call table after registering `entries` in order; a
      later registration of a name replaces an earlier one. */
  function Table(entries: seq<IcallEntry>): map<string, nat>
    requires forall i :: 0 <= i < |entries| ==> entries[i].name.Some?
  {
    if |entries| == 0 then map[]
    else Table(entries[..|entries| - 1])[entries[|entries| - 1].name.value := entries[|entries| - 1].fn]
  }

  /** `mono_init_icall`: registers each (name, function) pair in table
      order until the NULL name. The table must hold its NULL terminator. */
  method InitIcall(entries: seq<IcallEntry>, table: map<string, nat>) returns (r: map<string, nat>, count: nat)
    requires exists i :: 0 <= i < |entries| && entries[i].name.None?
    ensures count == |Registered(entries)| && count < |entries| && entries[count].name.None?
    ensures forall i :: 0 <= i < count ==> entries[i].name.Some? && entries[i].name.value in r
    ensures forall n :: n in r ==> n in table || exists i :: 0 <= i < count && entries[i].name == Some(n)
    ensures r == table + Table(Registered(entries))
  {
    r := table;
    count := 0;
    while entries[count].name.Some?
      invariant count < |entries| && forall i :: 0 <= i < count ==> entries[i].name.Some?
      invariant (exists i :: count <= i < |entries| && entries[i].name.None?)
      invariant r == table + Table(entries[..count])
      invariant forall i :: 0 <= i < count ==> entries[i].name.value in r
      invariant forall n :: n in r ==> n in table || exists i :: 0 <= i < count && entries[i].name == Some(n)
      decreases |entries| - count
    {
      assert entries[..count + 1][..count] == entries[..count];
      r := r[entries[count].name.value := entries[count].fn];
      count := count + 1;
    }
    RegisteredPrefix(entries, count);
  }

  lemma {:induction false} RegisteredPrefix(entries: seq<IcallEntry>, k: nat)
    requires k < |entries| && entries[k].name.None? && forall i :: 0 <= i < k ==> entries[i].name.Some?
    ensures Registered(entries) == entries[..k]
  {
    if k > 0 {
      RegisteredPrefix(entries[1..], k - 1);
      assert entries[..k] == [entries[0]] + entries[1..][..k - 1];
    }
  }

  /** The names of `icall_map`, in table order; the function of entry `i`
      is numbered `i`. */
  const ICALL_NAMES: seq<string> := [
    "__array_ctor", "__array_bound_ctor", "System.Array::GetValue", "System.Array::SetValue",
    "System.Array::GetRank", "System.Array::GetLength", "System.Array::GetLowerBound",
    "System.Array::CreateInstance", "System.Object::MemberwiseClone", "System.String::IsInterned",
    "System.String::Intern", "System.AppDomain::getCurDomain", "System.AppDomain::defineAssembly",
    "System.Reflection.Emit.ModuleBuilder::defineType", "System.Reflection.Emit.AssemblyBuilder::defineModule",
    "System.Reflection.Emit.AssemblyBuilder::getDataChunk", "System.Reflection.Emit.TypeBuilder::defineMethod",
    "System.Threading.Thread::Thread_internal", "System.Threading.Thread::Start_internal",
    "System.Threading.Thread::Sleep_internal", "System.Threading.Thread::Schedule_internal",
    "System.Threading.Thread::CurrentThread_internal", "System.Threading.Thread::Join_internal",
    "System.Threading.Thread::DataSlot_register", "System.Threading.Thread::DataSlot_store",
    "System.Threading.Thread::DataSlot_retrieve", "System.LocalDataStoreSlot::DataSlot_unregister"]

  function IcallMap(): (r: seq<IcallEntry>)
    ensures |r| == |ICALL_NAMES| + 1 && r[|ICALL_NAMES|].name.None?
    ensures forall i :: 0 <= i < |ICALL_NAMES| ==> r[i] == IcallEntry(Some(ICALL_NAMES[i]), i)
  {
    seq(|ICALL_NAMES|, i requires 0 <= i < |ICALL_NAMES| => IcallEntry(Some(ICALL_NAMES[i]), i)) + [IcallEntry(None, 0)]
  }

  /** Every name of the table is registered, all 27 of them. */
  lemma IcallMapRegistersAll()
    ensures Registered(IcallMap()) == IcallMap()[..27]
  {
    RegisteredPrefix(IcallMap(), 27);
  }
}
