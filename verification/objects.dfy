/** The object model of object.c: strings (widening a C string to UTF-16
    and narrowing it back), the `ldstr` string table with its blob hash
    and equality, single-dimension arrays and boxed value types. Strings
    are held as their sequence of UTF-16 units; the target is 32-bit
    little-endian with a signed `char`. */
module Objects {
  import opened Bytes
  import Metadata
  import Classes

  // ---------------------------------------------------------------------
  // Strings
  // ---------------------------------------------------------------------

  /** `mono_new_string`: one UTF-16 unit per byte of the C string up to
      its NUL. The byte is read as a signed `char`, so a byte from 0x80 up
      is sign-extended into the high byte of its unit. */
  function NewString(text: seq<Byte>): (r: seq<U16>)
    ensures |r| == CStrLen(text)
    ensures forall i :: 0 <= i < |r| ==> r[i] % 0x100 == text[i]
    ensures forall i :: 0 <= i < |r| ==> (text[i] < 0x80 ==> r[i] == text[i]) && (text[i] >= 0x80 ==> r[i] == 0xFF00 + text[i] as int)
  {
    var n := CStrLen(text);
    seq(n, i requires 0 <= i < n => Wrap16(Signed8(text[i])))
  }

  /** `mono_string_to_utf8`: the low byte of each unit, in order (an empty
      string gives the empty C string). The terminating NUL the runtime
      appends is not part of the result. */
  function ToUtf8(units: seq<U16>): (r: seq<Byte>)
    ensures |r| == |units|
    ensures forall i :: 0 <= i < |r| ==> r[i] == units[i] % 0x100
  {
    if |units| == 0 then [] else seq(|units|, i requires 0 <= i < |units| => units[i] % 0x100)
  }

  /** Narrowing a string made from a C string gives back the C string's
      bytes, whatever their values: the sign extension only touches the
      high byte. */
  lemma ToUtf8NewString(text: seq<Byte>)
    ensures ToUtf8(NewString(text)) == text[..CStrLen(text)]
  {
    var a := ToUtf8(NewString(text));
    var b := text[..CStrLen(text)];
    assert |a| == |b|;
    forall i | 0 <= i < |a|
      ensures a[i] == b[i]
    {
      assert a[i] == NewString(text)[i] % 0x100;
    }
  }

  /** Widening the narrowed form of an ASCII string without NUL units gives
      the string back. */
  lemma NewStringToUtf8(units: seq<U16>)
    requires forall i :: 0 <= i < |units| ==> 0 < units[i] < 0x80
    ensures NewString(ToUtf8(units) + [0]) == units
  {
    var t := ToUtf8(units) + [0];
    assert forall i :: 0 <= i < |units| ==> t[i] == units[i] && t[i] != 0;
    CStrLenAt(t, |units|);
  }

  lemma CStrLenAt(s: seq<Byte>, n: nat)
    requires n < |s| && s[n] == 0 && forall i :: 0 <= i < n ==> s[i] != 0
    ensures CStrLen(s) == n
  {
  }

  // ---------------------------------------------------------------------
  // User-string blobs: hash and equality
  // ---------------------------------------------------------------------

  /** The start of the payload of the blob at `p` (after its compressed
      size), when the size can be read. */
  function BlobStart(heap: seq<Byte>, p: nat): (r: Option<nat>)
    ensures r.Some? ==> r.value <= |heap|
  {
    if p < |heap| && p + Metadata.EncodedWidth(heap[p]) <= |heap| then
      Some(Metadata.DecodeValue(heap, p).next)
    else None
  }

  /** The payload of the blob at `p`: its compressed size, then that many
      bytes; `None` when the blob runs past the heap. */
  function BlobAt(heap: seq<Byte>, p: nat): (r: Option<seq<Byte>>)
    ensures r.Some? ==> BlobStart(heap, p).Some?
    ensures r.Some? ==> var start := BlobStart(heap, p).value;
      start + |r.value| <= |heap| && r.value == heap[start..start + |r.value|]
      && |r.value| == Metadata.DecodeValue(heap, p).value
  {
    if p < |heap| && p + Metadata.EncodedWidth(heap[p]) <= |heap| then
      var d := Metadata.DecodeValue(heap, p);
      if d.next + d.value <= |heap| then Some(heap[d.next..d.next + d.value]) else None
    else None
  }

  /** `ldstr_equal`: the decoded sizes are equal and so are that many
      payload bytes. */
  function LdstrEqual(heap1: seq<Byte>, p1: nat, heap2: seq<Byte>, p2: nat): (r: bool)
    requires BlobAt(heap1, p1).Some? && BlobAt(heap2, p2).Some?
    ensures r <==> BlobAt(heap1, p1).value == BlobAt(heap2, p2).value
  {
    var d1 := Metadata.DecodeValue(heap1, p1);
    var d2 := Metadata.DecodeValue(heap2, p2);
    d1.value == d2.value && heap1[d1.next..d1.next + d1.value] == heap2[d2.next..d2.next + d2.value]
  }

  /** The polynomial the hash computes, with each byte read as a signed
      `char`: c0 * 31^(n-1) + ... + c(n-1). */
  function Poly(cs: seq<Byte>): int
  {
    if |cs| == 0 then 0 else Poly(cs[..|cs| - 1]) * 31 + Signed8(cs[|cs| - 1])
  }

  /** The hash of a blob's payload: the polynomial in `guint` arithmetic,
      returned as an `int`. */
  function HashOf(payload: seq<Byte>): int
  {
    Signed32(Wrap32(Poly(payload)))
  }

  /** One step of `h = (h << 5) - h + c` in `guint` arithmetic agrees with
      the step on the unwrapped value. */
  lemma HashStep(x: int, c: int)
    ensures Wrap32(Wrap32(x) * 31 + c) == Wrap32(x * 31 + c)
  {
    WrapMulAdd(Wrap32(x), x, 31, c, c);
  }

  /** `ldstr_hash` with the empty blob hashing to 0: the loop runs over
      every payload byte. */
  method LdstrHash(heap: seq<Byte>, p: nat) returns (h: int)
    requires BlobAt(heap, p).Some?
    ensures h == HashOf(BlobAt(heap, p).value)
  {
    var payload := BlobAt(heap, p).value;
    var start := BlobStart(heap, p).value;
    var end := start + |payload|;
    var h32: U32 := 0;
    var q := start;
    while q < end
      invariant start <= q <= end
      invariant h32 == Wrap32(Poly(payload[..q - start]))
    {
      assert payload[..q + 1 - start][..q - start] == payload[..q - start];
      HashStep(Poly(payload[..q - start]), Signed8(heap[q]));
      h32 := Wrap32(h32 * 31 + Signed8(heap[q]));
      q := q + 1;
    }
    assert payload[..end - start] == payload;
    h := Signed32(h32);
  }

  /** The value `ldstr_hash` computes as object.c writes it: the hash
      starts from the first byte after the size even when the blob is
      empty, so an empty blob hashes to the byte that follows it. */
  function HashAsWrittenOf(heap: seq<Byte>, start: nat, payload: seq<Byte>): int
  {
    if |payload| == 0 then Signed32(Wrap32(Signed8(ByteAt(heap, start)))) else HashOf(payload)
  }

  method LdstrHashAsWritten(heap: seq<Byte>, p: nat) returns (h: int)
    requires BlobAt(heap, p).Some?
    ensures h == HashAsWrittenOf(heap, BlobStart(heap, p).value, BlobAt(heap, p).value)
  {
    var payload := BlobAt(heap, p).value;
    var start := BlobStart(heap, p).value;
    var end := start + |payload|;
    var h32: U32 := Wrap32(Signed8(ByteAt(heap, start)));
    var q := start + 1;
    if end == start {
      return Signed32(h32);
    }
    assert payload[..1] == [heap[start]];
    assert Poly(payload[..1]) == Signed8(heap[start]);
    while q < end
      invariant start < q <= end
      invariant h32 == Wrap32(Poly(payload[..q - start]))
    {
      assert payload[..q + 1 - start][..q - start] == payload[..q - start];
      HashStep(Poly(payload[..q - start]), Signed8(heap[q]));
      h32 := Wrap32(h32 * 31 + Signed8(heap[q]));
      q := q + 1;
    }
    assert payload[..end - start] == payload;
    h := Signed32(h32);
  }

  /** The hash agrees with the equality: blobs `ldstr_equal` holds for
      hash alike, which is what a hash table needs. */
  lemma EqualBlobsHashAlike(heap1: seq<Byte>, p1: nat, heap2: seq<Byte>, p2: nat)
    requires BlobAt(heap1, p1).Some? && BlobAt(heap2, p2).Some?
    requires LdstrEqual(heap1, p1, heap2, p2)
    ensures HashOf(BlobAt(heap1, p1).value) == HashOf(BlobAt(heap2, p2).value)
  {
  }

  /** As written, two empty blobs that `ldstr_equal` calls equal hash
      differently when different bytes follow them. */
  lemma EmptyBlobsHashApartAsWritten()
    ensures BlobAt([0, 0x41], 0) == Some([]) && BlobAt([0, 0x42], 0) == Some([])
    ensures LdstrEqual([0, 0x41], 0, [0, 0x42], 0)
    ensures HashAsWrittenOf([0, 0x41], 1, []) == 0x41 && HashAsWrittenOf([0, 0x42], 1, []) == 0x42
  {
    assert Metadata.DecodeValue([0, 0x41], 0).next == 1;
    assert Metadata.DecodeValue([0, 0x42], 0).next == 1;
  }

  /** For a non-empty blob the two hashes agree. */
  lemma HashAsWrittenNonEmpty(heap: seq<Byte>, start: nat, payload: seq<Byte>)
    requires |payload| > 0
    ensures HashAsWrittenOf(heap, start, payload) == HashOf(payload)
  {
  }

  // ---------------------------------------------------------------------
  // The ldstr table
  // ---------------------------------------------------------------------

  /** The units of a UTF-16LE byte string, `len >> 1` of them. */
  function Utf16Units(bytes: seq<Byte>): (r: seq<U16>)
    ensures |r| == |bytes| / 2
    ensures forall i :: 0 <= i < |r| ==> r[i] == bytes[2 * i] as int + 0x100 * bytes[2 * i + 1] as int
  {
    var n := |bytes| / 2;
    seq(n, i requires 0 <= i < n => bytes[2 * i] as int + 0x100 * bytes[2 * i + 1] as int)
  }

  /** The bytes of a string's units as they lie in memory
      (`mono_string_chars` on a little-endian target). */
  function Utf16Bytes(units: seq<U16>): (r: seq<Byte>)
    ensures |r| == 2 * |units|
    ensures forall i :: 0 <= i < |units| ==> r[2 * i] == units[i] % 0x100 && r[2 * i + 1] == units[i] / 0x100
  {
    if |units| == 0 then [] else [units[0] % 0x100, units[0] / 0x100] + Utf16Bytes(units[1..])
  }

  /** Reading the units back from their bytes gives the string. */
  lemma Utf16UnitsOfBytes(units: seq<U16>)
    ensures Utf16Units(Utf16Bytes(units)) == units
  {
    var b := Utf16Bytes(units);
    forall i | 0 <= i < |units|
      ensures Utf16Units(b)[i] == units[i]
    {
      assert b[2 * i] == units[i] % 0x100 && b[2 * i + 1] == units[i] / 0x100;
    }
  }

  /** The string objects made so far and the ldstr table, which maps a
      user-string blob (by its payload, as the hash and equality see it)
      to the string object made for it. */
  datatype StringTable = StringTable(strings: seq<seq<U16>>, table: map<seq<Byte>, nat>)

  predicate TableValid(st: StringTable)
  {
    forall k :: k in st.table ==> st.table[k] < |st.strings| && st.strings[st.table[k]] == Utf16Units(k)
  }

  datatype Interned = Interned(state: StringTable, obj: nat)

  /** `mono_ldstr`: the string object already made for an equal blob, or a
      new string of `size >> 1` units copied from the blob, recorded in the
      table. */
  function Ldstr(st: StringTable, heap: seq<Byte>, index: nat): (r: Interned)
    requires TableValid(st) && BlobAt(heap, index).Some?
    ensures TableValid(r.state) && r.obj < |r.state.strings|
    ensures var key := BlobAt(heap, index).value;
      key in r.state.table && r.state.table[key] == r.obj
      && (key in st.table ==> r == Interned(st, st.table[key]))
      && (key !in st.table ==> r.obj == |st.strings| && r.state.strings == st.strings + [Utf16Units(key)]
                               && r.state.table == st.table[key := r.obj])
    ensures r.state.strings[r.obj] == Utf16Units(BlobAt(heap, index).value)
  {
    var key := BlobAt(heap, index).value;
    if key in st.table then Interned(st, st.table[key])
    else Interned(StringTable(st.strings + [Utf16Units(key)], st.table[key := |st.strings|]), |st.strings|)
  }

  /** Loading the same user string twice gives the same object and makes
      no new one; so does loading an equal blob from elsewhere. */
  lemma LdstrMemoised(st: StringTable, heap: seq<Byte>, index: nat, heap2: seq<Byte>, index2: nat)
    requires TableValid(st) && BlobAt(heap, index).Some? && BlobAt(heap2, index2).Some?
    requires LdstrEqual(heap, index, heap2, index2)
    ensures var r := Ldstr(st, heap, index); Ldstr(r.state, heap2, index2) == r
  {
  }

  // ---------------------------------------------------------------------
  // Arrays and boxes
  // ---------------------------------------------------------------------

  /** The bounds of one dimension of an array (both `guint32`). */
  datatype ArrayBound = ArrayBound(length: U32, lowerBound: U32)

  /** An array object: element size, one bound per dimension, and the
      zero-initialised element storage. */
  datatype ArrayObject = ArrayObject(elemSize: nat, bounds: seq<ArrayBound>, vector: seq<Byte>)

  /** `mono_new_szarray`: one dimension of `n` elements from index 0, with
      `n * elemSize` zero bytes of storage, the product taken in `guint32`. */
  function NewSzArray(elemSize: U32, n: U32): (r: ArrayObject)
    ensures r.bounds == [ArrayBound(n, 0)] && r.elemSize == elemSize
    ensures n * elemSize < TWO32 ==> |r.vector| == n * elemSize
    ensures forall i :: 0 <= i < |r.vector| ==> r.vector[i] == 0
  {
    ArrayObject(elemSize, [ArrayBound(n, 0)], Zeros(Wrap32(n * elemSize)))
  }

  /** A boxed value: its class and the bytes after the object header. */
  datatype Boxed = Boxed(klass: nat, payload: seq<Byte>)

  /** `mono_value_box`: only value types can be boxed; the box holds the
      first `instance_size - sizeof (MonoObject)` bytes of the value. */
  function ValueBox(store: seq<Classes.ClassInfo>, klass: nat, value: seq<Byte>): (r: Result<Boxed>)
    requires klass < |store| && store[klass].instanceSize >= Classes.OBJECT_HEADER_SIZE
    requires |value| >= store[klass].instanceSize - Classes.OBJECT_HEADER_SIZE
    ensures r.Ok? <==> store[klass].valuetype
    ensures r.Ok? ==> r.value.klass == klass
    ensures r.Ok? ==> |r.value.payload| + Classes.OBJECT_HEADER_SIZE == store[klass].instanceSize
    ensures r.Ok? ==> r.value.payload == value[..|r.value.payload|]
  {
    if !store[klass].valuetype then Err("assertion failed: class->valuetype")
    else Ok(Boxed(klass, value[..store[klass].instanceSize - Classes.OBJECT_HEADER_SIZE]))
  }

  /** Unboxing reads the payload back. */
  function Unbox(b: Boxed): seq<Byte>
  {
    b.payload
  }

  /** Boxing a value of exactly the class's payload size and unboxing it
      gives the value back. */
  lemma UnboxValueBox(store: seq<Classes.ClassInfo>, klass: nat, value: seq<Byte>)
    requires klass < |store| && store[klass].valuetype
    requires |value| + Classes.OBJECT_HEADER_SIZE == store[klass].instanceSize
    ensures ValueBox(store, klass, value).Ok? && Unbox(ValueBox(store, klass, value).value) == value
  {
  }
}
