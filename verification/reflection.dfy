/** Writing metadata for a dynamically built assembly: the interning
    `#Strings` heap, append-only streams, tiny method headers, TypeRef rows
    and the table-stream header (valid mask and heap-size flags). */
module Reflection {
  import opened Bytes
  import Metadata

  /** `CLI_H_SIZE`: the CLI header that precedes the code in the text section. */
  const CLI_H_SIZE := 136

  // ---------------------------------------------------------------------
  // The string heap
  // ---------------------------------------------------------------------

  /** `MonoStringHeap`: the heap bytes (its `index` is their length) and the
      hash from each inserted string to its offset. */
  datatype StringHeap = StringHeap(data: seq<Byte>, hash: map<seq<Byte>, nat>)

  /** Every hashed string sits NUL-terminated at its recorded offset. */
  predicate HeapValid(h: StringHeap)
  {
    forall s :: s in h.hash ==> NoNul(s) && StoredAt(h.data, h.hash[s], s)
  }

  /** `s` followed by a NUL occupies `data` from offset `off`. */
  predicate StoredAt(data: seq<Byte>, off: nat, s: seq<Byte>)
  {
    off + |s| < |data| && data[off..off + |s|] == s && data[off + |s|] == 0
  }

  lemma StoredAtExtend(data: seq<Byte>, ext: seq<Byte>, off: nat, s: seq<Byte>)
    requires StoredAt(data, off, s)
    ensures StoredAt(data + ext, off, s)
  {
    assert (data + ext)[off..off + |s|] == data[off..off + |s|];
  }

  /** The C string that starts at offset `i` of `data` (empty past its end). */
  function CStringAt(data: seq<Byte>, i: nat): seq<Byte>
  {
    if i <= |data| then data[i..][..CStrLen(data[i..])] else []
  }

  /** Reading the heap at a hashed string's offset gives that string back. */
  lemma ReadBack(h: StringHeap, s: seq<Byte>)
    requires HeapValid(h) && s in h.hash
    ensures CStringAt(h.data, h.hash[s]) == s
  {
    var i := h.hash[s];
    assert StoredAt(h.data, i, s);
    var tail := h.data[i..];
    assert tail[..|s|] == s;
    assert tail[|s|] == 0;
    CStrLenIs(tail, |s|);
  }

  lemma CStrLenIs(t: seq<Byte>, n: nat)
    requires n < |t| && t[n] == 0 && NoNul(t[..n])
    ensures CStrLen(t) == n
  {
    forall j | 0 <= j < n
      ensures t[j] != 0
    {
      assert t[..n][j] == t[j];
    }
  }

  datatype Inserted = Inserted(heap: StringHeap, idx: nat)

  /** `string_heap_insert`: a string already in the hash gives its old
      offset and leaves the heap alone; a new one is appended with its NUL
      at the old end of the heap, which then grows by `strlen + 1`. */
  function StringHeapInsert(h: StringHeap, s: seq<Byte>): (r: Inserted)
    requires HeapValid(h) && NoNul(s)
    ensures HeapValid(r.heap)
    ensures s in r.heap.hash && r.heap.hash[s] == r.idx && r.idx < |r.heap.data|
    ensures s in h.hash ==> r == Inserted(h, h.hash[s])
    ensures s !in h.hash ==> r.idx == |h.data| && r.heap.data == h.data + s + [0]
    ensures forall k :: k in h.hash ==> k in r.heap.hash && r.heap.hash[k] == h.hash[k]
    ensures r.heap.hash.Keys == h.hash.Keys + {s}
  {
    if s in h.hash then Inserted(h, h.hash[s])
    else
      AppendKeepsValid(h, s);
      Inserted(StringHeap(h.data + s + [0], h.hash[s := |h.data|]), |h.data|)
  }

  lemma AppendKeepsValid(h: StringHeap, s: seq<Byte>)
    requires HeapValid(h) && NoNul(s)
    ensures HeapValid(StringHeap(h.data + s + [0], h.hash[s := |h.data|]))
  {
    var data := h.data + s + [0];
    var hash := h.hash[s := |h.data|];
    forall k | k in hash
      ensures NoNul(k) && StoredAt(data, hash[k], k)
    {
      if k == s {
        assert data[|h.data|..|h.data| + |s|] == s;
      } else {
        StoredAtExtend(h.data, s + [0], h.hash[k], k);
        assert h.data + (s + [0]) == data;
      }
    }
  }

  /** `string_heap_init`: an empty heap into which "" has been inserted. */
  function StringHeapInit(): (r: StringHeap)
    ensures HeapValid(r)
    ensures r.hash == map[[] := 0] && r.data == [0]
  {
    StringHeapInsert(StringHeap([], map[]), []).heap
  }

  /** Inserting the same string twice yields the same offset and adds nothing
      the second time. */
  lemma InsertIdempotent(h: StringHeap, s: seq<Byte>)
    requires HeapValid(h) && NoNul(s)
    ensures var r1 := StringHeapInsert(h, s);
      StringHeapInsert(r1.heap, s) == r1
  {
  }

  /** Distinct strings get distinct offsets. */
  lemma HeapOffsetsDistinct(h: StringHeap, s: seq<Byte>, t: seq<Byte>)
    requires HeapValid(h) && s in h.hash && t in h.hash && s != t
    ensures h.hash[s] != h.hash[t]
  {
    if h.hash[s] == h.hash[t] {
      ReadBack(h, s);
      ReadBack(h, t);
    }
  }

  // ---------------------------------------------------------------------
  // Streams
  // ---------------------------------------------------------------------

  /** `mono_image_add_stream_data`: the stream's old length is the new
      data's offset; the data is appended and nothing before it changes. */
  function AddStreamData(stream: seq<Byte>, d: seq<Byte>): (r: (seq<Byte>, nat))
    ensures r.1 == |stream| && |r.0| == |stream| + |d|
    ensures r.0[..r.1] == stream && r.0[r.1..] == d
  {
    (stream + d, |stream|)
  }

  /** `alloc_table`: the number of value slots a table with `rows` rows of
      `columns` columns reserves (row 0 is never used); `None` when the
      table has no columns, which the runtime asserts against. */
  function AllocTable(rows: nat, columns: nat): (r: Option<nat>)
    ensures r.Some? <==> columns != 0
    ensures r.Some? ==> forall row, col :: 0 <= row <= rows && 0 <= col < columns ==> ValueSlot(row, col, columns) < r.value
    ensures r.Some? ==> ValueSlot(rows, columns - 1, columns) == r.value - 1
  {
    if columns == 0 then None
    else
      SlotsFit(rows, columns);
      Some((1 + rows) * columns)
  }

  /** The position of column `col` of row `row` in a table's values, as
      the writer indexes them (`values + row * columns + col`). */
  function ValueSlot(row: nat, col: nat, columns: nat): nat
  {
    row * columns + col
  }

  lemma SlotsFit(rows: nat, columns: nat)
    ensures forall row, col :: 0 <= row <= rows && 0 <= col < columns ==> ValueSlot(row, col, columns) < (1 + rows) * columns
    ensures columns > 0 ==> ValueSlot(rows, columns - 1, columns) == (1 + rows) * columns - 1
  {
    forall row, col | 0 <= row <= rows && 0 <= col < columns
      ensures ValueSlot(row, col, columns) < (1 + rows) * columns
    {
      MulLe(row, rows, columns);
    }
  }

  // ---------------------------------------------------------------------
  // Method bodies
  // ---------------------------------------------------------------------

  /** The tiny-format header byte for `size` bytes of code, as
      `method_encode_code` builds it; `None` where a fat header would be
      needed (which the runtime reports as unsupported). */
  function TinyHeader(size: nat): (r: Option<Byte>)
    ensures r.Some? <==> (size < 64 && size % 2 == 0) || (size < 32 && size % 2 == 1)
    ensures r.Some? ==> r.value / 4 == size
  {
    if size < 64 && size % 2 == 0 then Some(size * 4 + 2)
    // an odd size already sets bit 2, so `| 6` adds only bit 1
    else if size < 32 && size % 2 == 1 then Some(size * 4 + 2)
    else None
  }

  datatype Encoded = Encoded(stream: seq<Byte>, rva: nat)

  /** `method_encode_code`: appends the header byte and the code to the
      code stream and returns the RVA of the header. */
  function MethodEncodeCode(codeStream: seq<Byte>, textRva: nat, code: seq<Byte>): (r: Result<Encoded>)
    ensures r.Ok? <==> TinyHeader(|code|).Some?
    ensures r.Ok? ==> r.value.rva == textRva + |codeStream| + CLI_H_SIZE
    ensures r.Ok? ==> |r.value.stream| == |codeStream| + 1 + |code|
    ensures r.Ok? ==> r.value.stream[..|codeStream|] == codeStream
  {
    match TinyHeader(|code|)
    case None => Err("fat method headers not yet supported")
    case Some(flags) =>
      var (s1, idx) := AddStreamData(codeStream, [flags]);
      var (s2, _) := AddStreamData(s1, code);
      assert s2[..|codeStream|] == codeStream;
      Ok(Encoded(s2, textRva + idx + CLI_H_SIZE))
  }

  /** A body written by `MethodEncodeCode` parses back as a tiny header with
      the same code size, eight stack slots and no locals, the code
      following the header byte. */
  lemma EncodeCodeRoundTrip(codeStream: seq<Byte>, textRva: nat, code: seq<Byte>)
    requires MethodEncodeCode(codeStream, textRva, code).Ok?
    ensures var e := MethodEncodeCode(codeStream, textRva, code).value;
      var p := e.rva - textRva - CLI_H_SIZE;
      p == |codeStream|
      && Metadata.HeaderReadable(e.stream, p)
      && Metadata.ParseMethodHeader(e.stream, p) == Some(Metadata.MethodHeader(8, |code|, 0, false, p + 1))
      && e.stream[p + 1..] == code
  {
    var e := MethodEncodeCode(codeStream, textRva, code).value;
    var p := |codeStream|;
    var flags := TinyHeader(|code|).value;
    assert e.stream == codeStream + [flags] + code;
    assert e.stream[p] == flags;
    assert e.stream[p + 1..] == code;
  }

  /** The runtime's parser reads odd-sized tiny bodies with a shift of
      three: the three-byte body written here (header byte 0x0E) reads
      back as one byte of code. */
  lemma OddTinyHeaderAsWrittenMisread()
    ensures TinyHeader(3) == Some(0x0E)
    ensures 0x0E % 8 == Metadata.HEADER_TINY_FORMAT1
    ensures Metadata.TinyFormat1CodeSizeAsWritten(0x0E) == 1
    ensures Metadata.ParseMethodHeader([0x0E, 0, 0, 0], 0).value.codeSize == 3
  {
  }

  // ---------------------------------------------------------------------
  // TypeRef rows
  // ---------------------------------------------------------------------

  /** A class as seen by the writer: its name, namespace and whether it
      lives in corlib. */
  datatype ClassRef = ClassRef(name: seq<Byte>, nameSpace: seq<Byte>, inCorlib: bool)

  datatype TypeRefRow = TypeRefRow(scope: nat, name: nat, nameSpace: nat)

  /** The TypeRef table being written (row `i` at position `i - 1`), its
      `next_idx`, the class-to-token cache and the string heap. */
  datatype TypeRefWriter = TypeRefWriter(
    rows: seq<TypeRefRow>, nextIdx: nat, cache: map<ClassRef, nat>, heap: StringHeap)

  /** `(1 << 2) | 2`: row 1 of the AssemblyRef table as a ResolutionScope. */
  const CORLIB_SCOPE := 6

  /** Rows are numbered from 1; every cached token is a TypeDefOrRef coded
      index with tag 1 (TypeRef) naming an existing row, and different classes
      have different tokens. */
  predicate WriterValid(w: TypeRefWriter)
  {
    HeapValid(w.heap)
    && w.nextIdx == |w.rows| + 1
    && (forall c :: c in w.cache ==> w.cache[c] % 4 == 1 && 1 <= w.cache[c] / 4 < w.nextIdx)
    && (forall c, d :: c in w.cache && d in w.cache && c != d ==> w.cache[c] != w.cache[d])
  }

  datatype Tokened = Tokened(writer: TypeRefWriter, token: nat)

  /** `mono_image_typedef_or_ref`: a cached class gives its cached token
      unchanged; a class outside corlib is an error; otherwise a TypeRef
      row naming the class, scoped to AssemblyRef row 1, is appended and
      `1 | (next_idx << 2)` is cached and returned. */
  function TypedefOrRef(w: TypeRefWriter, c: ClassRef): (r: Result<Tokened>)
    requires WriterValid(w) && NoNul(c.name) && NoNul(c.nameSpace)
    ensures c in w.cache ==> r == Ok(Tokened(w, w.cache[c]))
    ensures c !in w.cache && !c.inCorlib ==> r.Err?
    ensures c !in w.cache && c.inCorlib ==> r.Ok?
    ensures r.Ok? ==> WriterValid(r.value.writer)
    ensures r.Ok? ==> r.value.writer.cache == w.cache[c := r.value.token]
    ensures r.Ok? && c !in w.cache ==> RowAdded(w, c, r.value)
  {
    if c in w.cache then Ok(Tokened(w, w.cache[c]))
    else if !c.inCorlib then Err("multiple assemblyref not yet supported")
    else Ok(AddTypeRef(w, c))
  }

  /** `t` extends `w` by one TypeRef row, scoped to corlib, whose name and
      namespace offsets read back as the class's name and namespace, and
      its token names that row. */
  predicate RowAdded(w: TypeRefWriter, c: ClassRef, t: Tokened)
  {
    t.token == 1 + 4 * w.nextIdx
    && |t.writer.rows| == |w.rows| + 1 && t.writer.rows[..|w.rows|] == w.rows
    && t.writer.rows[|w.rows|].scope == CORLIB_SCOPE
    && CStringAt(t.writer.heap.data, t.writer.rows[|w.rows|].name) == c.name
    && CStringAt(t.writer.heap.data, t.writer.rows[|w.rows|].nameSpace) == c.nameSpace
  }

  /** The uncached branch of `mono_image_typedef_or_ref`. */
  function AddTypeRef(w: TypeRefWriter, c: ClassRef): (r: Tokened)
    requires WriterValid(w) && NoNul(c.name) && NoNul(c.nameSpace) && c !in w.cache
    ensures WriterValid(r.writer)
    ensures r.writer.cache == w.cache[c := r.token]
    ensures RowAdded(w, c, r)
  {
    var n := StringHeapInsert(w.heap, c.name);
    var ns := StringHeapInsert(n.heap, c.nameSpace);
    var row := TypeRefRow(CORLIB_SCOPE, n.idx, ns.idx);
    var token := 1 + 4 * w.nextIdx;
    var cache := w.cache[c := token];
    var r := Tokened(TypeRefWriter(w.rows + [row], w.nextIdx + 1, cache, ns.heap), token);
    assert r.writer.cache == cache && r.token == token;
    CacheExtendValid(w, c, ns.heap, row);
    AddTypeRefRow(w, c, n, ns, r);
    r
  }

  lemma AddTypeRefRow(w: TypeRefWriter, c: ClassRef, n: Inserted, ns: Inserted, r: Tokened)
    requires WriterValid(w) && NoNul(c.name) && NoNul(c.nameSpace)
    requires n == StringHeapInsert(w.heap, c.name) && ns == StringHeapInsert(n.heap, c.nameSpace)
    requires r.token == 1 + 4 * w.nextIdx && r.writer.heap == ns.heap
    requires r.writer.rows == w.rows + [TypeRefRow(CORLIB_SCOPE, n.idx, ns.idx)]
    ensures RowAdded(w, c, r)
  {
    ReadBack(ns.heap, c.name);
    ReadBack(ns.heap, c.nameSpace);
    assert n.idx == ns.heap.hash[c.name];
    assert r.writer.rows[..|w.rows|] == w.rows;
  }

  lemma CacheExtendValid(w: TypeRefWriter, c: ClassRef, heap: StringHeap, row: TypeRefRow)
    requires WriterValid(w) && c !in w.cache && HeapValid(heap)
    ensures WriterValid(TypeRefWriter(w.rows + [row], w.nextIdx + 1, w.cache[c := 1 + 4 * w.nextIdx], heap))
  {
    var cache := w.cache[c := 1 + 4 * w.nextIdx];
    forall d | d in cache
      ensures cache[d] % 4 == 1 && 1 <= cache[d] / 4 < w.nextIdx + 1
    {
    }
    forall d, e | d in cache && e in cache && d != e
      ensures cache[d] != cache[e]
    {
      if d != c && e != c {
      } else if d == c {
        assert cache[e] / 4 < w.nextIdx;
      } else {
        assert cache[d] / 4 < w.nextIdx;
      }
    }
  }

  /** Asking twice for the same class gives the same token and adds no row. */
  lemma TypedefOrRefIdempotent(w: TypeRefWriter, c: ClassRef)
    requires WriterValid(w) && NoNul(c.name) && NoNul(c.nameSpace)
    requires TypedefOrRef(w, c).Ok?
    ensures var r1 := TypedefOrRef(w, c).value;
      TypedefOrRef(r1.writer, c) == Ok(r1)
  {
  }

  /** The scope written into every TypeRef row decodes as a ResolutionScope
      naming row 1 of the AssemblyRef table. */
  lemma CorlibScopeIsAssemblyRefRow1()
    ensures Metadata.Candidates(Metadata.RsIdx)[CORLIB_SCOPE % 4] == Metadata.ASSEMBLYREF
    ensures CORLIB_SCOPE / 4 == 1
  {
  }

  // ---------------------------------------------------------------------
  // The table stream header
  // ---------------------------------------------------------------------

  datatype TablesHeader = TablesHeader(validMask: nat, ntables: nat, heapSize: nat)

  /** The part of `build_compressed_metadata` that sizes the table stream:
      the valid mask gets bit `i` for every table with rows, `ntables`
      counts them, and the stream size adds each table's rows times its
      row size, the 24-byte header and four bytes per row count. */
  method BuildTablesHeader(rows: Metadata.RowCounts, rowSize: seq<nat>) returns (r: TablesHeader)
    requires |rowSize| == 64
    ensures forall i :: 0 <= i < 64 ==> (Bit(r.validMask, i) == 1 <==> rows[i] > 0)
    ensures r.validMask < Pow2(64)
    ensures r.ntables == |set i | 0 <= i < 64 && rows[i] > 0|
    ensures r.heapSize == 24 + 4 * r.ntables + TablesBytes(rows, rowSize, 64)
  {
    var mask: nat := 0;
    var ntables: nat := 0;
    var size: nat := 0;
    var i := 0;
    forall j | 0 <= j < 64
      ensures Bit(0, j) == 0
    {
      BitHighClear(0, 0, j);
    }
    while i < 64
      invariant 0 <= i <= 64
      invariant MaskUpTo(mask, rows, i)
      invariant ntables == |set j | 0 <= j < i && rows[j] > 0|
      invariant size == TablesBytes(rows, rowSize, i)
    {
      CountStep(rows, i);
      MaskStep(mask, rows, i);
      if rows[i] > 0 {
        mask := mask + Pow2(i);
        ntables := ntables + 1;
        size := size + rowSize[i] * rows[i];
      }
      i := i + 1;
    }
    r := TablesHeader(mask, ntables, size + 24 + 4 * ntables);
  }

  /** `mask` has exactly the bits of the non-empty tables below `i`. */
  predicate MaskUpTo(mask: nat, rows: Metadata.RowCounts, i: nat)
  {
    mask < Pow2(i) && forall j :: 0 <= j < 64 ==> (Bit(mask, j) == 1 <==> j < i && rows[j] > 0)
  }

  lemma MaskStep(mask: nat, rows: Metadata.RowCounts, i: nat)
    requires i < 64 && MaskUpTo(mask, rows, i)
    ensures MaskUpTo(if rows[i] > 0 then mask + Pow2(i) else mask, rows, i + 1)
  {
    assert Pow2(i + 1) == 2 * Pow2(i);
    if rows[i] > 0 {
      MaskSet(mask, rows, i);
    } else {
      MaskKeep(mask, rows, i);
    }
  }

  lemma MaskSet(mask: nat, rows: Metadata.RowCounts, i: nat)
    requires i < 64 && MaskUpTo(mask, rows, i) && rows[i] > 0
    requires Pow2(i + 1) == 2 * Pow2(i)
    ensures MaskUpTo(mask + Pow2(i), rows, i + 1)
  {
    var m := mask + Pow2(i);
    forall j | 0 <= j < 64
      ensures Bit(m, j) == 1 <==> j < i + 1 && rows[j] > 0
    {
      BitAddHigh(mask, i, j);
    }
  }

  lemma MaskKeep(mask: nat, rows: Metadata.RowCounts, i: nat)
    requires i < 64 && MaskUpTo(mask, rows, i) && rows[i] == 0
    requires Pow2(i + 1) == 2 * Pow2(i)
    ensures MaskUpTo(mask, rows, i + 1)
  {
    forall j | 0 <= j < 64
      ensures Bit(mask, j) == 1 <==> j < i + 1 && rows[j] > 0
    {
      if j == i {
        assert !(Bit(mask, j) == 1);
      }
    }
  }

  lemma CountStep(rows: Metadata.RowCounts, i: nat)
    requires i < 64
    ensures |set j | 0 <= j < i + 1 && rows[j] > 0| ==
      |set j | 0 <= j < i && rows[j] > 0| + (if rows[i] > 0 then 1 else 0)
  {
    var before := set j | 0 <= j < i && rows[j] > 0;
    var after := set j | 0 <= j < i + 1 && rows[j] > 0;
    if rows[i] > 0 {
      assert after == before + {i};
    } else {
      assert after == before;
    }
  }

  /** The bytes the first `n` tables take. */
  function TablesBytes(rows: Metadata.RowCounts, rowSize: seq<nat>, n: nat): nat
    requires |rowSize| == 64 && n <= 64
  {
    if n == 0 then 0
    else TablesBytes(rows, rowSize, n - 1) + (if rows[n - 1] > 0 then rowSize[n - 1] * rows[n - 1] else 0)
  }

  /** The heap-size byte of the table stream header: bit 0 for a wide
      `#Strings` heap, bit 1 for `#GUID`, bit 2 for `#Blob`. */
  function HeapSizes(stringIndex: nat, guidIndex: nat, blobIndex: nat): (r: Byte)
    ensures (Bit(r, 0) == 1 <==> stringIndex >= 65536)
    ensures (Bit(r, 1) == 1 <==> guidIndex >= 65536)
    ensures (Bit(r, 2) == 1 <==> blobIndex >= 65536)
    ensures r < 8
  {
    var r := (if stringIndex >= 65536 then 1 else 0) + (if guidIndex >= 65536 then 2 else 0)
      + (if blobIndex >= 65536 then 4 else 0);
    assert Bit(r, 1) == Bit(r / 2, 0) == (r / 2) % 2;
    assert Bit(r, 2) == Bit(r / 2, 1) == Bit((r / 2) / 2, 0);
    r
  }

  /** The reading side the writer sets up: with `idx_*_wide` taken from the
      heap lengths, a heap column is two bytes exactly when every offset
      into that heap fits in 16 bits. */
  lemma HeapColumnsFit(stringIndex: nat, guidIndex: nat, blobIndex: nat, rows: Metadata.RowCounts)
    ensures var m := Metadata.Meta(stringIndex >= 65536, guidIndex >= 65536, blobIndex >= 65536, rows);
      (Metadata.ColumnSize(m, 0, 0, Metadata.StringIdx) == Some(2) <==> stringIndex < 0x1_0000)
      && (Metadata.ColumnSize(m, 0, 0, Metadata.GuidIdx) == Some(2) <==> guidIndex < 0x1_0000)
      && (Metadata.ColumnSize(m, 0, 0, Metadata.BlobIdx) == Some(2) <==> blobIndex < 0x1_0000)
  {
  }
}
