# A verified model of the early Mono runtime core

This project models the core of an early version of Mono, the C runtime
for ECMA-335 (CLI) images. It covers the deterministic rules that the
runtime uses to read, write and interpret those images. Pointers become
indices into sequences, C structures become immutable datatypes, and
every C integer width is written out (`Wrap32`, `Wrap16`, `Signed32`).

One module per source file:

| module | file | what it models |
|---|---|---|
| `Bytes` | (shared) | bytes, 16/32-bit patterns, little-endian words, `strlen` |
| `Types` | (shared) | `MonoType` type codes and the underlying type of an enum |
| `Opcodes` | (shared) | CIL opcode values (Partition III of ECMA-335) |
| `Metadata` | metadata/metadata.c | compressed integers, column widths, row layout, table bases, row location, method headers |
| `Reflection` | metadata/reflection.c | the string heap, streams, tiny method headers, TypeRef tokens, the `#~` header mask and heap flags |
| `Marshal` | metadata/marshal.c | the IL method builder and by-value string copies |
| `Classes` | metadata/class.c | field sizes and layout, member ranges, the parent chain, field lookup, the class cache |
| `Objects` | metadata/object.c | strings, the `ldstr` hash, equality and cache, arrays, boxing |
| `Icall` | metadata/icall.c | multi-dimensional array access, construction and queries; the icall table |
| `Interp` | interpreter/interp.c | stack-slot conversions, branches, `switch`, compares, `div`, handler search |
| `Jit` | jit/jit.c | type-to-operator maps, frame allocation, basic blocks, inlining test, element address |
| `Profiler` | metadata/profiler.c | install-once, the event mask, dispatch, the simple profiler |
| `Loader` | metadata/loader.c | TypeDef lookup by name, MemberRef resolution, the method cache |
| `Assembly` | metadata/assembly.c | paths, the `.dll` rule, the loaded list, open/load/close |
| `Unicode` | io-layer/unicode.c | the UTF-16 terminator scan |

Throughout the model:
- file opening, the environment variable `MONO_PATH` and the compile-time
  constants `MONO_ASSEMBLIES` and `CORLIB_NAME` are parameters;
- `g_assert` failures and `g_assert_not_reached` become the `Err` or
  `None` branch of a result;
- hash tables become maps;
- `GList`s and growable arrays become sequences.

The opcode table (`opcode.def`), `methodheader.h` and `profiler.h` are not
part of this model. Opcode values follow Partition III of ECMA-335. The
method header constants follow sections 25.4.2 and 25.4.3 of Partition II:
format mask 7, tiny 2, second tiny tag 6, fat 3. The profiler flag bits
are taken in declaration order: APPDOMAIN_EVENTS 0, ASSEMBLY_EVENTS 1,
MODULE_EVENTS 2, CLASS_EVENTS 3, JIT_COMPILATION 4, THREADS 9,
TRANSITIONS 11, ENTER_LEAVE 12. The flow-analysis opcode table is a
parameter of `Jit.AnalyzeFlow`.

## Model

| member | source | states |
|---|---|---|
| Metadata.TableName | src/mono/mono/metadata/metadata.c:341-347 | a table number outside 0..0x29 gets the empty name; inside that range a table has a name exactly when it has a schema, and that name is non-empty |
| Metadata.DecodeValue | src/mono/mono/metadata/metadata.c:840-858 | a compressed unsigned integer (section 23.2 of Partition II) consumes 1, 2 or 4 bytes as its first byte says, and its value is below 2^29 |
| Metadata.DecodeEncode | src/mono/mono/metadata/metadata.c:817-858 | decoding the encoding of any value below 2^29 gives back the value and steps over exactly its encoding, whatever precedes and follows; this holds for `decode_blob_size` too, which reads the same format |
| Metadata.EncodeDecode | src/mono/mono/metadata/metadata.c:840-858 | a value read from a canonically encoded prefix re-encodes to exactly the bytes read |
| Metadata.CodedSize | src/mono/mono/metadata/metadata.c:359-359 | a coded-index column is 2 or 4 bytes wide |
| Metadata.CodedIndexFits | src/mono/mono/metadata/metadata.c:464-630 | corrected: a coded-index column is 2 bytes wide exactly when every candidate table's row count (the tables `Metadata.Candidates` lists per kind, in tag order), shifted left by the tag width, stays below 65536; the TypeDefOrRef candidates are the standard's, where the source lists Param for TypeRef (see Findings) |
| Metadata.TableIdxSize | src/mono/mono/metadata/metadata.c:391-455 | a table-index column, when it can be sized, is 2 or 4 bytes wide |
| Metadata.TableIdxSizeAsWritten | src/mono/mono/metadata/metadata.c:391-402 | as written, every table-index column is sized as in `TableIdxSize` except AssemblyRefProcessor's, which reaches the assertion |
| Metadata.AssemblyRefProcessorAsWrittenAsserts | src/mono/mono/metadata/metadata.c:398-402 | AssemblyRefProcessor's second column is a table index that the code as written cannot size, while the corrected code sizes it by AssemblyRef |
| Metadata.TdorCandidatesAsWritten | src/mono/mono/metadata/metadata.c:580-590 | the runtime's TypeDefOrRef candidates contain Param and leave out TypeRef |
| Metadata.TdorAsWrittenTooNarrow | src/mono/mono/metadata/metadata.c:580-590 | with 0x4000 TypeRef rows, the candidates as written give a 2-byte column, which cannot hold the TypeRef tags that the full width needs |
| Metadata.ColumnSize | src/mono/mono/metadata/metadata.c:371-389 | corrected: every fixed-width or heap-index column has a width; all widths are 1, 2 or 4; table indices are sized by the corrected case labels (see Findings) |
| Metadata.Widths | src/mono/mono/metadata/metadata.c:370-637 | corrected: the widths of a column list, one per column, under the corrected coded-index candidates and table-index labels; the list fails exactly when one of its columns cannot be sized |
| Metadata.ComputeSize | src/mono/mono/metadata/metadata.c:364-650 | corrected: a table has a row layout exactly when it has a schema (the source lists Param for TypeRef in TypeDefOrRef and sends the AssemblyRefProcessor column to an assertion, see Findings) |
| Metadata.Layout | src/mono/mono/metadata/metadata.c:641-648 | corrected: the bitfield records the column count, and each column's two-bit field holds that column's (corrected) width |
| Metadata.BitfieldRoundTrip | src/mono/mono/metadata/metadata.c:641-648 | corrected: for every table, unpacking `compute_size`'s bitfield gives back the column count and every column's width, with the corrected column sizing (the source lists Param for TypeRef in TypeDefOrRef and sends the AssemblyRefProcessor column to an assertion, see Findings) |
| Metadata.PackRoundTrip | src/mono/mono/metadata/metadata.c:641-648 | packing widths 1..4 as `width-1` in two bits each, with the count at bit 24, is undone by the reader |
| Metadata.SchemaColumnsSized | src/mono/mono/metadata/metadata.c:391-455 | corrected: with the AssemblyRefProcessor case labelled as intended, every column of every table schema can be sized, so no known table's layout reaches an assertion; as written that column does reach it (`Metadata.AssemblyRefProcessorAsWrittenAsserts`) |
| Metadata.ComputeTableBases | src/mono/mono/metadata/metadata.c:659-674 | corrected: the layout fails exactly when a non-empty table has no schema (as written, an AssemblyRefProcessor table also aborts, see Findings); otherwise each non-empty table starts exactly where the previous non-empty one ends (`base + rows * row_size`), the first at the start offset, so tables are packed without gap or overlap, and each has its row count and `compute_size` layout |
| Metadata.Locate | src/mono/mono/metadata/metadata.c:686-692 | a row is found exactly for 1-based indices `1..rows`, and the whole row lies inside its table |
| Metadata.LocateSteps | src/mono/mono/metadata/metadata.c:686-692 | row 1 is at the table's base and each next row lies one row size further on, so row `idx` is at `base + row_size * (idx - 1)` |
| Metadata.LocateDisjoint | src/mono/mono/metadata/metadata.c:659-692 | two different rows, of the same or of different tables, never share a byte |
| Metadata.ParseMethodHeader | src/mono/mono/metadata/metadata.c:1212-1271 | corrected: a header parses exactly when its format is tiny, second-tiny or fat; a tiny header of either tag gives max stack 8, `flags >> 2` code bytes (the source shifts the second tag by 3, see Findings) and code after one byte; a fat header gives its max stack, code size, locals token and its init-locals flag bit, with code after twelve bytes |
| Reflection.StringHeapInsert | src/mono/mono/metadata/reflection.c:85-108 | a known string gives back its index and leaves the heap unchanged; a new one is appended NUL-terminated at the old end and hashed there; other entries are kept and the heap stays valid |
| Reflection.ReadBack | src/mono/mono/metadata/reflection.c:94-108 | reading the NUL-terminated string at a hashed index gives back the hashed string |
| Reflection.InsertIdempotent | src/mono/mono/metadata/reflection.c:85-108 | inserting the same string twice equals inserting it once |
| Reflection.HeapOffsetsDistinct | src/mono/mono/metadata/reflection.c:85-108 | different strings get different indices |
| Reflection.StringHeapInit | src/mono/mono/metadata/reflection.c:112-119 | a new heap holds exactly the empty string, at index 0 |
| Reflection.AddStreamData | src/mono/mono/metadata/reflection.c:130-145 | the data goes at the old end, the returned index is that old end, and the earlier bytes stay |
| Reflection.AllocTable | src/mono/mono/metadata/reflection.c:77-82 | a table without columns gets nothing; otherwise every column of every row from 0 to the requested count (row 0 unused) has a value slot, and the last of them is the last slot reserved |
| Reflection.TinyHeader | src/mono/mono/metadata/reflection.c:208-223 | a tiny header exists for an even size below 64 or an odd size below 32, and its byte `>> 2` is the size |
| Reflection.MethodEncodeCode | src/mono/mono/metadata/reflection.c:208-223 | the code is encoded exactly when a tiny header exists; it goes after the header byte at the end of the code stream, with RVA `text_rva + idx + CLI_H_SIZE` |
| Reflection.EncodeCodeRoundTrip | src/mono/mono/metadata/reflection.c:208-223 | parsing the header at the returned RVA gives back a tiny header with max stack 8 and the original code size, followed by the code bytes |
| Reflection.OddTinyHeaderAsWrittenMisread | src/mono/mono/metadata/reflection.c:216-217 | an odd 3-byte body gets header 0x0E; the reader as written (`Metadata.TinyFormat1CodeSizeAsWritten`, `flags >> 3`) takes 1 code byte from it, while the corrected reader takes 3 |
| Reflection.TypedefOrRef | src/mono/mono/metadata/reflection.c:244-268 | a cached class gives its cached token and changes nothing; an uncached class outside corlib is refused; a new corlib class adds one TypeRef row with the next token and caches it |
| Reflection.AddTypeRef | src/mono/mono/metadata/reflection.c:254-267 | a new TypeRef row holds the corlib scope and the name and namespace string indices; its token is `1 \| next_idx << 2` and is cached |
| Reflection.TypedefOrRefIdempotent | src/mono/mono/metadata/reflection.c:244-268 | asking twice for the same class gives the same token and adds no second row |
| Reflection.CorlibScopeIsAssemblyRefRow1 | src/mono/mono/metadata/reflection.c:262-262 | the fixed scope `(1 << 2) \| 2` names AssemblyRef row 1 under the ResolutionScope tag order |
| Reflection.BuildTablesHeader | src/mono/mono/metadata/reflection.c:346-359 | bit i of the valid mask is set exactly when table i has rows; the table count is the number of non-empty tables; the `#~` size is 24 + 4 per table + the rows' bytes |
| Reflection.HeapSizes | src/mono/mono/metadata/reflection.c:440-445 | each heap-size flag bit is set exactly when that heap's index reaches 65536 |
| Reflection.HeapColumnsFit | src/mono/mono/metadata/reflection.c:337-339 | with those flags, each heap-index column is 2 bytes exactly when the heap is below 65536 bytes |
| Marshal.NewBuilder | src/mono/mono/metadata/marshal.c:166-189 | a new builder has a 256-byte buffer, nothing written, no locals and no data |
| Marshal.EmitByte | src/mono/mono/metadata/marshal.c:263-272 | the emitted bytes gain exactly the opcode; the buffer grows by 64 exactly when it was full; locals and data stay |
| Marshal.EmitI4 | src/mono/mono/metadata/marshal.c:274-285 | the emitted bytes gain the little-endian word, which reads back as the value; the buffer grows by 64 when 4 or fewer bytes were left (`pos + 4 >= code_size`) |
| Marshal.EmitI2 | src/mono/mono/metadata/marshal.c:286-296 | the emitted bytes gain the little-endian half-word, which reads back as the value |
| Marshal.PatchAddr | src/mono/mono/metadata/marshal.c:257-261 | the 4 bytes at the position read back as the value and every other byte stays |
| Marshal.EmitLdarg | src/mono/mono/metadata/marshal.c:298-311 | the emitted bytes gain the shortest `ldarg` form for the argument |
| Marshal.EmitLdargAddr | src/mono/mono/metadata/marshal.c:313-324 | the emitted bytes gain the `ldarga.s` or long `ldarga` form for the argument |
| Marshal.EmitLdloc | src/mono/mono/metadata/marshal.c:326-339 | the emitted bytes gain the shortest `ldloc` form for the local |
| Marshal.EmitStloc | src/mono/mono/metadata/marshal.c:341-354 | the emitted bytes gain the shortest `stloc` form for the local |
| Marshal.EmitIcon | src/mono/mono/metadata/marshal.c:356-368 | the emitted bytes gain the shortest `ldc.i4` form for the constant |
| Marshal.DecodeEncode | src/mono/mono/metadata/marshal.c:298-368 | an IL decoder following Partition III of ECMA-335 reads every emitted form back as the same instruction, stepping over exactly its bytes |
| Marshal.EncodeShortest | src/mono/mono/metadata/marshal.c:298-368 | no encoding that the decoder reads as the same instruction is shorter than the emitted one |
| Marshal.EmitAll | src/mono/mono/metadata/marshal.c:263-368 | emitting a list of instructions appends their encodings, and the appended bytes decode back to exactly that list |
| Marshal.DecodeAllEncodeAll | src/mono/mono/metadata/marshal.c:298-368 | a concatenation of encodings decodes back to the instruction list |
| Marshal.AddLocal | src/mono/mono/metadata/marshal.c:191-203 | the new local's number is the old local count, and the local is appended there; code and data stay |
| Marshal.AddData | src/mono/mono/metadata/marshal.c:243-255 | the returned index is the new 1-based length of the data list, and the datum is its last entry |
| Marshal.CreateMethod | src/mono/mono/metadata/marshal.c:205-241 | max stack is the larger of 8 and the request; the code size is the write position and the code is the emitted bytes; the locals are those added, in order |
| Marshal.LocalsInOrder | src/mono/mono/metadata/marshal.c:191-241 | two locals added in turn get consecutive numbers and sit at those numbers in the created method |
| Marshal.ByvalStr | src/mono/mono/metadata/marshal.c:98-118 | the copy fails exactly for a non-positive size; a null string zero-fills `size` bytes; otherwise the string's bytes up to its NUL are copied into the first `size - 1`, byte `size - 1` is 0, and bytes past `size` stay |
| Marshal.ByvalStrReadBack | src/mono/mono/metadata/marshal.c:98-118 | read back as a C string, the buffer holds the string truncated to `size - 1` bytes |
| Marshal.ByvalWStr | src/mono/mono/metadata/marshal.c:120-138 | as `ByvalStr` for UTF-16 bytes, with the last two bytes forced to 0 and failure exactly for a size below 2 |
| Marshal.ByvalWStrReadBack | src/mono/mono/metadata/marshal.c:120-138 | read back as UTF-16 units, the buffer holds the string truncated to `(size - 2) / 2` units |
| Classes.FieldTypeSize | src/mono/mono/metadata/class.c:38-104 | a field has a size exactly for the integer, floating, native-int, string and object codes: 1 for I1/U1/BOOLEAN, 2 for I2/U2/CHAR, 4 for I4/U4/R4/I/U/STRING/OBJECT, 8 for I8/U8/R8 |
| Classes.ComputeFieldLayout | src/mono/mono/metadata/class.c:118-177 | explicit layout is refused; auto and sequential layout succeed exactly when every field has a size, put the first field at the object header size, and place each next field at `prev + s + s % 4` |
| Classes.FieldsDisjoint | src/mono/mono/metadata/class.c:149-176 | fields laid out in this way never overlap |
| Classes.OffsetsEven | src/mono/mono/metadata/class.c:149-176 | every field offset laid out in this way is even |
| Classes.MemberRangeOf | src/mono/mono/metadata/class.c:218-240 | a range runs from the list column − 1 to the next row's column − 1, or to the table size for the last row; its count is zero when the list index is out of range |
| Classes.RangesTile | src/mono/mono/metadata/class.c:218-240 | with the next TypeDef row read (`Classes.ClassRanges`), each class's field and method ranges end where the next class's begin, and the last class's ranges end at the table sizes |
| Classes.RunTiles | src/mono/mono/metadata/class.c:218-240 | for ordered list columns the range starts at `list - 1`, ends at `next - 1` or the row count, and counts its members |
| Classes.RangesAsWrittenOverlap | src/mono/mono/metadata/class.c:221-226 | reading the row two ahead, as written (`Classes.ClassRangesAsWritten`), gives the first two of three classes overlapping two-field ranges, while the corrected ranges give one field each |
| Classes.AncestorTransitive | src/mono/mono/metadata/class.c:202-209 | the parent chain is transitive |
| Classes.AncestorAntisymmetric | src/mono/mono/metadata/class.c:202-209 | because a parent is always created before its child, two classes on each other's chains are the same class |
| Classes.IsInst | src/mono/mono/interpreter/interp.c:276-286 | `isinst` holds exactly when the class is on the object's parent chain; `mono_object_isinst` (object.c:231-241) walks the chain in the same way |
| Classes.GetFieldIdx | src/mono/mono/metadata/class.c:259-271 | a field is found in the nearest class on the chain whose range holds the index, at its position in that range; none is found exactly when no class on the chain owns the index |
| Classes.GetField | src/mono/mono/metadata/class.c:283-293 | a FieldDef token is looked up as index `token - 1`; any other token kind fails |
| Classes.InitialInstanceSize | src/mono/mono/metadata/class.c:202-209 | a root class starts at the object header size and any other class at its parent's instance size |
| Classes.CreateFromTypedef | src/mono/mono/metadata/class.c:184-251 | the new class keeps the class store well-formed, records its TypeDef index, flags and parent, starts from the inherited instance size, and gets the corrected member ranges |
| Classes.ClassGetTypeDef | src/mono/mono/metadata/class.c:339-362 | a cached TypeDef token gives the cached class unchanged; otherwise the new class is appended and cached under the token |
| Classes.ClassGetIdempotent | src/mono/mono/metadata/class.c:339-362 | a second get of the same TypeDef token gives the same class and changes nothing |
| Classes.ClassGetTypeRefAsWritten | src/mono/mono/metadata/class.c:348-360 | as written, a TypeRef always creates a new class, cached under the bare row index |
| Classes.ClassGetTypeRef | src/mono/mono/metadata/class.c:348-360 | corrected: a TypeRef's class is cached under the TypeDef token it resolves to |
| Classes.TypeRefThenTypeDefShared | src/mono/mono/metadata/class.c:339-362 | with the corrected key, getting a class through a TypeRef and then through its TypeDef token gives the same class |
| Classes.TypeRefThenTypeDefAsWritten | src/mono/mono/metadata/class.c:348-360 | as written, the TypeDef token then creates a second class, which does not derive from the first |
| Objects.NewString | src/mono/mono/metadata/object.c:176-195 | the string has `strlen` units; ASCII bytes become the same unit, and other bytes become the sign-extended `char` |
| Objects.ToUtf8 | src/mono/mono/metadata/object.c:341-366 | one byte per unit, the unit's low byte |
| Objects.ToUtf8NewString | src/mono/mono/metadata/object.c:176-366 | narrowing a widened C string gives back its bytes up to the NUL |
| Objects.NewStringToUtf8 | src/mono/mono/metadata/object.c:176-366 | widening a narrowed string of ASCII units other than NUL gives back the string |
| Objects.BlobAt | src/mono/mono/metadata/object.c:263-269 | a user-string blob is the run of bytes after its compressed length, of that length |
| Objects.LdstrEqual | src/mono/mono/metadata/object.c:263-269 | two blobs are equal exactly when their lengths and payload bytes are equal |
| Objects.LdstrHash | src/mono/mono/metadata/object.c:246-260 | corrected: the hash is `h * 31 + c` over the payload bytes, in 32 bits, starting from the first payload byte |
| Objects.LdstrHashAsWritten | src/mono/mono/metadata/object.c:246-260 | as written, the hash starts from the byte after the length even when the payload is empty |
| Objects.EqualBlobsHashAlike | src/mono/mono/metadata/object.c:246-269 | blobs equal under `ldstr_equal` hash alike under the corrected hash |
| Objects.EmptyBlobsHashApartAsWritten | src/mono/mono/metadata/object.c:250-253 | two empty blobs are equal but hash apart as written, because the bytes after them differ |
| Objects.HashAsWrittenNonEmpty | src/mono/mono/metadata/object.c:246-260 | for a non-empty blob the hash as written and the corrected hash agree |
| Objects.Utf16Units | src/mono/mono/metadata/object.c:150-167 | the string holds `len >> 1` units, each read little-endian from two bytes |
| Objects.Utf16UnitsOfBytes | src/mono/mono/metadata/object.c:150-167 | reading units from their little-endian bytes gives the units back |
| Objects.Ldstr | src/mono/mono/metadata/object.c:319-338 | corrected: lookup is by blob content under the corrected hash (the source's hash separates equal empty blobs, see Findings); a known blob gives its string object and changes nothing; a new one gets a new object, holding the blob's UTF-16 units, and is cached |
| Objects.LdstrMemoised | src/mono/mono/metadata/object.c:319-338 | after one `ldstr`, any blob equal to it gives the same object and changes nothing |
| Objects.NewSzArray | src/mono/mono/metadata/object.c:118-140 | a vector has one bound with length n and lower bound 0 and zeroed storage of `n * elem_size` bytes |
| Objects.ValueBox | src/mono/mono/metadata/object.c:205-221 | boxing succeeds exactly for a value type, and copies `instance_size - sizeof(MonoObject)` bytes of the value |
| Objects.UnboxValueBox | src/mono/mono/metadata/object.c:205-221 | unboxing a boxed value gives back the value |
| Icall.RowMajorInside | src/mono/mono/metadata/icall.c:36-41 | in-range indices give a row-major position below the element count |
| Icall.RowMajorInjective | src/mono/mono/metadata/icall.c:36-41 | two in-range index tuples with the same row-major position are the same |
| Icall.ElementPosition | src/mono/mono/metadata/icall.c:36-41 | the loop computes the row-major position, `pos * len + ind - lb` per dimension, in 32-bit `int` arithmetic |
| Icall.PositionExact | src/mono/mono/metadata/icall.c:36-41 | when the element count fits in `int`, that 32-bit position is the exact position and lies inside the array |
| Icall.IndexCheck | src/mono/mono/metadata/icall.c:33-34 | the index array must be rank 1 and as long as the array's rank |
| Icall.GetValue | src/mono/mono/metadata/icall.c:20-50 | the read succeeds exactly when the index check passes and the offset the indices compute in 32-bit arithmetic, unchecked against the bounds, lies inside the storage; it gives the element there (`Icall.ElementAt`): a boxed copy for value types, the reference otherwise |
| Icall.OffsetOfPosition | src/mono/mono/metadata/icall.c:36-44 | for in-range indices the 32-bit `pos * esize` is exactly the row-major slot's offset and lies inside the storage |
| Icall.GetValueInRange | src/mono/mono/metadata/icall.c:20-50 | in-range indices always read the element in their row-major slot |
| Icall.PastRowEndAliases | src/mono/mono/metadata/icall.c:36-44 | with no bounds check, an index one past the end of a row of a two-dimensional array reads the first element of the next row |
| Icall.SetValue | src/mono/mono/metadata/icall.c:53-91 | the write succeeds exactly when the index check passes, the value's class is the element class and the unchecked offset lies inside the storage; the element's bytes there become the value's payload or address, every other byte and the bounds stay |
| Icall.SetValueWrites | src/mono/mono/metadata/icall.c:84-89 | with in-range indices the write succeeds and overwrites exactly the row-major element's `elem_size` bytes |
| Icall.GetValueSetValue | src/mono/mono/metadata/icall.c:20-91 | reading back a written element gives the written value |
| Icall.SetValueFrame | src/mono/mono/metadata/icall.c:53-91 | writing one element leaves every other in-range element unchanged |
| Icall.DistinctPositions | src/mono/mono/metadata/icall.c:74-79 | different in-range index tuples name different positions |
| Icall.ArrayCtor | src/mono/mono/metadata/icall.c:94-120 | construction needs rank 1 or more; each dimension stores its length with lower bound 0, and the zeroed storage has room for the product of the lengths |
| Icall.ArrayBoundCtor | src/mono/mono/metadata/icall.c:123-153 | the first `rank` arguments are the lower bounds and the next `rank` the lengths |
| Icall.ArrayCtorValid | src/mono/mono/metadata/icall.c:94-120 | positive lengths whose byte count fits in `int` give a well-formed array |
| Icall.CountOfLengths | src/mono/mono/metadata/icall.c:107-119 | the element count of the constructed bounds is the product of the lengths |
| Icall.GetLength | src/mono/mono/metadata/icall.c:170-173 | the length is the stored 32-bit length, read as `gint32` |
| Icall.GetLowerBound | src/mono/mono/metadata/icall.c:176-179 | the lower bound is the stored one, read as `gint32` |
| Icall.QueriesAfterCtor | src/mono/mono/metadata/icall.c:164-179 | after `array_ctor`, rank, length and lower bound give back the rank, the lengths passed and 0 |
| Icall.QueriesAfterBoundCtor | src/mono/mono/metadata/icall.c:164-179 | after `array_bound_ctor`, rank, length and lower bound give back what was passed |
| Icall.QueriesAfterNewSzArray | src/mono/mono/metadata/icall.c:170-179 | a vector from `mono_new_szarray` has length n and lower bound 0 |
| Icall.Registered | src/mono/mono/metadata/icall.c:362-372 | the registered entries are those before the first NULL name |
| Icall.InitIcall | src/mono/mono/metadata/icall.c:362-372 | registration stops at the NULL terminator and adds each named entry before it to the table |
| Icall.IcallMap | src/mono/mono/metadata/icall.c:295-359 | the table lists the 27 internal calls in order, followed by the NULL terminator |
| Icall.IcallMapRegistersAll | src/mono/mono/metadata/icall.c:295-372 | every one of the 27 entries is registered |
| Interp.FromData | src/mono/mono/interpreter/interp.c:288-346 | a slot is read exactly for the 1-, 2- and 4-byte integer types, byrefs and references; I1/I2 (and I4) sign-extend, U1/BOOLEAN/U2/CHAR zero-extend, references read 4 bytes, and the low bytes equal the memory read |
| Interp.ToData | src/mono/mono/interpreter/interp.c:348-389 | a slot is written exactly for byrefs, references and the small integers other than CHAR, which the store has no case for although the load has; only the type's width changes; BOOLEAN stores `v != 0`; other types store the low bytes of the value |
| Interp.StoreThenLoad | src/mono/mono/interpreter/interp.c:288-389 | for every small integer type but CHAR, an integer that fits its type is read back unchanged after a store, and a BOOLEAN reads back as 0 or 1 |
| Interp.LoadThenStore | src/mono/mono/interpreter/interp.c:288-389 | for every type both conversions accept (CHAR is load-only), storing what was loaded leaves memory unchanged, except that a BOOLEAN byte is normalised to 0 or 1 |
| Interp.LoadedLowBytes | src/mono/mono/interpreter/interp.c:288-346 | the loaded value's low bytes are the bytes in memory |
| Interp.ShortBranchNext | src/mono/mono/interpreter/interp.c:900-904 | a taken short branch lands at `ip + 2` plus the signed displacement byte, an untaken one at `ip + 2` |
| Interp.ShortBranchRoundTrip | src/mono/mono/interpreter/interp.c:900-904 | a target within −128..127 of `ip + 2` has a displacement byte that branches back to it, and every byte is that of its target |
| Interp.BrFalseNext | src/mono/mono/interpreter/interp.c:905-919 | `brfalse.s` branches exactly for a zero integer or a null reference |
| Interp.BrTrueNext | src/mono/mono/interpreter/interp.c:920-934 | `brtrue.s` branches exactly when the value is not zero, so for a non-zero displacement it goes where `brfalse.s` does not |
| Interp.Compare | src/mono/mono/interpreter/interp.c:935-1113 | corrected: the signed forms compare `int32` and `int64` values as signed, and the `.un` forms compare the 32-bit or 64-bit patterns as unsigned |
| Interp.CompareAsWritten | src/mono/mono/interpreter/interp.c:952-968 | as written, an I32 comparison against `GET_NATI` compares the 32-bit patterns as unsigned |
| Interp.CondBranchNext | src/mono/mono/interpreter/interp.c:935-1113 | corrected: a conditional short branch lands at `ip + 2` plus the signed displacement when `Interp.Compare` holds and at `ip + 2` otherwise; with a non-zero displacement it leaves the fall-through exactly when the operands satisfy the opcode's relation, signed for the plain forms on 32- and 64-bit operands and unsigned for `.un` (the source compares the plain forms unsigned too, see Findings) |
| Interp.OppositeComplements | src/mono/mono/interpreter/interp.c:952-1113 | each ordered branch and its opposite (`bge` against `blt.un`, …) take complementary paths, as Partition III of ECMA-335 defines them |
| Interp.AsWrittenAgreement | src/mono/mono/interpreter/interp.c:935-1113 | the code as written agrees with the corrected compares for `beq`, the unsigned forms, 64-bit operands and non-negative `int32` operands |
| Interp.SignedBranchAsWrittenUnsigned | src/mono/mono/interpreter/interp.c:952-968 | as written, `bge.s` takes −1 ≥ 0 |
| Interp.SwitchNext | src/mono/mono/interpreter/interp.c:1127-1144 | an index below n, read unsigned, jumps to the end of the table plus its entry; any other index, negatives included, falls through to the end of the table |
| Interp.SwitchRoundTrip | src/mono/mono/interpreter/interp.c:1127-1144 | a `switch` encoded for a list of targets jumps to the target at an in-range index and falls through otherwise |
| Interp.Div | src/mono/mono/interpreter/interp.c:1267-1281 | corrected: a zero divisor raises DivideByZeroException and `MIN / -1` raises ArithmeticException; otherwise the quotient is rounded toward zero |
| Interp.DivAsWritten | src/mono/mono/interpreter/interp.c:1267-1281 | as written, a zero divisor raises; otherwise the 32-bit patterns are divided as unsigned |
| Interp.DivAsWrittenNonNegative | src/mono/mono/interpreter/interp.c:1270-1276 | for a non-negative dividend and positive divisor the code as written is right |
| Interp.DivAsWrittenNegative | src/mono/mono/interpreter/interp.c:1276-1276 | as written, −6 / 2 gives 0x7FFFFFFD where the corrected code gives −3 |
| Interp.StopFlags | src/mono/mono/interpreter/interp.c:2033-2052 | corrected: a clause stops the search exactly when it is a catch for the exception's class or a filter, and it covers the offset |
| Interp.StopFlagsAsWritten | src/mono/mono/interpreter/interp.c:2033-2052 | as written, a clause stops the search exactly when its flags are at most 1 and its try block covers the offset (`OFFSET_IN_CLAUSE`) |
| Interp.InClause | src/mono/mono/interpreter/interp.c:2022-2023 | an offset is in a clause exactly when it lies in `[try_offset, try_offset + try_len)`, and a block whose `guint32` end wraps past 2^32 covers nothing |
| Interp.FindHandler | src/mono/mono/interpreter/interp.c:2022-2052 | corrected: the handler is the first catch, innermost frame first and in clause order, whose class the exception is an instance of; a covering filter aborts; none is found exactly when no clause catches or filters |
| Interp.FindHandlerAsWritten | src/mono/mono/interpreter/interp.c:2022-2052 | as written, the search stops at the first covering catch or filter, and it finds a handler only when that clause catches the exception |
| Interp.CatchMismatchAsWrittenAborts | src/mono/mono/interpreter/interp.c:2038-2049 | a catch clause for another class aborts the search as written, where the corrected search goes on to the later catch that matches |
| Interp.FirstClauseOfKind | src/mono/mono/interpreter/interp.c:2065-2100 | `handle_finally` and `handle_fault` pick the first clause of their kind whose try block covers the offset, or none |
| Jit.MapStind | src/mono/mono/jit/jit.c:270-314 | a store operator exists exactly for the mapped types; byref and reference types store REF; small integers store at their width; enums store as their underlying type |
| Jit.MapStarg | src/mono/mono/jit/jit.c:372-414 | an argument store operator exists for the same types, and is never the 1- or 2-byte store |
| Jit.MapLdind | src/mono/mono/jit/jit.c:470-531 | a load exists for the mapped types; I1..U4 and I push `VAL_I32`, I8/U8 `VAL_I64`, R4/R8 `VAL_DOUBLE`, byref and references `VAL_POINTER`; small integers load at their width and sign-extend exactly when signed |
| Jit.EnumMapsAsUnderlying | src/mono/mono/jit/jit.c:302-306 | all three maps treat an enum as its underlying type |
| Jit.StoreLoadAgree | src/mono/mono/jit/jit.c:270-531 | a type is storable exactly when it is loadable, with the same width, and it is stored as REF exactly when it is loaded as REF |
| Jit.StargWidens | src/mono/mono/jit/jit.c:372-414 | the argument store is the plain store with the 1- and 2-byte stores widened to 4 bytes |
| Jit.RoundUp | src/mono/mono/jit/jit.c:733-735 | `(x + a - 1) & ~(a - 1)` is the least multiple of `a` at or above `x` |
| Jit.NewFrame | src/mono/mono/jit/jit.c:1045-1051 | a new frame holds only the reserved entry 0, a zeroed temporary cache of four slots per stack slot, and no exception variable |
| Jit.AllocateVar | src/mono/mono/jit/jit.c:724-758 | allocation fails exactly for an unknown kind or an argument alignment that is not a multiple of 4; the new entry is appended and its index returned; a local grows and aligns `locals_size` and sits at `-locals_size`; an argument sits at `args_size + 8 + 4 * has_vtarg` and grows `args_size` to a multiple of 4 |
| Jit.AllocateKeepsFrameValid | src/mono/mono/jit/jit.c:724-758 | allocation keeps every variable inside its area and clear of the others |
| Jit.ValSize | src/mono/mono/jit/jit.c:762-780 | each value class has a power-of-two size that is a multiple of 4 |
| Jit.IntvarPosInjective | src/mono/mono/jit/jit.c:787-796 | two requests share a cache position exactly when they are for the same stack slot and the same class, with `VAL_POINTER` counted as `VAL_I32` |
| Jit.AllocateIntvar | src/mono/mono/jit/jit.c:783-804 | a cached temporary is returned as it is; otherwise a new temporary of the class's size is allocated and its 16-bit index cached |
| Jit.IntvarPointerSharesI32 | src/mono/mono/jit/jit.c:791-793 | a `VAL_POINTER` request is a `VAL_I32` request |
| Jit.IntvarCached | src/mono/mono/jit/jit.c:783-804 | after one request the frame stays well-formed, and the same request gives the same temporary without allocating again |
| Jit.IntvarFresh | src/mono/mono/jit/jit.c:783-804 | a request for an empty cache position allocates the next variable index |
| Jit.AllocateExcvar | src/mono/mono/jit/jit.c:808-816 | the exception variable is allocated once, as a 4-byte pointer temporary, and returned thereafter |
| Jit.ExcvarOnce | src/mono/mono/jit/jit.c:808-816 | a second request gives the same variable and changes nothing |
| Jit.Decode | src/mono/mono/jit/jit.c:1134-1229 | each instruction advances the address, and it ends a block exactly when it returns, throws or branches |
| Jit.WalkComplete | src/mono/mono/jit/jit.c:1134-1230 | the walk (`Jit.Walk`) records every branch and `switch` target and every instruction after a block end |
| Jit.WalkSound | src/mono/mono/jit/jit.c:1134-1230 | the walk records nothing else |
| Jit.ShortBranchAgrees | src/mono/mono/jit/jit.c:1191-1197 | a short branch's block start is where the interpreter's short branch lands |
| Jit.DecodeSwitch | src/mono/mono/jit/jit.c:1205-1221 | a `switch` with n entries records `st = addr + 5 + 4n` and `st + offset_k` for each entry, and does not end the block |
| Jit.SwitchAgrees | src/mono/mono/jit/jit.c:1205-1221 | wherever the interpreter's `switch` goes is among the recorded block starts |
| Jit.MarkStarts | src/mono/mono/jit/jit.c:1118-1230 | the block-start table marks exactly address 0, the try and handler starts, the branch targets and the instructions after block ends |
| Jit.CollectStarts | src/mono/mono/jit/jit.c:1240-1249 | block addresses are the marked addresses in increasing order, starting at 0, and each marked address gets its block's number |
| Jit.BuildBlocks | src/mono/mono/jit/jit.c:1235-1250 | blocks start at marked addresses, run to the next one, and partition the code |
| Jit.PartitionOrdered | src/mono/mono/jit/jit.c:1237-1250 | block addresses grow with the block number |
| Jit.PartitionCovers | src/mono/mono/jit/jit.c:1237-1250 | every code address lies in exactly one block |
| Jit.AnalyzeFlow | src/mono/mono/jit/jit.c:1103-1255 | the blocks partition the code, a block starts at an address exactly when that address is a flow start, and each block start's id is that block's number |
| Jit.ScanArgs | src/mono/mono/jit/jit.c:1367-1422 | the scan stops only at a `call` or `callvirt`, and reports which it was |
| Jit.InlineSite | src/mono/mono/jit/jit.c:1367-1441 | an accepted call site is never virtual |
| Jit.CheckInlining | src/mono/mono/jit/jit.c:1344-1453 | no inlining for runtime, icall, pinvoke or marshal-by-ref methods, methods without a body or with clauses; an inlined callee is not the method itself, has the same `hasthis` and return type and at most n parameters, and the call is not virtual |
| Jit.CheckInliningFrom | src/mono/mono/jit/jit.c:1348-1453 | an inlined callee is the method resolved from the call site's token |
| Jit.WrapperInlinable | src/mono/mono/jit/jit.c:1367-1441 | a body of pushes, a `call` and a `ret` (or `stloc.0; br.s 0; ldloc.0; ret`) is accepted exactly when no argument is loaded twice |
| Jit.ScanPushes | src/mono/mono/jit/jit.c:1367-1422 | scanning encoded pushes before a `call` stops at the call exactly when no argument is loaded twice |
| Jit.ScanMonotone | src/mono/mono/jit/jit.c:1344-1422 | arguments already marked used can only make the scan refuse, never accept a different site |
| Jit.CheckInliningAsWritten | src/mono/mono/jit/jit.c:1344-1345 | as written, with argument flags 4..255 left uninitialised, the test can only refuse more: whatever it accepts is what the corrected test accepts |
| Jit.StaleFlagRefuses | src/mono/mono/jit/jit.c:1344-1386 | a stale flag for argument 5 refuses the forwarder `ldarg.s 5; call; ret`, which the corrected test inlines |
| Jit.ElementInside | src/mono/mono/jit/jit.c:1264-1292 | in-range indices of an array whose storage fits in `int` give an element number (`Jit.ElementIndex`) inside the array, and the 32-bit `ind * esize` (`Jit.ElementOffset`) is exact and leaves the element's bytes inside the storage |
| Profiler.Install | src/mono/mono/metadata/profiler.c:43-49 | installing fails exactly when a profiler is already installed, and otherwise records the profiler and its shutdown callback |
| Profiler.InstallOnce | src/mono/mono/metadata/profiler.c:43-49 | a second install after a successful one fails |
| Profiler.SetEvents | src/mono/mono/metadata/profiler.c:52-56 | setting the mask changes nothing else |
| Profiler.SetGetEvents | src/mono/mono/metadata/profiler.c:52-61 | `get_events` returns the last mask set, and setting the current mask changes nothing |
| Profiler.InstallEnterLeave | src/mono/mono/metadata/profiler.c:64-69 | the enter and leave hooks are replaced and nothing else changes |
| Profiler.InstallJitCompile | src/mono/mono/metadata/profiler.c:71-76 | the jit start and end hooks are replaced and nothing else changes |
| Profiler.InstallThread | src/mono/mono/metadata/profiler.c:78-83 | the thread start and end hooks are replaced and nothing else changes |
| Profiler.InstallTransition | src/mono/mono/metadata/profiler.c:85-89 | the transition hook is replaced and nothing else changes |
| Profiler.InstallLoadHooks | src/mono/mono/metadata/profiler.c:91-129 | one category's four load hooks are replaced and every other hook stays |
| Profiler.MethodEnter | src/mono/mono/metadata/profiler.c:132-137 | the enter hook is called exactly when ENTER_LEAVE is enabled and a hook is installed |
| Profiler.MethodLeave | src/mono/mono/metadata/profiler.c:139-144 | the leave hook is called exactly when ENTER_LEAVE is enabled and a hook is installed |
| Profiler.MethodJit | src/mono/mono/metadata/profiler.c:146-151 | the jit start hook is called exactly when JIT_COMPILATION is enabled and a hook is installed |
| Profiler.MethodEndJit | src/mono/mono/metadata/profiler.c:153-158 | the jit end hook is called, with the result, exactly when JIT_COMPILATION is enabled and a hook is installed |
| Profiler.CodeTransition | src/mono/mono/metadata/profiler.c:160-165 | the transition hook is called exactly when TRANSITIONS is enabled and a hook is installed |
| Profiler.ThreadStart | src/mono/mono/metadata/profiler.c:167-172 | the thread start hook is called exactly when THREADS is enabled and a hook is installed |
| Profiler.ThreadEnd | src/mono/mono/metadata/profiler.c:174-178 | the thread end hook is called exactly when THREADS is enabled and a hook is installed |
| Profiler.LoadEvent | src/mono/mono/metadata/profiler.c:181-202 | a disabled category does nothing; an enabled one calls the START_LOAD, START_UNLOAD or END_UNLOAD hook, and any other code is unreachable (the same for module, class and application-domain events) |
| Profiler.Loaded | src/mono/mono/metadata/profiler.c:205-209 | the end-load hook is called, with the result, exactly when the category is enabled and a hook is installed |
| Profiler.EndLoadGoesThroughLoaded | src/mono/mono/metadata/profiler.c:181-209 | END_LOAD is not an event code; it goes through the `*_loaded` dispatcher |
| Profiler.Shutdown | src/mono/mono/metadata/profiler.c:305-309 | the shutdown callback is called exactly when a profiler and a callback are installed |
| Profiler.Enter | src/mono/mono/metadata/profiler.c:548-558 | entering creates the method's entry on first sight and adds one to its count, and no other count changes |
| Profiler.Leave | src/mono/mono/metadata/profiler.c:561-569 | leaving a method never entered is the fatal error; otherwise nothing changes |
| Profiler.Jit | src/mono/mono/metadata/profiler.c:572-576 | the jitted count goes up by one |
| Profiler.EnterAllCounts | src/mono/mono/metadata/profiler.c:548-558 | after a trace of enters, each method's count has grown by its number of occurrences in the trace |
| Profiler.LeaveAfterEnter | src/mono/mono/metadata/profiler.c:548-569 | every method entered can be left |
| Profiler.SimpleEvents | src/mono/mono/metadata/profiler.c:601-617 | the mask enables exactly ENTER_LEAVE and JIT_COMPILATION |
| Profiler.InstallSimple | src/mono/mono/metadata/profiler.c:601-617 | the simple profiler installs its enter, leave, jit and shutdown callbacks and enables exactly ENTER_LEAVE and JIT_COMPILATION, with no method counted yet |
| Profiler.SimpleDispatch | src/mono/mono/metadata/profiler.c:601-617 | once installed, enter, leave, jit and shutdown reach the simple profiler, and thread, transition and load events are never dispatched |
| Profiler.Handle | src/mono/mono/metadata/profiler.c:548-576 | each callback updates the counts as the matching `simple_*` function does |
| Profiler.SimpleCountsCall | src/mono/mono/metadata/profiler.c:548-617 | entering a method through the installed simple profiler counts it once, and leaving it then succeeds |
| Loader.TypedefFromName | src/mono/mono/metadata/loader.c:29-46 | the lookup succeeds exactly when some row matches both name and namespace, and gives the 1-based index of the first such row with its method list |
| Loader.Search | src/mono/mono/metadata/loader.c:91-103 | the method search gives the first matching row from the start on, 1-based, and fails exactly when none matches |
| Loader.MethodDefFromMemberRef | src/mono/mono/metadata/loader.c:49-114 | corrected: the result is the referenced image and the first MethodDef row, searching from the class's first method to the end of the table, whose name and signature equal the MemberRef's; it fails exactly when the parent or class does not resolve or no row from there matches |
| Loader.MethodDefFromMemberRefAsWritten | src/mono/mono/metadata/loader.c:49-114 | as written: the result is the first row after the one the class's 1-based method list names, matched under `strncmp` |
| Loader.ParentClass | src/mono/mono/metadata/loader.c:57-86 | the parent resolves exactly when it is a TypeRef row whose scope is an AssemblyRef row, giving that reference's image and the TypeRef's name and namespace |
| Loader.FirstMethodSkipped | src/mono/mono/metadata/loader.c:89-91 | as written, the search from the 1-based method list used as 0-based misses a class's first method, which the corrected search finds |
| Loader.SigMatchWeaker | src/mono/mono/metadata/loader.c:96-100 | every pair of signatures equal byte for byte also matches under `strncmp` |
| Loader.NulSignaturesConfused | src/mono/mono/metadata/loader.c:98-98 | as written, `strncmp` stops at the leading 0 of a static signature, so an `int` and a `float` signature match |
| Loader.GetMethodDef | src/mono/mono/metadata/loader.c:117-154 | a cached MethodDef token gives the cached method unchanged; otherwise a new method for the row is appended and cached, and earlier methods stay |
| Loader.GetMethod | src/mono/mono/metadata/loader.c:117-154 | a MethodDef token goes to `GetMethodDef`; any token kind other than MethodDef and MemberRef fails |
| Loader.GetMethodCached | src/mono/mono/metadata/loader.c:128-129 | a second `mono_get_method` for the same token gives the same method and changes nothing |
| Loader.MemberRefRedirects | src/mono/mono/metadata/loader.c:131-135 | a MemberRef token resolves to the MethodDef it names and is exactly the lookup of that MethodDef's token |
| Assembly.ConcatDirAndFileAsWritten | src/mono/mono/metadata/assembly.c:83-97 | as written, an empty directory reads the byte before it |
| Assembly.ConcatDirAndFile | src/mono/mono/metadata/assembly.c:83-97 | a separator is inserted exactly when the directory is non-empty and does not end with one; the result starts with the directory and ends with the file |
| Assembly.DirnameOfJoined | src/mono/mono/metadata/assembly.c:83-97 | the directory of a joined path is the directory it was joined from |
| Assembly.EmptyPathEntryReadsOutside | src/mono/mono/metadata/assembly.c:93-93 | `MONO_PATH=a::b` has an empty entry, which the code as written cannot join and the corrected code joins to the file name |
| Assembly.FileName | src/mono/mono/metadata/assembly.c:293-296 | a name containing `.dll` is the file name; any other name gets `.dll` appended |
| Assembly.FileNameIdempotent | src/mono/mono/metadata/assembly.c:293-296 | the file name of a file name is itself |
| Assembly.Split | src/mono/mono/metadata/assembly.c:45-45 | `MONO_PATH` is split at `:` into at most 1000 pieces, and no piece but the last holds a separator |
| Assembly.SplitJoin | src/mono/mono/metadata/assembly.c:45-45 | the pieces joined with `:` give the variable back |
| Assembly.CheckEnv | src/mono/mono/metadata/assembly.c:33-49 | the first check splits `MONO_PATH` into the search path when it is set; later checks change nothing |
| Assembly.EnvReadOnce | src/mono/mono/metadata/assembly.c:38-40 | checking the environment twice is checking it once, whatever the variable says later |
| Assembly.SetRootDir | src/mono/mono/metadata/assembly.c:125-132 | the default directory is replaced and nothing else changes |
| Assembly.SearchLoaded | src/mono/mono/metadata/assembly.c:57-73 | an assembly is found exactly when a loaded one has the name, and it is the first such in the loaded list |
| Assembly.Close | src/mono/mono/metadata/assembly.c:318-339 | the count goes down by one; the assembly is freed and leaves the loaded list exactly when the count was 1; nothing else changes |
| Assembly.CloseNeverFreesOpened | src/mono/mono/metadata/assembly.c:326-327 | as the count is never raised on open, closing an opened assembly drives the count below zero and never frees it |
| Assembly.Open | src/mono/mono/metadata/assembly.c:145-262 | a missing file fails with an errno status; an already-loaded name gives that assembly; a new image whose references fail is freed and dropped from the loaded list with MISSING_ASSEMBLYREF; a new image that loads records its references and its directory |
| Assembly.OpenNew | src/mono/mono/metadata/assembly.c:199-242 | a new assembly is registered at the next index with its name and directory; it keeps its references when all load, and otherwise is freed and removed |
| Assembly.Register | src/mono/mono/metadata/assembly.c:199-200 | the new assembly is allocated with count 0 and no references, and the status is OK |
| Assembly.Abandon | src/mono/mono/metadata/assembly.c:227-242 | the assembly is removed from the loaded list and freed, and the status is MISSING_ASSEMBLYREF |
| Assembly.LoadRefs | src/mono/mono/metadata/assembly.c:207-242 | when every reference loads, there is one loaded assembly per reference |
| Assembly.LoadInPath | src/mono/mono/metadata/assembly.c:99-114 | corrected: an empty search path finds nothing; a result is an allocated assembly. The join is the corrected one: as written, an empty `MONO_PATH` entry reads the byte before the directory (see Findings). |
| Assembly.LoadInPathFirstWins | src/mono/mono/metadata/assembly.c:99-114 | corrected: the first directory whose file opens gives the result, and a failure goes on with the rest of the path. The join is the corrected one: as written, an empty `MONO_PATH` entry reads the byte before the directory (see Findings). |
| Assembly.Load | src/mono/mono/metadata/assembly.c:264-316 | corrected: a result is an allocated assembly and the heap only grows. The join is the corrected one: as written, an empty `MONO_PATH` entry reads the byte before the directory (see Findings). |
| Assembly.LoadCorlibFromPath | src/mono/mono/metadata/assembly.c:274-288 | without a search path the corlib is not looked up there |
| Assembly.LoadFromBasedir | src/mono/mono/metadata/assembly.c:297-305 | without a base directory nothing is looked up there |
| Assembly.LoadFromSearchPath | src/mono/mono/metadata/assembly.c:306-312 | without a search path nothing is looked up there |
| Assembly.CorlibCached | src/mono/mono/metadata/assembly.c:274-288 | once the corlib is loaded, "mscorlib" and "corlib" give it without touching anything but the environment check |
| Assembly.LoadFindsLoaded | src/mono/mono/metadata/assembly.c:289-291 | a name already loaded gives the loaded assembly |
| Assembly.LoadPrefersBasedir | src/mono/mono/metadata/assembly.c:297-305 | a name not loaded is taken from the base directory when the file there opens, before the search path and the default directory |
| Unicode.UnicodeLen | src/mono/mono/io-layer/unicode.c:11-22 | the result is the first even index holding two zero units; it is even, and no smaller even index holds a zero pair |
| Unicode.OddPairSkipped | src/mono/mono/io-layer/unicode.c:20-20 | a zero pair at an odd index is stepped over |

## Left out

- Floating point: the interpreter's double branches and `div`, `R4`/`R8` stack slots, and the profiler's timers. Dafny has no IEEE doubles, and the timers read clocks.
- Concurrency and code generation: threads, signal handlers, the x86 back end (`mono_analyze_stack`, the burg grammar) and `mono_disassemble_code`.
- Marshal wrapper generators (delegate, runtime-invoke, managed and native wrappers) and the raw-pointer `Marshal` icalls. They need class metadata and caches outside these files.
- `mono_image_open` is the `files` oracle of `Assembly.World`. `getenv`, `CORLIB_NAME` and `MONO_ASSEMBLIES` are parameters.
- The module references of `mono_assembly_open` (assembly.c:246-258) are left out, because module images are opened by code outside these files.
- Assembly names are compared by name only, as `search_loaded` does; culture, version and hash are not modelled.
- `Assembly.Open`, `Assembly.Load` and the functions they call carry a fuel bound. The search ends with `OutOfFuel` when the fuel runs out, which bounds the depth of reference chains that the model follows.
- Assembly.Load: its own contract states only that results are allocated and the heap grows. The search order is stated by `CorlibCached`, `LoadFindsLoaded`, `LoadPrefersBasedir` and `LoadInPathFirstWins`.
- Assembly.LoadInPath: its own contract is weak; the search order is stated by `LoadInPathFirstWins`.
- Assembly.LoadCorlibFromPath: its own contract states only when nothing is looked up; what is found is stated by `Assembly.LoadPrefersBasedir` and `Assembly.LoadInPathFirstWins`.
- Assembly.LoadFromBasedir: its own contract states only when nothing is looked up; what is found is stated by `Assembly.LoadPrefersBasedir` and `Assembly.LoadInPathFirstWins`.
- Assembly.LoadFromSearchPath: its own contract states only when nothing is looked up; what is found is stated by `Assembly.LoadPrefersBasedir` and `Assembly.LoadInPathFirstWins`.
- Assembly.LoadRefs: states the count of loaded references but not which assemblies they are.
- Jit.InlineSite: its own contract states only that an accepted site is not virtual; what it accepts is stated by `WrapperInlinable`, `ScanPushes` and `SiteAt`.
- Jit.ScanArgs: its own contract states where the scan stops; which bodies pass it is stated by `ScanPushes` and `ScanMonotone`.
- Metadata.ComputeSize: its own contract states only when a layout exists; the widths are stated by `BitfieldRoundTrip`.
- Metadata.CodedSize: its own contract states only the two possible widths; which one applies is stated by `CodedIndexFits`.
- Metadata.SchemaColumnsSized: states that every schema column can be sized only under the corrected AssemblyRefProcessor label; as written that column reaches `g_assert_not_reached`, which `Metadata.AssemblyRefProcessorAsWrittenAsserts` states.
- Metadata.TableIdxSize: its contract states only the two widths; the one case that the source gets wrong is stated by `AssemblyRefProcessorAsWrittenAsserts`, and `SchemaColumnsSized` states that every schema column can be sized.
- Metadata.ColumnSize: states the possible widths; the heap columns' rule is stated by `Reflection.HeapColumnsFit`.
- Icall.GetRank is not in the table of members, because its contract would only restate its body; `QueriesAfterCtor` and `QueriesAfterBoundCtor` state what it returns.
- `check_inlining` past the test (jit.c:1461 onwards) builds trees from the argument stack and is left out with the rest of tree building. `callvirt` is never inlined, as the source only accepts a `call`.
- The JIT maps assert on `MONO_TYPE_U`, and so does the model: `U` is not a mapped type.
- `mono_allocate_intvar` stores the variable index in a 16-bit cache, and the model wraps it with `Wrap16`.
- Flow analysis: `CREATE_BLOCK` for a target outside the code writes outside `bcinfo`; the model records only targets inside the code. Operand bytes past the end of the code read as 0. The opcode table is a parameter.
- Jit.RoundUp requires a power-of-two alignment, which is what every caller passes. For other alignments the mask in `arch_allocate_var` does not round up.
- Type equality in `check_inlining` (`mono_metadata_type_equal`) is structural equality of the `MonoType` datatype.
- `mono_get_method` in `check_inlining` is the `resolve` parameter.
- Method headers with extra sections (`parse_section_data`) are left out; the exception clauses are an input of the interpreter and the flow analysis.
- The constant-string side effect of flow analysis (`mono_ldstr` for `ldstr`) is left out.
- The reads of metadata rows in `Loader` give `Err` outside a table, where the C code reads outside it.
- Icall.GetValue / Icall.SetValue: the source compares no index with its bounds. Out-of-range indices whose offset stays inside the storage address another element, in the model as in the source. An offset outside the vector reads or writes memory the array does not own; the model returns `Err` for it and does not model that memory.
- Reflection.TypedefOrRef: the TypeRef cache is keyed by the class's name, namespace and corlib flag, where the source keys it by the `MonoClass` pointer, so two distinct classes with equal names share a token only in the model.
- Four defects are not modelled as written, because no caller in these files reaches them with a meaningful input: `mono_metadata_parse_typedef_or_ref` switches on an uninitialised variable (metadata.c:864-866); metadata.c's `mono_get_method` uses an undeclared variable (metadata.c:1149); `match_signature` counts up from the top index (interp.c:221); `mono_string_intern` looks up the object instead of its key (object.c:310).
- `mono_profiler_*` output (`output_profile`, `output_newobj_profile`) prints, and newobj profiling is left out with it.
- `free` becomes the `freed` set of `Assembly.State`.

## Findings

| source | as written | input that shows it | evidently intended | confidence | as-written member | corrected member |
|---|---|---|---|---|---|---|
| src/mono/mono/metadata/class.c:221-226 | the next TypeDef row is read at 0-based `tidx + 1`, which is two rows ahead of the 1-based `tidx` | three classes with field lists 1, 2, 3 and three fields: classes 1 and 2 get two fields each | the next row, `tidx` in 0-based terms, so that the ranges tile the field table | not executed | Classes.RangesAsWrittenOverlap | Classes.RangesTile |
| src/mono/mono/metadata/class.c:348-360 | a class reached through a TypeRef is cached under the bare row index | TypeRef to TypeDef row 1, then TypeDef token 0x02000001 | cache under the TypeDef token, so that one class exists per TypeDef | not executed | Classes.TypeRefThenTypeDefAsWritten | Classes.TypeRefThenTypeDefShared |
| src/mono/mono/metadata/object.c:250-253 | `ldstr_hash` starts from the byte after the length even for an empty blob | empty blobs followed by 0x41 and 0x42: equal blobs, different hashes | start from the payload, so that equal blobs hash alike | not executed | Objects.EmptyBlobsHashApartAsWritten | Objects.EqualBlobsHashAlike |
| src/mono/mono/interpreter/interp.c:952-968 | signed I32 branches compare against `GET_NATI`, a `guint32`, so the comparison is unsigned | `bge.s` with −1 and 0 branches | a signed comparison, as Partition III of ECMA-335 defines `bge` | not executed | Interp.SignedBranchAsWrittenUnsigned | Interp.OppositeComplements |
| src/mono/mono/interpreter/interp.c:1276-1276 | I32 `div` divides by `GET_NATI`, so the division is unsigned | −6 / 2 gives 0x7FFFFFFD | signed division rounded toward zero | not executed | Interp.DivAsWrittenNegative | Interp.Div |
| src/mono/mono/interpreter/interp.c:2038-2049 | a covering catch clause for another class reaches `g_assert (0)` | an exception of class 2 in a try with a catch for class 1, then a catch for class 0 | skip the clause and go on to the next one | not executed | Interp.CatchMismatchAsWrittenAborts | Interp.FindHandler |
| src/mono/mono/jit/jit.c:1344-1345 | only the flags of arguments 0..3 are cleared; 4..255 hold stack garbage | a stale flag for argument 5 and the forwarder `ldarg.s 5; call; ret` | clear all 256 flags | not executed | Jit.StaleFlagRefuses | Jit.CheckInlining |
| src/mono/mono/metadata/loader.c:89-91 | the search starts at the 1-based method list used as a 0-based row | a class whose only method is row 1: the search starts past it | start at `mlist - 1` | not executed | Loader.FirstMethodSkipped | Loader.MethodDefFromMemberRef |
| src/mono/mono/metadata/loader.c:98-98 | signatures are compared with `strncmp`, which stops at a NUL byte | `00 01 01 08` (static, `int`) against `00 01 01 0C` (static, `float`) match | `memcmp` over the signature length | not executed | Loader.NulSignaturesConfused | Loader.SigMatchWeaker |
| src/mono/mono/metadata/assembly.c:93-93 | `dir [strlen (dir) - 1]` reads before an empty directory | `MONO_PATH=a::b` gives an empty entry | an empty directory joins to the file name | not executed | Assembly.EmptyPathEntryReadsOutside | Assembly.ConcatDirAndFile |
| src/mono/mono/metadata/metadata.c:1231-1236 | the second tiny header tag takes its code size as `flags >> 3`, while `method_encode_code` writes `size << 2` | a 3-byte body: header 0x0E reads back as 1 code byte | `flags >> 2`, as for the first tag, so that writing and reading agree | not executed | Reflection.OddTinyHeaderAsWrittenMisread | Reflection.EncodeCodeRoundTrip |
| src/mono/mono/metadata/metadata.c:580-590 | the TypeDefOrRef width is computed over TypeDef, Param and TypeSpec | 0x4000 TypeRef rows and no Param rows give a 2-byte column | TypeDef, TypeRef and TypeSpec, as section 24.2.6 of Partition II lists them | not executed | Metadata.TdorAsWrittenTooNarrow | Metadata.CodedIndexFits |
| src/mono/mono/metadata/metadata.c:398-402 | the case for AssemblyRefProcessor's table index is labelled AssemblyProcessor, which has no such column | any image with an AssemblyRefProcessor table reaches the assertion | label the case AssemblyRefProcessor and size it by AssemblyRef | not executed | Metadata.AssemblyRefProcessorAsWrittenAsserts | Metadata.TableIdxSize |
