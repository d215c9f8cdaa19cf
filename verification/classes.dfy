/** The class model of class.c: field sizes and the field layout of a
    class, the field and method ranges a TypeDef row owns, the parent
    chain (with `isinst` and field lookup walking it) and the per-image
    class cache. Classes are identified by their index in a class store,
    which stands for the `MonoClass` pointers of the runtime; parents are
    created before their children, so a parent's index is smaller. */
module Classes {
  import opened Bytes
  import opened Types

  /** `sizeof (MonoObject)` on a 32-bit target: the class pointer. */
  const OBJECT_HEADER_SIZE := 4
  /** `sizeof (gpointer)` on a 32-bit target. */
  const POINTER_SIZE := 4

  // ---------------------------------------------------------------------
  // Field sizes and layout
  // ---------------------------------------------------------------------

  /** `mono_field_type_size`: the bytes a field of the given element type
      takes; the composite and unknown kinds are fatal errors. */
  function FieldTypeSize(code: nat): (r: Result<nat>)
    ensures r.Ok? <==> (IsSmallIntCode(code) || code in {MONO_TYPE_I8, MONO_TYPE_U8, MONO_TYPE_R4, MONO_TYPE_R8,
                                                          MONO_TYPE_I, MONO_TYPE_U, MONO_TYPE_STRING, MONO_TYPE_OBJECT})
    ensures IsSmallIntCode(code) ==> r == Ok(IntWidth(code))
    ensures code in {MONO_TYPE_I8, MONO_TYPE_U8, MONO_TYPE_R8} ==> r == Ok(8)
    ensures code in {MONO_TYPE_R4, MONO_TYPE_I, MONO_TYPE_U, MONO_TYPE_STRING, MONO_TYPE_OBJECT} ==> r == Ok(4)
  {
    if code == MONO_TYPE_BOOLEAN then Ok(1)
    else if code == MONO_TYPE_CHAR then Ok(2)
    else if code == MONO_TYPE_I1 || code == MONO_TYPE_U1 then Ok(1)
    else if code == MONO_TYPE_I2 || code == MONO_TYPE_U2 then Ok(2)
    else if code == MONO_TYPE_I4 || code == MONO_TYPE_U4 || code == MONO_TYPE_R4 then Ok(4)
    else if code == MONO_TYPE_I8 || code == MONO_TYPE_U8 || code == MONO_TYPE_R8 then Ok(8)
    else if code == MONO_TYPE_I || code == MONO_TYPE_U then Ok(POINTER_SIZE)
    else if code == MONO_TYPE_STRING || code == MONO_TYPE_OBJECT then Ok(POINTER_SIZE)
    else if code in {MONO_TYPE_VALUETYPE, MONO_TYPE_CLASS, MONO_TYPE_SZARRAY, MONO_TYPE_PTR, MONO_TYPE_FNPTR,
                     MONO_TYPE_ARRAY} then Err("FIXME: Add computation of size")
    else Err("type unknown")
  }

  /** The layout bits of the TypeDef flags (Partition II section 23.1.15). */
  const TYPE_ATTRIBUTE_LAYOUT_MASK := 0x18
  const TYPE_ATTRIBUTE_AUTO_LAYOUT := 0x00
  const TYPE_ATTRIBUTE_SEQUENTIAL_LAYOUT := 0x08
  const TYPE_ATTRIBUTE_EXPLICIT_LAYOUT := 0x10

  function LayoutKind(flags: U32): (r: nat)
    ensures r in {TYPE_ATTRIBUTE_AUTO_LAYOUT, TYPE_ATTRIBUTE_SEQUENTIAL_LAYOUT, TYPE_ATTRIBUTE_EXPLICIT_LAYOUT, 0x18}
  {
    ((flags / 8) % 4) * 8
  }

  /** The space a field of `size` bytes takes in the layout: `size` plus
      `size % 4`. */
  function Slot(size: nat): nat
  {
    size + size % 4
  }

  /** `class_compute_field_layout`: auto and sequential layout put the
      first field right after the object header and each next one after
      the previous field's slot. Explicit layout is a fatal error. The
      fourth layout value reaches no case of the switch, so the fields get
      no offsets (`Ok(None)`). */
  method ComputeFieldLayout(flags: U32, fieldTypes: seq<nat>) returns (r: Result<Option<seq<nat>>>)
    ensures LayoutKind(flags) == TYPE_ATTRIBUTE_EXPLICIT_LAYOUT ==> r.Err?
    ensures LayoutKind(flags) == 0x18 ==> r == Ok(None)
    ensures LayoutKind(flags) in {TYPE_ATTRIBUTE_AUTO_LAYOUT, TYPE_ATTRIBUTE_SEQUENTIAL_LAYOUT} ==>
      (r.Ok? <==> forall i :: 0 <= i < |fieldTypes| ==> FieldTypeSize(fieldTypes[i]).Ok?)
    ensures r.Ok? && r.value.Some? ==> |r.value.value| == |fieldTypes|
    ensures r.Ok? && r.value.Some? && |fieldTypes| > 0 ==> r.value.value[0] == OBJECT_HEADER_SIZE
    ensures r.Ok? && r.value.Some? ==> forall i :: 0 <= i < |fieldTypes| - 1 ==>
      r.value.value[i + 1] == r.value.value[i] + Slot(FieldTypeSize(fieldTypes[i]).value)
  {
    var kind := LayoutKind(flags);
    if kind == TYPE_ATTRIBUTE_EXPLICIT_LAYOUT {
      return Err("TODO: Explicit layout not supported yet");
    }
    if kind == 0x18 {
      return Ok(None);
    }
    var offsets: seq<nat> := [];
    var instanceSize: nat := OBJECT_HEADER_SIZE;
    var i := 0;
    while i < |fieldTypes|
      invariant 0 <= i <= |fieldTypes| && |offsets| == i
      invariant forall j :: 0 <= j < i ==> FieldTypeSize(fieldTypes[j]).Ok?
      invariant i > 0 ==> offsets[0] == OBJECT_HEADER_SIZE
      invariant forall j :: 0 <= j < i - 1 ==> offsets[j + 1] == offsets[j] + Slot(FieldTypeSize(fieldTypes[j]).value)
      invariant instanceSize == if i == 0 then OBJECT_HEADER_SIZE
                                else offsets[i - 1] + Slot(FieldTypeSize(fieldTypes[i - 1]).value)
    {
      offsets := offsets + [instanceSize];
      var size := FieldTypeSize(fieldTypes[i]);
      if size.Err? {
        return Err(size.msg);
      }
      instanceSize := instanceSize + Slot(size.value);
      i := i + 1;
    }
    return Ok(Some(offsets));
  }

  /** The fields of a laid-out class do not overlap: each field ends at or
      before the next one starts. */
  lemma {:induction false} FieldsDisjoint(fieldTypes: seq<nat>, offsets: seq<nat>, i: nat, j: nat)
    requires |offsets| == |fieldTypes| && forall k :: 0 <= k < |fieldTypes| ==> FieldTypeSize(fieldTypes[k]).Ok?
    requires forall k :: 0 <= k < |fieldTypes| - 1 ==>
      offsets[k + 1] == offsets[k] + Slot(FieldTypeSize(fieldTypes[k]).value)
    requires i < j < |fieldTypes|
    ensures offsets[i] + FieldTypeSize(fieldTypes[i]).value <= offsets[j]
    decreases j - i
  {
    if j > i + 1 {
      FieldsDisjoint(fieldTypes, offsets, i, j - 1);
    }
  }

  /** Every offset a layout hands out is even: slots are 2, 4 or 8 bytes
      long and the header is 4. */
  lemma {:induction false} OffsetsEven(fieldTypes: seq<nat>, offsets: seq<nat>, i: nat)
    requires |offsets| == |fieldTypes| && forall k :: 0 <= k < |fieldTypes| ==> FieldTypeSize(fieldTypes[k]).Ok?
    requires |fieldTypes| > 0 ==> offsets[0] == OBJECT_HEADER_SIZE
    requires forall k :: 0 <= k < |fieldTypes| - 1 ==>
      offsets[k + 1] == offsets[k] + Slot(FieldTypeSize(fieldTypes[k]).value)
    requires i < |fieldTypes|
    ensures offsets[i] % 2 == 0
  {
    if i > 0 {
      OffsetsEven(fieldTypes, offsets, i - 1);
      var s := FieldTypeSize(fieldTypes[i - 1]).value;
      assert s in {1, 2, 4, 8};
    }
  }

  // ---------------------------------------------------------------------
  // Field and method ranges of a TypeDef row
  // ---------------------------------------------------------------------

  /** The columns of a TypeDef row used here (Partition II section 22.37). */
  datatype TypeDefRow = TypeDefRow(flags: U32, name: nat, nameSpace: nat, baseType: U32, fieldList: U32, methodList: U32)

  /** A run of rows in the Field or Method table, 0-based and half-open;
      `first` and `last` are `guint32`, `count` an `int`. */
  datatype MemberRange = MemberRange(first: U32, last: U32, count: int)

  /** The count the runtime computes: `last - first` in `guint32`
      arithmetic, stored into an `int`. */
  function RangeCount(first: U32, last: U32): int
  {
    Signed32(Wrap32(last - first))
  }

  /** The field range (`isField`) or method range of TypeDef row `tidx`
      (1-based), given the list column of the row that ends it (`next`,
      `None` for the last row) and the row count of the member table. A
      field list of 0 or past the table, or a method list past the table,
      gives count 0. */
  function MemberRangeOf(list: U32, next: Option<U32>, tableRows: U32, isField: bool): (r: MemberRange)
    ensures r.first == Wrap32(list - 1)
    ensures r.last == if next.Some? then Wrap32(next.value - 1) else tableRows
    ensures (if isField then list != 0 && list <= tableRows else list <= tableRows) ==> r.count == RangeCount(r.first, r.last)
    ensures !(if isField then list != 0 && list <= tableRows else list <= tableRows) ==> r.count == 0
  {
    var first := Wrap32(list - 1);
    var last := if next.Some? then Wrap32(next.value - 1) else tableRows;
    var inRange := if isField then list != 0 && list <= tableRows else list <= tableRows;
    MemberRange(first, last, if inRange then RangeCount(first, last) else 0)
  }

  datatype Ranges = Ranges(fields: MemberRange, methods: MemberRange)

  /** The ranges `mono_class_create_from_typedef` should compute for row
      `tidx`: they end where the next row's lists begin (0-based row
      `tidx`), or at the end of the member tables for the last row. */
  function ClassRanges(typedefs: seq<TypeDefRow>, fieldRows: U32, methodRows: U32, tidx: nat): (r: Ranges)
    requires 1 <= tidx <= |typedefs|
  {
    var row := typedefs[tidx - 1];
    var next := if |typedefs| > tidx then Some(typedefs[tidx]) else None;
    Ranges(MemberRangeOf(row.fieldList, if next.Some? then Some(next.value.fieldList) else None, fieldRows, true),
           MemberRangeOf(row.methodList, if next.Some? then Some(next.value.methodList) else None, methodRows, false))
  }

  /** The ranges as class.c computes them: it tests `rows > tidx + 1` and
      reads 0-based row `tidx + 1`, which is the row after the next one. */
  function ClassRangesAsWritten(typedefs: seq<TypeDefRow>, fieldRows: U32, methodRows: U32, tidx: nat): (r: Ranges)
    requires 1 <= tidx <= |typedefs|
  {
    var row := typedefs[tidx - 1];
    var next := if |typedefs| > tidx + 1 then Some(typedefs[tidx + 1]) else None;
    Ranges(MemberRangeOf(row.fieldList, if next.Some? then Some(next.value.fieldList) else None, fieldRows, true),
           MemberRangeOf(row.methodList, if next.Some? then Some(next.value.methodList) else None, methodRows, false))
  }

  /** The list columns of a well-formed TypeDef table: every list is
      1-based, does not pass one past the end of its table, and the lists
      never decrease (Partition II section 22.37). */
  predicate ListsWellFormed(typedefs: seq<TypeDefRow>, fieldRows: U32, methodRows: U32)
  {
    (forall t :: 0 <= t < |typedefs| ==>
       1 <= typedefs[t].fieldList <= fieldRows + 1 && 1 <= typedefs[t].methodList <= methodRows + 1)
    && (forall t :: 0 <= t < |typedefs| - 1 ==>
          typedefs[t].fieldList <= typedefs[t + 1].fieldList && typedefs[t].methodList <= typedefs[t + 1].methodList)
  }

  /** With the corrected reading, consecutive classes own adjacent field
      and method runs, the last class's runs end at the end of the tables,
      and each count is the length of its run. */
  lemma RangesTile(typedefs: seq<TypeDefRow>, fieldRows: U32, methodRows: U32, tidx: nat)
    requires ListsWellFormed(typedefs, fieldRows, methodRows) && 1 <= tidx <= |typedefs|
    requires fieldRows < 0x8000_0000 && methodRows < 0x8000_0000
    ensures var r := ClassRanges(typedefs, fieldRows, methodRows, tidx);
      r.fields.first == typedefs[tidx - 1].fieldList - 1 && r.methods.first == typedefs[tidx - 1].methodList - 1
      && (tidx < |typedefs| ==>
            r.fields.last == ClassRanges(typedefs, fieldRows, methodRows, tidx + 1).fields.first
            && r.methods.last == ClassRanges(typedefs, fieldRows, methodRows, tidx + 1).methods.first)
      && (tidx == |typedefs| ==> r.fields.last == fieldRows && r.methods.last == methodRows)
      && (typedefs[tidx - 1].fieldList <= fieldRows ==> r.fields.count == r.fields.last - r.fields.first >= 0)
      && (typedefs[tidx - 1].methodList <= methodRows ==> r.methods.count == r.methods.last - r.methods.first >= 0)
  {
    var row := typedefs[tidx - 1];
    if tidx < |typedefs| {
      RunTiles(row.fieldList, Some(typedefs[tidx].fieldList), fieldRows, true);
      RunTiles(row.methodList, Some(typedefs[tidx].methodList), methodRows, false);
      RunTiles(typedefs[tidx].fieldList, None, fieldRows, true);
      RunTiles(typedefs[tidx].methodList, None, methodRows, false);
    } else {
      RunTiles(row.fieldList, None, fieldRows, true);
      RunTiles(row.methodList, None, methodRows, false);
    }
  }

  /** One member run of a well-formed row: it starts at the list column
      less one and, when the list is inside the table, its count is its
      length. */
  lemma RunTiles(list: U32, next: Option<U32>, rows: U32, isField: bool)
    requires 1 <= list <= rows + 1 && rows < 0x8000_0000
    requires next.Some? ==> list <= next.value <= rows + 1
    ensures MemberRangeOf(list, next, rows, isField).first == list - 1
    ensures MemberRangeOf(list, next, rows, isField).last == if next.Some? then next.value - 1 else rows
    ensures var r := MemberRangeOf(list, next, rows, isField);
      list <= rows ==> r.count == r.last - r.first >= 0
  {
    var r := MemberRangeOf(list, next, rows, isField);
    WrapSmall(list - 1);
    if next.Some? {
      WrapSmall(next.value - 1);
    }
    SmallCount(r.first, r.last);
  }

  /** A run that does not end before it starts and is shorter than 2^31
      keeps its length through the `guint32`-to-`int` count. */
  lemma SmallCount(first: U32, last: U32)
    ensures first <= last < 0x8000_0000 ==> RangeCount(first, last) == last - first
  {
  }

  /** Three classes with one field each: as written, the first class is
      given two fields and so is the second, where each owns one. */
  lemma RangesAsWrittenOverlap()
    ensures var tds := [TypeDefRow(0, 0, 0, 0, 1, 1), TypeDefRow(0, 0, 0, 0, 2, 1), TypeDefRow(0, 0, 0, 0, 3, 1)];
      ListsWellFormed(tds, 3, 0)
      && ClassRangesAsWritten(tds, 3, 0, 1).fields == MemberRange(0, 2, 2)
      && ClassRangesAsWritten(tds, 3, 0, 2).fields == MemberRange(1, 3, 2)
      && ClassRanges(tds, 3, 0, 1).fields == MemberRange(0, 1, 1)
      && ClassRanges(tds, 3, 0, 2).fields == MemberRange(1, 2, 1)
  {
  }

  // ---------------------------------------------------------------------
  // The class store and the parent chain
  // ---------------------------------------------------------------------

  /** A loaded class: its TypeDef token, parent, instance size, flags,
      member ranges and field offsets. */
  datatype ClassInfo = ClassInfo(
    typeToken: nat, parent: Option<nat>, valuetype: bool, instanceSize: int, flags: U32,
    fields: MemberRange, methods: MemberRange, fieldOffsets: seq<nat>)

  /** Parents come before their children in the store. */
  predicate StoreValid(store: seq<ClassInfo>)
  {
    forall c :: 0 <= c < |store| && store[c].parent.Some? ==> store[c].parent.value < c
  }

  /** `k` is on the parent chain that starts at `c` (`c` included). */
  predicate Ancestor(store: seq<ClassInfo>, c: nat, k: nat)
    requires StoreValid(store) && c < |store|
    decreases c
  {
    c == k || (store[c].parent.Some? && Ancestor(store, store[c].parent.value, k))
  }

  lemma {:induction false} AncestorBelow(store: seq<ClassInfo>, c: nat, k: nat)
    requires StoreValid(store) && c < |store| && Ancestor(store, c, k)
    ensures k <= c
    decreases c
  {
    if c != k {
      AncestorBelow(store, store[c].parent.value, k);
    }
  }

  lemma ChainBelow(store: seq<ClassInfo>, c: nat)
    requires StoreValid(store) && c < |store|
    ensures forall k: nat :: Ancestor(store, c, k) ==> k <= c
  {
    forall k: nat | Ancestor(store, c, k) {
      AncestorBelow(store, c, k);
    }
  }

  lemma {:induction false} AncestorTransitive(store: seq<ClassInfo>, a: nat, b: nat, c: nat)
    requires StoreValid(store) && a < |store| && b < |store| && Ancestor(store, a, b) && Ancestor(store, b, c)
    ensures Ancestor(store, a, c)
    decreases a
  {
    AncestorBelow(store, a, b);
    if a != b {
      AncestorTransitive(store, store[a].parent.value, b, c);
    }
  }

  /** Being an ancestor is a partial order: two classes that are each on
      the other's chain are the same class. */
  lemma AncestorAntisymmetric(store: seq<ClassInfo>, a: nat, b: nat)
    requires StoreValid(store) && a < |store| && b < |store| && Ancestor(store, a, b) && Ancestor(store, b, a)
    ensures a == b
  {
    AncestorBelow(store, a, b);
    AncestorBelow(store, b, a);
  }

  /** `mono_isinst` (interp.c) and `mono_object_isinst` (object.c): walk the
      parent chain from the object's class looking for `klass`. */
  method IsInst(store: seq<ClassInfo>, objClass: nat, klass: nat) returns (r: bool)
    requires StoreValid(store) && objClass < |store|
    ensures r <==> Ancestor(store, objClass, klass)
  {
    var o: Option<nat> := Some(objClass);
    while o.Some?
      invariant o.Some? ==> o.value < |store| && (Ancestor(store, objClass, klass) <==> Ancestor(store, o.value, klass))
      invariant o.None? ==> !Ancestor(store, objClass, klass)
      decreases if o.Some? then o.value + 1 else 0
    {
      if o.value == klass {
        return true;
      }
      o := store[o.value].parent;
    }
    return false;
  }

  // ---------------------------------------------------------------------
  // Field lookup
  // ---------------------------------------------------------------------

  /** The class owns field index `idx` (compared as `guint32`). */
  predicate Owns(cls: ClassInfo, idx: int)
  {
    cls.fields.count != 0 && cls.fields.first <= Wrap32(idx) < cls.fields.last
  }

  datatype FieldRef = FieldRef(owner: nat, pos: nat)

  /** `mono_class_get_field_idx`: the nearest class on the parent chain
      whose field range holds `idx`, and the field's position in it;
      `None` when no class on the chain owns it. */
  function GetFieldIdx(store: seq<ClassInfo>, c: nat, idx: int): (r: Option<FieldRef>)
    requires StoreValid(store) && c < |store|
    ensures r.Some? ==> r.value.owner < |store| && Ancestor(store, c, r.value.owner) && Owns(store[r.value.owner], idx)
    ensures r.Some? ==> r.value.pos == Wrap32(idx) - store[r.value.owner].fields.first
    ensures r.Some? ==> forall k :: 0 <= k < |store| && Ancestor(store, c, k) && k > r.value.owner ==> !Owns(store[k], idx)
    ensures r.None? ==> forall k :: 0 <= k < |store| && Ancestor(store, c, k) ==> !Owns(store[k], idx)
    decreases c
  {
    var cls := store[c];
    if Owns(cls, idx) then
      ChainBelow(store, c);
      Some(FieldRef(c, Wrap32(idx) - cls.fields.first))
    else if cls.parent.None? then None
    else
      var r := GetFieldIdx(store, cls.parent.value, idx);
      ChainStep(store, c);
      r
  }

  /** A class's chain is the class followed by its parent's chain. */
  lemma ChainStep(store: seq<ClassInfo>, c: nat)
    requires StoreValid(store) && c < |store| && store[c].parent.Some?
    ensures forall k :: Ancestor(store, c, k) <==> k == c || Ancestor(store, store[c].parent.value, k)
  {
  }

  const TOKEN_TYPE_FIELD_DEF := 0x0400_0000
  const TOKEN_TYPE_MEMBER_REF := 0x0A00_0000

  /** `mono_class_get_field`: a MemberRef token is unsupported, any token
      other than a FieldDef is an assertion failure, and a FieldDef token
      names the 0-based field `index - 1`. */
  function GetField(store: seq<ClassInfo>, c: nat, token: U32): (r: Result<Option<FieldRef>>)
    requires StoreValid(store) && c < |store|
    ensures r.Ok? <==> token / 0x100_0000 == TOKEN_TYPE_FIELD_DEF / 0x100_0000
    ensures r.Ok? ==> r.value == GetFieldIdx(store, c, token % 0x100_0000 - 1)
  {
    var code := (token / 0x100_0000) * 0x100_0000;
    if code == TOKEN_TYPE_MEMBER_REF then Err("Unsupported Field Token is a MemberRef, implement me")
    else if code != TOKEN_TYPE_FIELD_DEF then Err("assertion failed: token is a FieldDef")
    else Ok(GetFieldIdx(store, c, token % 0x100_0000 - 1))
  }

  // ---------------------------------------------------------------------
  // Creating classes and the class cache
  // ---------------------------------------------------------------------

  /** The instance size a new class starts from: the object header for a
      root class (no base type), the parent's instance size otherwise. */
  function InitialInstanceSize(parent: Option<ClassInfo>): (r: int)
    ensures parent.None? ==> r == OBJECT_HEADER_SIZE
    ensures parent.Some? ==> r == parent.value.instanceSize
  {
    if parent.None? then OBJECT_HEADER_SIZE else parent.value.instanceSize
  }

  /** `mono_class_create_from_typedef` for row `tidx` (1-based) of the
      TypeDef table, the parent (if the row extends one) having been loaded
      into `store` already, and the field layout computed from the field
      types. */
  function CreateFromTypedef(store: seq<ClassInfo>, typedefs: seq<TypeDefRow>, fieldRows: U32, methodRows: U32,
                             tidx: nat, parent: Option<nat>, fieldOffsets: seq<nat>): (r: ClassInfo)
    requires StoreValid(store) && 1 <= tidx <= |typedefs|
    requires parent.Some? ==> parent.value < |store|
    requires parent.None? <==> typedefs[tidx - 1].baseType == 0
    ensures StoreValid(store + [r])
    ensures r.typeToken == tidx && r.flags == typedefs[tidx - 1].flags && r.parent == parent
    ensures r.instanceSize == InitialInstanceSize(if parent.Some? then Some(store[parent.value]) else None)
    ensures Ranges(r.fields, r.methods) == ClassRanges(typedefs, fieldRows, methodRows, tidx)
  {
    var ranges := ClassRanges(typedefs, fieldRows, methodRows, tidx);
    var size := InitialInstanceSize(if parent.Some? then Some(store[parent.value]) else None);
    ClassInfo(tidx, parent, false, size, typedefs[tidx - 1].flags, ranges.fields, ranges.methods, fieldOffsets)
  }

  const TOKEN_TYPE_TYPE_DEF := 0x0200_0000
  const TOKEN_TYPE_TYPE_REF := 0x0100_0000

  /** The per-image class cache (token to class) and the store of classes
      created so far. */
  datatype ClassCache = ClassCache(cache: map<nat, nat>, store: seq<ClassInfo>)

  predicate CacheValid(cc: ClassCache)
  {
    StoreValid(cc.store) && forall t :: t in cc.cache ==> cc.cache[t] < |cc.store|
  }

  datatype Got = Got(state: ClassCache, klass: nat)

  /** `mono_class_get` for a TypeDef token: a cached class is returned
      as it is; otherwise `created` (the class the typedef row makes) is
      added to the store and cached under the token. */
  function ClassGetTypeDef(cc: ClassCache, token: U32, created: ClassInfo): (r: Got)
    requires CacheValid(cc) && token / 0x100_0000 == TOKEN_TYPE_TYPE_DEF / 0x100_0000
    requires created.parent.Some? ==> created.parent.value < |cc.store|
    ensures CacheValid(r.state) && r.klass < |r.state.store|
    ensures token in cc.cache ==> r == Got(cc, cc.cache[token])
    ensures token !in cc.cache ==>
      r.klass == |cc.store| && r.state.store == cc.store + [created] && r.state.cache == cc.cache[token := r.klass]
    ensures token in r.state.cache && r.state.cache[token] == r.klass
  {
    if token in cc.cache then Got(cc, cc.cache[token])
    else Got(ClassCache(cc.cache[token := |cc.store|], cc.store + [created]), |cc.store|)
  }

  /** Asking twice for the same TypeDef token gives the same class and
      creates nothing the second time. */
  lemma ClassGetIdempotent(cc: ClassCache, token: U32, created: ClassInfo, again: ClassInfo)
    requires CacheValid(cc) && token / 0x100_0000 == TOKEN_TYPE_TYPE_DEF / 0x100_0000
    requires created.parent.Some? ==> created.parent.value < |cc.store|
    requires var r := ClassGetTypeDef(cc, token, created);
      again.parent.Some? ==> again.parent.value < |r.state.store|
    ensures var r := ClassGetTypeDef(cc, token, created);
      ClassGetTypeDef(r.state, token, again) == r
  {
  }

  /** `mono_class_get` for a TypeRef token as class.c writes it: the
      TypeRef is resolved to the TypeDef row `index` and the new class is
      cached under the bare row index instead of a TypeDef token. */
  function ClassGetTypeRefAsWritten(cc: ClassCache, index: nat, created: ClassInfo): (r: Got)
    requires CacheValid(cc)
    requires created.parent.Some? ==> created.parent.value < |cc.store|
    ensures CacheValid(r.state) && r.klass == |cc.store|
  {
    Got(ClassCache(cc.cache[index := |cc.store|], cc.store + [created]), |cc.store|)
  }

  /** The same, caching the class under its TypeDef token. */
  function ClassGetTypeRef(cc: ClassCache, index: nat, created: ClassInfo): (r: Got)
    requires CacheValid(cc) && index < 0x100_0000
    requires created.parent.Some? ==> created.parent.value < |cc.store|
    ensures CacheValid(r.state) && r.klass < |r.state.store|
    ensures TOKEN_TYPE_TYPE_DEF + index in r.state.cache && r.state.cache[TOKEN_TYPE_TYPE_DEF + index] == r.klass
  {
    var token := TOKEN_TYPE_TYPE_DEF + index;
    if token in cc.cache then Got(cc, cc.cache[token])
    else Got(ClassCache(cc.cache[token := |cc.store|], cc.store + [created]), |cc.store|)
  }

  /** With the corrected cache key, loading a class through a TypeRef and
      then through its TypeDef token gives the same class. */
  lemma TypeRefThenTypeDefShared(cc: ClassCache, index: nat, created: ClassInfo, again: ClassInfo)
    requires CacheValid(cc) && 0 < index < 0x100_0000
    requires created.parent.Some? ==> created.parent.value < |cc.store|
    requires again.parent.Some? ==> again.parent.value < |cc.store|
    ensures var r1 := ClassGetTypeRef(cc, index, created);
      ClassGetTypeDef(r1.state, TOKEN_TYPE_TYPE_DEF + index, again).klass == r1.klass
  {
  }

  /** As written, a class first reached through a TypeRef is created a
      second time, as a different class, when its TypeDef token is used:
      an object of the one is then not `isinst` of the other. */
  lemma TypeRefThenTypeDefAsWritten()
    ensures var cc := ClassCache(map[], []);
      var root := ClassInfo(1, None, false, 4, 0, MemberRange(0, 0, 0), MemberRange(0, 0, 0), []);
      var r1 := ClassGetTypeRefAsWritten(cc, 1, root);
      var r2 := ClassGetTypeDef(r1.state, TOKEN_TYPE_TYPE_DEF + 1, root);
      r1.klass == 0 && r2.klass == 1 && !Ancestor(r2.state.store, r2.klass, r1.klass)
  {
  }
}
