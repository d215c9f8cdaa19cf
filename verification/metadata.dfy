/** The physical layout of the ECMA-335 metadata tables (Partition II,
    sections 22 and 24.2.6): per-table column schemas, the width of every
    column in a given image, the packed size bitfield, where each table
    starts in the `#~` stream, the compressed unsigned integers of blob
    signatures (Partition II section 23.2) and method body headers
    (Partition II section 25.4). */
module Metadata {
  import opened Bytes

  // ---------------------------------------------------------------------
  // Table identifiers (the numbering of Partition II section 22)
  // ---------------------------------------------------------------------

  const MODULE := 0x00
  const TYPEREF := 0x01
  const TYPEDEF := 0x02
  const FIELD := 0x04
  const METHOD := 0x06
  const PARAM := 0x08
  const INTERFACEIMPL := 0x09
  const MEMBERREF := 0x0A
  const CONSTANT := 0x0B
  const CUSTOMATTRIBUTE := 0x0C
  const FIELDMARSHAL := 0x0D
  const DECLSECURITY := 0x0E
  const CLASSLAYOUT := 0x0F
  const FIELDLAYOUT := 0x10
  const STANDALONESIG := 0x11
  const EVENTMAP := 0x12
  const EVENT := 0x14
  const PROPERTYMAP := 0x15
  const PROPERTY := 0x17
  const METHODSEMANTICS := 0x18
  const METHODIMPL := 0x19
  const MODULEREF := 0x1A
  const TYPESPEC := 0x1B
  const IMPLMAP := 0x1C
  const FIELDRVA := 0x1D
  const ASSEMBLY := 0x20
  const ASSEMBLYPROCESSOR := 0x21
  const ASSEMBLYOS := 0x22
  const ASSEMBLYREF := 0x23
  const ASSEMBLYREFPROCESSOR := 0x24
  const ASSEMBLYREFOS := 0x25
  const FILE := 0x26
  const EXPORTEDTYPE := 0x27
  const MANIFESTRESOURCE := 0x28
  const NESTEDCLASS := 0x29

  /** The kinds of column a table row is made of. */
  datatype Column =
    | U32Col | U16Col | U8Col
    | BlobIdx | StringIdx | GuidIdx
    | TableIdx
    | ConstIdx | HasCatIdx | CatIdx | HasDecIdx | ImplIdx | HfmIdx | MfIdx
    | TdorIdx | MrpIdx | MdorIdx | HsIdx | RsIdx

  predicate IsCoded(c: Column)
  {
    !(c.U32Col? || c.U16Col? || c.U8Col? || c.BlobIdx? || c.StringIdx? || c.GuidIdx? || c.TableIdx?)
  }

  /** The column schema of table `t`; `None` for the unassigned numbers. */
  function Schema(t: int): Option<seq<Column>>
  {
    if t == MODULE then Some([U16Col, StringIdx, GuidIdx, GuidIdx, GuidIdx])
    else if t == TYPEREF then Some([RsIdx, StringIdx, StringIdx])
    else if t == TYPEDEF then Some([U32Col, StringIdx, StringIdx, TdorIdx, TableIdx, TableIdx])
    else if t == FIELD then Some([U16Col, StringIdx, BlobIdx])
    else if t == METHOD then Some([U32Col, U16Col, U16Col, StringIdx, BlobIdx, TableIdx])
    else if t == PARAM then Some([U16Col, U16Col, StringIdx])
    else if t == INTERFACEIMPL then Some([TableIdx, TdorIdx])
    else if t == MEMBERREF then Some([MrpIdx, StringIdx, BlobIdx])
    else if t == CONSTANT then Some([U8Col, U8Col, ConstIdx, BlobIdx])
    else if t == CUSTOMATTRIBUTE then Some([HasCatIdx, CatIdx, BlobIdx])
    else if t == FIELDMARSHAL then Some([HfmIdx, BlobIdx])
    else if t == DECLSECURITY then Some([U16Col, HasDecIdx, BlobIdx])
    else if t == CLASSLAYOUT then Some([U16Col, U32Col, TableIdx])
    else if t == FIELDLAYOUT then Some([U32Col, TableIdx])
    else if t == STANDALONESIG then Some([BlobIdx])
    else if t == EVENTMAP then Some([TableIdx, TableIdx])
    else if t == EVENT then Some([U16Col, StringIdx, TableIdx])
    else if t == PROPERTYMAP then Some([TableIdx, TableIdx])
    else if t == PROPERTY then Some([U16Col, StringIdx, BlobIdx])
    else if t == METHODSEMANTICS then Some([U16Col, TableIdx, HsIdx])
    else if t == METHODIMPL then Some([TableIdx, MdorIdx, MdorIdx])
    else if t == MODULEREF then Some([StringIdx])
    else if t == TYPESPEC then Some([BlobIdx])
    else if t == IMPLMAP then Some([U16Col, MfIdx, StringIdx, TableIdx])
    else if t == FIELDRVA then Some([U32Col, TableIdx])
    else if t == ASSEMBLY then Some([U32Col, U16Col, U16Col, U16Col, U16Col, U32Col, BlobIdx, StringIdx, StringIdx])
    else if t == ASSEMBLYPROCESSOR then Some([U32Col])
    else if t == ASSEMBLYOS then Some([U32Col, U32Col, U32Col])
    else if t == ASSEMBLYREF then Some([U16Col, U16Col, U16Col, U16Col, U32Col, BlobIdx, StringIdx, StringIdx, BlobIdx])
    else if t == ASSEMBLYREFPROCESSOR then Some([U32Col, TableIdx])
    else if t == ASSEMBLYREFOS then Some([U32Col, U32Col, U32Col, TableIdx])
    else if t == FILE then Some([U32Col, StringIdx, BlobIdx])
    else if t == EXPORTEDTYPE then Some([U32Col, TableIdx, StringIdx, StringIdx, ImplIdx])
    else if t == MANIFESTRESOURCE then Some([U32Col, U32Col, StringIdx, ImplIdx])
    else if t == NESTEDCLASS then Some([TableIdx, TableIdx])
    else None
  }

  /** `mono_meta_table_name`: the empty string outside `[0, 0x29]`, NULL
      (`None`) for a number inside it that names no table. */
  function TableName(t: int): (r: Option<string>)
    ensures !(0 <= t <= 0x29) ==> r == Some("")
    ensures 0 <= t <= 0x29 ==> (r.Some? <==> Schema(t).Some?)
    ensures 0 <= t <= 0x29 && r.Some? ==> r.value != ""
  {
    if !(0 <= t <= 0x29) then Some("")
    else if t == MODULE then Some("Module")
    else if t == TYPEREF then Some("TypeRef")
    else if t == TYPEDEF then Some("TypeDef")
    else if t == FIELD then Some("Field")
    else if t == METHOD then Some("Method")
    else if t == PARAM then Some("Param")
    else if t == INTERFACEIMPL then Some("InterfaceImpl")
    else if t == MEMBERREF then Some("MemberRef")
    else if t == CONSTANT then Some("Constant")
    else if t == CUSTOMATTRIBUTE then Some("CustomAttribute")
    else if t == FIELDMARSHAL then Some("FieldMarshal")
    else if t == DECLSECURITY then Some("DeclSecurity")
    else if t == CLASSLAYOUT then Some("ClassLayout")
    else if t == FIELDLAYOUT then Some("FieldLayout")
    else if t == STANDALONESIG then Some("StandaloneSig")
    else if t == EVENTMAP then Some("EventMap")
    else if t == EVENT then Some("Event")
    else if t == PROPERTYMAP then Some("PropertyMap")
    else if t == PROPERTY then Some("PropertyTable")
    else if t == METHODSEMANTICS then Some("MethodSemantics")
    else if t == METHODIMPL then Some("MethodImpl")
    else if t == MODULEREF then Some("ModuleRef")
    else if t == TYPESPEC then Some("TypeSpec")
    else if t == IMPLMAP then Some("ImplMap")
    else if t == FIELDRVA then Some("FieldRVA")
    else if t == ASSEMBLY then Some("Assembly")
    else if t == ASSEMBLYPROCESSOR then Some("AssemblyProcessor")
    else if t == ASSEMBLYOS then Some("AssemblyOS")
    else if t == ASSEMBLYREF then Some("AssemblyRef")
    else if t == ASSEMBLYREFPROCESSOR then Some("AssemblyRefProcessor")
    else if t == ASSEMBLYREFOS then Some("AssemblyRefOS")
    else if t == FILE then Some("File")
    else if t == EXPORTEDTYPE then Some("ExportedType")
    else if t == MANIFESTRESOURCE then Some("ManifestResource")
    else if t == NESTEDCLASS then Some("NestedClass")
    else None
  }

  // ---------------------------------------------------------------------
  // Column widths
  // ---------------------------------------------------------------------

  /** Row counts of the 64 possible tables. */
  type RowCounts = r: seq<nat> | |r| == 64 witness seq(64, _ => 0)

  /** What column widths depend on: the heap-size flags and the row counts. */
  datatype Meta = Meta(stringWide: bool, guidWide: bool, blobWide: bool, rows: RowCounts)

  /** `idx_size`: a plain table index is two bytes while the table has
      fewer than 65536 rows. */
  function IdxSize(m: Meta, t: int): nat
    requires 0 <= t < 64
  {
    if m.rows[t] < 65536 then 2 else 4
  }

  /** The largest row count among tables `ts`. */
  function MaxRows(m: Meta, ts: seq<int>): (r: nat)
    requires forall i :: 0 <= i < |ts| ==> 0 <= ts[i] < 64
    ensures forall i :: 0 <= i < |ts| ==> m.rows[ts[i]] <= r
    ensures |ts| == 0 ==> r == 0
    ensures |ts| > 0 ==> exists i :: 0 <= i < |ts| && m.rows[ts[i]] == r
  {
    if |ts| == 0 then 0
    else
      var rest := MaxRows(m, ts[1..]);
      assert forall i :: 1 <= i < |ts| ==> ts[i] == ts[1..][i - 1];
      if m.rows[ts[0]] >= rest then m.rows[ts[0]] else rest
  }

  /** The tables a coded index of kind `c` may point into, in tag order
      (Partition II section 24.2.6). For TypeDefOrRef the runtime lists
      Param where the standard lists TypeRef: see `TdorCandidatesAsWritten`. */
  function Candidates(c: Column): (r: seq<int>)
    ensures forall i :: 0 <= i < |r| ==> 0 <= r[i] < 64
  {
    match c
    case ConstIdx => [PARAM, FIELD, PROPERTY]
    case HasCatIdx => [METHOD, FIELD, TYPEREF, TYPEDEF, PARAM, INTERFACEIMPL, MEMBERREF, MODULE,
                       PROPERTY, EVENT, MODULEREF, TYPESPEC, ASSEMBLY, ASSEMBLYREF, FILE,
                       EXPORTEDTYPE, MANIFESTRESOURCE]
    case CatIdx => [TYPEREF, TYPEDEF, METHOD, MEMBERREF]
    case HasDecIdx => [TYPEDEF, METHOD, ASSEMBLY]
    case ImplIdx => [FILE, ASSEMBLYREF, EXPORTEDTYPE]
    case HfmIdx => [FIELD, PARAM]
    case MfIdx => [FIELD, METHOD]
    case TdorIdx => [TYPEDEF, TYPEREF, TYPESPEC]
    case MrpIdx => [TYPEDEF, TYPEREF, MODULE, MODULEREF, TYPESPEC]
    case MdorIdx => [METHOD, MEMBERREF]
    case HsIdx => [METHOD, MEMBERREF]
    case RsIdx => [MODULE, MODULEREF, ASSEMBLYREF, TYPEREF]
    case _ => []
  }

  /** The TypeDefOrRef candidates as the runtime computes them. */
  function TdorCandidatesAsWritten(): (r: seq<int>)
    ensures TYPEREF !in r && PARAM in r
  {
    [TYPEDEF, PARAM, TYPESPEC]
  }

  /** How many low bits of a coded index hold the tag. */
  function TagBits(c: Column): (r: nat)
    ensures r <= 5
  {
    match c
    case HasCatIdx => 5
    case CatIdx => 3
    case MrpIdx => 3
    case HfmIdx => 1
    case MfIdx => 1
    case MdorIdx => 1
    case HsIdx => 1
    case ConstIdx => 2
    case HasDecIdx => 2
    case ImplIdx => 2
    case TdorIdx => 2
    case RsIdx => 2
    case _ => 0
  }

  /** `rtsize`: two bytes while `n` rows fit in `bits` bits. */
  function RtSize(n: nat, bits: nat): nat
  {
    if n < Pow2(bits) then 2 else 4
  }

  /** The width of a coded-index column of kind `c`. */
  function CodedSize(m: Meta, c: Column): (r: nat)
    requires IsCoded(c)
    ensures r == 2 || r == 4
  {
    RtSize(MaxRows(m, Candidates(c)), 16 - TagBits(c))
  }

  /** The width of the TableIdx column `i` of table `t`: each such column
      indexes a fixed table, named here. `None` where the runtime asserts. */
  function TableIdxSize(m: Meta, t: int, i: nat): (r: Option<nat>)
    ensures r.Some? ==> r.value == 2 || r.value == 4
  {
    if t == ASSEMBLYREFOS && i == 3 then Some(IdxSize(m, ASSEMBLYREF))
    else if t == ASSEMBLYREFPROCESSOR && i == 1 then Some(IdxSize(m, ASSEMBLYREF))
    else if t == CLASSLAYOUT && i == 2 then Some(IdxSize(m, TYPEDEF))
    else if t == EVENTMAP && i == 0 then Some(IdxSize(m, TYPEDEF))
    else if t == EVENTMAP && i == 1 then Some(IdxSize(m, EVENT))
    else if t == EVENT && i == 2 then
      Some(if IdxSize(m, TYPEDEF) == 4 || IdxSize(m, TYPEREF) == 4 || IdxSize(m, TYPESPEC) == 4 then 4 else 2)
    else if t == EXPORTEDTYPE && i == 1 then Some(IdxSize(m, TYPEDEF))
    else if t == FIELDLAYOUT && i == 1 then Some(IdxSize(m, FIELD))
    else if t == FIELDRVA && i == 1 then Some(IdxSize(m, FIELD))
    else if t == IMPLMAP && i == 3 then Some(IdxSize(m, MODULEREF))
    else if t == INTERFACEIMPL && i == 0 then Some(IdxSize(m, TYPEDEF))
    else if t == METHOD && i == 5 then Some(IdxSize(m, PARAM))
    else if t == METHODIMPL && i == 0 then Some(IdxSize(m, TYPEDEF))
    else if t == METHODSEMANTICS && i == 1 then Some(IdxSize(m, METHOD))
    else if t == NESTEDCLASS && (i == 0 || i == 1) then Some(IdxSize(m, TYPEDEF))
    else if t == PROPERTYMAP && i == 0 then Some(IdxSize(m, TYPEDEF))
    else if t == PROPERTYMAP && i == 1 then Some(IdxSize(m, PROPERTY))
    else if t == TYPEDEF && i == 4 then Some(IdxSize(m, FIELD))
    else if t == TYPEDEF && i == 5 then Some(IdxSize(m, METHOD))
    else None
  }

  /** The TableIdx case as the runtime writes it: the case meant for
      AssemblyRefProcessor is labelled AssemblyProcessor, a table without
      any table-index column, so the AssemblyRefProcessor column falls to
      the assertion. */
  function TableIdxSizeAsWritten(m: Meta, t: int, i: nat): (r: Option<nat>)
    ensures t != ASSEMBLYREFPROCESSOR && t != ASSEMBLYPROCESSOR ==> r == TableIdxSize(m, t, i)
    ensures t == ASSEMBLYREFPROCESSOR ==> r == None
  {
    if t == ASSEMBLYREFPROCESSOR then None
    else if t == ASSEMBLYPROCESSOR then (if i == 1 then Some(IdxSize(m, ASSEMBLYREF)) else None)
    else TableIdxSize(m, t, i)
  }

  /** The width in bytes of column `i` (of kind `c`) of table `t`. */
  function ColumnSize(m: Meta, t: int, i: nat, c: Column): (r: Option<nat>)
    ensures r.Some? ==> r.value == 1 || r.value == 2 || r.value == 4
    ensures !c.TableIdx? ==> r.Some?
  {
    match c
    case U32Col => Some(4)
    case U16Col => Some(2)
    case U8Col => Some(1)
    case BlobIdx => Some(if m.blobWide then 4 else 2)
    case StringIdx => Some(if m.stringWide then 4 else 2)
    case GuidIdx => Some(if m.guidWide then 4 else 2)
    case TableIdx => TableIdxSize(m, t, i)
    case _ => Some(CodedSize(m, c))
  }

  /** The widths of `cols`, the columns of table `t` from number `i` on. */
  function Widths(m: Meta, t: int, cols: seq<Column>, i: nat): (r: Option<seq<nat>>)
    ensures r.Some? ==> |r.value| == |cols|
    ensures r.Some? ==> forall k :: 0 <= k < |cols| ==> Some(r.value[k]) == ColumnSize(m, t, i + k, cols[k])
    ensures r.None? ==> exists k :: 0 <= k < |cols| && ColumnSize(m, t, i + k, cols[k]).None?
  {
    if |cols| == 0 then Some([])
    else
      match ColumnSize(m, t, i, cols[0])
      case None => None
      case Some(w) =>
        match Widths(m, t, cols[1..], i + 1)
        case None => None
        case Some(ws) => Some([w] + ws)
  }

  // ---------------------------------------------------------------------
  // Row size and the size bitfield
  // ---------------------------------------------------------------------

  function Sum(ws: seq<nat>): nat
  {
    if |ws| == 0 then 0 else ws[0] + Sum(ws[1..])
  }

  function Pow4(n: nat): (r: nat)
    ensures r >= 1
  {
    if n == 0 then 1 else 4 * Pow4(n - 1)
  }

  /** Two bits per column holding `width - 1`, column 0 in the low bits. */
  function Pack(ws: seq<nat>): nat
    requires forall k :: 0 <= k < |ws| ==> 1 <= ws[k] <= 4
  {
    if |ws| == 0 then 0 else (ws[0] - 1) + 4 * Pack(ws[1..])
  }

  /** The width of column `i` as the row decoder reads it back from a size
      bitfield: two bits at bit `2 * i`, plus one. */
  function BitfieldWidth(bitfield: nat, i: nat): nat
  {
    if i == 0 then bitfield % 4 + 1 else BitfieldWidth(bitfield / 4, i - 1)
  }

  /** The column count as the row decoder reads it back from a size bitfield. */
  function BitfieldCount(bitfield: nat): nat
  {
    bitfield / 0x100_0000
  }

  datatype RowLayout = RowLayout(rowSize: nat, bitfield: nat)

  /** `compute_size`: the row size of table `t` and its size bitfield
      (column count in the top byte, two bits per column below);
      `None` when the table has no schema. */
  function ComputeSize(m: Meta, t: int): (r: Option<RowLayout>)
    ensures r.Some? <==> Schema(t).Some?
  {
    match Schema(t)
    case None => None
    case Some(cols) =>
      SchemaColumnsSized(m, t);
      Layout(m, t, cols)
  }

  /** The row size and bitfield of a table with columns `cols`: `None`
      exactly when some column has no width. With at most twelve columns
      the bitfield holds the count and every width. */
  function Layout(m: Meta, t: int, cols: seq<Column>): (r: Option<RowLayout>)
    ensures r.Some? <==> Widths(m, t, cols, 0).Some?
    ensures r.Some? && |cols| <= 12 ==> BitfieldCount(r.value.bitfield) == |cols|
    ensures r.Some? && |cols| <= 12 ==> forall i :: 0 <= i < |cols| ==>
      Some(BitfieldWidth(r.value.bitfield, i)) == ColumnSize(m, t, i, cols[i])
  {
    match Widths(m, t, cols, 0)
    case None => None
    case Some(ws) =>
      WidthsUnpack(m, t, cols, ws);
      Some(RowLayout(Sum(ws), |cols| * 0x100_0000 + Pack(ws)))
  }

  /** The size bitfield gives back the column count and every column's
      width, which is what decoding a row relies on. */
  lemma BitfieldRoundTrip(m: Meta, t: int, cols: seq<Column>)
    requires Schema(t) == Some(cols)
    ensures ComputeSize(m, t).Some?
    ensures BitfieldCount(ComputeSize(m, t).value.bitfield) == |cols|
    ensures forall i :: 0 <= i < |cols| ==>
      Some(BitfieldWidth(ComputeSize(m, t).value.bitfield, i)) == ColumnSize(m, t, i, cols[i])
  {
    SchemaShort(t);
    assert ComputeSize(m, t) == Layout(m, t, cols);
  }

  lemma {:induction false} PackBound(ws: seq<nat>)
    requires forall k :: 0 <= k < |ws| ==> 1 <= ws[k] <= 4
    ensures Pack(ws) < Pow4(|ws|)
  {
    if |ws| > 0 {
      PackBound(ws[1..]);
    }
  }

  lemma {:induction false} PackDigits(ws: seq<nat>, i: nat)
    requires forall k :: 0 <= k < |ws| ==> 1 <= ws[k] <= 4
    requires i < |ws|
    ensures BitfieldWidth(Pack(ws), i) == ws[i]
  {
    var p := Pack(ws[1..]);
    assert Pack(ws) == (ws[0] - 1) + 4 * p;
    if i > 0 {
      assert Pack(ws) / 4 == p;
      PackDigits(ws[1..], i - 1);
    }
  }

  /** Bits above `2 * k` do not disturb the two-bit fields below them. */
  lemma {:induction false} HighBitsIgnored(n: nat, p: nat, k: nat, i: nat)
    requires i < k
    ensures BitfieldWidth(n * Pow4(k) + p, i) == BitfieldWidth(p, i)
  {
    var a := n * Pow4(k - 1);
    assert n * Pow4(k) == 4 * a;
    if i > 0 {
      assert (4 * a + p) / 4 == a + p / 4;
      HighBitsIgnored(n, p / 4, k - 1, i - 1);
    }
  }

  /** Packing widths and the count into a bitfield loses nothing while
      the widths fit the 24 low bits. */
  lemma PackRoundTrip(ws: seq<nat>)
    requires forall k :: 0 <= k < |ws| ==> 1 <= ws[k] <= 4
    requires |ws| <= 12
    ensures BitfieldCount(|ws| * 0x100_0000 + Pack(ws)) == |ws|
    ensures forall i :: 0 <= i < |ws| ==> BitfieldWidth(|ws| * 0x100_0000 + Pack(ws), i) == ws[i]
  {
    PackBound(ws);
    Pow4Mono(|ws|, 12);
    assert Pow4(12) == 0x100_0000;
    forall i | 0 <= i < |ws|
      ensures BitfieldWidth(|ws| * 0x100_0000 + Pack(ws), i) == ws[i]
    {
      PackDigits(ws, i);
      HighBitsIgnored(|ws|, Pack(ws), 12, i);
    }
  }

  lemma SchemaShort(t: int)
    requires Schema(t).Some?
    ensures |Schema(t).value| <= 9
  {
  }

  lemma WidthsUnpack(m: Meta, t: int, cols: seq<Column>, ws: seq<nat>)
    requires Widths(m, t, cols, 0) == Some(ws)
    ensures |cols| <= 12 ==> BitfieldCount(|cols| * 0x100_0000 + Pack(ws)) == |cols|
    ensures |cols| <= 12 ==> forall i :: 0 <= i < |cols| ==>
      Some(BitfieldWidth(|cols| * 0x100_0000 + Pack(ws), i)) == ColumnSize(m, t, i, cols[i])
  {
    if |cols| <= 12 {
      forall k | 0 <= k < |ws|
        ensures 1 <= ws[k] <= 4
      {
        assert Some(ws[k]) == ColumnSize(m, t, 0 + k, cols[k]);
      }
      PackRoundTrip(ws);
      forall i | 0 <= i < |cols|
        ensures Some(BitfieldWidth(|cols| * 0x100_0000 + Pack(ws), i)) == ColumnSize(m, t, i, cols[i])
      {
        assert Some(ws[i]) == ColumnSize(m, t, 0 + i, cols[i]);
      }
    }
  }


  lemma {:induction false} Pow4Mono(a: nat, b: nat)
    requires a <= b
    ensures Pow4(a) <= Pow4(b)
  {
    if a < b {
      Pow4Mono(a, b - 1);
    }
  }

  /** Every column of every table has a width: no column reaches an
      assertion of the width computation. */
  lemma SchemaColumnsSized(m: Meta, t: int)
    requires Schema(t).Some?
    ensures Widths(m, t, Schema(t).value, 0).Some?
  {
    var cols := Schema(t).value;
    forall k | 0 <= k < |cols|
      ensures ColumnSize(m, t, k, cols[k]).Some?
    {
    }
  }

  /** The as-written width computation rejects an image that has any
      AssemblyRefProcessor row, whose second column is a table index. */
  lemma AssemblyRefProcessorAsWrittenAsserts(m: Meta)
    ensures Schema(ASSEMBLYREFPROCESSOR).value[1] == TableIdx
    ensures TableIdxSizeAsWritten(m, ASSEMBLYREFPROCESSOR, 1) == None
    ensures TableIdxSize(m, ASSEMBLYREFPROCESSOR, 1) == Some(IdxSize(m, ASSEMBLYREF))
  {
  }

  // ---------------------------------------------------------------------
  // Coded indices fit their width
  // ---------------------------------------------------------------------

  /** `1 << (16 - bits)` for the tag widths in use. */
  lemma Pow2Values()
    ensures Pow2(1) == 2 && Pow2(2) == 4 && Pow2(3) == 8 && Pow2(5) == 32
    ensures Pow2(11) == 0x800 && Pow2(13) == 0x2000 && Pow2(14) == 0x4000 && Pow2(15) == 0x8000
  {
    assert Pow2(5) == 32;
    assert Pow2(10) == 1024;
    assert Pow2(13) == 0x2000;
  }

  /** A coded index is `row << tagbits | tag`; a two-byte column is chosen
      exactly when every row of every candidate table encodes in 16 bits. */
  lemma CodedIndexFits(m: Meta, c: Column)
    requires IsCoded(c)
    ensures CodedSize(m, c) == 2 <==>
      forall k :: 0 <= k < |Candidates(c)| ==> m.rows[Candidates(c)[k]] * Pow2(TagBits(c)) < 0x1_0000
  {
    var ts := Candidates(c);
    var b := TagBits(c);
    Pow2Values();
    assert b in {1, 2, 3, 5};
    var n := MaxRows(m, ts);
    assert Pow2(16 - b) * Pow2(b) == 0x1_0000;
    if CodedSize(m, c) == 2 {
      forall k | 0 <= k < |ts|
        ensures m.rows[ts[k]] * Pow2(b) < 0x1_0000
      {
        assert m.rows[ts[k]] < Pow2(16 - b);
        MulLess(m.rows[ts[k]], Pow2(16 - b), Pow2(b));
      }
    } else {
      var k :| 0 <= k < |ts| && m.rows[ts[k]] == n;
      assert n >= Pow2(16 - b);
      MulLeq(Pow2(16 - b), n, Pow2(b));
    }
  }

  lemma MulLess(a: nat, b: nat, c: nat)
    requires a < b && c > 0
    ensures a * c < b * c
  {
  }

  lemma MulLeq(a: nat, b: nat, c: nat)
    requires a <= b
    ensures a * c <= b * c
  {
  }

  /** The as-written TypeDefOrRef width ignores the TypeRef table: an image
      with 0x4000 TypeRefs and no TypeDef, Param or TypeSpec rows gets two-byte
      columns although TypeRef row 0x4000 needs 17 bits once tagged. */
  lemma TdorAsWrittenTooNarrow()
    ensures var m := Meta(false, false, false, seq(64, i => if i == TYPEREF then 0x4000 else 0));
      RtSize(MaxRows(m, TdorCandidatesAsWritten()), 16 - TagBits(TdorIdx)) == 2
      && m.rows[TYPEREF] * Pow2(TagBits(TdorIdx)) >= 0x1_0000
      && CodedSize(m, TdorIdx) == 4
  {
    var m := Meta(false, false, false, seq(64, i => if i == TYPEREF then 0x4000 else 0));
    Pow2Values();
    assert MaxRows(m, TdorCandidatesAsWritten()) == 0;
    assert MaxRows(m, Candidates(TdorIdx)) == 0x4000;
  }

  // ---------------------------------------------------------------------
  // Table bases and row location
  // ---------------------------------------------------------------------

  datatype TableInfo = TableInfo(rows: nat, rowSize: nat, bitfield: nat, base: nat)

  function End(ti: TableInfo): (r: nat)
    ensures r >= ti.base
  {
    ti.base + ti.rows * ti.rowSize
  }

  /** Non-empty tables are laid out one after the other, in table order. */
  predicate LaidOut(infos: seq<TableInfo>)
  {
    forall i, j :: 0 <= i < j < |infos| && infos[i].rows > 0 && infos[j].rows > 0 ==>
      End(infos[i]) <= infos[j].base
  }

  /** The first free offset after the tables in `infos`, when the first
      table starts at `start`: the end of the last non-empty one, or
      `start` when all are empty. */
  function NextFree(infos: seq<TableInfo>, start: nat): nat
  {
    if |infos| == 0 then start
    else if infos[|infos| - 1].rows > 0 then End(infos[|infos| - 1])
    else NextFree(infos[..|infos| - 1], start)
  }

  lemma LaidOutAppend(infos: seq<TableInfo>, x: TableInfo, base: nat)
    requires LaidOut(infos)
    requires forall t :: 0 <= t < |infos| && infos[t].rows > 0 ==> End(infos[t]) <= base
    requires x.rows > 0 ==> base <= x.base
    ensures LaidOut(infos + [x])
  {
  }

  /** The layout of one table, as `compute_size` reports it. */
  method RowLayoutOf(m: Meta, t: int) returns (r: Option<RowLayout>)
    ensures r == ComputeSize(m, t)
  {
    r := ComputeSize(m, t);
  }

  /** `mono_metadata_compute_table_bases`: starting at `start`, each
      non-empty table gets the next free offset and its row layout; empty
      tables keep a zero entry. `None` when a non-empty table number has
      no schema (the runtime would follow a NULL schema). */
  method ComputeTableBases(m: Meta, start: nat) returns (r: Option<seq<TableInfo>>)
    ensures r.Some? <==> forall t :: 0 <= t < 64 && m.rows[t] > 0 ==> Schema(t).Some?
    ensures r.Some? ==> |r.value| == 64 && LaidOut(r.value)
    ensures r.Some? ==> forall t :: 0 <= t < 64 ==> r.value[t].rows == m.rows[t]
    ensures r.Some? ==> forall t :: 0 <= t < 64 && m.rows[t] > 0 ==>
      start <= r.value[t].base
      && Some(RowLayout(r.value[t].rowSize, r.value[t].bitfield)) == ComputeSize(m, t)
    ensures r.Some? ==> Packed(r.value, start)
  {
    var infos: seq<TableInfo> := [];
    var base: nat := start;
    var i := 0;
    while i < 64
      invariant 0 <= i <= 64 && |infos| == i && BasesSoFar(m, start, infos, base)
    {
      var x := TableInfo(0, 0, 0, 0);
      if m.rows[i] != 0 {
        var layout := RowLayoutOf(m, i);
        if layout.None? {
          return None;
        }
        x := TableInfo(m.rows[i], layout.value.rowSize, layout.value.bitfield, base);
      }
      BasesStep(m, start, infos, base, x);
      infos := infos + [x];
      base := if x.rows > 0 then End(x) else base;
      i := i + 1;
    }
    return Some(infos);
  }

  /** What `ComputeTableBases` has established for the tables placed so
      far, with `base` the next free offset. */
  predicate BasesSoFar(m: Meta, start: nat, infos: seq<TableInfo>, base: nat)
  {
    |infos| <= |m.rows| && start <= base && LaidOut(infos)
    && (forall t :: 0 <= t < |infos| && infos[t].rows > 0 ==> End(infos[t]) <= base)
    && (forall t :: 0 <= t < |infos| ==> infos[t].rows == m.rows[t])
    && base == NextFree(infos, start) && Packed(infos, start)
    && (forall t :: 0 <= t < |infos| && m.rows[t] > 0 ==>
          start <= infos[t].base && Some(RowLayout(infos[t].rowSize, infos[t].bitfield)) == ComputeSize(m, t))
  }

  /** Placing the next table at the next free offset keeps what has been
      established. */
  lemma BasesStep(m: Meta, start: nat, infos: seq<TableInfo>, base: nat, x: TableInfo)
    requires BasesSoFar(m, start, infos, base) && |infos| < |m.rows|
    requires x.rows == m.rows[|infos|]
    requires x.rows > 0 ==> x.base == base && Some(RowLayout(x.rowSize, x.bitfield)) == ComputeSize(m, |infos|)
    ensures BasesSoFar(m, start, infos + [x], if x.rows > 0 then End(x) else base)
  {
    LaidOutAppend(infos, x, base);
    PackedAppend(infos, x, start);
  }

  /** Every non-empty table starts at the first free offset after the
      tables before it: the tables are packed with no gap, the first
      non-empty one at `start`. */
  predicate Packed(infos: seq<TableInfo>, start: nat)
  {
    forall t :: 0 <= t < |infos| && infos[t].rows > 0 ==> infos[t].base == NextFree(infos[..t], start)
  }

  /** Appending a table at the next free offset keeps the tables packed. */
  lemma PackedAppend(infos: seq<TableInfo>, x: TableInfo, start: nat)
    requires Packed(infos, start)
    requires x.rows > 0 ==> x.base == NextFree(infos, start)
    ensures Packed(infos + [x], start)
    ensures NextFree(infos + [x], start) == if x.rows > 0 then End(x) else NextFree(infos, start)
  {
    var ys := infos + [x];
    assert ys[..|infos|] == infos;
    forall t | 0 <= t < |ys| && ys[t].rows > 0
      ensures ys[t].base == NextFree(ys[..t], start)
    {
      if t < |infos| {
        assert ys[..t] == infos[..t];
      }
    }
  }

  /** `mono_metadata_locate`: the offset of row `idx` (1-based) of a table;
      `None` (the empty string) unless `0 < idx <= rows`. */
  function Locate(ti: TableInfo, idx: int): (r: Option<nat>)
    ensures r.Some? <==> 0 < idx <= ti.rows
    ensures r.Some? ==> ti.base <= r.value && r.value + ti.rowSize <= End(ti)
  {
    if 0 < idx <= ti.rows then
      RowInside(ti, idx);
      Some(ti.base + ti.rowSize * (idx - 1))
    else None
  }

  /** Row 1 is at the table's base and each next row one row size further
      on. */
  lemma LocateSteps(ti: TableInfo, idx: int)
    ensures ti.rows > 0 ==> Locate(ti, 1) == Some(ti.base)
    ensures 0 < idx < ti.rows ==> Locate(ti, idx + 1).value == Locate(ti, idx).value + ti.rowSize
  {
    if 0 < idx < ti.rows {
      assert ti.rowSize * idx == ti.rowSize * (idx - 1) + ti.rowSize;
    }
  }

  lemma RowInside(ti: TableInfo, idx: nat)
    requires 0 < idx <= ti.rows
    ensures ti.base + ti.rowSize * (idx - 1) + ti.rowSize <= End(ti)
  {
    assert ti.rowSize * (idx - 1) + ti.rowSize == ti.rowSize * idx;
    assert ti.rowSize * idx <= ti.rowSize * ti.rows;
  }

  /** Two different rows, of the same table or of different laid-out
      tables, never share a byte. */
  lemma LocateDisjoint(infos: seq<TableInfo>, t1: nat, i1: int, t2: nat, i2: int)
    requires LaidOut(infos) && t1 < |infos| && t2 < |infos|
    requires Locate(infos[t1], i1).Some? && Locate(infos[t2], i2).Some?
    requires t1 != t2 || i1 != i2
    ensures Locate(infos[t1], i1).value + infos[t1].rowSize <= Locate(infos[t2], i2).value
         || Locate(infos[t2], i2).value + infos[t2].rowSize <= Locate(infos[t1], i1).value
  {
    if t1 == t2 {
      var s := infos[t1].rowSize;
      if i1 < i2 {
        RowsApart(s, i1 - 1, i2 - 1);
      } else {
        RowsApart(s, i2 - 1, i1 - 1);
      }
    }
  }

  lemma RowsApart(s: nat, a: nat, b: nat)
    requires a < b
    ensures s * a + s <= s * b
  {
    assert s * b == s * a + s * (b - a);
    MulLeq(1, b - a, s);
  }

  // ---------------------------------------------------------------------
  // Compressed unsigned integers (Partition II section 23.2)
  // ---------------------------------------------------------------------

  /** How many bytes the compressed integer whose first byte is `b` takes. */
  function EncodedWidth(b: Byte): nat
  {
    if b < 0x80 then 1 else if b < 0xC0 then 2 else 4
  }

  datatype Decoded = Decoded(value: nat, next: nat)

  /** `mono_metadata_decode_value` and `mono_metadata_decode_blob_size`:
      the one-, two- or four-byte big-endian compressed integer at `p`,
      selected by the top bits of its first byte. */
  function DecodeValue(s: seq<Byte>, p: nat): (r: Decoded)
    requires p < |s| && p + EncodedWidth(s[p]) <= |s|
    ensures r.next == p + EncodedWidth(s[p])
    ensures r.value < 0x2000_0000
  {
    var b := s[p];
    if b < 0x80 then Decoded(b, p + 1)
    else if b < 0xC0 then Decoded((b % 0x40) * 0x100 + s[p + 1] as int, p + 2)
    else Decoded((b % 0x20) * 0x100_0000 + (s[p + 1] as int) * 0x1_0000 + (s[p + 2] as int) * 0x100 + s[p + 3] as int, p + 4)
  }

  /** The shortest encoding of `v` (Partition II section 23.2; the runtime's
      `mono_metadata_encode_value`). */
  function EncodeValue(v: nat): (r: seq<Byte>)
    requires v < 0x2000_0000
    ensures |r| == 1 || |r| == 2 || |r| == 4
  {
    if v < 0x80 then [v]
    else if v < 0x4000 then [0x80 + v / 0x100, v % 0x100]
    else [0xC0 + v / 0x100_0000, (v / 0x1_0000) % 0x100, (v / 0x100) % 0x100, v % 0x100]
  }

  /** Decoding an encoded integer, wherever it sits, gives back the value
      and steps over exactly the encoding. */
  lemma DecodeEncode(v: nat, pre: seq<Byte>, post: seq<Byte>)
    requires v < 0x2000_0000
    ensures var s := pre + EncodeValue(v) + post;
      |pre| < |s| && |pre| + EncodedWidth(s[|pre|]) <= |s|
      && DecodeValue(s, |pre|) == Decoded(v, |pre| + |EncodeValue(v)|)
  {
    var e := EncodeValue(v);
    var s := pre + e + post;
    var p := |pre|;
    assert s[p..p + |e|] == e;
    if v < 0x80 {
      assert s[p] == e[0];
    } else if v < 0x4000 {
      DecodeTwo(s, p, v);
    } else {
      DecodeFour(s, p, v);
    }
  }

  lemma DecodeTwo(s: seq<Byte>, p: nat, v: nat)
    requires 0x80 <= v < 0x4000 && p + 2 <= |s| && s[p..p + 2] == EncodeValue(v)
    ensures p + EncodedWidth(s[p]) <= |s| && DecodeValue(s, p) == Decoded(v, p + 2)
  {
    assert s[p] == 0x80 + v / 0x100 && s[p + 1] == v % 0x100;
  }

  lemma DecodeFour(s: seq<Byte>, p: nat, v: nat)
    requires 0x4000 <= v < 0x2000_0000 && p + 4 <= |s| && s[p..p + 4] == EncodeValue(v)
    ensures p + EncodedWidth(s[p]) <= |s| && DecodeValue(s, p) == Decoded(v, p + 4)
  {
    var e := EncodeValue(v);
    assert s[p] == e[0] && s[p + 1] == e[1] && s[p + 2] == e[2] && s[p + 3] == e[3];
    var a := v / 0x100_0000;
    assert s[p] == 0xC0 + a && a < 0x20;
    assert s[p] % 0x20 == a;
    Bytes.Recompose(v);
  }


  lemma Digits2(a: nat, b: nat)
    requires b < 0x100
    ensures (a * 0x100 + b) / 0x100 == a && (a * 0x100 + b) % 0x100 == b
  {
  }

  lemma Digits4(a: nat, b: nat, c: nat, d: nat)
    requires b < 0x100 && c < 0x100 && d < 0x100
    ensures var v := a * 0x100_0000 + b * 0x1_0000 + c * 0x100 + d;
      v / 0x100_0000 == a && (v / 0x1_0000) % 0x100 == b && (v / 0x100) % 0x100 == c && v % 0x100 == d
  {
    var w := b * 0x1_0000 + c * 0x100 + d;
    assert w < 0x100_0000;
    var v := a * 0x100_0000 + w;
    assert v / 0x100_0000 == a;
    var u := c * 0x100 + d;
    assert v == (a * 0x100 + b) * 0x1_0000 + u && u < 0x1_0000;
    assert v / 0x1_0000 == a * 0x100 + b;
    Digits2(a, b);
    assert v == ((a * 0x100 + b) * 0x100 + c) * 0x100 + d;
    Digits2((a * 0x100 + b) * 0x100 + c, d);
    Digits2(a * 0x100 + b, c);
  }

  /** A canonical (shortest) encoding is the only one: re-encoding a decoded
      value gives back the bytes that were read. */
  lemma EncodeDecode(s: seq<Byte>, p: nat)
    requires p < |s| && p + EncodedWidth(s[p]) <= |s|
    requires var d := DecodeValue(s, p);
      (s[p] < 0x80 || (s[p] < 0xC0 && d.value >= 0x80) || (s[p] >= 0xC0 && d.value >= 0x4000))
    requires s[p] < 0xE0
    ensures EncodeValue(DecodeValue(s, p).value) == s[p..DecodeValue(s, p).next]
  {
    var b := s[p];
    var d := DecodeValue(s, p);
    if b < 0x80 {
    } else if b < 0xC0 {
      Digits2(b % 0x40, s[p + 1]);
      assert s[p..p + 2] == [s[p], s[p + 1]];
    } else {
      Digits4(b % 0x20, s[p + 1], s[p + 2], s[p + 3]);
      assert s[p..p + 4] == [s[p], s[p + 1], s[p + 2], s[p + 3]];
    }
  }

  // ---------------------------------------------------------------------
  // Method headers (Partition II section 25.4)
  // ---------------------------------------------------------------------

  const HEADER_FORMAT_MASK := 7
  const HEADER_TINY_FORMAT := 2
  const HEADER_TINY_FORMAT1 := 6
  const HEADER_FAT_FORMAT := 3
  const HEADER_INIT_LOCALS := 0x10
  const HEADER_MORE_SECTS := 0x08

  datatype MethodHeader = MethodHeader(
    maxStack: nat, codeSize: nat, localVarSigTok: nat, initLocals: bool, code: nat)

  /** Whether bit `mask` (a power of two) is set in `x`. */
  function HasFlag(x: nat, mask: nat): bool
    requires mask > 0
  {
    (x / mask) % 2 == 1
  }

  /** The bytes a header at `p` needs for the parser to read it. */
  predicate HeaderReadable(s: seq<Byte>, p: nat)
  {
    p < |s| && (s[p] % 8 == HEADER_FAT_FORMAT ==> p + 12 <= |s|)
  }

  /** `mono_metadata_parse_mh`, with the tiny headers of odd code size
      read like the even ones: the size is the top six bits of the byte.
      `None` for an unknown format. */
  function ParseMethodHeader(s: seq<Byte>, p: nat): (r: Option<MethodHeader>)
    requires HeaderReadable(s, p)
    ensures r.Some? <==> s[p] % 8 in {HEADER_TINY_FORMAT, HEADER_TINY_FORMAT1, HEADER_FAT_FORMAT}
    ensures r.Some? && s[p] % 8 != HEADER_FAT_FORMAT ==>
      r.value == MethodHeader(8, s[p] / 4, 0, false, p + 1)
    ensures r.Some? && s[p] % 8 == HEADER_FAT_FORMAT ==>
      r.value.code == p + 12 && r.value.maxStack == Read16(s, p + 2)
      && r.value.codeSize == Read32(s, p + 4) && r.value.localVarSigTok == Read32(s, p + 8)
      && r.value.initLocals == HasFlag(Read16(s, p), HEADER_INIT_LOCALS)
  {
    var flags := s[p];
    var format := flags % (HEADER_FORMAT_MASK + 1);
    if format == HEADER_TINY_FORMAT || format == HEADER_TINY_FORMAT1 then
      Some(MethodHeader(8, flags / 4, 0, false, p + 1))
    else if format == HEADER_FAT_FORMAT then
      var fatFlags := Read16(s, p);
      Some(MethodHeader(Read16(s, p + 2), Read32(s, p + 4), Read32(s, p + 8),
                        HasFlag(fatFlags, HEADER_INIT_LOCALS), p + 12))
    else None
  }

  /** The code size the runtime reads from a tiny header whose format bits
      are `TINY_FORMAT1` (odd code sizes): the byte shifted right by three. */
  function TinyFormat1CodeSizeAsWritten(flags: Byte): nat
  {
    flags / 8
  }
}
