/** The rules of the IL interpreter (interpreter/interp.c) that do not depend
    on the rest of the engine: moving integers and pointers between memory
    and evaluation-stack slots, short branches, `switch`, the conditional
    branches' comparisons, the 32-bit `div`, and the choice of the exception
    clause that handles a thrown object. */
module Interp {
  import opened Bytes
  import opened Types
  import opened Classes
  import opened Opcodes

  const TWO64: int := 0x1_0000_0000_0000_0000

  type I64 = x: int | -0x8000_0000_0000_0000 <= x < 0x8000_0000_0000_0000

  /** A value on the evaluation stack (`stackval`): `VAL_I32`, `VAL_I64`, or
      `VAL_OBJ` holding a 32-bit address (0 is NULL). Floating-point slots
      are not part of this model. */
  datatype StackVal = I32Val(i: I32) | I64Val(l: I64) | ObjVal(p: U32)

  /** The 32 bits a C reader of `data.i` sees in the slot's union on a
      little-endian target: the value itself, the low half of a 64-bit
      value, or the address. */
  function Bits(v: StackVal): U32
  {
    match v
    case I32Val(i) => Wrap32(i)
    case I64Val(l) => Wrap32(l)
    case ObjVal(p) => p
  }

  // ---------------------------------------------------------------------
  // Slots to and from memory (stackval_from_data / stackval_to_data)
  // ---------------------------------------------------------------------

  /** The number of bytes a value of type `t` occupies in memory, for the
      types the two conversions handle without floating point. */
  function SlotWidth(t: MonoType): Option<nat>
  {
    if t.byref || IsRefCode(t.code) then Some(4)
    else if IsSmallIntCode(t.code) then Some(IntWidth(t.code))
    else None
  }

  /** The number of bytes `stackval_to_data` writes for type `t`. The store
      has no case for CHAR, which falls to its unreachable default, so only
      the loads accept that type. */
  function StoreWidth(t: MonoType): Option<nat>
  {
    if !t.byref && t.code == MONO_TYPE_CHAR then None else SlotWidth(t)
  }

  /** The residue of `x` modulo the number of values of a `w`-byte
      integer: the value its low `w` bytes hold. */
  function Low(x: int, w: nat): nat
  {
    if w == 1 then x % 0x100 else if w == 2 then x % 0x1_0000 else x % TWO32
  }

  /** Half the number of values of a `w`-byte integer: the bound of the
      signed range. */
  function Half(w: nat): int
  {
    if w == 1 then 0x80 else if w == 2 then 0x8000 else 0x8000_0000
  }

  /** The unsigned little-endian integer held in the first `w` bytes. */
  function LowBytes(data: seq<Byte>, w: nat): nat
    requires w == 1 || w == 2 || w == 4
    requires w <= |data|
  {
    if w == 1 then data[0] else if w == 2 then Read16(data, 0) else Read32(data, 0)
  }

  /** The little-endian image of the low `w` bytes of `x`. */
  function WidthBytes(x: U32, w: nat): (r: seq<Byte>)
    requires w == 1 || w == 2 || w == 4
    ensures |r| == w
    ensures LowBytes(r, w) == Low(x, w)
  {
    if w == 1 then [x % 0x100]
    else if w == 2 then (Read16OfLE16(x % 0x1_0000); LE16(x % 0x1_0000))
    else (Read32OfLE32(x); LE32(x))
  }

  /** `stackval_from_data`: load a value of type `t` from memory onto the
      stack. The small integers widen to `VAL_I32`, by sign extension for
      the signed codes and by zero extension otherwise; pointers, managed
      references and object references load as `VAL_OBJ`. Any other type
      (floating point, value types) is refused. */
  function FromData(t: MonoType, data: seq<Byte>): (r: Result<StackVal>)
    requires SlotWidth(t).Some? ==> SlotWidth(t).value <= |data|
    ensures r.Ok? <==> SlotWidth(t).Some?
    ensures r.Ok? && (t.byref || IsRefCode(t.code)) ==> r.value == ObjVal(LowBytes(data, 4))
    ensures r.Ok? && !t.byref && IsSmallIntCode(t.code) ==> r.value.I32Val?
    ensures r.Ok? && !t.byref && IsSmallIntCode(t.code) ==>
      Low(r.value.i, IntWidth(t.code)) == LowBytes(data, IntWidth(t.code))
    ensures r.Ok? && !t.byref && IsSmallIntCode(t.code) && IsSignedCode(t.code) ==>
      -Half(IntWidth(t.code)) <= r.value.i < Half(IntWidth(t.code))
    ensures r.Ok? && !t.byref && IsSmallIntCode(t.code) && !IsSignedCode(t.code) && IntWidth(t.code) < 4 ==>
      r.value.i == LowBytes(data, IntWidth(t.code))
  {
    if t.byref then Ok(ObjVal(Read32(data, 0)))
    else if t.code == MONO_TYPE_I1 then Ok(I32Val(Signed8(data[0])))
    else if t.code == MONO_TYPE_U1 || t.code == MONO_TYPE_BOOLEAN then Ok(I32Val(data[0]))
    else if t.code == MONO_TYPE_I2 then Ok(I32Val(Signed16(Read16(data, 0))))
    else if t.code == MONO_TYPE_U2 || t.code == MONO_TYPE_CHAR then Ok(I32Val(Read16(data, 0)))
    else if t.code == MONO_TYPE_I4 || t.code == MONO_TYPE_U4 then Ok(I32Val(Signed32(Read32(data, 0))))
    else if IsRefCode(t.code) then Ok(ObjVal(Read32(data, 0)))
    else Err("unsupported type")
  }

  /** `stackval_to_data`: store a stack value into memory as type `t`. The
      low `w` bytes of the slot are written, except that a BOOLEAN stores 1
      for any non-zero value; the bytes after the first `w` are untouched.
      A CHAR, which `stackval_from_data` loads, is refused. */
  function ToData(t: MonoType, v: StackVal, data: seq<Byte>): (r: Result<seq<Byte>>)
    requires StoreWidth(t).Some? ==> StoreWidth(t).value <= |data|
    ensures r.Ok? <==> SlotWidth(t).Some? && (t.byref || t.code != MONO_TYPE_CHAR)
    ensures r.Ok? ==> |r.value| == |data|
    ensures r.Ok? ==> forall k :: SlotWidth(t).value <= k < |data| ==> r.value[k] == data[k]
    ensures r.Ok? && !t.byref && t.code == MONO_TYPE_BOOLEAN ==>
      LowBytes(r.value, 1) == if Bits(v) != 0 then 1 else 0
    ensures r.Ok? && (t.byref || t.code != MONO_TYPE_BOOLEAN) ==>
      LowBytes(r.value, SlotWidth(t).value) == Low(Bits(v), SlotWidth(t).value)
  {
    match StoreWidth(t)
    case None => Err("unsupported type")
    case Some(w) =>
      var x := if !t.byref && t.code == MONO_TYPE_BOOLEAN then (if Bits(v) != 0 then 1 else 0) else Bits(v);
      var bytes := WidthBytes(x, w);
      var r := Overwrite(data, 0, bytes);
      assert r[..w] == bytes;
      assert LowBytes(r, w) == LowBytes(bytes, w);
      Ok(r)
  }

  /** A 32-bit integer that a small integer type can hold without loss. */
  predicate FitsCode(code: nat, x: int)
    requires IsSmallIntCode(code)
  {
    if code == MONO_TYPE_BOOLEAN then x == 0 || x == 1
    else if IntWidth(code) == 4 then -0x8000_0000 <= x < 0x8000_0000
    else if IsSignedCode(code) then -Half(IntWidth(code)) <= x < Half(IntWidth(code))
    else 0 <= x < 2 * Half(IntWidth(code))
  }

  /** The low bytes of a 32-bit pattern are those of the integer. */
  lemma LowOfWrap(x: int, w: nat)
    requires w == 1 || w == 2 || w == 4
    ensures Low(Wrap32(x), w) == Low(x, w)
  {
    var q := WrapDiff(Wrap32(x), x);
    if w == 1 {
      assert Wrap32(x) == x + (q * 0x100_0000) * 0x100;
    } else if w == 2 {
      assert Wrap32(x) == x + (q * 0x1_0000) * 0x1_0000;
    }
  }

  /** Two integers with the same low bytes, both in the signed or both in
      the unsigned range of the width, are equal. */
  lemma LowUnique(a: int, b: int, w: nat)
    requires w == 1 || w == 2 || w == 4
    requires Low(a, w) == Low(b, w)
    requires (-Half(w) <= a < Half(w) && -Half(w) <= b < Half(w)) || (0 <= a < 2 * Half(w) && 0 <= b < 2 * Half(w))
    ensures a == b
  {
  }

  /** Storing an integer that the type can hold and loading it back gives
      the same integer; a BOOLEAN reads back as 0 or 1. */
  lemma StoreThenLoad(t: MonoType, x: I32, data: seq<Byte>)
    requires !t.byref && IsSmallIntCode(t.code) && t.code != MONO_TYPE_CHAR && IntWidth(t.code) <= |data|
    ensures var stored := ToData(t, I32Val(x), data).value;
      t.code == MONO_TYPE_BOOLEAN ==> FromData(t, stored) == Ok(I32Val(if x != 0 then 1 else 0))
    ensures var stored := ToData(t, I32Val(x), data).value;
      FitsCode(t.code, x) ==> FromData(t, stored) == Ok(I32Val(x))
  {
    var w := IntWidth(t.code);
    var stored := ToData(t, I32Val(x), data).value;
    var loaded := FromData(t, stored).value;
    if t.code == MONO_TYPE_BOOLEAN {
      assert Wrap32(x) != 0 <==> x != 0;
    } else if FitsCode(t.code, x) {
      LowOfWrap(x, w);
      assert Low(loaded.i, w) == Low(x, w);
      LowUnique(loaded.i, x, w);
    }
  }

  /** Loading from memory and storing the value back leaves memory as it
      was, except that a BOOLEAN byte other than 0 and 1 is normalised. */
  lemma LoadThenStore(t: MonoType, data: seq<Byte>)
    requires StoreWidth(t).Some? && StoreWidth(t).value <= |data|
    ensures var v := FromData(t, data).value;
      t.byref || t.code != MONO_TYPE_BOOLEAN ==> ToData(t, v, data) == Ok(data)
    ensures var v := FromData(t, data).value;
      !t.byref && t.code == MONO_TYPE_BOOLEAN ==> ToData(t, v, data) == Ok([if data[0] != 0 then 1 else 0] + data[1..])
  {
    if !t.byref && t.code == MONO_TYPE_BOOLEAN {
      var r := ToData(t, FromData(t, data).value, data).value;
      assert r == [if data[0] != 0 then 1 else 0] + data[1..];
    } else {
      var w := SlotWidth(t).value;
      var v := FromData(t, data).value;
      var r := ToData(t, v, data).value;
      LoadedLowBytes(t, data);
      assert LowBytes(r, w) == LowBytes(data, w);
      SameLowBytes(r, data, w);
    }
  }

  /** The low bytes of a loaded value's slot are the bytes it was loaded
      from. */
  lemma LoadedLowBytes(t: MonoType, data: seq<Byte>)
    requires SlotWidth(t).Some? && SlotWidth(t).value <= |data|
    ensures Low(Bits(FromData(t, data).value), SlotWidth(t).value) == LowBytes(data, SlotWidth(t).value)
  {
    var v := FromData(t, data).value;
    if v.I32Val? {
      LowOfWrap(v.i, SlotWidth(t).value);
    }
  }

  /** Two buffers of equal length that agree after the first `w` bytes and
      hold the same little-endian integer in them are equal. */
  lemma SameLowBytes(a: seq<Byte>, b: seq<Byte>, w: nat)
    requires w == 1 || w == 2 || w == 4
    requires w <= |a| == |b|
    requires forall k :: w <= k < |a| ==> a[k] == b[k]
    requires LowBytes(a, w) == LowBytes(b, w)
    ensures a == b
  {
    if w == 2 {
      Digits2(a[0], a[1], b[0], b[1]);
    } else if w == 4 {
      Digits4(a[0], a[1], a[2], a[3], b[0], b[1], b[2], b[3]);
    }
  }

  lemma Digits2(a0: Byte, a1: Byte, b0: Byte, b1: Byte)
    requires a0 + 0x100 * a1 == b0 + 0x100 * b1
    ensures a0 == b0 && a1 == b1
  {
  }

  lemma Digits4(a0: Byte, a1: Byte, a2: Byte, a3: Byte, b0: Byte, b1: Byte, b2: Byte, b3: Byte)
    requires a0 + 0x100 * a1 + 0x1_0000 * a2 + 0x100_0000 * a3 == b0 + 0x100 * b1 + 0x1_0000 * b2 + 0x100_0000 * b3
    ensures a0 == b0 && a1 == b1 && a2 == b2 && a3 == b3
  {
    var y := a1 + 0x100 * a2 + 0x1_0000 * a3;
    var z := b1 + 0x100 * b2 + 0x1_0000 * b3;
    assert a0 + 0x100 * y == b0 + 0x100 * z;
    assert a0 == b0 && y == z;
    var y2 := a2 + 0x100 * a3;
    var z2 := b2 + 0x100 * b3;
    assert a1 + 0x100 * y2 == b1 + 0x100 * z2;
    assert a1 == b1 && y2 == z2;
  }

  // ---------------------------------------------------------------------
  // Branches
  // ---------------------------------------------------------------------

  /** Where control goes after a short branch at `ip`: the signed
      displacement byte counts from the end of the two-byte instruction. */
  function ShortBranchNext(ip: nat, disp: Byte, taken: bool): (r: int)
    ensures !taken ==> r == ip + 2
    ensures taken ==> -128 <= r - (ip + 2) < 128 && (r - (ip + 2)) % 0x100 == disp
  {
    if taken then ip + 2 + Signed8(disp) else ip + 2
  }

  /** The displacement byte that reaches `target` from a short branch at
      `ip`, when it is in reach. */
  function ShortDisp(ip: nat, target: int): (r: Option<Byte>)
    ensures r.Some? <==> -128 <= target - (ip + 2) < 128
  {
    var d := target - (ip + 2);
    if -128 <= d < 128 then Some(d % 0x100) else None
  }

  /** Encoding a displacement and taking the branch land on the target, and
      every displacement byte is the encoding of the place it reaches. */
  lemma ShortBranchRoundTrip(ip: nat, target: int, disp: Byte)
    ensures ShortDisp(ip, target).Some? ==> ShortBranchNext(ip, ShortDisp(ip, target).value, true) == target
    ensures ShortDisp(ip, ShortBranchNext(ip, disp, true)) == Some(disp)
  {
    var d := target - (ip + 2);
    if -128 <= d < 128 {
      var b := d % 0x100;
      assert Signed8(b) == d by {
        if d < 0 {
          assert b == d + 0x100;
        }
      }
    }
  }

  /** The test `brfalse.s` makes: a zero integer or a NULL reference. */
  predicate IsZero(v: StackVal)
  {
    match v
    case I32Val(i) => i == 0
    case I64Val(l) => l == 0
    case ObjVal(p) => p == 0
  }

  /** `brfalse.s` and `brtrue.s`: the second is taken exactly when the
      first is not. */
  function BrFalseNext(ip: nat, disp: Byte, v: StackVal): (r: int)
    ensures IsZero(v) ==> r == ShortBranchNext(ip, disp, true)
    ensures !IsZero(v) ==> r == ip + 2
  {
    var result := match v
      case I32Val(i) => i == 0
      case I64Val(l) => l == 0
      case ObjVal(p) => p == 0;
    ShortBranchNext(ip, disp, result)
  }

  function BrTrueNext(ip: nat, disp: Byte, v: StackVal): (r: int)
    ensures r == ShortBranchNext(ip, disp, !IsZero(v))
    ensures disp != 0 ==> (r == ip + 2 <==> BrFalseNext(ip, disp, v) != ip + 2)
  {
    var result := match v
      case I32Val(i) => i != 0
      case I64Val(l) => l != 0
      case ObjVal(p) => p != 0;
    ShortBranchNext(ip, disp, result)
  }

  // ---------------------------------------------------------------------
  // Conditional branch comparisons
  // ---------------------------------------------------------------------

  /** The ten two-operand short conditional branches. */
  datatype CondOp = Beq | Bge | Bgt | Ble | Blt | BneUn | BgeUn | BgtUn | BleUn | BltUn

  predicate UnsignedOp(op: CondOp)
  {
    op.BneUn? || op.BgeUn? || op.BgtUn? || op.BleUn? || op.BltUn?
  }

  /** The relation an opcode tests, between two integers. */
  predicate Holds(op: CondOp, x: int, y: int)
  {
    match op
    case Beq => x == y
    case BneUn => x != y
    case Bge => x >= y
    case BgeUn => x >= y
    case Bgt => x > y
    case BgtUn => x > y
    case Ble => x <= y
    case BleUn => x <= y
    case Blt => x < y
    case BltUn => x < y
  }

  function Wrap64(x: int): (r: nat)
    ensures r < TWO64
  {
    x % TWO64
  }

  /** The two operands have the same stack type, as verifiable IL ensures. */
  predicate SameKind(a: StackVal, b: StackVal)
  {
    (a.I32Val? && b.I32Val?) || (a.I64Val? && b.I64Val?) || (a.ObjVal? && b.ObjVal?)
  }

  /** The integers an opcode compares, following section 3 of Partition III
      of ECMA-335: the `.un` forms read the operands as unsigned, the other
      forms as signed; references compare as addresses. */
  function Operands(op: CondOp, a: StackVal, b: StackVal): (int, int)
    requires SameKind(a, b)
  {
    match a
    case I32Val(x) => if UnsignedOp(op) then (Wrap32(x), Wrap32(b.i)) else (x, b.i)
    case I64Val(x) => if UnsignedOp(op) then (Wrap64(x), Wrap64(b.l)) else (x, b.l)
    case ObjVal(x) => (x, b.p)
  }

  /** The operands as the interpreter compares them: in the signed forms
      on `VAL_I32` the right operand is read through `GET_NATI`, a
      `guint32`, so the C comparison converts both sides to unsigned. */
  function OperandsAsWritten(op: CondOp, a: StackVal, b: StackVal): (int, int)
    requires SameKind(a, b)
  {
    match a
    case I32Val(x) => (Wrap32(x), Wrap32(b.i))
    case I64Val(x) => if UnsignedOp(op) then (Wrap64(x), Wrap64(b.l)) else (x, b.l)
    case ObjVal(x) => (x, b.p)
  }

  /** Whether the branch is taken. */
  function Compare(op: CondOp, a: StackVal, b: StackVal): (r: bool)
    requires SameKind(a, b)
    ensures a.I32Val? && !UnsignedOp(op) ==> (r <==> Holds(op, a.i, b.i))
    ensures a.I32Val? && UnsignedOp(op) ==> (r <==> Holds(op, Wrap32(a.i), Wrap32(b.i)))
    ensures a.I64Val? && !UnsignedOp(op) ==> (r <==> Holds(op, a.l, b.l))
    ensures a.I64Val? && UnsignedOp(op) ==> (r <==> Holds(op, Wrap64(a.l), Wrap64(b.l)))
  {
    var (x, y) := Operands(op, a, b);
    Holds(op, x, y)
  }

  function CompareAsWritten(op: CondOp, a: StackVal, b: StackVal): (r: bool)
    requires SameKind(a, b)
    ensures a.I32Val? ==> (r <==> Holds(op, Wrap32(a.i), Wrap32(b.i)))
  {
    var (x, y) := OperandsAsWritten(op, a, b);
    Holds(op, x, y)
  }

  /** The branch that a conditional short branch at `ip` takes: to the
      target when the operands compare as the opcode asks (signed for the
      plain forms, unsigned for `.un`), to the next instruction otherwise. */
  function CondBranchNext(op: CondOp, ip: nat, disp: Byte, a: StackVal, b: StackVal): (r: int)
    requires SameKind(a, b)
    ensures Compare(op, a, b) ==> r == ip + 2 + Signed8(disp)
    ensures !Compare(op, a, b) ==> r == ip + 2
    ensures a.I32Val? && !UnsignedOp(op) && disp != 0 ==> (r != ip + 2 <==> Holds(op, a.i, b.i))
    ensures a.I32Val? && UnsignedOp(op) && disp != 0 ==> (r != ip + 2 <==> Holds(op, Wrap32(a.i), Wrap32(b.i)))
    ensures a.I64Val? && !UnsignedOp(op) && disp != 0 ==> (r != ip + 2 <==> Holds(op, a.l, b.l))
    ensures a.I64Val? && UnsignedOp(op) && disp != 0 ==> (r != ip + 2 <==> Holds(op, Wrap64(a.l), Wrap64(b.l)))
  {
    ShortBranchNext(ip, disp, Compare(op, a, b))
  }

  /** Each opcode and its opposite (`bge` and `blt`, `bne.un` and `beq`,
      ...) take the branch on complementary sets of operands. */
  function Opposite(op: CondOp): CondOp
  {
    match op
    case Beq => BneUn
    case BneUn => Beq
    case Bge => Blt
    case Blt => Bge
    case Bgt => Ble
    case Ble => Bgt
    case BgeUn => BltUn
    case BltUn => BgeUn
    case BgtUn => BleUn
    case BleUn => BgtUn
  }

  lemma OppositeComplements(op: CondOp, a: StackVal, b: StackVal)
    requires SameKind(a, b)
    requires op != Beq && op != BneUn
    ensures Compare(Opposite(op), a, b) == !Compare(op, a, b)
  {
  }

  /** On 32-bit integers, equality and the unsigned forms are unaffected
      by the unsigned conversion, and every form agrees with its intended
      meaning when both operands are non-negative. */
  lemma AsWrittenAgreement(op: CondOp, a: StackVal, b: StackVal)
    requires SameKind(a, b)
    ensures (op == Beq || UnsignedOp(op) || !a.I32Val?) ==> CompareAsWritten(op, a, b) == Compare(op, a, b)
    ensures a.I32Val? && a.i >= 0 && b.i >= 0 ==> CompareAsWritten(op, a, b) == Compare(op, a, b)
  {
    if a.I32Val? {
      if op == Beq {
        if Wrap32(a.i) == Wrap32(b.i) {
          assert Signed32(Wrap32(a.i)) == Signed32(Wrap32(b.i));
        }
      }
    }
  }

  /** `bge.s` with -1 and 0 on the stack: as written the interpreter
      compares 0xFFFFFFFF with 0 and takes the branch. */
  lemma SignedBranchAsWrittenUnsigned()
    ensures CompareAsWritten(Bge, I32Val(-1), I32Val(0))
    ensures !Compare(Bge, I32Val(-1), I32Val(0))
  {
  }

  // ---------------------------------------------------------------------
  // switch
  // ---------------------------------------------------------------------

  /** `switch` at `ip`: the operand is a count `n` and `n` 32-bit offsets,
      which count from the end of the table. An index below `n`, compared
      as unsigned, selects its offset; any other index, negative ones
      included, falls through to the end of the table. */
  function SwitchNext(code: seq<Byte>, ip: nat, index: I32): (r: int)
    requires ip + 5 <= |code|
    requires ip + 5 + 4 * Read32(code, ip + 1) <= |code|
    ensures var st := ip + 5 + 4 * Read32(code, ip + 1);
      Wrap32(index) >= Read32(code, ip + 1) ==> r == st
    ensures var st := ip + 5 + 4 * Read32(code, ip + 1);
      Wrap32(index) < Read32(code, ip + 1) ==> r == st + Signed32(Read32(code, ip + 5 + 4 * Wrap32(index)))
    ensures index < 0 && Read32(code, ip + 1) <= 0x8000_0000 ==> r == ip + 5 + 4 * Read32(code, ip + 1)
  {
    var n := Read32(code, ip + 1);
    var st := ip + 5 + 4 * n;
    var k := Wrap32(index);
    if k < n then
      st + Signed32(Read32(code, ip + 5 + 4 * k))
    else st
  }

  /** The little-endian words of a jump table. */
  function Words(offsets: seq<U32>): (r: seq<Byte>)
    ensures |r| == 4 * |offsets|
  {
    if offsets == [] then [] else LE32(offsets[0]) + Words(offsets[1..])
  }

  lemma {:induction false} WordsAt(offsets: seq<U32>, k: nat)
    requires k < |offsets|
    ensures Words(offsets)[4 * k..4 * k + 4] == LE32(offsets[k])
  {
    if k > 0 {
      WordsAt(offsets[1..], k - 1);
      assert Words(offsets)[4 * k..4 * k + 4] == Words(offsets[1..])[4 * (k - 1)..4 * (k - 1) + 4];
    }
  }

  /** The bytes of a `switch` at `ip` that jumps to `targets`. */
  function SwitchBytes(ip: nat, targets: seq<int>): (r: seq<Byte>)
    requires |targets| < TWO32
    ensures |r| == 5 + 4 * |targets|
  {
    var st := ip + 5 + 4 * |targets|;
    [CEE_SWITCH] + LE32(|targets|) + Words(seq(|targets|, k requires 0 <= k < |targets| => Wrap32(targets[k] - st)))
  }

  /** A `switch` encoded at `ip` jumps to the target its index selects and
      falls through for every other index, provided each target is within
      a signed 32-bit offset of the end of the table. */
  lemma {:induction false} SwitchRoundTrip(prefix: seq<Byte>, targets: seq<int>, rest: seq<Byte>, index: I32)
    requires |targets| < TWO32
    requires forall k :: 0 <= k < |targets| ==>
      -0x8000_0000 <= targets[k] - (|prefix| + 5 + 4 * |targets|) < 0x8000_0000
    ensures var code := prefix + SwitchBytes(|prefix|, targets) + rest;
      |prefix| + 5 <= |code| && Read32(code, |prefix| + 1) == |targets|
    ensures var code := prefix + SwitchBytes(|prefix|, targets) + rest;
      SwitchNext(code, |prefix|, index) ==
        if Wrap32(index) < |targets| then targets[Wrap32(index)] else |prefix| + 5 + 4 * |targets|
  {
    var st := |prefix| + 5 + 4 * |targets|;
    SwitchHeader(prefix, targets, rest);
    var k := Wrap32(index);
    if k < |targets| {
      SwitchEntry(prefix, targets, rest, k);
      assert Signed32(Wrap32(targets[k] - st)) == targets[k] - st by {
        LowOfWrap(targets[k] - st, 4);
        LowUnique(Signed32(Wrap32(targets[k] - st)), targets[k] - st, 4);
      }
    }
  }

  /** The count word of an encoded `switch`. */
  lemma SwitchHeader(prefix: seq<Byte>, targets: seq<int>, rest: seq<Byte>)
    requires |targets| < TWO32
    ensures var code := prefix + SwitchBytes(|prefix|, targets) + rest;
      |prefix| + 5 + 4 * |targets| <= |code| && Read32(code, |prefix| + 1) == |targets|
  {
    var ip := |prefix|;
    var code := prefix + SwitchBytes(ip, targets) + rest;
    assert code[ip + 1..ip + 5] == LE32(|targets|);
    Read32Slice(code, ip + 1, LE32(|targets|));
    Read32OfLE32(|targets|);
  }

  /** Entry `k` of an encoded `switch`: the offset of target `k` from the
      end of the table. */
  lemma SwitchEntry(prefix: seq<Byte>, targets: seq<int>, rest: seq<Byte>, k: nat)
    requires |targets| < TWO32 && k < |targets|
    ensures var code := prefix + SwitchBytes(|prefix|, targets) + rest;
      |prefix| + 5 + 4 * k + 4 <= |code|
      && Read32(code, |prefix| + 5 + 4 * k) == Wrap32(targets[k] - (|prefix| + 5 + 4 * |targets|))
  {
    var ip := |prefix|;
    var n := |targets|;
    var st := ip + 5 + 4 * n;
    var offs := seq(n, j requires 0 <= j < n => Wrap32(targets[j] - st));
    var code := prefix + SwitchBytes(ip, targets) + rest;
    assert SwitchBytes(ip, targets) == [CEE_SWITCH] + LE32(n) + Words(offs);
    WordsAt(offs, k);
    assert code[ip + 5 + 4 * k..ip + 5 + 4 * k + 4] == Words(offs)[4 * k..4 * k + 4];
    Read32Slice(code, ip + 5 + 4 * k, LE32(offs[k]));
    Read32OfLE32(offs[k]);
  }

  // ---------------------------------------------------------------------
  // div on 32-bit integers
  // ---------------------------------------------------------------------

  function Abs(x: int): nat
  {
    if x < 0 then -x else x
  }

  /** C division: the quotient rounded toward zero. */
  function TruncDiv(a: int, b: int): (q: int)
    requires b != 0
    ensures Abs(q) == Abs(a) / Abs(b)
    ensures q != 0 ==> (q < 0 <==> (a < 0) != (b < 0))
  {
    var m := NatDiv(Abs(a), Abs(b));
    if (a < 0) == (b < 0) then m else -(m as int)
  }

  lemma MulSigns(q: int, b: int)
    ensures q * -b == -(q * b) && -q * b == -(q * b) && -q * -b == q * b
  {
  }

  /** The quotient of naturals is at most the dividend, and at most half
      of it when the divisor is at least 2. */
  lemma QuotientBound(x: nat, y: nat)
    requires y >= 1
    ensures x / y <= x
    ensures y >= 2 ==> 2 * (x / y) <= x
  {
    var q := NatDiv(x, y);
    assert q * y + x % y == x;
    MulLe(1, y, q);
    if y >= 2 {
      MulLe(2, y, q);
    }
  }

  /** The quotient rounded toward zero leaves a remainder smaller than the
      divisor that has the sign of the dividend. */
  lemma TruncDivSpec(a: int, b: int)
    requires b != 0
    ensures var m := a - TruncDiv(a, b) * b; Abs(m) < Abs(b) && (m == 0 || (m < 0 <==> a < 0))
  {
    var aa: int := Abs(a);
    var bb: int := Abs(b);
    var q: int := NatDiv(aa, bb);
    var rr := aa % bb;
    NatDivMod(aa, bb);
    var p := q * bb;
    assert aa == p + rr;
    var t := TruncDiv(a, b);
    MulSigns(q, bb);
    if a >= 0 && b > 0 {
      assert t * b == p;
      assert a - t * b == rr;
    } else if a < 0 && b < 0 {
      assert t * b == q * -bb == -p;
      assert a - t * b == -rr;
    } else if a < 0 {
      assert t * b == -q * bb == -p;
      assert a - t * b == -rr;
    } else {
      assert t * b == -q * -bb == p;
      assert a - t * b == rr;
    }
  }

  /** `div` on two `VAL_I32` values as section 3.31 of Partition III of
      ECMA-335 describes it: a zero divisor raises DivideByZeroException,
      a quotient that does not fit (the most negative value divided by -1)
      raises ArithmeticException, and otherwise the quotient is rounded
      toward zero. */
  function Div(a: I32, b: I32): (r: Result<I32>)
    ensures r == Err("DivideByZeroException") <==> b == 0
    ensures r == Err("ArithmeticException") <==> a == -0x8000_0000 && b == -1
    ensures r.Ok? ==> Abs(r.value) == Abs(a) / Abs(b)
    ensures r.Ok? && r.value != 0 ==> (r.value < 0 <==> (a < 0) != (b < 0))
  {
    if b == 0 then Err("DivideByZeroException")
    else if a == -0x8000_0000 && b == -1 then Err("ArithmeticException")
    else
      QuotientBound(Abs(a), Abs(b));
      Ok(TruncDiv(a, b))
  }

  /** `div` as the interpreter performs it: after the zero check the
      dividend is divided by `GET_NATI` of the divisor, a `guint32`, so the
      division is unsigned and the quotient is stored back as a `gint32`. */
  function DivAsWritten(a: I32, b: I32): (r: Result<I32>)
    ensures r.Err? <==> b == 0
    ensures r.Ok? ==> Wrap32(r.value) == Wrap32(a) / Wrap32(b)
  {
    if Wrap32(b) == 0 then Err("DivideByZeroException")
    else
      var q := NatDiv(Wrap32(a), Wrap32(b));
      QuotientBound(Wrap32(a), Wrap32(b));
      Ok(Signed32(q))
  }

  /** On a non-negative dividend and a positive divisor the unsigned
      division gives the intended quotient. */
  lemma DivAsWrittenNonNegative(a: I32, b: I32)
    requires a >= 0 && b > 0
    ensures DivAsWritten(a, b) == Div(a, b)
  {
    WrapSmall(a);
    WrapSmall(b);
    QuotientBound(a, b);
    var q := NatDiv(a, b);
    WrapSmall(q);
  }

  /** -6 divided by 2: as written the dividend is read as 0xFFFFFFFA and
      the quotient is 0x7FFFFFFD rather than -3. */
  lemma DivAsWrittenNegative()
    ensures DivAsWritten(-6, 2) == Ok(0x7FFF_FFFD)
    ensures Div(-6, 2) == Ok(-3)
  {
    assert Wrap32(-6) == 0xFFFF_FFFA;
    assert TruncDiv(-6, 2) == -3;
  }

  // ---------------------------------------------------------------------
  // Exception clauses
  // ---------------------------------------------------------------------

  const CLAUSE_CATCH := 0
  const CLAUSE_FILTER := 1
  const CLAUSE_FINALLY := 2
  const CLAUSE_FAULT := 3

  /** An exception clause of a method body, with the class a catch clause
      names already resolved to its index in the class store. */
  datatype Clause = Clause(flags: U32, tryOffset: U32, tryLen: U32, handlerOffset: U32, catchClass: nat)

  /** `OFFSET_IN_CLAUSE`: the offset lies in the clause's protected block.
      The block's end `try_offset + try_len` is a `guint32` sum, so a
      block reaching past 2^32 ends at the wrapped sum and covers
      nothing. */
  predicate InClause(c: Clause, offset: U32): (r: bool)
    ensures c.tryOffset + c.tryLen < TWO32 ==> (r <==> c.tryOffset <= offset < c.tryOffset + c.tryLen)
    ensures c.tryOffset + c.tryLen >= TWO32 ==> !r
  {
    c.tryOffset <= offset < Wrap32(c.tryOffset + c.tryLen)
  }

  /** An active method on the call stack: its clauses and the offset of
      the instruction it was executing. The innermost frame comes first. */
  datatype Frame = Frame(clauses: seq<Clause>, ipOffset: U32)

  /** The handler found for an exception: the catch clause `clause` of
      frame `frame`, or a stop at a clause the search cannot handle, or no
      clause at all. */
  datatype Outcome = Handler(frame: nat, clause: nat) | Abort(frame: nat, clause: nat) | Unhandled

  predicate ValidPos(frames: seq<Frame>, g: nat, j: nat)
  {
    g < |frames| && j < |frames[g].clauses|
  }

  /** Position `(g, j)` comes strictly before `(f, i)` in search order:
      frames from the innermost out, clauses in table order. */
  predicate Before(g: nat, j: nat, f: nat, i: nat)
  {
    g < f || (g == f && j < i)
  }

  /** The first position at or after `(f, i)` whose flag is set. */
  function FirstSet(m: seq<seq<bool>>, f: nat, i: nat): (r: Option<(nat, nat)>)
    requires f < |m| ==> i <= |m[f]|
    decreases |m| - f, if f < |m| then |m[f]| - i else 0
    ensures r.Some? ==> r.value.0 < |m| && r.value.1 < |m[r.value.0]| && m[r.value.0][r.value.1]
    ensures r.Some? ==> !Before(r.value.0, r.value.1, f, i)
    ensures r.Some? ==> forall g, j :: 0 <= g < |m| && 0 <= j < |m[g]| && !Before(g, j, f, i) && Before(g, j, r.value.0, r.value.1) ==> !m[g][j]
    ensures r.None? ==> forall g, j :: 0 <= g < |m| && 0 <= j < |m[g]| && !Before(g, j, f, i) ==> !m[g][j]
  {
    if f >= |m| then None
    else if i == |m[f]| then FirstSet(m, f + 1, 0)
    else if m[f][i] then Some((f, i))
    else FirstSet(m, f, i + 1)
  }

  /** The clause `c` handles an exception of class `ex` thrown at `offset`:
      a catch clause whose block covers the offset and whose class is on
      the exception's parent chain. */
  predicate Catches(store: seq<ClassInfo>, ex: nat, c: Clause, offset: U32)
    requires StoreValid(store) && ex < |store|
  {
    c.flags == CLAUSE_CATCH && InClause(c, offset) && Ancestor(store, ex, c.catchClass)
  }

  /** A filter clause covering the offset: filters are not implemented, so
      the search stops there. */
  predicate FilterCovers(c: Clause, offset: U32)
  {
    c.flags == CLAUSE_FILTER && InClause(c, offset)
  }

  /** Where the search stops: at a clause that catches the exception or at
      a filter covering the offset; catch clauses for other classes are
      passed over. */
  function StopFlags(store: seq<ClassInfo>, ex: nat, frames: seq<Frame>): (m: seq<seq<bool>>)
    requires StoreValid(store) && ex < |store|
    ensures |m| == |frames|
    ensures forall g :: 0 <= g < |frames| ==> |m[g]| == |frames[g].clauses|
    ensures forall g, j :: 0 <= g < |frames| && 0 <= j < |frames[g].clauses| ==>
      (m[g][j] <==> Catches(store, ex, frames[g].clauses[j], frames[g].ipOffset) || FilterCovers(frames[g].clauses[j], frames[g].ipOffset))
  {
    seq(|frames|, g requires 0 <= g < |frames| =>
      seq(|frames[g].clauses|, j requires 0 <= j < |frames[g].clauses| =>
        Catches(store, ex, frames[g].clauses[j], frames[g].ipOffset) || FilterCovers(frames[g].clauses[j], frames[g].ipOffset)))
  }

  /** As written the search stops at the first catch or filter clause whose
      block covers the offset, whatever class the clause names. */
  function StopFlagsAsWritten(frames: seq<Frame>): (m: seq<seq<bool>>)
    ensures |m| == |frames|
    ensures forall g :: 0 <= g < |frames| ==> |m[g]| == |frames[g].clauses|
    ensures forall g, j :: 0 <= g < |frames| && 0 <= j < |frames[g].clauses| ==>
      (m[g][j] <==> frames[g].clauses[j].flags <= 1 && InClause(frames[g].clauses[j], frames[g].ipOffset))
  {
    seq(|frames|, g requires 0 <= g < |frames| =>
      seq(|frames[g].clauses|, j requires 0 <= j < |frames[g].clauses| =>
        frames[g].clauses[j].flags <= 1 && InClause(frames[g].clauses[j], frames[g].ipOffset)))
  }

  /** The catch search of `handle_exception` with non-matching catch
      clauses skipped: the first clause, innermost frame first, that
      catches the exception is its handler; if a filter comes first the
      search stops there; if neither exists the exception is unhandled. */
  function FindHandler(store: seq<ClassInfo>, ex: nat, frames: seq<Frame>): (r: Outcome)
    requires StoreValid(store) && ex < |store|
    ensures !r.Unhandled? ==> ValidPos(frames, r.frame, r.clause)
    ensures r.Handler? ==> Catches(store, ex, frames[r.frame].clauses[r.clause], frames[r.frame].ipOffset)
    ensures r.Abort? ==> FilterCovers(frames[r.frame].clauses[r.clause], frames[r.frame].ipOffset)
    ensures !r.Unhandled? ==> forall g: nat, j: nat :: ValidPos(frames, g, j) && Before(g, j, r.frame, r.clause) ==>
      !Catches(store, ex, frames[g].clauses[j], frames[g].ipOffset) && !FilterCovers(frames[g].clauses[j], frames[g].ipOffset)
    ensures r.Unhandled? <==> forall g: nat, j: nat :: ValidPos(frames, g, j) ==>
      !Catches(store, ex, frames[g].clauses[j], frames[g].ipOffset) && !FilterCovers(frames[g].clauses[j], frames[g].ipOffset)
  {
    var m := StopFlags(store, ex, frames);
    match FirstSet(m, 0, 0)
    case None => Unhandled
    case Some((g, j)) =>
      if Catches(store, ex, frames[g].clauses[j], frames[g].ipOffset) then Handler(g, j) else Abort(g, j)
  }

  /** The catch search as written: the first covering catch or filter
      clause ends the search, and unless it is a catch clause for the
      exception's class the interpreter stops on an assertion. */
  function FindHandlerAsWritten(store: seq<ClassInfo>, ex: nat, frames: seq<Frame>): (r: Outcome)
    requires StoreValid(store) && ex < |store|
    ensures !r.Unhandled? ==> ValidPos(frames, r.frame, r.clause)
    ensures !r.Unhandled? ==> frames[r.frame].clauses[r.clause].flags <= 1
    ensures !r.Unhandled? ==> InClause(frames[r.frame].clauses[r.clause], frames[r.frame].ipOffset)
    ensures r.Handler? <==> !r.Unhandled? && Catches(store, ex, frames[r.frame].clauses[r.clause], frames[r.frame].ipOffset)
    ensures !r.Unhandled? ==> forall g: nat, j: nat :: ValidPos(frames, g, j) && Before(g, j, r.frame, r.clause) ==>
      !(frames[g].clauses[j].flags <= 1 && InClause(frames[g].clauses[j], frames[g].ipOffset))
  {
    var m := StopFlagsAsWritten(frames);
    match FirstSet(m, 0, 0)
    case None => Unhandled
    case Some((g, j)) =>
      if Catches(store, ex, frames[g].clauses[j], frames[g].ipOffset) then Handler(g, j) else Abort(g, j)
  }

  /** A root class 0 with two subclasses 1 and 2. */
  function ThreeClasses(): (store: seq<ClassInfo>)
    ensures StoreValid(store) && |store| == 3
  {
    var none := MemberRange(0, 0, 0);
    [ClassInfo(1, None, false, 4, 0, none, none, []),
     ClassInfo(2, Some(0), false, 4, 0, none, none, []),
     ClassInfo(3, Some(0), false, 4, 0, none, none, [])]
  }

  /** An exception of class 2 thrown at offset 5 inside two catch clauses,
      the first for class 1 and the second for the root class: as written
      the interpreter stops at the first clause, while the second one
      handles it. */
  lemma CatchMismatchAsWrittenAborts()
    ensures var frames := [Frame([Clause(0, 0, 10, 20, 1), Clause(0, 0, 10, 30, 0)], 5)];
      FindHandlerAsWritten(ThreeClasses(), 2, frames) == Abort(0, 0)
    ensures var frames := [Frame([Clause(0, 0, 10, 20, 1), Clause(0, 0, 10, 30, 0)], 5)];
      FindHandler(ThreeClasses(), 2, frames) == Handler(0, 1)
  {
    var store := ThreeClasses();
    var frames := [Frame([Clause(0, 0, 10, 20, 1), Clause(0, 0, 10, 30, 0)], 5)];
    assert !Ancestor(store, 2, 1) by {
      assert !Ancestor(store, 0, 1);
    }
    assert Ancestor(store, 2, 0);
    var m := StopFlags(store, 2, frames);
    assert !m[0][0] && m[0][1];
    var m2 := StopFlagsAsWritten(frames);
    assert m2[0][0];
  }

  /** `handle_finally` and `handle_fault`: the first clause of the given
      kind whose block covers the offset. */
  function FirstClauseOfKind(clauses: seq<Clause>, kind: U32, offset: U32): (r: Option<nat>)
    ensures r.Some? ==> r.value < |clauses| && clauses[r.value].flags == kind && InClause(clauses[r.value], offset)
    ensures r.Some? ==> forall j :: 0 <= j < r.value ==> !(clauses[j].flags == kind && InClause(clauses[j], offset))
    ensures r.None? ==> forall j :: 0 <= j < |clauses| ==> !(clauses[j].flags == kind && InClause(clauses[j], offset))
  {
    if clauses == [] then None
    else if clauses[0].flags == kind && InClause(clauses[0], offset) then Some(0)
    else match FirstClauseOfKind(clauses[1..], kind, offset)
      case None => None
      case Some(k) => Some(k + 1)
  }
}
