/** Type signatures as the runtime sees them (`MonoType`): an element type
    code from Partition II section 23.1.16 of ECMA-335, whether the type is
    a managed reference (`byref`), and for an enum value type the
    underlying type it is stored as. */
module Types {
  import opened Bytes

  const MONO_TYPE_END := 0x00
  const MONO_TYPE_VOID := 0x01
  const MONO_TYPE_BOOLEAN := 0x02
  const MONO_TYPE_CHAR := 0x03
  const MONO_TYPE_I1 := 0x04
  const MONO_TYPE_U1 := 0x05
  const MONO_TYPE_I2 := 0x06
  const MONO_TYPE_U2 := 0x07
  const MONO_TYPE_I4 := 0x08
  const MONO_TYPE_U4 := 0x09
  const MONO_TYPE_I8 := 0x0A
  const MONO_TYPE_U8 := 0x0B
  const MONO_TYPE_R4 := 0x0C
  const MONO_TYPE_R8 := 0x0D
  const MONO_TYPE_STRING := 0x0E
  const MONO_TYPE_PTR := 0x0F
  const MONO_TYPE_BYREF := 0x10
  const MONO_TYPE_VALUETYPE := 0x11
  const MONO_TYPE_CLASS := 0x12
  const MONO_TYPE_ARRAY := 0x14
  const MONO_TYPE_TYPEDBYREF := 0x16
  const MONO_TYPE_I := 0x18
  const MONO_TYPE_U := 0x19
  const MONO_TYPE_FNPTR := 0x1B
  const MONO_TYPE_OBJECT := 0x1C
  const MONO_TYPE_SZARRAY := 0x1D

  /** `enumBase` is `Some` exactly for a value type whose class is an enum
      (`data.klass->enumtype`), and holds `enum_basetype`. */
  datatype MonoType = MonoType(code: nat, byref: bool, enumBase: Option<MonoType>)

  /** The reference-typed codes: each is held as one pointer. */
  predicate IsRefCode(code: nat)
  {
    code in {MONO_TYPE_CLASS, MONO_TYPE_OBJECT, MONO_TYPE_STRING, MONO_TYPE_PTR, MONO_TYPE_SZARRAY, MONO_TYPE_ARRAY}
  }

  /** The integer codes of at most 32 bits, with their width in bytes and
      whether they are signed. */
  predicate IsSmallIntCode(code: nat)
  {
    code in {MONO_TYPE_I1, MONO_TYPE_U1, MONO_TYPE_BOOLEAN, MONO_TYPE_I2, MONO_TYPE_U2, MONO_TYPE_CHAR,
             MONO_TYPE_I4, MONO_TYPE_U4}
  }

  function IntWidth(code: nat): (r: nat)
    requires IsSmallIntCode(code)
    ensures r == 1 || r == 2 || r == 4
  {
    if code in {MONO_TYPE_I1, MONO_TYPE_U1, MONO_TYPE_BOOLEAN} then 1
    else if code in {MONO_TYPE_I2, MONO_TYPE_U2, MONO_TYPE_CHAR} then 2
    else 4
  }

  predicate IsSignedCode(code: nat)
  {
    code in {MONO_TYPE_I1, MONO_TYPE_I2, MONO_TYPE_I4}
  }

  /** The type after looking through enums: the type an enum value is
      stored as. */
  function Underlying(t: MonoType): (r: MonoType)
    ensures r.byref || r.code != MONO_TYPE_VALUETYPE || r.enumBase.None?
  {
    if !t.byref && t.code == MONO_TYPE_VALUETYPE && t.enumBase.Some? then Underlying(t.enumBase.value) else t
  }
}
