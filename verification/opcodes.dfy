/** CIL opcode bytes used by the wrapper builder, the interpreter and the
    JIT front end (Partition III of ECMA-335). A two-byte opcode is the
    prefix 0xFE followed by its second byte. */
module Opcodes {
  // One-byte opcodes.
  const CEE_LDARG_0 := 0x02
  const CEE_LDARG_3 := 0x05
  const CEE_LDLOC_0 := 0x06
  const CEE_STLOC_0 := 0x0A
  const CEE_LDARG_S := 0x0E
  const CEE_LDARGA_S := 0x0F
  const CEE_LDLOC_S := 0x11
  const CEE_STLOC_S := 0x13
  const CEE_LDNULL := 0x14
  const CEE_LDC_I4_M1 := 0x15
  const CEE_LDC_I4_0 := 0x16
  const CEE_LDC_I4_8 := 0x1E
  const CEE_LDC_I4_S := 0x1F
  const CEE_LDC_I4 := 0x20
  const CEE_LDC_I8 := 0x21
  const CEE_LDC_R4 := 0x22
  const CEE_LDC_R8 := 0x23
  const CEE_CALL := 0x28
  const CEE_RET := 0x2A
  const CEE_BR_S := 0x2B
  const CEE_SWITCH := 0x45
  const CEE_CALLVIRT := 0x6F
  const CEE_PREFIX1 := 0xFE

  // Second bytes of the 0xFE-prefixed opcodes.
  const CEE_LDARG := 0x09
  const CEE_LDARGA := 0x0A
  const CEE_LDLOC := 0x0C
  const CEE_STLOC := 0x0E
}
