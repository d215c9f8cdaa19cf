/** The IL method builder used to generate wrapper methods
    (`MonoMethodBuilder` in marshal.c): a growable code buffer with a write
    position, the list of locals and the list of data items, plus the
    emitters that pick the shortest encoding of an argument, local or
    integer constant (Partition III sections 3.38, 3.40, 3.43 and 3.63 of
    ECMA-335). */
module Marshal {
  import opened Bytes
  import opened Opcodes
  import Objects

  /** The buffer size a new builder starts with and the step it grows by. */
  const INITIAL_CODE_SIZE := 256
  const CODE_GROWTH := 64

  /** A method under construction: `code` is the whole allocated buffer
      (its length is `code_size`), `pos` the write position, `locals` the
      local types in the order they were added, `data` the wrapper's data
      list. */
  datatype MethodBuilder<T> = MethodBuilder(code: seq<Byte>, pos: nat, locals: seq<T>, data: seq<nat>)

  /** The write position never passes the end of the buffer. */
  predicate Valid<T>(mb: MethodBuilder<T>)
  {
    mb.pos <= |mb.code|
  }

  /** The IL written so far. */
  function Emitted<T>(mb: MethodBuilder<T>): seq<Byte>
    requires Valid(mb)
  {
    mb.code[..mb.pos]
  }

  /** `mono_mb_new`: a 256-byte buffer, nothing written, no locals, no data.
      The buffer's initial contents are left unspecified by the runtime;
      they are zero here. */
  function NewBuilder<T>(): (r: MethodBuilder<T>)
    ensures Valid(r) && Emitted(r) == [] && |r.code| == INITIAL_CODE_SIZE
    ensures r.locals == [] && r.data == []
  {
    MethodBuilder(Zeros(INITIAL_CODE_SIZE), 0, [], [])
  }

  /** The buffer after `g_realloc` to `code_size + 64`. */
  function Grow<T>(mb: MethodBuilder<T>): (r: MethodBuilder<T>)
    ensures |r.code| == |mb.code| + CODE_GROWTH && r.code[..|mb.code|] == mb.code
    ensures r.pos == mb.pos && r.locals == mb.locals && r.data == mb.data
  {
    mb.(code := mb.code + Zeros(CODE_GROWTH))
  }

  /** `mono_mb_emit_byte`: the buffer grows by 64 bytes when it is full;
      the byte is appended to the IL and nothing already written changes. */
  function EmitByte<T>(mb: MethodBuilder<T>, op: Byte): (r: MethodBuilder<T>)
    requires Valid(mb)
    ensures Valid(r) && r.pos == mb.pos + 1
    ensures Emitted(r) == Emitted(mb) + [op]
    ensures |r.code| == if mb.pos >= |mb.code| then |mb.code| + CODE_GROWTH else |mb.code|
    ensures r.locals == mb.locals && r.data == mb.data
  {
    var g := if mb.pos >= |mb.code| then Grow(mb) else mb;
    assert g.code[..mb.pos] == mb.code[..mb.pos];
    var r := g.(code := g.code[mb.pos := op], pos := mb.pos + 1);
    assert r.code[..r.pos] == g.code[..mb.pos] + [op];
    r
  }

  /** Writing `w` at the write position of a buffer that has room for it. */
  function Put<T>(mb: MethodBuilder<T>, w: seq<Byte>): (r: MethodBuilder<T>)
    requires mb.pos + |w| <= |mb.code|
    ensures Valid(r) && r.pos == mb.pos + |w| && |r.code| == |mb.code|
    ensures Emitted(r) == mb.code[..mb.pos] + w
    ensures r.locals == mb.locals && r.data == mb.data
  {
    var code := Overwrite(mb.code, mb.pos, w);
    assert code[..mb.pos + |w|] == mb.code[..mb.pos] + w;
    mb.(code := code, pos := mb.pos + |w|)
  }

  /** `mono_mb_emit_i4`: the buffer grows by 64 bytes when fewer than five
      bytes are left; the little-endian image of the `gint32` is appended. */
  function EmitI4<T>(mb: MethodBuilder<T>, v: I32): (r: MethodBuilder<T>)
    requires Valid(mb)
    ensures Valid(r) && r.pos == mb.pos + 4
    ensures Emitted(r) == Emitted(mb) + LE32(Wrap32(v))
    ensures Read32(Emitted(r), mb.pos) == Wrap32(v)
    ensures |r.code| == if mb.pos + 4 >= |mb.code| then |mb.code| + CODE_GROWTH else |mb.code|
    ensures r.locals == mb.locals && r.data == mb.data
  {
    var g := if mb.pos + 4 >= |mb.code| then Grow(mb) else mb;
    assert g.code[..mb.pos] == mb.code[..mb.pos];
    var r := Put(g, LE32(Wrap32(v)));
    Read32OfLE32(Wrap32(v));
    assert Emitted(r)[mb.pos..mb.pos + 4] == LE32(Wrap32(v));
    r
  }

  /** `mono_mb_emit_i2`: as `EmitI4` for a `gint16`, with room for three. */
  function EmitI2<T>(mb: MethodBuilder<T>, v: int): (r: MethodBuilder<T>)
    requires Valid(mb) && -0x8000 <= v < 0x8000
    ensures Valid(r) && r.pos == mb.pos + 2
    ensures Emitted(r) == Emitted(mb) + LE16(Wrap16(v))
    ensures Read16(Emitted(r), mb.pos) == Wrap16(v)
    ensures |r.code| == if mb.pos + 2 >= |mb.code| then |mb.code| + CODE_GROWTH else |mb.code|
    ensures r.locals == mb.locals && r.data == mb.data
  {
    var g := if mb.pos + 2 >= |mb.code| then Grow(mb) else mb;
    assert g.code[..mb.pos] == mb.code[..mb.pos];
    var r := Put(g, LE16(Wrap16(v)));
    assert Emitted(r)[mb.pos..mb.pos + 2] == LE16(Wrap16(v));
    r
  }

  /** `mono_mb_patch_addr`: overwrites the four bytes at `p` with the
      `gint32` and nothing else. */
  function PatchAddr<T>(mb: MethodBuilder<T>, p: nat, v: I32): (r: MethodBuilder<T>)
    requires p + 4 <= |mb.code|
    ensures |r.code| == |mb.code| && r.pos == mb.pos && r.locals == mb.locals && r.data == mb.data
    ensures Read32(r.code, p) == Wrap32(v)
    ensures forall i :: 0 <= i < |mb.code| && !(p <= i < p + 4) ==> r.code[i] == mb.code[i]
  {
    var code := Overwrite(mb.code, p, LE32(Wrap32(v)));
    Read32OfLE32(Wrap32(v));
    assert code[p..p + 4] == LE32(Wrap32(v));
    mb.(code := code)
  }

  // ---------------------------------------------------------------------
  // The instructions the emitters write, and their decoding
  // ---------------------------------------------------------------------

  datatype Instr = Ldarg(n: U32) | LdargAddr(n: U32) | Ldloc(n: U32) | Stloc(n: U32) | Ldc(v: I32)

  /** The shortest encoding of each instruction that Partition III of
      ECMA-335 allows: the macro forms for small numbers, the `.s` forms for
      one-byte operands, the long forms otherwise. */
  function Encode(i: Instr): (r: seq<Byte>)
    ensures 1 <= |r| <= 6
  {
    match i
    case Ldarg(n) => VarForm(n, CEE_LDARG_0, CEE_LDARG_S, CEE_LDARG)
    case Ldloc(n) => VarForm(n, CEE_LDLOC_0, CEE_LDLOC_S, CEE_LDLOC)
    case Stloc(n) => VarForm(n, CEE_STLOC_0, CEE_STLOC_S, CEE_STLOC)
    case LdargAddr(n) => if n < 256 then [CEE_LDARGA_S, n] else [CEE_PREFIX1, CEE_LDARGA] + LE32(n)
    case Ldc(v) =>
      if -1 <= v < 8 then [CEE_LDC_I4_0 + v]
      else if -128 <= v < 128 then [CEE_LDC_I4_S, Wrap32(v) % 0x100]
      else [CEE_LDC_I4] + LE32(Wrap32(v))
  }

  function VarForm(n: U32, macro: Byte, short: Byte, long: Byte): seq<Byte>
    requires macro + 3 < 0x100
  {
    if n < 4 then [macro + n] else if n < 256 then [short, n] else [CEE_PREFIX1, long] + LE32(n)
  }

  datatype DecodedInstr = DecodedInstr(instr: Instr, next: nat)

  /** Reading one of the instructions above at `p`; `None` for any other
      opcode or a truncated operand. */
  function Decode(s: seq<Byte>, p: nat): (r: Option<DecodedInstr>)
    requires p < |s|
    ensures r.Some? ==> p < r.value.next <= |s|
  {
    var b := s[p];
    if CEE_LDARG_0 <= b < CEE_LDARG_0 + 4 then Some(DecodedInstr(Ldarg(b - CEE_LDARG_0), p + 1))
    else if CEE_LDLOC_0 <= b < CEE_LDLOC_0 + 4 then Some(DecodedInstr(Ldloc(b - CEE_LDLOC_0), p + 1))
    else if CEE_STLOC_0 <= b < CEE_STLOC_0 + 4 then Some(DecodedInstr(Stloc(b - CEE_STLOC_0), p + 1))
    else if CEE_LDC_I4_M1 <= b < CEE_LDC_I4_0 + 8 then Some(DecodedInstr(Ldc(b - CEE_LDC_I4_0), p + 1))
    else if b in {CEE_LDARG_S, CEE_LDARGA_S, CEE_LDLOC_S, CEE_STLOC_S, CEE_LDC_I4_S} then
      if p + 2 > |s| then None
      else
        var o := s[p + 1];
        Some(DecodedInstr(
          if b == CEE_LDARG_S then Ldarg(o)
          else if b == CEE_LDARGA_S then LdargAddr(o)
          else if b == CEE_LDLOC_S then Ldloc(o)
          else if b == CEE_STLOC_S then Stloc(o)
          else Ldc(Signed8(o)), p + 2))
    else if b == CEE_LDC_I4 then
      if p + 5 > |s| then None else Some(DecodedInstr(Ldc(Signed32(Read32(s, p + 1))), p + 5))
    else if b == CEE_PREFIX1 && p + 6 <= |s| then
      var o := Read32(s, p + 2);
      var b2 := s[p + 1];
      if b2 == CEE_LDARG then Some(DecodedInstr(Ldarg(o), p + 6))
      else if b2 == CEE_LDARGA then Some(DecodedInstr(LdargAddr(o), p + 6))
      else if b2 == CEE_LDLOC then Some(DecodedInstr(Ldloc(o), p + 6))
      else if b2 == CEE_STLOC then Some(DecodedInstr(Stloc(o), p + 6))
      else None
    else None
  }

  /** Every encoding decodes back to its instruction, wherever it sits,
      and the decoder steps over exactly the encoding. */
  lemma DecodeEncode(i: Instr, pre: seq<Byte>, post: seq<Byte>)
    ensures var s := pre + Encode(i) + post;
      |pre| < |s| && Decode(s, |pre|) == Some(DecodedInstr(i, |pre| + |Encode(i)|))
  {
    var e := Encode(i);
    var s := pre + e + post;
    assert s[|pre|..|pre| + |e|] == e;
    DecodeAt(i, s, |pre|);
  }

  lemma DecodeAt(i: Instr, s: seq<Byte>, p: nat)
    requires p + |Encode(i)| <= |s| && s[p..p + |Encode(i)|] == Encode(i)
    ensures Decode(s, p) == Some(DecodedInstr(i, p + |Encode(i)|))
  {
    var e := Encode(i);
    if |e| == 1 {
      DecodeMacro(i, s, p);
    } else if |e| == 2 {
      DecodeShortForm(i, s, p);
    } else if |e| == 5 {
      DecodeLong(i, s, p);
    } else if |e| == 6 {
      DecodePrefixed(i, s, p);
    }
  }

  lemma DecodeMacro(i: Instr, s: seq<Byte>, p: nat)
    requires |Encode(i)| == 1 && p + 1 <= |s| && s[p..p + 1] == Encode(i)
    ensures Decode(s, p) == Some(DecodedInstr(i, p + 1))
  {
    assert s[p] == Encode(i)[0];
  }

  lemma DecodeShortForm(i: Instr, s: seq<Byte>, p: nat)
    requires |Encode(i)| == 2 && p + 2 <= |s| && s[p..p + 2] == Encode(i)
    ensures Decode(s, p) == Some(DecodedInstr(i, p + 2))
  {
    assert s[p] == Encode(i)[0] && s[p + 1] == Encode(i)[1];
  }

  lemma DecodeLong(i: Instr, s: seq<Byte>, p: nat)
    requires |Encode(i)| == 5 && p + 5 <= |s| && s[p..p + 5] == Encode(i)
    ensures Decode(s, p) == Some(DecodedInstr(i, p + 5))
  {
    var e := Encode(i);
    assert i.Ldc? && e == [CEE_LDC_I4] + LE32(Wrap32(i.v));
    assert s[p] == CEE_LDC_I4;
    Read32Slice(s, p + 1, e[1..]);
    Read32OfLE32(Wrap32(i.v));
  }

  lemma DecodePrefixed(i: Instr, s: seq<Byte>, p: nat)
    requires |Encode(i)| == 6 && p + 6 <= |s| && s[p..p + 6] == Encode(i)
    ensures Decode(s, p) == Some(DecodedInstr(i, p + 6))
  {
    var e := Encode(i);
    assert !i.Ldc? && i.n >= 256;
    assert s[p] == CEE_PREFIX1 && s[p + 1] == e[1];
    Read32Slice(s, p + 2, e[2..]);
    Read32OfLE32(i.n);
  }

  /** No encoding the decoder accepts is shorter than the emitted one. */
  lemma EncodeShortest(w: seq<Byte>, i: Instr)
    requires |w| > 0 && Decode(w, 0) == Some(DecodedInstr(i, |w|))
    ensures |Encode(i)| <= |w|
  {
  }

  // ---------------------------------------------------------------------
  // The emitters
  // ---------------------------------------------------------------------

  /** `mono_mb_emit_ldarg`. */
  function EmitLdarg<T>(mb: MethodBuilder<T>, n: U32): (r: MethodBuilder<T>)
    requires Valid(mb)
    ensures Valid(r) && Emitted(r) == Emitted(mb) + Encode(Ldarg(n))
    ensures r.locals == mb.locals && r.data == mb.data
  {
    EmitVar(mb, n, CEE_LDARG_0, CEE_LDARG_S, CEE_LDARG)
  }

  /** `mono_mb_emit_ldloc`. */
  function EmitLdloc<T>(mb: MethodBuilder<T>, n: U32): (r: MethodBuilder<T>)
    requires Valid(mb)
    ensures Valid(r) && Emitted(r) == Emitted(mb) + Encode(Ldloc(n))
    ensures r.locals == mb.locals && r.data == mb.data
  {
    EmitVar(mb, n, CEE_LDLOC_0, CEE_LDLOC_S, CEE_LDLOC)
  }

  /** `mono_mb_emit_stloc`. */
  function EmitStloc<T>(mb: MethodBuilder<T>, n: U32): (r: MethodBuilder<T>)
    requires Valid(mb)
    ensures Valid(r) && Emitted(r) == Emitted(mb) + Encode(Stloc(n))
    ensures r.locals == mb.locals && r.data == mb.data
  {
    EmitVar(mb, n, CEE_STLOC_0, CEE_STLOC_S, CEE_STLOC)
  }

  /** The shape shared by the three emitters above: one macro byte, the
      `.s` opcode and a byte, or the prefixed opcode and a 32-bit operand.
      A number of 2^31 or more goes through `gint32` and keeps its bits. */
  function EmitVar<T>(mb: MethodBuilder<T>, n: U32, macro: Byte, short: Byte, long: Byte): (r: MethodBuilder<T>)
    requires Valid(mb) && macro + 3 < 0x100
    ensures Valid(r) && Emitted(r) == Emitted(mb) + VarForm(n, macro, short, long)
    ensures r.locals == mb.locals && r.data == mb.data
  {
    if n < 4 then EmitByte(mb, macro + n)
    else if n < 256 then EmitByte(EmitByte(mb, short), n)
    else
      var r := EmitI4(EmitByte(EmitByte(mb, CEE_PREFIX1), long), Signed32(n));
      assert Wrap32(Signed32(n)) == n;
      r
  }

  /** `mono_mb_emit_ldarg_addr`. */
  function EmitLdargAddr<T>(mb: MethodBuilder<T>, n: U32): (r: MethodBuilder<T>)
    requires Valid(mb)
    ensures Valid(r) && Emitted(r) == Emitted(mb) + Encode(LdargAddr(n))
    ensures r.locals == mb.locals && r.data == mb.data
  {
    if n < 256 then EmitByte(EmitByte(mb, CEE_LDARGA_S), n)
    else
      var r := EmitI4(EmitByte(EmitByte(mb, CEE_PREFIX1), CEE_LDARGA), Signed32(n));
      assert Wrap32(Signed32(n)) == n;
      r
  }

  /** `mono_mb_emit_icon`: `ldc.i4.m1`..`ldc.i4.7`, `ldc.i4.s` with the low
      byte, or `ldc.i4` with the whole word. */
  function EmitIcon<T>(mb: MethodBuilder<T>, v: I32): (r: MethodBuilder<T>)
    requires Valid(mb)
    ensures Valid(r) && Emitted(r) == Emitted(mb) + Encode(Ldc(v))
    ensures r.locals == mb.locals && r.data == mb.data
  {
    if -1 <= v < 8 then EmitByte(mb, CEE_LDC_I4_0 + v)
    else if -128 <= v <= 127 then EmitByte(EmitByte(mb, CEE_LDC_I4_S), Wrap32(v) % 0x100)
    else EmitI4(EmitByte(mb, CEE_LDC_I4), v)
  }

  /** Emitting one instruction with the emitter for its kind. */
  method EmitInstr<T>(mb: MethodBuilder<T>, i: Instr) returns (r: MethodBuilder<T>)
    requires Valid(mb)
    ensures Valid(r) && Emitted(r) == Emitted(mb) + Encode(i)
    ensures r.locals == mb.locals && r.data == mb.data
  {
    match i
    case Ldarg(n) => r := EmitLdarg(mb, n);
    case LdargAddr(n) => r := EmitLdargAddr(mb, n);
    case Ldloc(n) => r := EmitLdloc(mb, n);
    case Stloc(n) => r := EmitStloc(mb, n);
    case Ldc(v) => r := EmitIcon(mb, v);
  }

  /** The concatenated encodings of a list of instructions. */
  function EncodeAll(ins: seq<Instr>): seq<Byte>
  {
    if |ins| == 0 then [] else Encode(ins[0]) + EncodeAll(ins[1..])
  }

  /** Emitting a list of instructions in order: the IL grows by their
      encodings, and the new part decodes back to the list. */
  method EmitAll<T>(mb: MethodBuilder<T>, ins: seq<Instr>) returns (r: MethodBuilder<T>)
    requires Valid(mb)
    ensures Valid(r) && Emitted(r) == Emitted(mb) + EncodeAll(ins)
    ensures DecodeAll(Emitted(r)[|Emitted(mb)|..]) == Some(ins)
    ensures r.locals == mb.locals && r.data == mb.data
    decreases |ins|
  {
    if |ins| == 0 {
      r := mb;
      assert Emitted(r)[|Emitted(mb)|..] == [];
    } else {
      var m1 := EmitInstr(mb, ins[0]);
      r := EmitAll(m1, ins[1..]);
      AppendAssoc(Emitted(mb), Encode(ins[0]), EncodeAll(ins[1..]));
      assert Emitted(r)[|Emitted(mb)|..] == EncodeAll(ins);
      DecodeAllEncodeAll(ins);
    }
  }

  lemma AppendAssoc(a: seq<Byte>, b: seq<Byte>, c: seq<Byte>)
    ensures (a + b) + c == a + (b + c)
  {
  }

  /** Decoding a whole instruction stream; `None` if any part of it is not
      one of the instructions above. */
  function DecodeAll(s: seq<Byte>): Option<seq<Instr>>
    decreases |s|
  {
    if |s| == 0 then Some([])
    else
      match Decode(s, 0)
      case None => None
      case Some(d) =>
        match DecodeAll(s[d.next..])
        case None => None
        case Some(rest) => Some([d.instr] + rest)
  }

  lemma {:induction false} DecodeAllEncodeAll(ins: seq<Instr>)
    ensures DecodeAll(EncodeAll(ins)) == Some(ins)
    decreases |ins|
  {
    if |ins| > 0 {
      var e := Encode(ins[0]);
      var rest := EncodeAll(ins[1..]);
      var s := EncodeAll(ins);
      assert s == e + rest;
      assert s[0..|e|] == e;
      DecodeAt(ins[0], s, 0);
      assert s[|e|..] == rest;
      DecodeAllEncodeAll(ins[1..]);
      assert DecodeAll(s) == Some([ins[0]] + ins[1..]);
      assert [ins[0]] + ins[1..] == ins;
    }
  }


  // ---------------------------------------------------------------------
  // Locals, data and the finished method
  // ---------------------------------------------------------------------

  datatype LocalAdded<T> = LocalAdded(builder: MethodBuilder<T>, index: nat)

  /** `mono_mb_add_local`: the new local's number is the count before it;
      it goes to the end of the list. */
  function AddLocal<T>(mb: MethodBuilder<T>, t: T): (r: LocalAdded<T>)
    ensures r.index == |mb.locals| && r.builder.locals == mb.locals + [t]
    ensures r.builder.locals[r.index] == t
    ensures r.builder.code == mb.code && r.builder.pos == mb.pos && r.builder.data == mb.data
  {
    LocalAdded(mb.(locals := mb.locals + [t]), |mb.locals|)
  }

  datatype DataAdded<T> = DataAdded(builder: MethodBuilder<T>, index: nat)

  /** `mono_mb_add_data`: the item goes to the end of the list and its
      1-based position is returned. */
  function AddData<T>(mb: MethodBuilder<T>, d: nat): (r: DataAdded<T>)
    ensures r.index == |r.builder.data| && r.index >= 1 && r.builder.data[r.index - 1] == d
    ensures r.builder.data[..r.index - 1] == mb.data
    ensures r.builder.code == mb.code && r.builder.pos == mb.pos && r.builder.locals == mb.locals
  {
    DataAdded(mb.(data := mb.data + [d]), |mb.data| + 1)
  }

  /** The header `mono_mb_create_method` attaches to the method. */
  datatype BuiltHeader<T> = BuiltHeader(maxStack: int, code: seq<Byte>, codeSize: nat, locals: seq<T>)

  /** `mono_mb_create_method`: at least eight stack slots, the code is the
      IL written so far, and the locals are those added, in order. */
  function CreateMethod<T>(mb: MethodBuilder<T>, maxStack: int): (r: BuiltHeader<T>)
    requires Valid(mb)
    ensures r.maxStack >= 8 && r.maxStack >= maxStack && (r.maxStack == 8 || r.maxStack == maxStack)
    ensures r.codeSize == mb.pos && r.codeSize <= |r.code| && r.code[..r.codeSize] == Emitted(mb)
    ensures |r.locals| == |mb.locals| && forall i :: 0 <= i < |r.locals| ==> r.locals[i] == mb.locals[i]
  {
    BuiltHeader(if maxStack < 8 then 8 else maxStack, mb.code, mb.pos, mb.locals)
  }

  /** The locals added one after the other come back in the created
      method numbered by their `AddLocal` results. */
  lemma LocalsInOrder<T>(mb: MethodBuilder<T>, t: T, u: T)
    requires Valid(mb)
    ensures var a := AddLocal(mb, t);
      var b := AddLocal(a.builder, u);
      var h := CreateMethod(b.builder, 0);
      b.index == a.index + 1 && h.locals[a.index] == t && h.locals[b.index] == u
  {
  }

  // ---------------------------------------------------------------------
  // Fixed-size string buffers
  // ---------------------------------------------------------------------

  /** `mono_string_to_byvalstr`: fills the first `size` bytes of `dst`
      from the string. A null string zeroes them; otherwise the narrowed
      string up to its first NUL, cut at `size` bytes, is copied and the
      last byte of the buffer is set to 0. The other bytes of the buffer
      keep their contents. A size below 1 fails the runtime's assertion. */
  function ByvalStr(dst: seq<Byte>, src: Option<seq<U16>>, size: int): (r: Result<seq<Byte>>)
    requires size <= |dst|
    ensures r.Ok? <==> size > 0
    ensures r.Ok? ==> |r.value| == |dst| && r.value[size - 1] == 0 && r.value[size..] == dst[size..]
    ensures r.Ok? && src.None? ==> forall i :: 0 <= i < size ==> r.value[i] == 0
    ensures r.Ok? && src.Some? ==> var s := Objects.ToUtf8(src.value);
      forall i :: 0 <= i < size - 1 ==> r.value[i] == if i < CStrLen(s) then s[i] else dst[i]
  {
    if size <= 0 then Err("assertion failed: size > 0")
    else if src.None? then Ok(Zeros(size) + dst[size..])
    else
      var s := Objects.ToUtf8(src.value);
      var len := if size < CStrLen(s) then size else CStrLen(s);
      var copied := s[..len] + dst[len..];
      Ok(copied[..size - 1] + [0] + copied[size..])
  }

  /** Into a zeroed buffer, the copy reads back as a C string: the
      narrowed string cut to the `size - 1` bytes before the forced NUL. */
  lemma ByvalStrReadBack(src: seq<U16>, size: int)
    requires size > 0
    ensures var r := ByvalStr(Zeros(size), Some(src), size).value;
      var s := Objects.ToUtf8(src);
      var n := if size - 1 < CStrLen(s) then size - 1 else CStrLen(s);
      CStrLen(r) == n && r[..n] == s[..n]
  {
    var r := ByvalStr(Zeros(size), Some(src), size).value;
    var s := Objects.ToUtf8(src);
    var n := if size - 1 < CStrLen(s) then size - 1 else CStrLen(s);
    assert r[n] == 0;
    Objects.CStrLenAt(r, n);
  }

  /** `mono_string_to_byvalwstr`: the same for a wide buffer: the string's
      UTF-16 bytes cut at `size` are copied and the last two bytes of the
      buffer are set to 0. A size below 2 fails the runtime's assertion. */
  function ByvalWStr(dst: seq<Byte>, src: Option<seq<U16>>, size: int): (r: Result<seq<Byte>>)
    requires size <= |dst|
    ensures r.Ok? <==> size > 1
    ensures r.Ok? ==> |r.value| == |dst| && r.value[size - 2] == 0 && r.value[size - 1] == 0
    ensures r.Ok? ==> r.value[size..] == dst[size..]
    ensures r.Ok? && src.None? ==> forall i :: 0 <= i < size ==> r.value[i] == 0
    ensures r.Ok? && src.Some? ==> var w := Objects.Utf16Bytes(src.value);
      forall i :: 0 <= i < size - 2 ==> r.value[i] == if i < |w| then w[i] else dst[i]
  {
    if size <= 1 then Err("assertion failed: size > 1")
    else if src.None? then Ok(Zeros(size) + dst[size..])
    else
      var w := Objects.Utf16Bytes(src.value);
      var len := if size < |w| then size else |w|;
      var copied := w[..len] + dst[len..];
      Ok(copied[..size - 2] + [0, 0] + copied[size..])
  }

  /** Into a zeroed buffer of even size, the copy reads back as the
      string's first units, as many as fit before the two NUL bytes. */
  lemma ByvalWStrReadBack(src: seq<U16>, size: int)
    requires size > 1 && size % 2 == 0
    ensures var r := ByvalWStr(Zeros(size), Some(src), size).value;
      var k := if (size - 2) / 2 < |src| then (size - 2) / 2 else |src|;
      Objects.Utf16Units(r[..2 * k]) == src[..k]
  {
    var r := ByvalWStr(Zeros(size), Some(src), size).value;
    var w := Objects.Utf16Bytes(src);
    var k := if (size - 2) / 2 < |src| then (size - 2) / 2 else |src|;
    forall i | 0 <= i < k
      ensures Objects.Utf16Units(r[..2 * k])[i] == src[i]
    {
      assert r[2 * i] == w[2 * i] && r[2 * i + 1] == w[2 * i + 1];
    }
  }
}
