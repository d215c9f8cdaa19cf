/** The front end of the x86 JIT (jit/jit.c) as far as it does not depend
    on the code generator: the mapping of types to load and store tree
    operators, the allocation of locals, temporaries and arguments in the
    stack frame, the division of a method body into basic blocks, the test
    that decides whether a call may be inlined, and the address of an
    array element. */
module Jit {
  import opened Bytes
  import opened Types
  import opened Opcodes
  import Interp
  import Icall
  import Objects
  import Marshal

  // ---------------------------------------------------------------------
  // Type maps
  // ---------------------------------------------------------------------

  /** The class of value an evaluation-stack slot holds (`MonoValueType`). */
  const VAL_UNKNOWN := 0
  const VAL_I32 := 1
  const VAL_I64 := 2
  const VAL_POINTER := 3
  const VAL_DOUBLE := 4

  datatype StoreOp = StindI1 | StindI2 | StindI4 | StindI8 | StindR4 | StindR8 | StindRef | StindObj

  datatype LoadOp = LdindI1 | LdindU1 | LdindI2 | LdindU2 | LdindI4 | LdindU4 | LdindI8 | LdindR4 | LdindR8
                  | LdindRef | LdindObj

  /** A load operator together with the class of the value it pushes. */
  datatype Load = Load(op: LoadOp, svt: nat)

  /** The types the three maps know; any other code is an assertion
      failure. `MONO_TYPE_U` is not among them. */
  predicate Mapped(u: MonoType)
  {
    u.byref || IsSmallIntCode(u.code) || IsRefCode(u.code)
    || u.code in {MONO_TYPE_I, MONO_TYPE_I8, MONO_TYPE_U8, MONO_TYPE_R4, MONO_TYPE_R8, MONO_TYPE_VALUETYPE}
  }

  /** Bytes moved by a store operator; `None` for a whole value type. */
  function StoreWidth(op: StoreOp): Option<nat>
  {
    match op
    case StindI1 => Some(1)
    case StindI2 => Some(2)
    case StindI4 => Some(4)
    case StindI8 => Some(8)
    case StindR4 => Some(4)
    case StindR8 => Some(8)
    case StindRef => Some(4)
    case StindObj => None
  }

  /** Bytes read by a load operator; `None` for a whole value type. */
  function LoadWidth(op: LoadOp): Option<nat>
  {
    match op
    case LdindI1 => Some(1)
    case LdindU1 => Some(1)
    case LdindI2 => Some(2)
    case LdindU2 => Some(2)
    case LdindI4 => Some(4)
    case LdindU4 => Some(4)
    case LdindI8 => Some(8)
    case LdindR4 => Some(4)
    case LdindR8 => Some(8)
    case LdindRef => Some(4)
    case LdindObj => None
  }

  predicate SignExtends(op: LoadOp)
  {
    op in {LdindI1, LdindI2, LdindI4}
  }

  /** `map_stind_type`: the store operator for a value of type `t`. */
  function MapStind(t: MonoType): (r: Result<StoreOp>)
    ensures r.Ok? <==> Mapped(Underlying(t))
    ensures r.Ok? ==> (r.value == StindRef <==> Underlying(t).byref || IsRefCode(Underlying(t).code))
    ensures r.Ok? && !Underlying(t).byref && IsSmallIntCode(Underlying(t).code) ==>
      StoreWidth(r.value) == Some(IntWidth(Underlying(t).code))
    decreases t
  {
    if t.byref then Ok(StindRef)
    else if t.code in {MONO_TYPE_I1, MONO_TYPE_U1, MONO_TYPE_BOOLEAN} then Ok(StindI1)
    else if t.code in {MONO_TYPE_I2, MONO_TYPE_U2, MONO_TYPE_CHAR} then Ok(StindI2)
    else if t.code in {MONO_TYPE_I, MONO_TYPE_I4, MONO_TYPE_U4} then Ok(StindI4)
    else if IsRefCode(t.code) then Ok(StindRef)
    else if t.code in {MONO_TYPE_I8, MONO_TYPE_U8} then Ok(StindI8)
    else if t.code == MONO_TYPE_R4 then Ok(StindR4)
    else if t.code == MONO_TYPE_R8 then Ok(StindR8)
    else if t.code == MONO_TYPE_VALUETYPE then
      if t.enumBase.Some? then MapStind(t.enumBase.value) else Ok(StindObj)
    else Err("unknown type")
  }

  /** `map_starg_type`: the store operator for an outgoing argument of
      type `t`; every integer of 32 bits or less fills a whole slot. */
  function MapStarg(t: MonoType): (r: Result<StoreOp>)
    ensures r.Ok? <==> Mapped(Underlying(t))
    ensures r.Ok? ==> r.value !in {StindI1, StindI2}
    decreases t
  {
    if t.byref then Ok(StindRef)
    else if IsSmallIntCode(t.code) || t.code == MONO_TYPE_I then Ok(StindI4)
    else if IsRefCode(t.code) then Ok(StindRef)
    else if t.code in {MONO_TYPE_I8, MONO_TYPE_U8} then Ok(StindI8)
    else if t.code == MONO_TYPE_R4 then Ok(StindR4)
    else if t.code == MONO_TYPE_R8 then Ok(StindR8)
    else if t.code == MONO_TYPE_VALUETYPE then
      if t.enumBase.Some? then MapStarg(t.enumBase.value) else Ok(StindObj)
    else Err("unknown type")
  }

  /** `map_ldind_type`: the load operator for a value of type `t` and the
      class of the stack value it produces. */
  function MapLdind(t: MonoType): (r: Result<Load>)
    ensures r.Ok? <==> Mapped(Underlying(t))
    ensures var u := Underlying(t); r.Ok? ==>
      (r.value.svt == VAL_I32 <==> !u.byref && (IsSmallIntCode(u.code) || u.code == MONO_TYPE_I))
    ensures var u := Underlying(t); r.Ok? ==>
      (r.value.svt == VAL_POINTER <==> u.byref || IsRefCode(u.code))
    ensures var u := Underlying(t); r.Ok? ==>
      (r.value.svt == VAL_I64 <==> !u.byref && u.code in {MONO_TYPE_I8, MONO_TYPE_U8})
    ensures var u := Underlying(t); r.Ok? ==>
      (r.value.svt == VAL_DOUBLE <==> !u.byref && u.code in {MONO_TYPE_R4, MONO_TYPE_R8})
    ensures var u := Underlying(t); r.Ok? && !u.byref && IsSmallIntCode(u.code) ==>
      LoadWidth(r.value.op) == Some(IntWidth(u.code)) && (SignExtends(r.value.op) <==> IsSignedCode(u.code))
    decreases t
  {
    if t.byref then Ok(Load(LdindRef, VAL_POINTER))
    else if t.code == MONO_TYPE_I1 then Ok(Load(LdindI1, VAL_I32))
    else if t.code in {MONO_TYPE_U1, MONO_TYPE_BOOLEAN} then Ok(Load(LdindU1, VAL_I32))
    else if t.code == MONO_TYPE_I2 then Ok(Load(LdindI2, VAL_I32))
    else if t.code in {MONO_TYPE_U2, MONO_TYPE_CHAR} then Ok(Load(LdindU2, VAL_I32))
    else if t.code in {MONO_TYPE_I, MONO_TYPE_I4} then Ok(Load(LdindI4, VAL_I32))
    else if t.code == MONO_TYPE_U4 then Ok(Load(LdindU4, VAL_I32))
    else if IsRefCode(t.code) then Ok(Load(LdindRef, VAL_POINTER))
    else if t.code in {MONO_TYPE_I8, MONO_TYPE_U8} then Ok(Load(LdindI8, VAL_I64))
    else if t.code == MONO_TYPE_R4 then Ok(Load(LdindR4, VAL_DOUBLE))
    else if t.code == MONO_TYPE_R8 then Ok(Load(LdindR8, VAL_DOUBLE))
    else if t.code == MONO_TYPE_VALUETYPE then
      if t.enumBase.Some? then MapLdind(t.enumBase.value) else Ok(Load(LdindObj, VAL_UNKNOWN))
    else Err("unknown type")
  }

  /** An enum is loaded and stored exactly as the type it is stored as. */
  lemma {:induction false} EnumMapsAsUnderlying(t: MonoType)
    ensures MapStind(t) == MapStind(Underlying(t))
    ensures MapStarg(t) == MapStarg(Underlying(t))
    ensures MapLdind(t) == MapLdind(Underlying(t))
    decreases t
  {
    if !t.byref && t.code == MONO_TYPE_VALUETYPE && t.enumBase.Some? {
      EnumMapsAsUnderlying(t.enumBase.value);
    }
  }

  /** A store and a load of the same type move the same number of bytes,
      and one is the reference operator exactly when the other is. */
  lemma {:induction false} StoreLoadAgree(t: MonoType)
    ensures MapStind(t).Ok? <==> MapLdind(t).Ok?
    ensures MapStind(t).Ok? ==> StoreWidth(MapStind(t).value) == LoadWidth(MapLdind(t).value.op)
    ensures MapStind(t).Ok? ==> (MapStind(t).value == StindRef <==> MapLdind(t).value.op == LdindRef)
    decreases t
  {
    if !t.byref && t.code == MONO_TYPE_VALUETYPE && t.enumBase.Some? {
      StoreLoadAgree(t.enumBase.value);
    }
  }

  /** An argument is stored as a value of its type would be, except that
      8- and 16-bit integers are widened to a full 32-bit slot. */
  lemma {:induction false} StargWidens(t: MonoType)
    ensures MapStarg(t) == match MapStind(t)
      case Ok(StindI1) => Ok(StindI4)
      case Ok(StindI2) => Ok(StindI4)
      case other => other
    decreases t
  {
    if !t.byref && t.code == MONO_TYPE_VALUETYPE && t.enumBase.Some? {
      StargWidens(t.enumBase.value);
    }
  }

  // ---------------------------------------------------------------------
  // Stack frame allocation
  // ---------------------------------------------------------------------

  /** `MonoValueKind`; `Unset` is the kind of the placeholder entry 0. */
  datatype VarKind = Unset | TempVar | LocalVar | ArgVar

  /** `MonoVarInfo`: a variable's value class, kind, frame offset (from
      the frame pointer) and size. */
  datatype VarInfo = VarInfo(valType: nat, kind: VarKind, offset: int, size: nat)

  /** The allocation state of `MonoFlowGraph`: the variable table, the
      bytes of locals below the frame pointer and of arguments above it,
      whether a hidden value-type return argument is passed, the cache of
      temporaries per stack slot (`intvars`, 16-bit entries, 0 meaning
      none) and the exception variable (0 meaning none). */
  datatype Frame = Frame(
    varinfo: seq<VarInfo>, localsSize: nat, argsSize: nat, hasVtarg: bool,
    intvars: seq<U16>, excvar: nat)

  /** A frame after an allocation and the index of the new variable. */
  datatype Alloc = Alloc(frame: Frame, index: nat)

  predicate IsPow2(a: nat)
  {
    a == 1 || (a > 1 && a % 2 == 0 && IsPow2(a / 2))
  }

  /** `x` rounded up to a multiple of `a`, which is what
      `(x + a - 1) & ~(a - 1)` computes for a power of two `a`. */
  function RoundUp(x: nat, a: nat): (r: nat)
    requires a > 0
    ensures r % a == 0 && x <= r < x + a
  {
    var q := NatDiv(x + a - 1, a);
    NatDivMod(x + a - 1, a);
    var r := q * a;
    ModUnique(r, a, q, 0);
    r
  }

  /** Where the first argument lies: above the saved frame pointer and
      return address, and the hidden return-value pointer if any. */
  function ArgStart(f: Frame): nat
  {
    8 + if f.hasVtarg then 4 else 0
  }

  predicate IsLocal(v: VarInfo)
  {
    v.kind == TempVar || v.kind == LocalVar
  }

  /** Entry 0 is the placeholder and every other entry a real variable. */
  predicate Placeholder(vs: seq<VarInfo>)
  {
    |vs| >= 1 && vs[0].kind == Unset && forall i :: 1 <= i < |vs| ==> vs[i].kind != Unset
  }

  /** Every local lies in the `size` bytes below the frame pointer. */
  predicate LocalsBelow(vs: seq<VarInfo>, size: nat)
  {
    forall i :: 1 <= i < |vs| && IsLocal(vs[i]) ==> -(size as int) <= vs[i].offset && vs[i].offset + vs[i].size <= 0
  }

  /** Every argument lies in the `size` bytes from `start`. */
  predicate ArgsWithin(vs: seq<VarInfo>, start: nat, size: nat)
  {
    forall i :: 1 <= i < |vs| && vs[i].kind == ArgVar ==> start <= vs[i].offset && vs[i].offset + vs[i].size <= start + size
  }

  /** Each local lies below the locals allocated before it. */
  predicate LocalsOrdered(vs: seq<VarInfo>)
  {
    forall i, j :: 1 <= i < j < |vs| && IsLocal(vs[i]) && IsLocal(vs[j]) ==> vs[j].offset + vs[j].size <= vs[i].offset
  }

  /** Each argument lies above the arguments allocated before it. */
  predicate ArgsOrdered(vs: seq<VarInfo>)
  {
    forall i, j :: 1 <= i < j < |vs| && vs[i].kind == ArgVar && vs[j].kind == ArgVar ==>
      vs[i].offset + vs[i].size <= vs[j].offset
  }

  /** The frame invariant: entry 0 is the placeholder; locals lie below
      the frame pointer inside `localsSize` bytes, each below the ones
      allocated before it; arguments lie inside the argument area, each
      above the ones allocated before it. So no two locals and no two
      arguments overlap. */
  predicate FrameValid(f: Frame)
  {
    Placeholder(f.varinfo) && LocalsBelow(f.varinfo, f.localsSize) && ArgsWithin(f.varinfo, ArgStart(f), f.argsSize)
    && LocalsOrdered(f.varinfo) && ArgsOrdered(f.varinfo)
  }

  /** The frame `mono_cfg_new` starts with: only the placeholder entry,
      nothing allocated, and four cache entries per stack slot. */
  function NewFrame(maxStack: nat, hasVtarg: bool): (f: Frame)
    ensures FrameValid(f) && |f.varinfo| == 1
    ensures |f.intvars| == VAL_DOUBLE * maxStack && forall p :: 0 <= p < |f.intvars| ==> f.intvars[p] == 0
    ensures f.excvar == 0
  {
    Frame([VarInfo(0, Unset, 0, 0)], 0, 0, hasVtarg, seq(VAL_DOUBLE * maxStack, _ => 0), 0)
  }

  /** `arch_allocate_var`: a temporary or local is placed below all the
      locals so far, at an offset aligned to `align`; an argument is
      placed after the arguments so far, and the argument area stays a
      multiple of 4 bytes. An argument alignment that is not a multiple
      of 4, or a kind the runtime does not know, is an assertion
      failure. */
  function AllocateVar(f: Frame, size: nat, align: nat, kind: VarKind, valType: nat): (r: Result<Alloc>)
    requires IsPow2(align)
    ensures r.Ok? <==> kind != Unset && (kind == ArgVar ==> align % 4 == 0)
    ensures r.Ok? ==> r.value.index == |f.varinfo| && |r.value.frame.varinfo| == |f.varinfo| + 1
    ensures r.Ok? ==> r.value.frame.varinfo[..|f.varinfo|] == f.varinfo
    ensures r.Ok? ==> var v := r.value.frame.varinfo[|f.varinfo|];
      v.kind == kind && v.valType == valType && v.size == size
    ensures r.Ok? ==> (r.value.frame.intvars == f.intvars && r.value.frame.excvar == f.excvar
      && r.value.frame.hasVtarg == f.hasVtarg)
    ensures r.Ok? && kind != ArgVar ==> var g := r.value.frame;
      g.argsSize == f.argsSize && g.localsSize % align == 0
      && f.localsSize + size <= g.localsSize < f.localsSize + size + align
      && g.varinfo[|f.varinfo|].offset == -(g.localsSize as int)
    ensures r.Ok? && kind == ArgVar ==> var g := r.value.frame;
      g.localsSize == f.localsSize && g.argsSize % 4 == 0
      && f.argsSize + size <= g.argsSize < f.argsSize + size + 4
      && g.varinfo[|f.varinfo|].offset == f.argsSize + ArgStart(f)
  {
    match kind
    case Unset => Err("unknown variable kind")
    case ArgVar =>
      if align % 4 != 0 then Err("argument alignment")
      else
        var v := VarInfo(valType, kind, f.argsSize + ArgStart(f), size);
        Ok(Alloc(f.(varinfo := f.varinfo + [v], argsSize := RoundUp(f.argsSize + size, 4)), |f.varinfo|))
    case _ =>
      var ls := RoundUp(f.localsSize + size, align);
      var v := VarInfo(valType, kind, -(ls as int), size);
      Ok(Alloc(f.(varinfo := f.varinfo + [v], localsSize := ls), |f.varinfo|))
  }

  /** Allocation keeps the frame invariant: no two locals and no two
      arguments overlap. */
  lemma AllocateKeepsFrameValid(f: Frame, size: nat, align: nat, kind: VarKind, valType: nat)
    requires FrameValid(f) && IsPow2(align)
    requires AllocateVar(f, size, align, kind, valType).Ok?
    ensures FrameValid(AllocateVar(f, size, align, kind, valType).value.frame)
  {
    var g := AllocateVar(f, size, align, kind, valType).value.frame;
    if kind == ArgVar {
      ArgKeepsFrameValid(f, g, g.varinfo[|f.varinfo|]);
    } else {
      LocalKeepsFrameValid(f, g, g.varinfo[|f.varinfo|]);
    }
  }

  /** Appending an argument placed after all the others. */
  lemma ArgKeepsFrameValid(f: Frame, g: Frame, v: VarInfo)
    requires FrameValid(f) && g == f.(varinfo := f.varinfo + [v], argsSize := g.argsSize)
    requires v.kind == ArgVar && v.offset == f.argsSize + ArgStart(f) && f.argsSize + v.size <= g.argsSize
    ensures FrameValid(g)
  {
    var vs := f.varinfo;
    var ws := g.varinfo;
    assert forall i :: 0 <= i < |vs| ==> ws[i] == vs[i];
    assert Placeholder(ws);
    assert LocalsBelow(ws, g.localsSize);
    assert ArgsWithin(ws, ArgStart(g), g.argsSize);
    assert LocalsOrdered(ws);
    forall i, j | 1 <= i < j < |ws| && ws[i].kind == ArgVar && ws[j].kind == ArgVar
      ensures ws[i].offset + ws[i].size <= ws[j].offset
    {
      if j == |vs| {
        assert vs[i].offset + vs[i].size <= ArgStart(f) + f.argsSize;
      }
    }
  }

  /** Appending a local placed below all the others. */
  lemma LocalKeepsFrameValid(f: Frame, g: Frame, v: VarInfo)
    requires FrameValid(f) && g == f.(varinfo := f.varinfo + [v], localsSize := g.localsSize)
    requires IsLocal(v) && v.offset == -(g.localsSize as int) && f.localsSize + v.size <= g.localsSize
    ensures FrameValid(g)
  {
    var vs := f.varinfo;
    var ws := g.varinfo;
    assert forall i :: 0 <= i < |vs| ==> ws[i] == vs[i];
    assert Placeholder(ws);
    assert LocalsBelow(ws, g.localsSize);
    assert ArgsWithin(ws, ArgStart(g), g.argsSize);
    assert ArgsOrdered(ws);
    forall i, j | 1 <= i < j < |ws| && IsLocal(ws[i]) && IsLocal(ws[j])
      ensures ws[j].offset + ws[j].size <= ws[i].offset
    {
      if j == |vs| {
        assert -(f.localsSize as int) <= vs[i].offset;
      }
    }
  }

  /** `mono_get_val_sizes`: size and alignment of each value class. */
  function ValSize(t: nat): (r: nat)
    requires VAL_I32 <= t <= VAL_DOUBLE
    ensures IsPow2(r) && r % 4 == 0
  {
    assert IsPow2(4) by { assert IsPow2(2) by { assert IsPow2(1); } }
    assert IsPow2(8) by { assert IsPow2(4) by { assert IsPow2(2) by { assert IsPow2(1); } } }
    if t == VAL_I64 || t == VAL_DOUBLE then 8 else 4
  }

  /** The value class whose cache entry a request for `t` uses: pointers
      share the entry of 32-bit integers. */
  function SlotClass(t: nat): nat
  {
    if t == VAL_POINTER then VAL_I32 else t
  }

  /** The `intvars` position of the temporary for stack slot `slot` and
      class `t`. */
  function IntvarPos(slot: nat, t: nat): nat
    requires VAL_I32 <= t <= VAL_DOUBLE
  {
    SlotClass(t) - 1 + slot * VAL_DOUBLE
  }

  /** Two requests share a cache entry exactly when they are for the same
      slot and their classes share an entry. */
  lemma IntvarPosInjective(s1: nat, t1: nat, s2: nat, t2: nat)
    requires VAL_I32 <= t1 <= VAL_DOUBLE && VAL_I32 <= t2 <= VAL_DOUBLE
    ensures IntvarPos(s1, t1) == IntvarPos(s2, t2) <==> s1 == s2 && SlotClass(t1) == SlotClass(t2)
  {
  }

  /** Every non-zero cache entry names a temporary of the class the
      entry stands for. */
  predicate CacheValid(f: Frame)
  {
    forall p :: 0 <= p < |f.intvars| && f.intvars[p] != 0 ==>
      f.intvars[p] < |f.varinfo| && f.varinfo[f.intvars[p]].kind == TempVar
      && f.varinfo[f.intvars[p]].valType == p % VAL_DOUBLE + 1
  }

  /** `mono_allocate_intvar`: the temporary that holds stack slot `slot`
      when it has class `t`, allocated on the first request and taken
      from the cache afterwards. The index is stored in a 16-bit entry and
      returned from there. `VAL_UNKNOWN` or an unknown class is an
      assertion failure. */
  function AllocateIntvar(f: Frame, slot: nat, t: nat): (r: Result<Alloc>)
    requires VAL_DOUBLE * slot + VAL_DOUBLE <= |f.intvars|
    ensures r.Ok? <==> VAL_I32 <= t <= VAL_DOUBLE
    ensures r.Ok? && f.intvars[IntvarPos(slot, t)] != 0 ==> r.value == Alloc(f, f.intvars[IntvarPos(slot, t)])
    ensures r.Ok? && f.intvars[IntvarPos(slot, t)] == 0 ==> var g := r.value.frame;
      |g.varinfo| == |f.varinfo| + 1 && g.varinfo[..|f.varinfo|] == f.varinfo
      && g.varinfo[|f.varinfo|].kind == TempVar && g.varinfo[|f.varinfo|].valType == SlotClass(t)
      && g.varinfo[|f.varinfo|].size == ValSize(SlotClass(t))
      && r.value.index == Wrap16(|f.varinfo|)
      && g.intvars == f.intvars[IntvarPos(slot, t) := Wrap16(|f.varinfo|)]
      && g.excvar == f.excvar
  {
    if !(VAL_I32 <= t <= VAL_DOUBLE) then Err("unknown value class")
    else
      var c := SlotClass(t);
      var pos := IntvarPos(slot, t);
      if f.intvars[pos] != 0 then Ok(Alloc(f, f.intvars[pos]))
      else
        var a := AllocateVar(f, ValSize(c), ValSize(c), TempVar, c).value;
        var vnum := Wrap16(a.index);
        Ok(Alloc(a.frame.(intvars := a.frame.intvars[pos := vnum]), vnum))
  }

  /** A pointer request is answered exactly as a 32-bit integer request
      for the same slot. */
  lemma IntvarPointerSharesI32(f: Frame, slot: nat)
    requires VAL_DOUBLE * slot + VAL_DOUBLE <= |f.intvars|
    ensures AllocateIntvar(f, slot, VAL_POINTER) == AllocateIntvar(f, slot, VAL_I32)
  {
  }

  /** While the variable table has fewer than 65536 entries, the temporary
      handed out is a valid temporary of the requested class, the frame
      invariant and the cache invariant hold afterwards, and a second
      identical request returns the same temporary without allocating. */
  lemma IntvarCached(f: Frame, slot: nat, t: nat)
    requires FrameValid(f) && CacheValid(f) && |f.varinfo| < 0x1_0000
    requires VAL_DOUBLE * slot + VAL_DOUBLE <= |f.intvars| && VAL_I32 <= t <= VAL_DOUBLE
    ensures var a := AllocateIntvar(f, slot, t).value;
      FrameValid(a.frame) && CacheValid(a.frame)
      && 1 <= a.index < |a.frame.varinfo| && a.frame.varinfo[a.index].kind == TempVar
      && a.frame.varinfo[a.index].valType == SlotClass(t)
      && |a.frame.intvars| == |f.intvars|
      && AllocateIntvar(a.frame, slot, t) == Ok(a)
  {
    var pos := IntvarPos(slot, t);
    assert pos % VAL_DOUBLE == SlotClass(t) - 1;
    if f.intvars[pos] == 0 {
      IntvarFresh(f, slot, t);
    }
  }

  /** The uncached case of `IntvarCached`: the new temporary is entered
      at its position and every other entry keeps naming its temporary. */
  lemma IntvarFresh(f: Frame, slot: nat, t: nat)
    requires FrameValid(f) && CacheValid(f) && |f.varinfo| < 0x1_0000
    requires VAL_DOUBLE * slot + VAL_DOUBLE <= |f.intvars| && VAL_I32 <= t <= VAL_DOUBLE
    requires f.intvars[IntvarPos(slot, t)] == 0
    ensures var a := AllocateIntvar(f, slot, t).value;
      FrameValid(a.frame) && CacheValid(a.frame) && a.index == |f.varinfo|
  {
    var c := SlotClass(t);
    var pos := IntvarPos(slot, t);
    assert pos % VAL_DOUBLE == c - 1;
    var b := AllocateVar(f, ValSize(c), ValSize(c), TempVar, c).value;
    AllocateKeepsFrameValid(f, ValSize(c), ValSize(c), TempVar, c);
    WrapSmall(|f.varinfo|);
    var g := b.frame.(intvars := b.frame.intvars[pos := |f.varinfo|]);
    assert AllocateIntvar(f, slot, t).value == Alloc(g, |f.varinfo|);
    assert FrameValid(g);
    forall p | 0 <= p < |g.intvars| && g.intvars[p] != 0
      ensures g.intvars[p] < |g.varinfo| && g.varinfo[g.intvars[p]].kind == TempVar
        && g.varinfo[g.intvars[p]].valType == p % VAL_DOUBLE + 1
    {
      if p != pos {
        assert g.intvars[p] == f.intvars[p];
        assert g.varinfo[f.intvars[p]] == f.varinfo[f.intvars[p]];
      }
    }
  }

  /** `mono_allocate_excvar`: the pointer-sized temporary that holds the
      current exception, allocated once. */
  function AllocateExcvar(f: Frame): (r: Alloc)
    ensures f.excvar != 0 ==> r == Alloc(f, f.excvar)
    ensures f.excvar == 0 ==> var g := r.frame;
      |g.varinfo| == |f.varinfo| + 1 && g.varinfo[..|f.varinfo|] == f.varinfo
      && g.varinfo[|f.varinfo|] == VarInfo(VAL_POINTER, TempVar, g.varinfo[|f.varinfo|].offset, 4)
      && r.index == |f.varinfo| && g.excvar == |f.varinfo| && g.intvars == f.intvars
  {
    if f.excvar != 0 then Alloc(f, f.excvar)
    else
      assert IsPow2(4) by { assert IsPow2(2) by { assert IsPow2(1); } }
      var a := AllocateVar(f, 4, 4, TempVar, VAL_POINTER).value;
      Alloc(a.frame.(excvar := a.index), a.index)
  }

  /** Asking for the exception variable twice gives the same variable and
      allocates only once. */
  lemma ExcvarOnce(f: Frame)
    requires FrameValid(f)
    ensures var a := AllocateExcvar(f);
      a.index >= 1 && AllocateExcvar(a.frame) == a
  {
  }

  // ---------------------------------------------------------------------
  // Basic blocks
  // ---------------------------------------------------------------------

  /** How an opcode affects control flow (`MonoFlowType`). */
  datatype FlowType = FlowNext | FlowBranch | FlowCondBranch | FlowCall | FlowReturn | FlowError | FlowMeta

  /** The operand an opcode carries (`MonoArgumentType`). */
  datatype ArgKind =
    | InlineNone | InlineType | InlineField | InlineMethod | InlineTok | InlineString | InlineSig
    | ShortInlineR | InlineI | InlineVar | ShortInlineVar | ShortInlineI
    | ShortInlineBrTarget | InlineBrTarget | InlineSwitch | InlineR | InlineI8

  datatype OpInfo = OpInfo(flow: FlowType, arg: ArgKind)

  /** `mono_opcodes`: the 256 one-byte opcodes followed by the 256
      second bytes of 0xFE-prefixed opcodes. */
  predicate TableValid(table: seq<OpInfo>)
  {
    |table| == 512
  }

  /** One decoded instruction: where the next one starts, the block
      starts its operand names, and whether the block ends after it. */
  datatype Instr = Instr(next: nat, targets: seq<int>, ends: bool)

  /** The position of the opcode's last byte: the second byte after a
      0xFE prefix. */
  function OpPos(code: seq<Byte>, cli: nat): nat
    requires cli < |code|
  {
    if code[cli] == CEE_PREFIX1 then cli + 1 else cli
  }

  function OpAt(table: seq<OpInfo>, code: seq<Byte>, cli: nat): OpInfo
    requires TableValid(table) && cli < |code|
  {
    if code[cli] == CEE_PREFIX1 then table[ByteAt(code, cli + 1) + 256] else table[code[cli]]
  }

  /** The targets of a `switch` whose opcode ends at `p`: its `n` offsets
      are relative to `st`, the end of the table. */
  function SwitchTargets(code: seq<Byte>, p: nat, st: int, n: int): (r: seq<int>)
    ensures |r| == if n > 0 then n else 0
  {
    seq(if n > 0 then n else 0, k => Signed32(Read32At(code, p + 5 + 4 * k)) + st)
  }

  /** One step of `mono_analyze_flow` at instruction `cli`. Short and long
      branches name their target, relative to the end of the instruction,
      and end the block; `switch` names the end of its table and every
      table entry and does not end the block; returns and throws end the
      block. Operands past the end of the code read as zero. */
  function Decode(table: seq<OpInfo>, code: seq<Byte>, cli: nat): (d: Instr)
    requires TableValid(table) && cli < |code|
    ensures d.next > cli
    ensures d.ends <==> OpAt(table, code, cli).flow in {FlowReturn, FlowError}
                        || OpAt(table, code, cli).arg in {ShortInlineBrTarget, InlineBrTarget}
  {
    var p := OpPos(code, cli);
    var op := OpAt(table, code, cli);
    var stops := op.flow in {FlowReturn, FlowError};
    match op.arg
    case InlineNone => Instr(p + 1, [], stops)
    case InlineVar => Instr(p + 3, [], stops)
    case ShortInlineVar => Instr(p + 2, [], stops)
    case ShortInlineI => Instr(p + 2, [], stops)
    case ShortInlineBrTarget => Instr(p + 2, [cli + 2 + Signed8(ByteAt(code, p + 1))], true)
    case InlineBrTarget => Instr(p + 5, [cli + 5 + Signed32(Read32At(code, p + 1))], true)
    case InlineSwitch =>
      var n := Signed32(Read32At(code, p + 1));
      var st := cli + 5 + 4 * n;
      Instr(p + 5 + 4 * (if n > 0 then n else 0), [st] + SwitchTargets(code, p, st, n), stops)
    case InlineR => Instr(p + 9, [], stops)
    case InlineI8 => Instr(p + 9, [], stops)
    case _ => Instr(p + 5, [], stops)
  }

  function Elems(s: seq<int>): set<int>
  {
    set t | t in s
  }

  /** The block starts the scan adds from instruction `ip` on, when the
      block ended before `ip` iff `blockEnd`. */
  function Walk(table: seq<OpInfo>, code: seq<Byte>, ip: nat, blockEnd: bool): set<int>
    requires TableValid(table)
    decreases |code| - ip
  {
    if ip >= |code| then {}
    else
      var d := Decode(table, code, ip);
      (if blockEnd then {ip} else {}) + Elems(d.targets) + Walk(table, code, d.next, d.ends)
  }

  function ClauseStarts(clauses: seq<Interp.Clause>): set<int>
  {
    (set c | c in clauses :: c.tryOffset as int) + (set c | c in clauses :: c.handlerOffset as int)
  }

  /** Every block start of a method: its first instruction, the start of
      every protected region and handler, and whatever the scan adds. */
  function FlowStarts(table: seq<OpInfo>, code: seq<Byte>, clauses: seq<Interp.Clause>): set<int>
    requires TableValid(table)
  {
    {0} + ClauseStarts(clauses) + Walk(table, code, 0, false)
  }

  /** The instruction boundaries reached by decoding from `ip` on. */
  function Boundaries(table: seq<OpInfo>, code: seq<Byte>, ip: nat): (r: set<nat>)
    requires TableValid(table)
    ensures forall b :: b in r ==> ip <= b < |code|
    ensures ip < |code| <==> ip in r
    decreases |code| - ip
  {
    if ip >= |code| then {} else {ip} + Boundaries(table, code, Decode(table, code, ip).next)
  }

  /** Every target of every instruction on the way is a block start, and
      so is the instruction after one that ends a block. */
  lemma {:induction false} WalkComplete(table: seq<OpInfo>, code: seq<Byte>, ip: nat, blockEnd: bool, b: nat)
    requires TableValid(table) && b in Boundaries(table, code, ip)
    ensures Elems(Decode(table, code, b).targets) <= Walk(table, code, ip, blockEnd)
    ensures Decode(table, code, b).ends && Decode(table, code, b).next < |code| ==>
      Decode(table, code, b).next in Walk(table, code, ip, blockEnd)
    decreases |code| - ip
  {
    var d := Decode(table, code, ip);
    if b != ip {
      WalkComplete(table, code, d.next, d.ends, b);
    } else if d.ends && d.next < |code| {
      assert d.next in Walk(table, code, d.next, d.ends);
    }
  }

  /** The instruction at `b` makes `s` a block start: `s` is one of its
      targets, or it ends a block and `s` follows it. */
  predicate Names(table: seq<OpInfo>, code: seq<Byte>, b: nat, s: int)
    requires TableValid(table) && b < |code|
  {
    var d := Decode(table, code, b);
    s in d.targets || (d.ends && s == d.next)
  }

  /** Nothing else is a block start: each one the scan adds is the
      instruction after a block end or a target of an instruction on the
      way. */
  lemma {:induction false} WalkSound(table: seq<OpInfo>, code: seq<Byte>, ip: nat, blockEnd: bool, s: int)
    requires TableValid(table) && s in Walk(table, code, ip, blockEnd)
    ensures (blockEnd && s == ip) || exists b :: b in Boundaries(table, code, ip) && Names(table, code, b, s)
    decreases |code| - ip
  {
    var d := Decode(table, code, ip);
    if !(blockEnd && s == ip) && s !in d.targets {
      assert s in Walk(table, code, d.next, d.ends);
      WalkSound(table, code, d.next, d.ends, s);
      if d.ends && s == d.next {
        assert ip in Boundaries(table, code, ip);
      } else {
        var b :| b in Boundaries(table, code, d.next) && Names(table, code, b, s);
        assert b in Boundaries(table, code, ip);
      }
    } else if s in d.targets {
      assert ip in Boundaries(table, code, ip);
    }
  }

  /** The interpreter's short branch lands on a block start when taken
      and on the next instruction when not. */
  lemma ShortBranchAgrees(table: seq<OpInfo>, code: seq<Byte>, ip: nat)
    requires TableValid(table) && ip + 2 <= |code| && code[ip] != CEE_PREFIX1
    requires table[code[ip]].arg == ShortInlineBrTarget
    ensures var d := Decode(table, code, ip);
      Interp.ShortBranchNext(ip, code[ip + 1], true) in d.targets
      && Interp.ShortBranchNext(ip, code[ip + 1], false) == d.next && d.ends
  {
  }

  /** The decoding of an unprefixed `switch` with a table of `n` entries
      that lies inside the code. */
  lemma DecodeSwitch(table: seq<OpInfo>, code: seq<Byte>, ip: nat)
    requires TableValid(table) && ip + 5 <= |code| && code[ip] == CEE_SWITCH
    requires table[CEE_SWITCH].arg == InlineSwitch
    requires Read32(code, ip + 1) < 0x8000_0000
    ensures var n: int := Read32(code, ip + 1); var st := ip + 5 + 4 * n;
      Decode(table, code, ip).targets == [st] + SwitchTargets(code, ip, st, n)
      && Decode(table, code, ip).next == st
  {
    assert Read32At(code, ip + 1) == Read32(code, ip + 1);
  }

  /** Every place the interpreter's `switch` can go, for every index, is a
      block start, and the scan resumes after the table. */
  lemma SwitchAgrees(table: seq<OpInfo>, code: seq<Byte>, ip: nat, index: I32)
    requires TableValid(table) && ip + 5 <= |code| && code[ip] == CEE_SWITCH
    requires table[CEE_SWITCH].arg == InlineSwitch
    requires Read32(code, ip + 1) < 0x8000_0000 && ip + 5 + 4 * Read32(code, ip + 1) <= |code|
    ensures Interp.SwitchNext(code, ip, index) in Decode(table, code, ip).targets
    ensures Decode(table, code, ip).next == ip + 5 + 4 * Read32(code, ip + 1)
  {
    DecodeSwitch(table, code, ip);
    SwitchTargetsCover(code, ip, index);
  }

  /** The interpreter's destination is among the end of the table and
      the table's targets. */
  lemma SwitchTargetsCover(code: seq<Byte>, ip: nat, index: I32)
    requires ip + 5 <= |code| && ip + 5 + 4 * Read32(code, ip + 1) <= |code|
    ensures var n: int := Read32(code, ip + 1); var st := ip + 5 + 4 * n;
      Interp.SwitchNext(code, ip, index) in [st] + SwitchTargets(code, ip, st, n)
  {
    var n: int := Read32(code, ip + 1);
    var st := ip + 5 + 4 * n;
    var ts := [st] + SwitchTargets(code, ip, st, n);
    var k := Wrap32(index);
    if k < n {
      SwitchEntry(code, ip, st, n, k);
      assert ts[k + 1] == Interp.SwitchNext(code, ip, index);
    } else {
      assert ts[0] == Interp.SwitchNext(code, ip, index);
    }
  }

  lemma SwitchEntry(code: seq<Byte>, ip: nat, st: int, n: int, k: nat)
    requires k < n && ip + 5 + 4 * n <= |code|
    ensures SwitchTargets(code, ip, st, n)[k] == st + Signed32(Read32(code, ip + 5 + 4 * k))
  {
    assert Read32At(code, ip + 5 + 4 * k) == Read32(code, ip + 5 + 4 * k);
  }

  /** Recording a block start in the per-byte table; a start outside the
      code is not recorded. */
  function Mark(isStart: seq<bool>, t: int): (r: seq<bool>)
    ensures |r| == |isStart|
    ensures forall a :: 0 <= a < |r| ==> (r[a] <==> isStart[a] || a == t)
  {
    if 0 <= t < |isStart| then isStart[t := true] else isStart
  }

  /** Recording every address of `ts` in the per-byte table. */
  method MarkAll(isStart: seq<bool>, ts: seq<int>) returns (r: seq<bool>)
    ensures |r| == |isStart|
    ensures forall a :: 0 <= a < |r| ==> (r[a] <==> isStart[a] || a in Elems(ts))
  {
    r := isStart;
    var k := 0;
    while k < |ts|
      invariant 0 <= k <= |ts| && |r| == |isStart|
      invariant forall a :: 0 <= a < |r| ==> (r[a] <==> isStart[a] || a in Elems(ts[..k]))
    {
      r := Mark(r, ts[k]);
      assert ts[..k + 1] == ts[..k] + [ts[k]];
      k := k + 1;
    }
    assert ts[..k] == ts;
  }

  /** The start of every protected region and every handler. */
  method MarkClauses(isStart: seq<bool>, clauses: seq<Interp.Clause>) returns (r: seq<bool>)
    ensures |r| == |isStart|
    ensures forall a :: 0 <= a < |r| ==> (r[a] <==> isStart[a] || a in ClauseStarts(clauses))
  {
    r := isStart;
    var i := 0;
    while i < |clauses|
      invariant 0 <= i <= |clauses| && |r| == |isStart|
      invariant forall a :: 0 <= a < |r| ==> (r[a] <==> isStart[a] || a in ClauseStarts(clauses[..i]))
    {
      var c := clauses[i];
      r := Mark(Mark(r, c.tryOffset), c.handlerOffset);
      assert clauses[..i + 1] == clauses[..i] + [c];
      assert ClauseStarts(clauses[..i + 1]) == ClauseStarts(clauses[..i]) + {c.tryOffset as int, c.handlerOffset as int};
      i := i + 1;
    }
    assert clauses[..i] == clauses;
  }

  /** The first half of `mono_analyze_flow`: the byte table of block
      starts. */
  method MarkStarts(table: seq<OpInfo>, code: seq<Byte>, clauses: seq<Interp.Clause>) returns (isStart: seq<bool>)
    requires TableValid(table) && |code| >= 1
    ensures |isStart| == |code|
    ensures forall a :: 0 <= a < |code| ==> (isStart[a] <==> a in FlowStarts(table, code, clauses))
  {
    isStart := seq(|code|, a => a == 0);
    isStart := MarkClauses(isStart, clauses);
    ghost var marked: set<int> := {0} + ClauseStarts(clauses);
    var ip := 0;
    var blockEnd := false;
    while ip < |code|
      invariant |isStart| == |code|
      invariant marked + Walk(table, code, ip, blockEnd) == FlowStarts(table, code, clauses)
      invariant forall a :: 0 <= a < |code| ==> (isStart[a] <==> a in marked)
      decreases |code| - ip
    {
      var d := Decode(table, code, ip);
      if blockEnd {
        isStart := Mark(isStart, ip);
        marked := marked + {ip};
      }
      isStart := MarkAll(isStart, d.targets);
      marked := marked + Elems(d.targets);
      ip, blockEnd := d.next, d.ends;
    }
  }

  /** A basic block: its first byte and its length (`MonoBBlock`). */
  datatype BBlock = BBlock(cliAddr: nat, length: nat)

  /** The blocks cover `[0, n)` in address order, without gaps, overlaps
      or empty blocks. */
  predicate Partition(blocks: seq<BBlock>, n: nat)
  {
    |blocks| >= 1 && blocks[0].cliAddr == 0
    && (forall k :: 0 <= k < |blocks| ==> blocks[k].length > 0)
    && (forall k :: 0 <= k < |blocks| - 1 ==> blocks[k].cliAddr + blocks[k].length == blocks[k + 1].cliAddr)
    && blocks[|blocks| - 1].cliAddr + blocks[|blocks| - 1].length == n
  }

  /** The block starts of the byte table in address order, each
      numbered by its position. */
  method CollectStarts(isStart: seq<bool>) returns (addrs: seq<nat>, blockId: seq<nat>)
    requires |isStart| >= 1 && isStart[0]
    ensures |addrs| >= 1 && addrs[0] == 0 && |blockId| == |isStart|
    ensures forall k :: 0 <= k < |addrs| - 1 ==> addrs[k] < addrs[k + 1]
    ensures forall k :: 0 <= k < |addrs| ==> addrs[k] < |isStart| && isStart[addrs[k]] && blockId[addrs[k]] == k
    ensures forall k, a :: 0 <= k < |addrs| - 1 && addrs[k] < a < addrs[k + 1] ==> !isStart[a]
    ensures forall a :: addrs[|addrs| - 1] < a < |isStart| ==> !isStart[a]
  {
    var n := |isStart|;
    addrs := [];
    blockId := seq(n, _ => 0);
    var i := 0;
    while i < n
      invariant 0 <= i <= n && |blockId| == n
      invariant i == 0 <==> addrs == []
      invariant addrs != [] ==> addrs[0] == 0
      invariant forall k :: 0 <= k < |addrs| - 1 ==> addrs[k] < addrs[k + 1]
      invariant forall k :: 0 <= k < |addrs| ==> addrs[k] < i && isStart[addrs[k]] && blockId[addrs[k]] == k
      invariant forall k, a :: 0 <= k < |addrs| - 1 && addrs[k] < a < addrs[k + 1] ==> !isStart[a]
      invariant addrs != [] ==> forall a :: addrs[|addrs| - 1] < a < i ==> !isStart[a]
    {
      if isStart[i] {
        blockId := blockId[i := |addrs|];
        addrs := addrs + [i];
      }
      i := i + 1;
    }
  }

  /** The second half of `mono_analyze_flow`: one block per start in
      address order, each running to the next start or to the end of the
      code, numbered in that order in `blockId`. */
  method BuildBlocks(isStart: seq<bool>) returns (blocks: seq<BBlock>, blockId: seq<nat>)
    requires |isStart| >= 1 && isStart[0]
    ensures Partition(blocks, |isStart|)
    ensures forall k :: 0 <= k < |blocks| ==> blocks[k].cliAddr < |isStart| && isStart[blocks[k].cliAddr]
    ensures forall k, a :: 0 <= k < |blocks| && blocks[k].cliAddr < a < blocks[k].cliAddr + blocks[k].length ==>
      a < |isStart| && !isStart[a]
    ensures |blockId| == |isStart|
    ensures forall k :: 0 <= k < |blocks| ==> blockId[blocks[k].cliAddr] == k
  {
    var n := |isStart|;
    var addrs;
    addrs, blockId := CollectStarts(isStart);
    blocks := seq(|addrs|, k requires 0 <= k < |addrs| =>
      BBlock(addrs[k], (if k + 1 < |addrs| then addrs[k + 1] else n) - addrs[k]));
  }

  /** Block addresses only grow along a partition. */
  lemma {:induction false} PartitionOrdered(blocks: seq<BBlock>, n: nat, j: nat, k: nat)
    requires Partition(blocks, n) && j < k < |blocks|
    ensures blocks[j].cliAddr + blocks[j].length <= blocks[k].cliAddr
    decreases k - j
  {
    if j + 1 < k {
      PartitionOrdered(blocks, n, j + 1, k);
    }
  }

  /** Every address of the code lies in exactly one block. */
  lemma {:induction false} PartitionCovers(blocks: seq<BBlock>, n: nat, a: nat)
    requires Partition(blocks, n) && a < n
    ensures exists k :: 0 <= k < |blocks| && blocks[k].cliAddr <= a < blocks[k].cliAddr + blocks[k].length
    ensures forall j, k ::
      (0 <= j < |blocks| && 0 <= k < |blocks|
       && blocks[j].cliAddr <= a < blocks[j].cliAddr + blocks[j].length
       && blocks[k].cliAddr <= a < blocks[k].cliAddr + blocks[k].length) ==> j == k
  {
    var k := 0;
    while k + 1 < |blocks| && blocks[k + 1].cliAddr <= a
      invariant 0 <= k < |blocks| && blocks[k].cliAddr <= a
    {
      k := k + 1;
    }
    forall j, m | 0 <= j < |blocks| && 0 <= m < |blocks|
      && blocks[j].cliAddr <= a < blocks[j].cliAddr + blocks[j].length
      && blocks[m].cliAddr <= a < blocks[m].cliAddr + blocks[m].length
      ensures j == m
    {
      if j < m {
        PartitionOrdered(blocks, n, j, m);
      } else if m < j {
        PartitionOrdered(blocks, n, m, j);
      }
    }
  }

  /** `mono_analyze_flow`: the blocks of a method body start exactly at
      its block starts and partition the code. */
  method AnalyzeFlow(table: seq<OpInfo>, code: seq<Byte>, clauses: seq<Interp.Clause>)
    returns (blocks: seq<BBlock>, blockId: seq<nat>)
    requires TableValid(table) && |code| >= 1
    ensures Partition(blocks, |code|) && |blockId| == |code|
    ensures forall a :: 0 <= a < |code| ==>
      ((exists k :: 0 <= k < |blocks| && blocks[k].cliAddr == a) <==> a in FlowStarts(table, code, clauses))
    ensures forall k :: 0 <= k < |blocks| ==> blocks[k].cliAddr < |blockId| && blockId[blocks[k].cliAddr] == k
  {
    var isStart := MarkStarts(table, code, clauses);
    blocks, blockId := BuildBlocks(isStart);
    forall a | 0 <= a < |code| && a in FlowStarts(table, code, clauses)
      ensures exists k :: 0 <= k < |blocks| && blocks[k].cliAddr == a
    {
      PartitionCovers(blocks, |code|, a);
      var k :| 0 <= k < |blocks| && blocks[k].cliAddr <= a < blocks[k].cliAddr + blocks[k].length;
      assert blocks[k].cliAddr == a;
    }
  }

  // ---------------------------------------------------------------------
  // Inlining
  // ---------------------------------------------------------------------

  /** Method implementation flags and method flags (Partition II
      sections 23.1.11 and 23.1.10 of ECMA-335). The code-type mask tests
      for native, OPTIL or runtime-provided code. */
  const METHOD_IMPL_ATTRIBUTE_RUNTIME := 0x0003
  const METHOD_IMPL_ATTRIBUTE_INTERNAL_CALL := 0x1000
  const METHOD_ATTRIBUTE_FINAL := 0x0020
  const METHOD_ATTRIBUTE_VIRTUAL := 0x0040
  const METHOD_ATTRIBUTE_PINVOKE_IMPL := 0x2000

  datatype Signature = Signature(hasThis: bool, paramCount: nat, ret: MonoType)

  /** The part of a method header the test reads. */
  datatype Body = Body(numClauses: nat, code: seq<Byte>)

  /** A method as the test sees it; `id` stands for its identity and
      `header` is absent for methods without IL. */
  datatype MethodInfo = MethodInfo(
    id: nat, flags: nat, iflags: nat, marshalByRef: bool, sig: Signature, header: Option<Body>)

  /** Methods whose body is not ordinary IL of this class: runtime or
      native code, internal calls, platform invokes and methods of
      marshal-by-reference classes. */
  predicate NotInlinable(m: MethodInfo)
  {
    m.iflags % 4 != 0 || Bit(m.iflags, 12) == 1 || Bit(m.flags, 13) == 1 || m.marshalByRef
  }

  /** The length of the argument or constant push at the head of the
      code, 0 for any other opcode. */
  function PushLength(op: Byte): nat
  {
    if CEE_LDARG_0 <= op <= CEE_LDARG_3 || op == CEE_LDNULL || CEE_LDC_I4_M1 <= op <= CEE_LDC_I4_8 then 1
    else if op == CEE_LDARG_S || op == CEE_LDC_I4_S then 2
    else if op == CEE_LDC_I4 || op == CEE_LDC_R4 then 5
    else if op == CEE_LDC_I8 || op == CEE_LDC_R8 then 9
    else 0
  }

  /** The argument an `ldarg` at the head of the code loads. */
  function LoadedArg(s: seq<Byte>): Option<Byte>
    requires |s| > 0
  {
    if CEE_LDARG_0 <= s[0] <= CEE_LDARG_3 then Some(s[0] - CEE_LDARG_0)
    else if s[0] == CEE_LDARG_S then Some(ByteAt(s, 1))
    else None
  }

  /** Where the scan of the pushes stopped, relative to where it started,
      and whether it stopped at `callvirt`. */
  datatype ScanStop = ScanStop(at: nat, isVirtual: bool)

  /** The first loop of `check_inlining`: step over argument loads and
      constants until a `call` or `callvirt`. Loading an argument already
      marked in `used`, any other opcode, and running off the end of the
      code reject. */
  function ScanArgs(s: seq<Byte>, used: seq<bool>): (r: Option<ScanStop>)
    requires |used| == 256
    ensures r.Some? ==> r.value.at < |s| && s[r.value.at] in {CEE_CALL, CEE_CALLVIRT}
    ensures r.Some? ==> (r.value.isVirtual <==> s[r.value.at] == CEE_CALLVIRT)
    decreases |s|
  {
    if |s| == 0 then None
    else if s[0] == CEE_CALL then Some(ScanStop(0, false))
    else if s[0] == CEE_CALLVIRT then Some(ScanStop(0, true))
    else
      var len := PushLength(s[0]);
      var arg := LoadedArg(s);
      if len == 0 || (arg.Some? && used[arg.value]) || len >= |s| then None
      else
        var used' := if arg.Some? then used[arg.value := true] else used;
        match ScanArgs(s[len..], used')
        case None => None
        case Some(st) => Some(ScanStop(st.at + len, st.isVirtual))
  }

  /** The call an inlinable body makes: its token and whether it was a
      `callvirt`. */
  datatype CallSite = CallSite(token: U32, isVirtual: bool)

  /** The tail `ret`, or `stloc.0; br.s 0; ldloc.0; ret`, that must follow
      the call. */
  function Tail(long: bool): seq<Byte>
  {
    if long then [CEE_STLOC_0, CEE_BR_S, 0, CEE_LDLOC_0, CEE_RET] else [CEE_RET]
  }

  /** The shape test of `check_inlining`: pushes, then a `call` (a
      `callvirt` is not accepted), then one of the two tails. */
  function InlineSite(code: seq<Byte>, used: seq<bool>): (r: Option<CallSite>)
    requires |used| == 256
    ensures r.Some? ==> !r.value.isVirtual
  {
    match ScanArgs(code, used)
    case None => None
    case Some(st) =>
      if code[st.at] != CEE_CALL then None
      else
        var q := st.at + 5;
        if q >= |code| then None
        else if !(code[q] == CEE_RET || (q + 4 < |code| && code[q..q + 5] == Tail(true))) then None
        else Some(CallSite(Read32At(code, st.at + 1), st.isVirtual))
  }

  /** The decision of `check_inlining` and the value it leaves in
      `*virtual`. */
  datatype Inlined = Inlined(callee: MethodInfo, isVirtual: bool)

  /** No argument has been loaded yet. */
  function Unused(): (r: seq<bool>)
    ensures |r| == 256 && forall a :: 0 <= a < 256 ==> !r[a]
  {
    seq(256, _ => false)
  }

  /** `check_inlining`: whether a call to `m` with `n` values on the
      stack may be replaced by the single call `m` makes. `resolve` stands
      for `mono_get_method` on the token of that call. */
  function CheckInlining(m: MethodInfo, resolve: U32 -> MethodInfo, n: nat): (r: Option<Inlined>)
    ensures NotInlinable(m) || m.header.None? ==> r.None?
    ensures m.header.Some? && m.header.value.numClauses > 0 ==> r.None?
    ensures r.Some? ==> var cm := r.value.callee;
      cm.id != m.id && cm.sig.hasThis == m.sig.hasThis && cm.sig.ret == m.sig.ret && cm.sig.paramCount <= n
    ensures r.Some? ==> !r.value.isVirtual
  {
    CheckInliningFrom(m, resolve, n, Unused())
  }

  /** `check_inlining` with the argument flags starting as `used`. */
  function CheckInliningFrom(m: MethodInfo, resolve: U32 -> MethodInfo, n: nat, used: seq<bool>): (r: Option<Inlined>)
    requires |used| == 256
    ensures NotInlinable(m) || m.header.None? ==> r.None?
    ensures r.Some? ==> (m.header.Some? && m.header.value.numClauses == 0
      && InlineSite(m.header.value.code, used).Some?
      && r.value.callee == resolve(InlineSite(m.header.value.code, used).value.token))
    ensures r.Some? ==> !r.value.isVirtual
  {
    if NotInlinable(m) || m.header.None? || m.header.value.numClauses > 0 then None
    else
      match InlineSite(m.header.value.code, used)
      case None => None
      case Some(site) =>
        var cm := resolve(site.token);
        if cm.id == m.id || m.sig.hasThis != cm.sig.hasThis || m.sig.ret != cm.sig.ret then None
        else if cm.sig.paramCount > n then None
        else
          var v := if Bit(cm.flags, 5) == 1 || Bit(cm.flags, 6) == 0 then false else site.isVirtual;
          Some(Inlined(cm, v))
  }

  /** A push that the wrapper builder emits and the test accepts: an
      argument load with a one-byte number, or a 32-bit constant. */
  predicate Pushable(i: Marshal.Instr)
  {
    (i.Ldarg? && i.n < 256) || i.Ldc?
  }

  predicate AllPushable(pushes: seq<Marshal.Instr>)
  {
    forall i :: 0 <= i < |pushes| ==> Pushable(pushes[i])
  }

  /** No argument is loaded twice. */
  predicate DistinctArgs(pushes: seq<Marshal.Instr>)
  {
    forall i, j :: 0 <= i < j < |pushes| && pushes[i].Ldarg? && pushes[j].Ldarg? ==> pushes[i].n != pushes[j].n
  }

  /** No argument is loaded twice, and none is already marked in `used`. */
  predicate ArgsFresh(pushes: seq<Marshal.Instr>, used: seq<bool>)
    requires |used| == 256 && AllPushable(pushes)
  {
    DistinctArgs(pushes) && forall i :: 0 <= i < |pushes| && pushes[i].Ldarg? ==> !used[pushes[i].n]
  }

  /** The scan steps over exactly the encoding of one push. */
  lemma PushStep(i: Marshal.Instr, rest: seq<Byte>)
    requires Pushable(i) && |rest| > 0
    ensures var s := Marshal.Encode(i) + rest;
      PushLength(s[0]) == |Marshal.Encode(i)| && s[0] != CEE_CALL && s[0] != CEE_CALLVIRT
      && LoadedArg(s) == (if i.Ldarg? then Some(i.n) else None)
  {
  }

  function Shift(r: Option<ScanStop>, k: nat): Option<ScanStop>
  {
    match r
    case None => None
    case Some(st) => Some(ScanStop(st.at + k, st.isVirtual))
  }

  /** One push: the scan rejects a repeated argument and otherwise goes
      on after the push with the argument marked. */
  lemma ScanOne(i: Marshal.Instr, rest: seq<Byte>, used: seq<bool>)
    requires Pushable(i) && |rest| > 0 && |used| == 256
    ensures ScanArgs(Marshal.Encode(i) + rest, used) ==
      if i.Ldarg? && used[i.n] then None
      else Shift(ScanArgs(rest, if i.Ldarg? then used[i.n := true] else used), |Marshal.Encode(i)|)
  {
    var s := Marshal.Encode(i) + rest;
    PushStep(i, rest);
    assert s[|Marshal.Encode(i)|..] == rest;
  }

  lemma FreshStep(pushes: seq<Marshal.Instr>, used: seq<bool>)
    requires |used| == 256 && AllPushable(pushes) && |pushes| > 0
    ensures var p := pushes[0];
      ArgsFresh(pushes, used) <==>
        (p.Ldarg? ==> !used[p.n]) && ArgsFresh(pushes[1..], if p.Ldarg? then used[p.n := true] else used)
  {
    var p := pushes[0];
    var used' := if p.Ldarg? then used[p.n := true] else used;
    if ArgsFresh(pushes, used) {
      forall i | 0 <= i < |pushes[1..]| && pushes[1..][i].Ldarg?
        ensures !used'[pushes[1..][i].n]
      {
        assert pushes[1..][i] == pushes[i + 1];
      }
    }
    if (p.Ldarg? ==> !used[p.n]) && ArgsFresh(pushes[1..], used') {
      forall i, j | 0 <= i < j < |pushes| && pushes[i].Ldarg? && pushes[j].Ldarg?
        ensures pushes[i].n != pushes[j].n
      {
        assert pushes[j] == pushes[1..][j - 1];
        if i > 0 {
          assert pushes[i] == pushes[1..][i - 1];
        }
      }
      forall i | 0 <= i < |pushes| && pushes[i].Ldarg?
        ensures !used[pushes[i].n]
      {
        if i > 0 {
          assert pushes[i] == pushes[1..][i - 1];
        }
      }
    }
  }

  /** Scanning the encoded pushes of a wrapper body stops at the `call`
      after them exactly when no argument is loaded twice or was loaded
      before. */
  lemma {:induction false} ScanPushes(pushes: seq<Marshal.Instr>, rest: seq<Byte>, used: seq<bool>)
    requires |used| == 256 && AllPushable(pushes)
    requires |rest| > 0 && rest[0] == CEE_CALL
    ensures ScanArgs(Marshal.EncodeAll(pushes) + rest, used) ==
      if ArgsFresh(pushes, used) then Some(ScanStop(|Marshal.EncodeAll(pushes)|, false)) else None
    decreases |pushes|
  {
    if |pushes| == 0 {
      assert Marshal.EncodeAll(pushes) + rest == rest;
    } else {
      var p := pushes[0];
      if !(p.Ldarg? && used[p.n]) {
        ScanPushes(pushes[1..], rest, if p.Ldarg? then used[p.n := true] else used);
      }
      ScanPushesStep(pushes, rest, used);
    }
  }

  /** The inductive step of `ScanPushes`, given its claim for the pushes
      after the first. */
  lemma ScanPushesStep(pushes: seq<Marshal.Instr>, rest: seq<Byte>, used: seq<bool>)
    requires |used| == 256 && AllPushable(pushes) && |pushes| > 0
    requires |rest| > 0 && rest[0] == CEE_CALL
    requires var p := pushes[0]; var used' := if p.Ldarg? then used[p.n := true] else used;
      !(p.Ldarg? && used[p.n]) ==>
        ScanArgs(Marshal.EncodeAll(pushes[1..]) + rest, used') ==
          if ArgsFresh(pushes[1..], used') then Some(ScanStop(|Marshal.EncodeAll(pushes[1..])|, false)) else None
    ensures ScanArgs(Marshal.EncodeAll(pushes) + rest, used) ==
      if ArgsFresh(pushes, used) then Some(ScanStop(|Marshal.EncodeAll(pushes)|, false)) else None
  {
    var p := pushes[0];
    var e := Marshal.Encode(p);
    var more := Marshal.EncodeAll(pushes[1..]);
    var tail := more + rest;
    assert Marshal.EncodeAll(pushes) + rest == e + tail;
    var used' := if p.Ldarg? then used[p.n := true] else used;
    ScanOne(p, tail, used);
    FreshStep(pushes, used);
  }

  /** A wrapper body made of argument loads and constants, a `call` and
      either tail is accepted, with the call's token, exactly when it
      loads no argument twice. */
  lemma WrapperInlinable(pushes: seq<Marshal.Instr>, token: U32, long: bool)
    requires AllPushable(pushes)
    ensures InlineSite(Marshal.EncodeAll(pushes) + [CEE_CALL] + LE32(token) + Tail(long), Unused()) ==
      if DistinctArgs(pushes) then Some(CallSite(token, false)) else None
  {
    var code := Marshal.EncodeAll(pushes) + [CEE_CALL] + LE32(token) + Tail(long);
    var rest := [CEE_CALL] + LE32(token) + Tail(long);
    assert code == Marshal.EncodeAll(pushes) + rest;
    ScanPushes(pushes, rest, Unused());
    if DistinctArgs(pushes) {
      WrapperAccepted(pushes, token, long, code);
    }
  }

  lemma WrapperAccepted(pushes: seq<Marshal.Instr>, token: U32, long: bool, code: seq<Byte>)
    requires AllPushable(pushes) && DistinctArgs(pushes)
    requires code == Marshal.EncodeAll(pushes) + [CEE_CALL] + LE32(token) + Tail(long)
    requires ScanArgs(code, Unused()) == Some(ScanStop(|Marshal.EncodeAll(pushes)|, false))
    ensures InlineSite(code, Unused()) == Some(CallSite(token, false))
  {
    var at := |Marshal.EncodeAll(pushes)|;
    assert code[at + 1..at + 5] == LE32(token);
    TokenAt(code, at + 1, token);
    assert code[at + 5..] == Tail(long);
    SiteAt(code, Unused(), at, long);
  }

  /** A scan that stops at a `call` followed by a tail accepts that call. */
  lemma SiteAt(code: seq<Byte>, used: seq<bool>, at: nat, long: bool)
    requires |used| == 256 && ScanArgs(code, used) == Some(ScanStop(at, false))
    requires code[at] == CEE_CALL && at + 5 <= |code| && code[at + 5..] == Tail(long)
    ensures InlineSite(code, used) == Some(CallSite(Read32At(code, at + 1), false))
  {
    var q := at + 5;
    if long {
      assert code[q..q + 5] == Tail(true);
    } else {
      assert code[q] == CEE_RET;
    }
  }

  /** Reading back the little-endian word written at `p`. */
  lemma TokenAt(code: seq<Byte>, p: nat, token: U32)
    requires p + 4 <= |code| && code[p..p + 4] == LE32(token)
    ensures Read32At(code, p) == token
  {
    Read32OfLE32(token);
    assert forall i :: 0 <= i < 4 ==> ByteAt(code, p + i) == LE32(token)[i];
  }

  /** Flags already set can only make the scan reject, never change
      what it accepts. */
  lemma {:induction false} ScanMonotone(s: seq<Byte>, more: seq<bool>, fewer: seq<bool>)
    requires |more| == 256 && |fewer| == 256
    requires forall a :: 0 <= a < 256 && fewer[a] ==> more[a]
    ensures ScanArgs(s, more).Some? ==> ScanArgs(s, fewer) == ScanArgs(s, more)
    decreases |s|
  {
    if |s| > 0 && s[0] != CEE_CALL && s[0] != CEE_CALLVIRT {
      var len := PushLength(s[0]);
      var arg := LoadedArg(s);
      if len > 0 && len < |s| && !(arg.Some? && more[arg.value]) {
        var more' := if arg.Some? then more[arg.value := true] else more;
        var fewer' := if arg.Some? then fewer[arg.value := true] else fewer;
        ScanMonotone(s[len..], more', fewer');
      }
    }
  }

  /** `check_inlining` as written: `arg_used` is a local array of which
      only the first four entries are cleared, so the flags of arguments
      4 to 255 start as whatever `stale` holds. Whatever it accepts, the
      corrected test accepts with the same answer. */
  function CheckInliningAsWritten(m: MethodInfo, resolve: U32 -> MethodInfo, n: nat, stale: seq<bool>)
    : (r: Option<Inlined>)
    requires |stale| == 256
    ensures r.Some? ==> CheckInlining(m, resolve, n) == r
  {
    var used := [false, false, false, false] + stale[4..];
    if NotInlinable(m) || m.header.None? || m.header.value.numClauses > 0 then None
    else
      ScanMonotone(m.header.value.code, used, Unused());
      CheckInliningFrom(m, resolve, n, used)
  }

  /** A body that loads argument 5 once is refused when the stale flag
      of argument 5 happens to be set, and accepted by the corrected
      test. */
  lemma StaleFlagRefuses()
    ensures var cm := MethodInfo(1, 0, 0, false, Signature(false, 1, MonoType(MONO_TYPE_VOID, false, None)), None);
      var m := MethodInfo(0, 0, 0, false, Signature(false, 6, MonoType(MONO_TYPE_VOID, false, None)),
        Some(Body(0, [CEE_LDARG_S, 5, CEE_CALL, 1, 0, 0, 0, CEE_RET])));
      CheckInliningAsWritten(m, _ => cm, 1, seq(256, a => a == 5)).None?
      && CheckInlining(m, _ => cm, 1) == Some(Inlined(cm, false))
  {
    var code: seq<Byte> := [CEE_LDARG_S, 5, CEE_CALL, 1, 0, 0, 0, CEE_RET];
    var void := MonoType(MONO_TYPE_VOID, false, None);
    var cm := MethodInfo(1, 0, 0, false, Signature(false, 1, void), None);
    var m := MethodInfo(0, 0, 0, false, Signature(false, 6, void), Some(Body(0, code)));
    var resolve: U32 -> MethodInfo := _ => cm;
    var stale := seq(256, a => a == 5);
    var used := [false, false, false, false] + stale[4..];
    assert used[5];
    assert ScanArgs(code, used).None?;
    assert InlineSite(code, used).None?;
    assert CheckInliningFrom(m, resolve, 1, used).None?;
    assert ScanArgs(code[2..], Unused()[5 := true]) == Some(ScanStop(0, false));
    assert ScanArgs(code, Unused()) == Some(ScanStop(2, false));
    assert Read32At(code, 3) == 1;
    assert InlineSite(code, Unused()) == Some(CallSite(1, false));
    assert Bit(0, 6) == 0;
    assert CheckInliningFrom(m, resolve, 1, Unused()) == Some(Inlined(cm, false));
  }

  // ---------------------------------------------------------------------
  // Array element addresses
  // ---------------------------------------------------------------------

  /** The element number `ves_array_element_address` computes: the index
      itself for a vector (no bounds), otherwise the row-major position
      in the 32-bit arithmetic of the C code. */
  function ElementIndex(ind: seq<I32>, bounds: Option<seq<Objects.ArrayBound>>): int
    requires |ind| >= 1 && (bounds.Some? ==> |bounds.value| == |ind|)
  {
    if bounds.None? then ind[0] else Signed32(Wrap32(Icall.RowMajor(ind, bounds.value, |ind|)))
  }

  /** `ves_array_element_address`: the byte offset `ind * esize` of the
      element from the start of the array's storage, a product of `int`s. */
  function ElementOffset(ind: seq<I32>, bounds: Option<seq<Objects.ArrayBound>>, esize: nat): I32
    requires |ind| >= 1 && (bounds.Some? ==> |bounds.value| == |ind|)
  {
    Signed32(Wrap32(ElementIndex(ind, bounds) * esize))
  }

  /** For indices inside the bounds of an array whose storage size fits a
      signed 32-bit integer, the 32-bit arithmetic is exact and the element
      lies inside the storage. */
  lemma ElementInside(ind: seq<I32>, bounds: Option<seq<Objects.ArrayBound>>, esize: nat)
    requires |ind| >= 1
    requires bounds.Some? ==> Icall.InRange(ind, bounds.value) && Icall.Count(bounds.value, |ind|) <= 0x8000_0000
    requires bounds.Some? ==> Icall.Count(bounds.value, |ind|) * esize <= 0x8000_0000
    requires bounds.None? ==> |ind| == 1 && 0 <= ind[0] && (ind[0] + 1) * esize <= 0x8000_0000
    ensures var c: int := if bounds.Some? then Icall.Count(bounds.value, |ind|) else ind[0] as int + 1;
      0 <= ElementIndex(ind, bounds) < c
      && ElementOffset(ind, bounds, esize) == ElementIndex(ind, bounds) * esize
      && 0 <= ElementOffset(ind, bounds, esize) && ElementOffset(ind, bounds, esize) + esize <= c * esize
  {
    var c: int := if bounds.Some? then Icall.Count(bounds.value, |ind|) else ind[0] as int + 1;
    if bounds.Some? {
      Icall.PositionExact(ind, bounds.value);
    }
    var i := ElementIndex(ind, bounds);
    MulLe(i + 1, c, esize);
    assert (i + 1) * esize == i * esize + esize;
    MulLe(0, i, esize);
    assert 0 <= i * esize < 0x8000_0000;
    WrapSmall(i * esize);
  }
}
