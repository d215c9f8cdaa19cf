/** The profiler hooks of `profiler.c`: installing a profiler once, the
    event mask, the gated dispatchers that call an installed callback
    only when its category is enabled, and the simple built-in profiler
    that counts method entries. Callbacks are named, not run: a dispatcher
    returns the call it would make. */
module Profiler {
  import opened Bytes

  // MonoProfileFlags: the bit position of each category in the event mask.
  const APPDOMAIN_EVENTS: nat := 0
  const ASSEMBLY_EVENTS: nat := 1
  const MODULE_EVENTS: nat := 2
  const CLASS_EVENTS: nat := 3
  const JIT_COMPILATION: nat := 4
  const THREADS: nat := 9
  const TRANSITIONS: nat := 11
  const ENTER_LEAVE: nat := 12

  // The codes the `*_event` dispatchers take.
  const START_LOAD := 0
  const END_LOAD := 1
  const START_UNLOAD := 2
  const END_UNLOAD := 3

  /** `events & (1 << bit)` is non-zero. */
  predicate Enabled(events: nat, bit: nat)
  {
    Bit(events, bit) == 1
  }

  /** A callback that can be installed in a hook: those of the simple
      profiler, or one an embedder supplies, told apart by a number. */
  datatype Callback = SimpleEnter | SimpleLeave | SimpleJit | SimpleEndJit | SimpleShutdown | Custom(id: nat)

  /** The four hooks of a load/unload category. */
  datatype LoadHooks = LoadHooks(startLoad: Option<Callback>, endLoad: Option<Callback>,
                                 startUnload: Option<Callback>, endUnload: Option<Callback>)

  datatype Category = AppDomainCat | AssemblyCat | ModuleCat | ClassCat

  /** The category's bit in the event mask. */
  function CategoryBit(c: Category): nat
  {
    match c
    case AppDomainCat => APPDOMAIN_EVENTS
    case AssemblyCat => ASSEMBLY_EVENTS
    case ModuleCat => MODULE_EVENTS
    case ClassCat => CLASS_EVENTS
  }

  /** The static hook variables; an absent callback is a NULL pointer. */
  datatype Hooks = Hooks(
    enter: Option<Callback>, leave: Option<Callback>,
    jitStart: Option<Callback>, jitEnd: Option<Callback>,
    transition: Option<Callback>,
    threadStart: Option<Callback>, threadEnd: Option<Callback>,
    domain: LoadHooks, assembly: LoadHooks, image: LoadHooks, klass: LoadHooks)

  /** The profiler's global state: the installed profiler handle (NULL
      when none), its shutdown callback, `mono_profiler_events` and the
      hooks. */
  datatype State = State(current: Option<nat>, shutdown: Option<Callback>, events: nat, hooks: Hooks)

  /** One invocation of a callback: the callback, the profiler handle it
      receives, the subject (method, thread, assembly, ...) and the
      result code the `end` hooks pass. */
  datatype Call = Call(callback: Callback, profiler: Option<nat>, subject: nat, result: Option<int>)

  const NoLoadHooks := LoadHooks(None, None, None, None)

  /** The state before anything is installed: every static is zero. */
  const Initial := State(None, None, 0,
    Hooks(None, None, None, None, None, None, None, NoLoadHooks, NoLoadHooks, NoLoadHooks, NoLoadHooks))

  // ---------------------------------------------------------------------
  // Installing
  // ---------------------------------------------------------------------

  /** `mono_profiler_install`: a second profiler is a fatal error;
      otherwise the handle and shutdown callback are recorded. */
  function Install(st: State, prof: Option<nat>, callback: Option<Callback>): (r: Result<State>)
    ensures r.Err? <==> st.current.Some?
    ensures r.Ok? ==> r.value.current == prof && r.value.shutdown == callback
    ensures r.Ok? ==> r.value.events == st.events && r.value.hooks == st.hooks
  {
    if st.current.Some? then Err("profiler already setup")
    else Ok(st.(current := prof, shutdown := callback))
  }

  /** Once a profiler is installed, installing any other fails, and the
      failed attempt changes nothing. */
  lemma InstallOnce(st: State, prof: nat, callback: Option<Callback>, prof2: Option<nat>, callback2: Option<Callback>)
    requires Install(st, Some(prof), callback).Ok?
    ensures Install(Install(st, Some(prof), callback).value, prof2, callback2).Err?
  {
  }

  /** `mono_profiler_set_events`. */
  function SetEvents(st: State, events: nat): (r: State)
    ensures r.current == st.current && r.shutdown == st.shutdown && r.hooks == st.hooks
  {
    st.(events := events)
  }

  /** `mono_profiler_get_events`. */
  function GetEvents(st: State): nat
  {
    st.events
  }

  /** `get_events` gives back the last mask set, and setting the mask it
      gives changes nothing. */
  lemma SetGetEvents(st: State, events: nat, events2: nat)
    ensures GetEvents(SetEvents(st, events)) == events
    ensures GetEvents(SetEvents(SetEvents(st, events2), events)) == events
    ensures SetEvents(st, GetEvents(st)) == st
  {
  }

  /** `mono_profiler_install_enter_leave`. */
  function InstallEnterLeave(st: State, enter: Option<Callback>, leave: Option<Callback>): (r: State)
    ensures r.hooks.enter == enter && r.hooks.leave == leave
    ensures r.hooks.(enter := st.hooks.enter, leave := st.hooks.leave) == st.hooks
    ensures r.current == st.current && r.shutdown == st.shutdown && r.events == st.events
  {
    st.(hooks := st.hooks.(enter := enter, leave := leave))
  }

  /** `mono_profiler_install_jit_compile`. */
  function InstallJitCompile(st: State, start: Option<Callback>, end: Option<Callback>): (r: State)
    ensures r.hooks.jitStart == start && r.hooks.jitEnd == end
    ensures r.hooks.(jitStart := st.hooks.jitStart, jitEnd := st.hooks.jitEnd) == st.hooks
    ensures r.current == st.current && r.shutdown == st.shutdown && r.events == st.events
  {
    st.(hooks := st.hooks.(jitStart := start, jitEnd := end))
  }

  /** `mono_profiler_install_thread`. */
  function InstallThread(st: State, start: Option<Callback>, end: Option<Callback>): (r: State)
    ensures r.hooks.threadStart == start && r.hooks.threadEnd == end
    ensures r.hooks.(threadStart := st.hooks.threadStart, threadEnd := st.hooks.threadEnd) == st.hooks
    ensures r.current == st.current && r.shutdown == st.shutdown && r.events == st.events
  {
    st.(hooks := st.hooks.(threadStart := start, threadEnd := end))
  }

  /** `mono_profiler_install_transition`. */
  function InstallTransition(st: State, callback: Option<Callback>): (r: State)
    ensures r.hooks.transition == callback
    ensures r.hooks.(transition := st.hooks.transition) == st.hooks
    ensures r.current == st.current && r.shutdown == st.shutdown && r.events == st.events
  {
    st.(hooks := st.hooks.(transition := callback))
  }

  /** The four hooks of a category. */
  function HooksOf(h: Hooks, c: Category): LoadHooks
  {
    match c
    case AppDomainCat => h.domain
    case AssemblyCat => h.assembly
    case ModuleCat => h.image
    case ClassCat => h.klass
  }

  /** `mono_profiler_install_appdomain`, `_assembly`, `_module` and
      `_class`: the category's four hooks are replaced, the other
      categories keep theirs. */
  function InstallLoadHooks(st: State, c: Category, lh: LoadHooks): (r: State)
    ensures HooksOf(r.hooks, c) == lh
    ensures forall d :: d != c ==> HooksOf(r.hooks, d) == HooksOf(st.hooks, d)
    ensures r.hooks.enter == st.hooks.enter && r.hooks.leave == st.hooks.leave
    ensures r.hooks.jitStart == st.hooks.jitStart && r.hooks.jitEnd == st.hooks.jitEnd
    ensures r.hooks.transition == st.hooks.transition
    ensures r.hooks.threadStart == st.hooks.threadStart && r.hooks.threadEnd == st.hooks.threadEnd
    ensures r.current == st.current && r.shutdown == st.shutdown && r.events == st.events
  {
    match c
    case AppDomainCat => st.(hooks := st.hooks.(domain := lh))
    case AssemblyCat => st.(hooks := st.hooks.(assembly := lh))
    case ModuleCat => st.(hooks := st.hooks.(image := lh))
    case ClassCat => st.(hooks := st.hooks.(klass := lh))
  }

  // ---------------------------------------------------------------------
  // Dispatch
  // ---------------------------------------------------------------------

  /** The call a gated hook makes: the callback with the installed
      profiler handle, when the category bit is set and a callback is
      installed; nothing otherwise. */
  function Fire(st: State, bit: nat, hook: Option<Callback>, subject: nat, result: Option<int>): (r: Option<Call>)
    ensures r.Some? <==> Enabled(st.events, bit) && hook.Some?
    ensures r.Some? ==> r.value.callback == hook.value && r.value.profiler == st.current
    ensures r.Some? ==> r.value.subject == subject && r.value.result == result
  {
    if Enabled(st.events, bit) && hook.Some? then Some(Call(hook.value, st.current, subject, result)) else None
  }

  /** `mono_profiler_method_enter`. */
  function MethodEnter(st: State, meth: nat): (r: Option<Call>)
    ensures r.Some? <==> Enabled(st.events, ENTER_LEAVE) && st.hooks.enter.Some?
    ensures r.Some? ==> r.value == Call(st.hooks.enter.value, st.current, meth, None)
  {
    Fire(st, ENTER_LEAVE, st.hooks.enter, meth, None)
  }

  /** `mono_profiler_method_leave`. */
  function MethodLeave(st: State, meth: nat): (r: Option<Call>)
    ensures r.Some? <==> Enabled(st.events, ENTER_LEAVE) && st.hooks.leave.Some?
    ensures r.Some? ==> r.value == Call(st.hooks.leave.value, st.current, meth, None)
  {
    Fire(st, ENTER_LEAVE, st.hooks.leave, meth, None)
  }

  /** `mono_profiler_method_jit`. */
  function MethodJit(st: State, meth: nat): (r: Option<Call>)
    ensures r.Some? <==> Enabled(st.events, JIT_COMPILATION) && st.hooks.jitStart.Some?
    ensures r.Some? ==> r.value == Call(st.hooks.jitStart.value, st.current, meth, None)
  {
    Fire(st, JIT_COMPILATION, st.hooks.jitStart, meth, None)
  }

  /** `mono_profiler_method_end_jit`. */
  function MethodEndJit(st: State, meth: nat, result: int): (r: Option<Call>)
    ensures r.Some? <==> Enabled(st.events, JIT_COMPILATION) && st.hooks.jitEnd.Some?
    ensures r.Some? ==> r.value == Call(st.hooks.jitEnd.value, st.current, meth, Some(result))
  {
    Fire(st, JIT_COMPILATION, st.hooks.jitEnd, meth, Some(result))
  }

  /** `mono_profiler_code_transition`. */
  function CodeTransition(st: State, meth: nat, result: int): (r: Option<Call>)
    ensures r.Some? <==> Enabled(st.events, TRANSITIONS) && st.hooks.transition.Some?
    ensures r.Some? ==> r.value == Call(st.hooks.transition.value, st.current, meth, Some(result))
  {
    Fire(st, TRANSITIONS, st.hooks.transition, meth, Some(result))
  }

  /** `mono_profiler_thread_start`. */
  function ThreadStart(st: State, thread: nat): (r: Option<Call>)
    ensures r.Some? <==> Enabled(st.events, THREADS) && st.hooks.threadStart.Some?
    ensures r.Some? ==> r.value == Call(st.hooks.threadStart.value, st.current, thread, None)
  {
    Fire(st, THREADS, st.hooks.threadStart, thread, None)
  }

  /** `mono_profiler_thread_end`. */
  function ThreadEnd(st: State, thread: nat): (r: Option<Call>)
    ensures r.Some? <==> Enabled(st.events, THREADS) && st.hooks.threadEnd.Some?
    ensures r.Some? ==> r.value == Call(st.hooks.threadEnd.value, st.current, thread, None)
  {
    Fire(st, THREADS, st.hooks.threadEnd, thread, None)
  }

  /** `mono_profiler_appdomain_event`, `_assembly_event`, `_module_event`
      and `_class_event`: nothing at all while the category is disabled,
      whatever the code; otherwise the start-load, start-unload or
      end-unload hook by code, and any other code (end-load among them)
      is a fatal error. */
  function LoadEvent(st: State, c: Category, subject: nat, code: int): (r: Result<Option<Call>>)
    ensures !Enabled(st.events, CategoryBit(c)) ==> r == Ok(None)
    ensures r.Err? <==> Enabled(st.events, CategoryBit(c)) && code !in {START_LOAD, START_UNLOAD, END_UNLOAD}
    ensures r.Ok? && r.value.Some? ==> r.value.value.profiler == st.current && r.value.value.subject == subject
    ensures r.Ok? && r.value.Some? ==> r.value.value.result.None?
    ensures r.Ok? && r.value.Some? ==>
      (var lh := HooksOf(st.hooks, c);
       Some(r.value.value.callback) ==
         if code == START_LOAD then lh.startLoad else if code == START_UNLOAD then lh.startUnload else lh.endUnload)
  {
    var bit := CategoryBit(c);
    var lh := HooksOf(st.hooks, c);
    if !Enabled(st.events, bit) then Ok(None)
    else if code == START_LOAD then Ok(Fire(st, bit, lh.startLoad, subject, None))
    else if code == START_UNLOAD then Ok(Fire(st, bit, lh.startUnload, subject, None))
    else if code == END_UNLOAD then Ok(Fire(st, bit, lh.endUnload, subject, None))
    else Err("not reached")
  }

  /** `mono_profiler_appdomain_loaded`, `_assembly_loaded`,
      `_module_loaded` and `_class_loaded`: the end-load hook, gated by
      the category. */
  function Loaded(st: State, c: Category, subject: nat, result: int): (r: Option<Call>)
    ensures r.Some? <==> Enabled(st.events, CategoryBit(c)) && HooksOf(st.hooks, c).endLoad.Some?
    ensures r.Some? ==> r.value == Call(HooksOf(st.hooks, c).endLoad.value, st.current, subject, Some(result))
  {
    Fire(st, CategoryBit(c), HooksOf(st.hooks, c).endLoad, subject, Some(result))
  }

  /** `mono_profiler_shutdown`: the shutdown callback, only when both a
      profiler and a callback are installed. */
  function Shutdown(st: State): (r: Option<Call>)
    ensures r.Some? <==> st.current.Some? && st.shutdown.Some?
    ensures r.Some? ==> r.value == Call(st.shutdown.value, st.current, 0, None)
  {
    if st.current.Some? && st.shutdown.Some? then Some(Call(st.shutdown.value, st.current, 0, None)) else None
  }

  /** The end-load code is not a valid code for the `*_event`
      dispatchers; it is reported through `*_loaded` instead. */
  lemma EndLoadGoesThroughLoaded(st: State, c: Category, subject: nat)
    requires Enabled(st.events, CategoryBit(c))
    ensures LoadEvent(st, c, subject, END_LOAD).Err?
    ensures Loaded(st, c, subject, 0).Some? <==> HooksOf(st.hooks, c).endLoad.Some?
  {
  }

  // ---------------------------------------------------------------------
  // The simple profiler
  // ---------------------------------------------------------------------

  /** The simple profiler's counters: calls per method (the `methods`
      table) and the number of methods compiled. Timings are left out. */
  datatype Simple = Simple(methods: map<nat, nat>, methodsJitted: nat)

  /** The number of entries recorded for `method`, 0 before the first. */
  function Count(p: Simple, meth: nat): nat
  {
    if meth in p.methods then p.methods[meth] else 0
  }

  /** `simple_method_enter`: the first entry creates the method's record,
      and every entry adds one to its count. */
  function Enter(p: Simple, meth: nat): (r: Simple)
    ensures r.methods.Keys == p.methods.Keys + {meth}
    ensures Count(r, meth) == Count(p, meth) + 1
    ensures forall m :: m != meth ==> Count(r, m) == Count(p, m)
    ensures r.methodsJitted == p.methodsJitted
  {
    var c := if meth in p.methods then p.methods[meth] else 0;
    p.(methods := p.methods[meth := c + 1])
  }

  /** `simple_method_leave`: leaving a method never entered is a fatal
      error; otherwise the counts are unchanged (only the time grows). */
  function Leave(p: Simple, meth: nat): (r: Result<Simple>)
    ensures r.Err? <==> meth !in p.methods
    ensures r.Ok? ==> r.value == p
  {
    if meth !in p.methods then Err("not reached") else Ok(p)
  }

  /** `simple_method_jit`. */
  function Jit(p: Simple): (r: Simple)
    ensures r.methodsJitted == p.methodsJitted + 1 && r.methods == p.methods
  {
    p.(methodsJitted := p.methodsJitted + 1)
  }

  /** Entering each method of `trace` in turn. */
  function EnterAll(p: Simple, trace: seq<nat>): Simple
    decreases |trace|
  {
    if |trace| == 0 then p else EnterAll(Enter(p, trace[0]), trace[1..])
  }

  /** After a run of entries each method's count has grown by the number
      of times it occurs in the run. */
  lemma {:induction false} EnterAllCounts(p: Simple, trace: seq<nat>, m: nat)
    ensures Count(EnterAll(p, trace), m) == Count(p, m) + multiset(trace)[m]
    decreases |trace|
  {
    if |trace| > 0 {
      EnterAllCounts(Enter(p, trace[0]), trace[1..], m);
      assert trace == [trace[0]] + trace[1..];
      assert multiset(trace) == multiset{trace[0]} + multiset(trace[1..]);
    }
  }

  /** Every method entered can be left. */
  lemma LeaveAfterEnter(p: Simple, trace: seq<nat>, i: nat)
    requires i < |trace|
    ensures Leave(EnterAll(p, trace), trace[i]).Ok?
  {
    EnterAllCounts(p, trace, trace[i]);
    assert trace[i] in multiset(trace);
  }

  /** The mask `install_simple` sets. */
  function SimpleEvents(): (r: nat)
    ensures forall k :: Enabled(r, k) <==> k == JIT_COMPILATION || k == ENTER_LEAVE
  {
    var low := Pow2(JIT_COMPILATION);
    var both := low + Pow2(ENTER_LEAVE);
    assert Pow2(ENTER_LEAVE) == 4096 && low == 16;
    forall k: nat ensures Enabled(both, k) <==> k == JIT_COMPILATION || k == ENTER_LEAVE
    {
      BitAddHigh(0, JIT_COMPILATION, k);
      BitHighClear(0, 0, k);
      assert Enabled(low, k) <==> k == JIT_COMPILATION;
      BitAddHigh(low, ENTER_LEAVE, k);
    }
    both
  }

  /** `mono_profiler_install_simple`: installs profiler `prof` with the
      simple shutdown, enter/leave and jit callbacks, and enables exactly
      the enter/leave and jit categories. Fails like `install` when a
      profiler is already there. */
  function InstallSimple(st: State, prof: nat): (r: Result<(State, Simple)>)
    ensures r.Err? <==> st.current.Some?
    ensures r.Ok? ==> var s := r.value.0;
      s.current == Some(prof) && s.shutdown == Some(SimpleShutdown)
      && s.hooks.enter == Some(SimpleEnter) && s.hooks.leave == Some(SimpleLeave)
      && s.hooks.jitStart == Some(SimpleJit) && s.hooks.jitEnd == Some(SimpleEndJit)
      && (forall k :: Enabled(s.events, k) <==> k == JIT_COMPILATION || k == ENTER_LEAVE)
    ensures r.Ok? ==> r.value.1 == Simple(map[], 0)
  {
    match Install(st, Some(prof), Some(SimpleShutdown))
    case Err(e) => Err(e)
    case Ok(s1) =>
      var s2 := InstallEnterLeave(s1, Some(SimpleEnter), Some(SimpleLeave));
      var s3 := InstallJitCompile(s2, Some(SimpleJit), Some(SimpleEndJit));
      Ok((SetEvents(s3, SimpleEvents()), Simple(map[], 0)))
  }

  /** With the simple profiler installed, method entry and leave and jit
      start reach its callbacks, while thread, transition and load
      events stay silent whatever hooks were installed before. */
  lemma SimpleDispatch(st: State, prof: nat, meth: nat, thread: nat, c: Category, code: int)
    requires InstallSimple(st, prof).Ok?
    ensures var s := InstallSimple(st, prof).value.0;
      MethodEnter(s, meth) == Some(Call(SimpleEnter, Some(prof), meth, None))
      && MethodLeave(s, meth) == Some(Call(SimpleLeave, Some(prof), meth, None))
      && MethodJit(s, meth) == Some(Call(SimpleJit, Some(prof), meth, None))
      && ThreadStart(s, thread).None? && ThreadEnd(s, thread).None?
      && CodeTransition(s, meth, 0).None?
      && LoadEvent(s, c, meth, code) == Ok(None)
      && Shutdown(s) == Some(Call(SimpleShutdown, Some(prof), 0, None))
  {
    var s := InstallSimple(st, prof).value.0;
    assert !Enabled(s.events, CategoryBit(c));
  }

  /** The simple profiler reacting to a call addressed to it. Leaving a
      method never entered is the fatal error `Leave` reports. */
  function Handle(p: Simple, call: Call): (r: Result<Simple>)
    ensures call.callback == SimpleEnter ==> r == Ok(Enter(p, call.subject))
    ensures call.callback == SimpleLeave ==> r == Leave(p, call.subject)
    ensures call.callback == SimpleJit ==> r == Ok(Jit(p))
    ensures call.callback !in {SimpleEnter, SimpleLeave, SimpleJit} ==> r == Ok(p)
  {
    match call.callback
    case SimpleEnter => Ok(Enter(p, call.subject))
    case SimpleLeave => Leave(p, call.subject)
    case SimpleJit => Ok(Jit(p))
    case _ => Ok(p)
  }

  /** Running a method under the simple profiler: the entry dispatch
      counts it once, and the matching leave finds its record. */
  lemma SimpleCountsCall(st: State, prof: nat, meth: nat)
    requires InstallSimple(st, prof).Ok?
    ensures var (s, p) := InstallSimple(st, prof).value;
      var p1 := Handle(p, MethodEnter(s, meth).value).value;
      Count(p1, meth) == 1 && Handle(p1, MethodLeave(s, meth).value) == Ok(p1)
  {
    SimpleDispatch(st, prof, meth, 0, AppDomainCat, 0);
  }
}
