/** The C half of the soft-FPU lane: one trap entry, from the entry lock to the signal it may post.
    Inputs the kernel cannot choose (what a user fetch returns, what the emulator does, which signals
    are pending) are parameters; every piece between two points where a process can sleep is a
    function on the shared state, and `Glue.Trap` is those pieces in the order the code runs them. */
module FpeGlue {
  type Half = x: int | 0 <= x < 0x1_0000
  type Long = x: int | 0 <= x < 0x1_0000_0000

  datatype Option<T> = None | Some(value: T)

  const SIGILL := 4
  const SIGFPE := 8
  const SIGSEGV := 11
  const ILL_ILLOPC := 1
  const SEGV_ACCERR := 2
  const FPE_FLTDIV := 3
  const FPE_FLTOVF := 4
  const FPE_FLTUND := 5
  const FPE_FLTRES := 6
  const FPE_FLTINV := 7
  const V60_VOFF := 240

  // ---- The exception code

  const EXCP: bv32 := 0xFF00

  /** The exceptions both raised and enabled. */
  function Raised(fpsr: bv32, fpcr: bv32): bv32 { fpsr & fpcr & EXCP }

  /** The ladder: several bits to a rung. */
  function FltCode(fpsr: bv32, fpcr: bv32): int {
    var raised := Raised(fpsr, fpcr);
    if raised & 0xE000 != 0 then FPE_FLTINV
    else if raised & 0x1000 != 0 then FPE_FLTOVF
    else if raised & 0x0800 != 0 then FPE_FLTUND
    else if raised & 0x0400 != 0 then FPE_FLTDIV
    else if raised & 0x0300 != 0 then FPE_FLTRES
    else 0
  }

  /** FPSR exception byte, most significant bit first: BSUN SNAN OPERR OVFL UNFL DZ INEX2 INEX1. */
  function Bit(k: nat): bv32 {
    if k == 0 then 0x8000 else if k == 1 then 0x4000 else if k == 2 then 0x2000 else if k == 3 then 0x1000
    else if k == 4 then 0x0800 else if k == 5 then 0x0400 else if k == 6 then 0x0200 else 0x0100
  }

  /** The signal class of one exception. */
  function ClassOf(k: nat): int {
    if k <= 2 then FPE_FLTINV
    else if k == 3 then FPE_FLTOVF
    else if k == 4 then FPE_FLTUND
    else if k == 5 then FPE_FLTDIV
    else FPE_FLTRES
  }

  predicate Has(raised: bv32, k: nat) { raised & Bit(k) != 0 }

  /** The most significant exception at or after position `i`; 8 if there is none. */
  function TopException(raised: bv32, i: nat): nat
    requires i <= 8
    decreases 8 - i
  {
    if i == 8 || Has(raised, i) then i else TopException(raised, i + 1)
  }

  lemma Unrolled(r: bv32)
    ensures TopException(r, 0) ==
      if Has(r, 0) then 0 else if Has(r, 1) then 1 else if Has(r, 2) then 2 else if Has(r, 3) then 3
      else if Has(r, 4) then 4 else if Has(r, 5) then 5 else if Has(r, 6) then 6 else if Has(r, 7) then 7 else 8
  {
    hide Has;
    assert TopException(r, 6) == if Has(r, 6) then 6 else if Has(r, 7) then 7 else 8;
    assert TopException(r, 4) == if Has(r, 4) then 4 else if Has(r, 5) then 5 else TopException(r, 6);
    assert TopException(r, 2) == if Has(r, 2) then 2 else if Has(r, 3) then 3 else TopException(r, 4);
  }

  lemma Rungs(r: bv32)
    ensures r & 0xE000 != 0 <==> r & 0x8000 != 0 || r & 0x4000 != 0 || r & 0x2000 != 0
    ensures r & 0x0300 != 0 <==> r & 0x0200 != 0 || r & 0x0100 != 0
    ensures r & 0xFF00 != 0 <==>
      r & 0xE000 != 0 || r & 0x1000 != 0 || r & 0x0800 != 0 || r & 0x0400 != 0 || r & 0x0300 != 0
  {
  }

  lemma Masked(fpsr: bv32, fpcr: bv32)
    ensures Raised(fpsr, fpcr) & 0xFF00 == Raised(fpsr, fpcr)
  {
  }

  /** The code is the class of the most significant exception that is both enabled and raised (M68000
      Family Programmer's Reference Manual, section 1.2.3), and 0 exactly when there is none. */
  lemma CodeIsTopException(fpsr: bv32, fpcr: bv32)
    ensures var k := TopException(Raised(fpsr, fpcr), 0);
      FltCode(fpsr, fpcr) == if k < 8 then ClassOf(k) else 0
    ensures FltCode(fpsr, fpcr) == 0 <==> Raised(fpsr, fpcr) == 0
  {
    hide TopException, Raised;
    Unrolled(Raised(fpsr, fpcr));
    Rungs(Raised(fpsr, fpcr));
    Masked(fpsr, fpcr);
  }

  // ---- One trap

  /** What the frame shim reads: sixteen registers, the stacked PC, and the faulting instruction's
      address, which only a format-4 frame carries separately. */
  datatype Trap = Trap(regs: seq<int>, stacked: Long, format: nat, vector: nat, fault: Long) {
    predicate V60() { vector == V60_VOFF }
  }

  datatype Fetch = Fault | Word(w: Half)

  /** How the emulator comes back: an instruction done, a signal raised, or an abort out of its
      middle.  Each carries the frame's PC and registers as the emulator left them. */
  datatype Emulation =
    | Done(pc: Long, regs: seq<int>)
    | Raise(pc: Long, regs: seq<int>, signo: int, code: int, addr: Long, fpsr: bv32, fpcr: bv32)
    | Panic(pc: Long, regs: seq<int>)
    | CopyFault(pc: Long, regs: seq<int>, addr: Long)

  /** The vector-60 form gate, by the FP command word. */
  datatype Form = FetchFailed | Immediate(packed: bool) | MoveRegisters | MoveControl

  function FormOf(cmd: Fetch): Form {
    if cmd.Fault? then FetchFailed
    else if cmd.w < 0x8000 then Immediate(cmd.w / 0x400 % 8 == 3)
    else if cmd.w >= 0xC000 then MoveRegisters
    else MoveControl
  }

  predicate Refused(form: Form) { form.FetchFailed? || form.MoveControl? }

  /** What the advisory comparison makes of a PC that left the straight line. */
  datatype Advice = NoFetch | Branch | Miss

  function AdviceOf(op: Fetch): Advice {
    if op.Fault? then NoFetch
    else
      var optype := op.w / 0x40 % 8;
      if optype == 2 || optype == 3 || (optype == 1 && op.w / 8 % 8 == 1) then Branch else Miss
  }

  // ---- The shared state

  datatype Latch = Latch(signo: int, code: int, addr: Long)
  const CLEAR := Latch(0, 0, 0)

  /** Before the first entry the latches read as nothing latched. */
  const UNSET := Latch(-1, -1, 0xFFFF_FFFF)

  datatype Counters = Counters(
    lockWait: nat, done: nat, sig: nat, sigfpe: nat, sigill: nat, sigsegv: nat, sigother: nat,
    undecoded: nat, rewind: nat, panics: nat, copyFail: nat,
    eaImm: nat, eaPack: nat, eaRegisters: nat, eaControl: nat, eaFetchFail: nat, eaDone: nat, eaSig: nat,
    advControl: nat, advMiss: nat, advNoFetch: nat, sigPend: nat, sigDeliver: nat)

  /** The lock, the process whose frame the setjmp buffer names while it is armed, the process whose
      frame fpe_cur points at, the three abort latches, the counters. */
  datatype Shared = Shared(busy: bool, jb: Option<nat>, cur: Option<nat>, latch: Latch, n: Counters)

  function Acquire(g: Shared, me: nat): Shared { g.(busy := true, latch := CLEAR, cur := Some(me)) }

  function Release(g: Shared): Shared { g.(busy := false, jb := None, cur := None) }

  function CountForm(n: Counters, form: Form): Counters {
    match form
    case FetchFailed => n.(eaFetchFail := n.eaFetchFail + 1)
    case Immediate(packed) => n.(eaImm := n.eaImm + 1, eaPack := n.eaPack + if packed then 1 else 0)
    case MoveRegisters => n.(eaRegisters := n.eaRegisters + 1)
    case MoveControl => n.(eaControl := n.eaControl + 1)
  }

  /** fpe_panic and the checked copies, up to the longjmp: count, and latch what is to be posted. */
  function LatchAbort(g: Shared, e: Emulation): Shared
    requires e.Panic? || e.CopyFault?
  {
    if e.Panic? then g.(latch := Latch(SIGILL, ILL_ILLOPC, e.pc), n := g.n.(panics := g.n.panics + 1))
    else g.(latch := Latch(SIGSEGV, SEGV_ACCERR, e.addr), n := g.n.(copyFail := g.n.copyFail + 1))
  }

  /** A signal as the gate, the emulator or an abort asks for it, with the FP status it left. */
  datatype Signal = Signal(signo: int, code: int, addr: Long, fpsr: bv32, fpcr: bv32)

  /** A signal on its way out, and the PC the frame resumes at. */
  datatype Posted = Posted(signo: int, code: int, addr: Long, pc: Long, undecoded: bool, rewound: bool)

  function Post(t: Trap, pc: Long, s: Signal): Posted {
    if s.signo == SIGFPE && s.code == 0 then
      var derived := FltCode(s.fpsr, s.fpcr);
      if derived != 0 then Posted(SIGFPE, derived, s.addr, pc, false, false)
      else if pc != t.fault then Posted(SIGILL, ILL_ILLOPC, t.fault, t.fault, true, true)
      else Posted(SIGILL, ILL_ILLOPC, s.addr, pc, true, false)
    else Posted(s.signo, s.code, s.addr, pc, false, false)
  }

  /** What the vector-60 form gate asks for when it refuses a form. */
  function RefusalSignal(t: Trap, form: Form): Signal
    requires Refused(form)
  {
    if form.FetchFailed? then Signal(SIGSEGV, SEGV_ACCERR, t.fault, 0, 0) else Signal(SIGILL, ILL_ILLOPC, t.fault, 0, 0)
  }

  /** What an emulation that did not succeed asks for; an abort asks for what was latched. */
  function EmulationSignal(g: Shared, e: Emulation): Signal
    requires !e.Done?
  {
    if e.Raise? then Signal(e.signo, e.code, e.addr, e.fpsr, e.fpcr)
    else Signal(g.latch.signo, g.latch.code, g.latch.addr, 0, 0)
  }

  function CountSignal(n: Counters, t: Trap, p: Posted): Counters {
    var m := n.(undecoded := n.undecoded + (if p.undecoded then 1 else 0),
                rewind := n.rewind + (if p.rewound then 1 else 0));
    if t.V60() then m.(eaSig := n.eaSig + 1)
    else
      var k := m.(sig := n.sig + 1);
      if p.signo == SIGFPE then k.(sigfpe := n.sigfpe + 1)
      else if p.signo == SIGILL then k.(sigill := n.sigill + 1)
      else if p.signo == SIGSEGV then k.(sigsegv := n.sigsegv + 1)
      else k.(sigother := n.sigother + 1)
  }

  function CountDone(n: Counters, t: Trap): Counters {
    if t.V60() then n.(eaDone := n.eaDone + 1) else n.(done := n.done + 1)
  }

  function CountAdvice(n: Counters, a: Advice): Counters {
    match a
    case NoFetch => n.(advNoFetch := n.advNoFetch + 1)
    case Branch => n.(advControl := n.advControl + 1)
    case Miss => n.(advMiss := n.advMiss + 1)
  }

  /** The success path asks whether to look for a signal at all; only then is one delivered. */
  function CountPending(n: Counters, pend: bool, deliver: bool): Counters {
    if !pend then n
    else n.(sigPend := n.sigPend + 1, sigDeliver := n.sigDeliver + if deliver then 1 else 0)
  }

  /** The instrument runs only on a format-4 frame whose PC is not the one the CPU stacked. */
  predicate Compared(t: Trap, pc: Long) { t.format == 4 && pc != t.stacked }

  // ---- Resume discipline

  /** A SIGFPE without a code stays one, with the emulator's PC, if and only if some exception is both
      raised and enabled; otherwise it is SIGILL at the faulting instruction.  The address follows the
      PC unless the PC had not moved, in which case the emulator's own address stands. */
  lemma FpeSignalDiscipline(t: Trap, pc: Long, addr: Long, fpsr: bv32, fpcr: bv32)
    ensures var p := Post(t, pc, Signal(SIGFPE, 0, addr, fpsr, fpcr));
      && (p.signo == SIGFPE <==> Raised(fpsr, fpcr) != 0)
      && (p.signo == SIGFPE ==> p.pc == pc && p.addr == addr && p.code in {3, 4, 5, 6, 7})
      && (p.signo != SIGFPE ==> p.signo == SIGILL && p.code == ILL_ILLOPC && p.pc == t.fault)
      && (p.signo != SIGFPE ==> (p.addr == t.fault <==> pc != t.fault || addr == t.fault))
      && (p.undecoded <==> p.signo != SIGFPE) && (p.rewound <==> p.undecoded && pc != t.fault)
  {
    CodeIsTopException(fpsr, fpcr);
  }

  /** si_addr is the address the process resumes at if and only if the emulator reported the frame's PC
      (it does: that is where it takes ksi_addr from) or the instruction was rewound. */
  lemma SigAddrIsResumePc(t: Trap, pc: Long, addr: Long, fpsr: bv32, fpcr: bv32)
    ensures var p := Post(t, pc, Signal(SIGFPE, 0, addr, fpsr, fpcr));
      p.addr == p.pc <==> addr == pc || (Raised(fpsr, fpcr) == 0 && pc != t.fault)
  {
    CodeIsTopException(fpsr, fpcr);
  }

  /** One signal, one class: the vector-11 total moves with exactly one of its four classes, the
      vector-60 arm moves none of them. */
  lemma SignalCountsOnce(n: Counters, t: Trap, p: Posted)
    ensures var m := CountSignal(n, t, p);
      && m.sig - n.sig ==
         (m.sigfpe - n.sigfpe) + (m.sigill - n.sigill) + (m.sigsegv - n.sigsegv) + (m.sigother - n.sigother)
      && (m.sig + m.eaSig) - (n.sig + n.eaSig) == 1 && (t.V60() <==> m.eaSig > n.eaSig)
      && m.done == n.done && m.eaDone == n.eaDone
  {
  }

  // ---- One entry, start to end

  /** Everything one entry is told by the outside: whether the lock is still taken after each sleep,
      the gate's two fetches, the emulator, the instrument's fetch, the pending-signal tests. */
  datatype Env = Env(stillBusy: seq<bool>, op: Fetch, cmd: Fetch, emu: Emulation, adv: Fetch, pend: bool, issig: bool)

  /** Where an entry stands when it has released the lock: the PC and registers to write back, and
      the signal asked for, if any. */
  datatype Verdict = Verdict(g: Shared, pc: Long, regs: seq<int>, signal: Option<Signal>)

  /** The emulator's turn, in the state it was armed in: aborts latch, land in the armed frame and
      ask for what was latched; then the lock goes. */
  function Settle(armed: Shared, e: Emulation): Verdict {
    if e.Done? then Verdict(Release(armed), e.pc, e.regs, None)
    else
      var h := if e.Raise? then armed else LatchAbort(armed, e);
      Verdict(Release(h), e.pc, e.regs, Some(EmulationSignal(h, e)))
  }

  /** A form the gate refuses. */
  function Refuse(g: Shared, t: Trap, form: Form): Verdict
    requires Refused(form)
  {
    Verdict(Release(g), t.stacked, t.regs, Some(RefusalSignal(t, form)))
  }

  /** From taking the lock to giving it back. */
  function Serve(g: Shared, me: nat, t: Trap, env: Env): Verdict {
    var form := if env.op.Fault? then FetchFailed else FormOf(env.cmd);
    var gated := if t.V60() then g.(n := CountForm(g.n, form)) else g;
    if t.V60() && Refused(form) then Refuse(gated, t, form)
    else Settle(gated.(jb := Some(me)), env.emu)
  }

  /** The bookkeeping after the write-back, and the PC the frame ends up with. */
  function Account(n: Counters, t: Trap, v: Verdict, env: Env): Counters {
    if v.signal.Some? then CountSignal(n, t, Post(t, v.pc, v.signal.value))
    else
      var m := if Compared(t, v.pc) then CountAdvice(n, AdviceOf(env.adv)) else n;
      CountPending(CountDone(m, t), env.pend, env.issig)
  }

  function ResumePc(t: Trap, v: Verdict): Long {
    if v.signal.Some? then Post(t, v.pc, v.signal.value).pc else v.pc
  }

  function Join(hi: Half, lo: Half): Long { hi * 0x1_0000 + lo }

  /** The raw frame as the CPU pushed it: SR, PC, format and vector, and a tail in format 4 only. */
  predicate RawFrame(xf: seq<Half>) {
    |xf| >= 4 && (xf[3] / 0x1000 == 4 ==> |xf| >= 8)
  }

  function ReadTrap(regs: seq<int>, usp: int, xf: seq<Half>): Trap
    requires RawFrame(xf)
  {
    var stacked := Join(xf[1], xf[2]);
    Trap(regs + [usp], stacked, xf[3] / 0x1000, xf[3] % 0x1000,
         if xf[3] / 0x1000 == 4 then Join(xf[6], xf[7]) else stacked)
  }

  // ---- What the two exception arms let through

  const V11_WORD := 0x402C
  const V60_WORD := 0x00F0

  /** The arms' gates, vector 11 or 60: no FPU present, emulation on, the one frame shape the arm was
      made for, and a user-mode status register.  Everything else is declined before fpe_trap. */
  predicate Admitted(vector: nat, present: bool, emulating: bool, xf: seq<Half>) {
    && !present && emulating && RawFrame(xf)
    && xf[3] == (if vector == 60 then V60_WORD else V11_WORD)
    && xf[0] / 0x2000 % 2 == 0
  }

  /** The vector in an admitted frame is the arm's, and the faulting instruction's address is the
      stacked PC on vector 60 and the frame's last longword on vector 11. */
  lemma AdmittedShape(vector: nat, xf: seq<Half>, regs: seq<int>, usp: int)
    requires vector == 11 || vector == 60
    requires Admitted(vector, false, true, xf)
    ensures var t := ReadTrap(regs, usp, xf);
      && (t.V60() <==> vector == 60)
      && t.fault == (if vector == 60 then Join(xf[1], xf[2]) else Join(xf[6], xf[7]))
      && t.format == (if vector == 60 then 0 else 4)
  {
    assert V60_WORD / 0x1000 == 0 && V60_WORD % 0x1000 == V60_VOFF && V11_WORD / 0x1000 == 4
      && V11_WORD % 0x1000 == 0x2C;
  }

  /** What an arm admits, exactly: emulation on and no FPU, its own frame word, and a status register
      with bit 13, the supervisor bit, clear. */
  lemma AdmittedExactly(vector: nat, present: bool, emulating: bool, xf: seq<Half>)
    requires vector == 11 || vector == 60
    ensures Admitted(vector, present, emulating, xf) <==>
      && emulating && !present
      && (if vector == 60 then |xf| >= 4 && xf[3] == 0x00F0 else |xf| >= 8 && xf[3] == 0x402C)
      && xf[0] % 0x4000 < 0x2000
  {
    if |xf| >= 4 {
      BitClear(xf[0] / 0x4000, xf[0] % 0x4000);
    }
  }

  lemma BitClear(high: nat, low: nat)
    requires low < 0x4000
    ensures (0x4000 * high + low) / 0x2000 % 2 == 0 <==> low < 0x2000
  {
    if low < 0x2000 {
      assert (0x4000 * high + low) / 0x2000 == 2 * high;
    } else {
      assert (0x4000 * high + low) / 0x2000 == 2 * high + 1;
    }
  }

  /** What makes the gate refuse: either fetch fails, or the command word selects fmovem of control
      registers, its top two bits 10. */
  predicate GateRefuses(env: Env) { env.op.Fault? || env.cmd.Fault? || 0x8000 <= env.cmd.w < 0xC000 }

  /** A refused vector-60 form restarts: through the frame, the gate and the signal arm the PC is the
      faulting instruction's as the CPU stacked it and so is si_addr, no register changes, the
      emulator is never asked, and the entry closes as one vector-60 signal, SIGSEGV exactly if a
      fetch failed.  Every other form reaches the emulator. */
  lemma RefusalRestarts(g: Shared, me: nat, regs: seq<int>, usp: int, xf: seq<Half>, env: Env)
    requires Admitted(60, false, true, xf)
    ensures var t := ReadTrap(regs, usp, xf);
      var v := Serve(Acquire(g, me), me, t, env);
      && (GateRefuses(env) ==>
        && v.signal.Some? && v.regs == regs + [usp] && !v.g.busy
        && ResumePc(t, v) == Join(xf[1], xf[2]) == t.fault
        && (forall e :: Serve(Acquire(g, me), me, t, env.(emu := e)) == v)
        && var p := Post(t, v.pc, v.signal.value);
        && p.addr == t.fault && (p.signo == SIGSEGV <==> env.op.Fault? || env.cmd.Fault?)
        && p.code == (if p.signo == 11 then 2 else 1) && p.signo == (if p.signo == SIGSEGV then 11 else 4)
        && Account(v.g.n, t, v, env).eaSig == g.n.eaSig + 1 && Account(v.g.n, t, v, env).eaDone == g.n.eaDone)
      && (!GateRefuses(env) ==>
        v.pc == env.emu.pc && v.regs == env.emu.regs && (v.signal.None? <==> env.emu.Done?))
  {
    hide Join;
    AdmittedShape(60, xf, regs, usp);
  }

  /** `k` sleeps on the lock: none if it was free, else as many as it takes to find it free. */
  ghost predicate SleptFor(busy: bool, stillBusy: seq<bool>, k: int) {
    if k == 0 then !busy
    else busy && 0 < k <= |stillBusy| && !stillBusy[k - 1] && forall i :: 0 <= i < k - 1 ==> stillBusy[i]
  }

  // ---- What one entry comes to, from the raw frame and the answers

  function One(b: bool): nat { if b then 1 else 0 }

  /** SVR4's codes for the FPSR exceptions, most significant first. */
  const CODES := [7, 7, 7, 4, 5, 3, 6, 6]

  /** Exception `k` is bit 15 - k, and a lone one is reported with its own code. */
  lemma OneException(k: nat)
    requires k < 8
    ensures Bit(k) == (0x8000 as bv32) >> k && ClassOf(k) == CODES[k]
    ensures FltCode(Bit(k), Bit(k)) == CODES[k]
  {
  }

  /** The stacked PC and the faulting instruction's address, as the CPU pushed them. */
  function StackedPc(xf: seq<Half>): Long
    requires RawFrame(xf)
  {
    (xf[1] as int) * 0x1_0000 + xf[2]
  }

  function FaultPc(xf: seq<Half>): Long
    requires RawFrame(xf)
  {
    if xf[3] / 0x1000 == 4 then (xf[6] as int) * 0x1_0000 + xf[7] else StackedPc(xf)
  }

  predicate OnVector60(xf: seq<Half>)
    requires RawFrame(xf)
  {
    xf[3] % 0x1000 == 240
  }

  /** The emulator is asked unless the vector-60 gate refuses. */
  predicate Asked(xf: seq<Half>, env: Env)
    requires RawFrame(xf)
  {
    OnVector60(xf) ==> !GateRefuses(env)
  }

  lemma FrameRead(regs: seq<int>, usp: int, xf: seq<Half>)
    requires RawFrame(xf)
    ensures var t := ReadTrap(regs, usp, xf);
      && t.stacked == StackedPc(xf) && t.fault == FaultPc(xf) && (t.V60() <==> OnVector60(xf))
      && t.format == xf[3] / 0x1000 && t.regs == regs + [usp]
  {
  }

  /** A bare SIGFPE: signal 8 without a code. */
  predicate Bare(e: Emulation) { e.Raise? && e.signo == 8 && e.code == 0 }

  /** How the emulator's signal is posted: a bare SIGFPE with the code of the most significant exception
      raised and enabled, at the emulator's address and PC, exactly when there is one, and as SIGILL
      rewound to the faulting instruction otherwise; any other signal just as the emulator gave it. */
  predicate PostedAsRaised(p: Posted, e: Emulation, fault: Long)
    requires e.Raise?
  {
    var k := TopException(e.fpsr & e.fpcr & 0xFF00, 0);
    if !Bare(e) then p.signo == e.signo && p.code == e.code && p.addr == e.addr && p.pc == e.pc
    else if k < 8 then p.signo == 8 && p.code == CODES[k] && p.addr == e.addr && p.pc == e.pc
    else p.signo == 4 && p.code == 1 && p.pc == fault && p.addr == if e.pc != fault then fault else e.addr
  }

  /** Whatever the emulator raises is posted so, on either vector. */
  lemma RaiseIsPosted(g: Shared, me: nat, regs: seq<int>, usp: int, xf: seq<Half>, env: Env)
    requires RawFrame(xf) && Asked(xf, env) && env.emu.Raise?
    ensures var t, e := ReadTrap(regs, usp, xf), env.emu;
      var v := Serve(Acquire(g, me), me, t, env);
      && v.signal.Some? && v.regs == e.regs && ResumePc(t, v) == Post(t, v.pc, v.signal.value).pc
      && PostedAsRaised(Post(t, v.pc, v.signal.value), e, FaultPc(xf))
  {
    hide PostedAsRaised, Post, Serve, FormOf, ReadTrap, ResumePc, Acquire;
    var e, t := env.emu, ReadTrap(regs, usp, xf);
    FrameRead(regs, usp, xf);
    assert t.fault == FaultPc(xf) && (t.V60() ==> !GateRefuses(env));
    hide FaultPc, RawFrame, GateRefuses;
    ServesRaise(g, me, t, env);
    PostsRaise(t, e);
  }

  /** A raised signal is asked for as it is. */
  lemma ServesRaise(g: Shared, me: nat, t: Trap, env: Env)
    requires (t.V60() ==> !GateRefuses(env)) && env.emu.Raise?
    ensures var e, v := env.emu, Serve(Acquire(g, me), me, t, env);
      && v.signal == Some(Signal(e.signo, e.code, e.addr, e.fpsr, e.fpcr)) && v.pc == e.pc && v.regs == e.regs
      && ResumePc(t, v) == Post(t, v.pc, v.signal.value).pc
  {
    hide Post, CountForm;
  }

  lemma PostsRaise(t: Trap, e: Emulation)
    requires e.Raise?
    ensures PostedAsRaised(Post(t, e.pc, Signal(e.signo, e.code, e.addr, e.fpsr, e.fpcr)), e, t.fault)
  {
    hide TopException, FltCode, CODES;
    RaisedCode(e.fpsr, e.fpcr);
  }

  lemma RaisedCode(fpsr: bv32, fpcr: bv32)
    ensures var k := TopException(fpsr & fpcr & 0xFF00, 0);
      k <= 8 && FltCode(fpsr, fpcr) == (if k < 8 then CODES[k] else 0) && (FltCode(fpsr, fpcr) == 0 <==> k == 8)
  {
    hide TopException, FltCode, Raised;
    RaisedBits(fpsr, fpcr);
    CodeIsTopException(fpsr, fpcr);
    TopIsPosition(Raised(fpsr, fpcr), 0);
    ClassIsCode(TopException(Raised(fpsr, fpcr), 0));
  }

  lemma ClassIsCode(k: nat)
    ensures k < 8 ==> ClassOf(k) == CODES[k] && CODES[k] != 0
  {
  }

  lemma RaisedBits(fpsr: bv32, fpcr: bv32)
    ensures Raised(fpsr, fpcr) == fpsr & fpcr & 0xFF00
  {
  }

  lemma {:induction false} TopIsPosition(r: bv32, i: nat)
    requires i <= 8
    ensures i <= TopException(r, i) <= 8
    decreases 8 - i
  {
    if i < 8 {
      TopIsPosition(r, i + 1);
    }
  }

  /** What any other end is: nothing posted when the instruction was done; after an abort SIGILL at the
      PC the emulator had reached, or SIGSEGV at the address that failed; the PC is the emulator's. */
  lemma OtherEnds(g: Shared, me: nat, regs: seq<int>, usp: int, xf: seq<Half>, env: Env)
    requires RawFrame(xf) && Asked(xf, env) && !env.emu.Raise?
    ensures var t, e := ReadTrap(regs, usp, xf), env.emu;
      var v := Serve(Acquire(g, me), me, t, env);
      && v.regs == e.regs && ResumePc(t, v) == e.pc && (v.signal.None? <==> e.Done?)
      && (e.Panic? ==> Post(t, v.pc, v.signal.value) == Posted(4, 1, e.pc, e.pc, false, false))
      && (e.CopyFault? ==> Post(t, v.pc, v.signal.value) == Posted(11, 2, e.addr, e.pc, false, false))
  {
    FrameRead(regs, usp, xf);
    hide FltCode, FormOf, CountForm, RawFrame, Join;
  }

  /** The lock, the setjmp buffer and the frame pointer are given back whatever the end. */
  lemma LaneIsFreed(g: Shared, me: nat, t: Trap, env: Env)
    ensures var v := Serve(Acquire(g, me), me, t, env); !v.g.busy && v.g.jb == None && v.g.cur == None
  {
  }

  /** What an instruction done adds, on either vector: the ending, what the instrument makes of a PC off
      the straight line, the pending-signal tests. */
  ghost function DoneAdds(m: Counters, t: Trap, pc: Long, env: Env): Counters {
    var seen, w := t.format == 4 && pc != t.stacked, env.adv;
    m.(done := m.done + One(t.vector != 240), eaDone := m.eaDone + One(t.vector == 240),
       advNoFetch := m.advNoFetch + One(seen && w.Fault?),
       advControl := m.advControl + One(seen && w.Word? && BranchWord(w.w)),
       advMiss := m.advMiss + One(seen && w.Word? && !BranchWord(w.w)),
       sigPend := m.sigPend + One(env.pend), sigDeliver := m.sigDeliver + One(env.pend && env.issig))
  }

  /** What signal `signo` adds, `none` if it was a bare SIGFPE with no exception raised and enabled: one
      of the four classes on vector 11, and the rewind if the PC had moved. */
  ghost function SignalAdds(m: Counters, t: Trap, pc: Long, signo: int, none: bool): Counters {
    var on11 := t.vector != 240;
    m.(sig := m.sig + One(on11), eaSig := m.eaSig + One(!on11),
       sigfpe := m.sigfpe + One(on11 && signo == 8), sigill := m.sigill + One(on11 && signo == 4),
       sigsegv := m.sigsegv + One(on11 && signo == 11),
       sigother := m.sigother + One(on11 && signo != 8 && signo != 4 && signo != 11),
       undecoded := m.undecoded + One(none), rewind := m.rewind + One(none && pc != t.fault))
  }

  /** What the emulator's turn adds to the counters: aborts, then its ending; all else stays. */
  lemma TurnIsCounted(g: Shared, me: nat, t: Trap, env: Env)
    requires t.V60() ==> !GateRefuses(env)
    ensures var e, v := env.emu, Serve(Acquire(g, me), me, t, env);
      var n := if t.V60() then CountForm(g.n, FormOf(env.cmd)) else g.n;
      var m := n.(panics := n.panics + One(e.Panic?), copyFail := n.copyFail + One(e.CopyFault?));
      Account(v.g.n, t, v, env) ==
        if e.Done? then DoneAdds(m, t, e.pc, env)
        else
          var none := Bare(e) && Raised(e.fpsr, e.fpcr) == 0;
          SignalAdds(m, t, e.pc, if e.Panic? || none then 4 else if e.CopyFault? then 11 else e.signo, none)
  {
    ServesTurn(g, me, t, env);
    var v := Serve(Acquire(g, me), me, t, env);
    hide Serve, CountForm, FormOf, CountSignal, CountDone, CountAdvice, CountPending, AdviceOf, Post, Raised, Compared;
    hide DoneAdds, SignalAdds;
    if env.emu.Done? {
      DoneIsCounted(v.g.n, t, v, env);
    } else {
      SignalIsCounted(v.g.n, t, v.pc, v.signal.value);
    }
  }

  /** What a refused form adds: the form, and one vector-60 signal. */
  lemma RefusalIsCounted(g: Shared, me: nat, t: Trap, env: Env)
    requires t.V60() && GateRefuses(env)
    ensures var v := Serve(Acquire(g, me), me, t, env);
      Account(v.g.n, t, v, env) ==
        var n := CountForm(g.n, if env.op.Fault? then FetchFailed else FormOf(env.cmd)); n.(eaSig := n.eaSig + 1)
  {
    hide CountForm, FltCode;
  }

  lemma ServesTurn(g: Shared, me: nat, t: Trap, env: Env)
    requires t.V60() ==> !GateRefuses(env)
    ensures var e, v := env.emu, Serve(Acquire(g, me), me, t, env);
      var n := if t.V60() then CountForm(g.n, FormOf(env.cmd)) else g.n;
      && v.g.n == n.(panics := n.panics + One(e.Panic?), copyFail := n.copyFail + One(e.CopyFault?))
      && v.pc == e.pc && (v.signal.None? <==> e.Done?)
      && (e.Raise? ==> v.signal.value == Signal(e.signo, e.code, e.addr, e.fpsr, e.fpcr))
      && (e.Panic? ==> v.signal.value.signo == 4 && v.signal.value.code == 1)
      && (e.CopyFault? ==> v.signal.value.signo == 11 && v.signal.value.code == 2)
  {
    hide CountForm;
  }

  lemma DoneIsCounted(m: Counters, t: Trap, v: Verdict, env: Env)
    requires v.signal.None?
    ensures Account(m, t, v, env) == DoneAdds(m, t, v.pc, env)
  {
    if env.adv.Word? {
      BranchBits(env.adv.w);
    }
    hide BranchWord;
  }

  lemma SignalIsCounted(m: Counters, t: Trap, pc: Long, s: Signal)
    ensures var none := s.signo == 8 && s.code == 0 && Raised(s.fpsr, s.fpcr) == 0;
      CountSignal(m, t, Post(t, pc, s)) == SignalAdds(m, t, pc, if none then 4 else s.signo, none)
  {
    CodeIsTopException(s.fpsr, s.fpcr);
    hide FltCode, Raised, TopException;
  }

  /** What the vector-60 gate counts, by the command word. */
  lemma FormIsCounted(n: Counters, op: Fetch, cmd: Fetch)
    ensures var w := if op.Word? && cmd.Word? then cmd.w else 0;
      var got := op.Word? && cmd.Word?;
      CountForm(n, if op.Fault? then FetchFailed else FormOf(cmd)) == n.(
        eaFetchFail := n.eaFetchFail + One(!got), eaImm := n.eaImm + One(got && w < 0x8000),
        eaPack := n.eaPack + One(got && w < 0x8000 && Packed(w)),
        eaControl := n.eaControl + One(got && 0x8000 <= w < 0xC000),
        eaRegisters := n.eaRegisters + One(got && w >= 0xC000))
  {
    if cmd.Word? && cmd.w < 0x8000 {
      PackedBits(cmd.w);
    }
    hide Packed;
  }

  predicate BitOf(w: nat, weight: nat)
    requires weight > 0
  {
    w / weight % 2 == 1
  }

  /** Bits 12 to 10 of a command word are 011: packed decimal. */
  predicate Packed(w: Half) { !BitOf(w, 0x1000) && BitOf(w, 0x800) && BitOf(w, 0x400) }

  lemma ThreeBits(x: nat)
    ensures x % 8 == 4 * One(BitOf(x, 4)) + 2 * One(BitOf(x, 2)) + One(BitOf(x, 1))
  {
    Halved(x);
    Halved(x / 2);
    Halved(x / 4);
    DividedTwice(x);
    var low := 4 * One(BitOf(x, 4)) + 2 * One(BitOf(x, 2)) + One(BitOf(x, 1));
    Rest8(x, x / 4 / 2, low);
  }

  lemma Halved(x: nat)
    ensures x == 2 * (x / 2) + x % 2
  {
  }

  lemma DividedTwice(x: nat)
    ensures x / 2 / 2 == x / 4
  {
  }

  lemma Rest8(x: nat, k: nat, r: nat)
    requires x == 8 * k + r && r < 8
    ensures x % 8 == r
  {
  }

  lemma PackedBits(w: Half)
    requires w < 0x8000
    ensures FormOf(Word(w)) == Immediate(Packed(w))
  {
    ThreeBits(w / 0x400);
    assert w / 0x400 / 4 == w / 0x1000 && w / 0x400 / 2 == w / 0x800;
  }

  /** The op words the emulator may take a branch on: FBcc in either size, bits 8 and 7 being 01, and
      FDBcc, bits 8 to 6 being 001 and bits 5 to 3 too. */
  predicate BranchWord(w: Half) {
    && !BitOf(w, 0x100)
    && (BitOf(w, 0x80) || (BitOf(w, 0x40) && !BitOf(w, 0x20) && !BitOf(w, 0x10) && BitOf(w, 8)))
  }

  lemma BranchBits(w: Half)
    ensures AdviceOf(Word(w)) == if BranchWord(w) then Branch else Miss
  {
    ThreeBits(w / 0x40);
    ThreeBits(w / 8);
    assert w / 0x40 / 4 == w / 0x100 && w / 0x40 / 2 == w / 0x80 && w / 8 / 4 == w / 0x20 && w / 8 / 2 == w / 0x10;
  }

  datatype Result = Blocked | Emulated | Signalled

  class Glue {
    var busy: bool
    var jb: Option<nat>
    var cur: Option<nat>
    var latch: Latch
    var n: Counters
    var lastFpsr: bv32
    var lastSigno: int
    var lastCode: int
    var lastAddr: Long

    constructor (n: Counters)
      ensures State() == Shared(false, None, None, UNSET, n)
    {
      busy, jb, cur, latch, lastFpsr := false, None, None, UNSET, 0;
      lastSigno, lastCode, lastAddr := 0, 0, 0;
      this.n := n;
    }

    function State(): Shared
      reads this
    {
      Shared(busy, jb, cur, latch, n)
    }

    /** The signal that was posted last. */
    predicate Told(p: Posted)
      reads this
    {
      lastSigno == p.signo && lastCode == p.code && lastAddr == p.addr
    }

    /** The ladder, which also latches the FPSR it looked at. */
    method DeriveCode(fpsr: bv32, fpcr: bv32) returns (code: int)
      modifies this`lastFpsr
      ensures code == FltCode(fpsr, fpcr) && lastFpsr == fpsr
    {
      var raised := fpsr & fpcr & EXCP;
      lastFpsr := fpsr;
      if raised & 0xE000 != 0 { return FPE_FLTINV; }
      if raised & 0x1000 != 0 { return FPE_FLTOVF; }
      if raised & 0x0800 != 0 { return FPE_FLTUND; }
      if raised & 0x0400 != 0 { return FPE_FLTDIV; }
      if raised & 0x0300 != 0 { return FPE_FLTRES; }
      return 0;
    }

    /** The entry lock: sleep while it is taken, then take it. */
    method Lock(stillBusy: seq<bool>) returns (got: bool)
      modifies this
      ensures got <==> !old(busy) || false in stillBusy
      ensures busy && jb == old(jb) && cur == old(cur) && latch == old(latch)
      ensures n == old(n).(lockWait := n.lockWait) && n.lockWait >= old(n).lockWait
      ensures got ==> SleptFor(old(busy), stillBusy, n.lockWait - old(n).lockWait)
      ensures !got ==> n.lockWait - old(n).lockWait == |stillBusy| + 1
    {
      var k := 0;
      while busy
        invariant k <= |stillBusy| && busy == (if k == 0 then old(busy) else stillBusy[k - 1])
        invariant false !in stillBusy[..k] || !busy
        invariant k > 0 ==> old(busy)
        invariant busy ==> forall i :: 0 <= i < k ==> stillBusy[i]
        invariant !busy ==> SleptFor(old(busy), stillBusy, k)
        invariant n == old(n).(lockWait := old(n).lockWait + k)
        invariant jb == old(jb) && cur == old(cur) && latch == old(latch)
        decreases |stillBusy| - k
      {
        n := n.(lockWait := n.lockWait + 1);
        if k == |stillBusy| {
          assert stillBusy[..k] == stillBusy;
          return false;
        }
        busy := stillBusy[k];
        assert stillBusy[..k + 1] == stillBusy[..k] + [stillBusy[k]];
        k := k + 1;
      }
      busy := true;
      return true;
    }

    /** The form gate, the emulator behind setjmp, and the release. */
    method ServeLocked(me: nat, f: Trap, env: Env) returns (pc: Long, after: seq<int>, signal: Option<Signal>)
      requires busy
      modifies this`latch, this`cur, this`jb, this`busy, this`n
      ensures Serve(Acquire(old(State()), me), me, f, env) == Verdict(State(), pc, after, signal)
      ensures after == f.regs || after == env.emu.regs
    {
      latch := CLEAR;
      cur := Some(me);
      pc, after, signal := f.stacked, f.regs, None;
      if f.V60() {
        var form := if env.op.Fault? then FetchFailed else FormOf(env.cmd);
        n := CountForm(n, form);
        if Refused(form) {
          signal := Some(RefusalSignal(f, form));
        }
      }
      if signal.None? {
        jb := Some(me);
        pc, after := env.emu.pc, env.emu.regs;
        if !env.emu.Done? {
          if !env.emu.Raise? {
            var h := LatchAbort(State(), env.emu);
            latch := h.latch;
            n := h.n;
          }
          signal := Some(EmulationSignal(State(), env.emu));
        }
      }
      jb := None;
      cur := None;
      busy := false;
    }

    /** The signal arm: derive the code of a bare SIGFPE, rewind what was never executed, count. */
    method PostSignal(f: Trap, pc: Long, s: Signal, xf: array<Half>)
      requires xf.Length >= 4 && Join(xf[1], xf[2]) == pc
      modifies this`n, this`lastFpsr, this`lastSigno, this`lastCode, this`lastAddr, xf
      ensures var p := Post(f, pc, s);
        && n == CountSignal(old(n), f, p) && Join(xf[1], xf[2]) == p.pc
        && Told(p)
      ensures forall i :: 0 <= i < xf.Length && i != 1 && i != 2 ==> xf[i] == old(xf[i])
    {
      if f.V60() {
        n := n.(eaSig := n.eaSig + 1);
      } else {
        n := n.(sig := n.sig + 1);
      }
      var signo, code, addr := s.signo, s.code, s.addr;
      if signo == SIGFPE && code == 0 {
        code := DeriveCode(s.fpsr, s.fpcr);
        if code == 0 {
          n := n.(undecoded := n.undecoded + 1);
          signo, code := SIGILL, ILL_ILLOPC;
          if pc != f.fault {
            n := n.(rewind := n.rewind + 1);
            SetPc(xf, f.fault);
            addr := f.fault;
          }
        }
      }
      if !f.V60() {
        if signo == SIGFPE {
          n := n.(sigfpe := n.sigfpe + 1);
        } else if signo == SIGILL {
          n := n.(sigill := n.sigill + 1);
        } else if signo == SIGSEGV {
          n := n.(sigsegv := n.sigsegv + 1);
        } else {
          n := n.(sigother := n.sigother + 1);
        }
      }
      lastSigno, lastCode, lastAddr := signo, code, addr;
    }

    /** fpe_trap, once through.  Registers, the USP and the PC are written back in place; SR, the
        format word and the tail are not touched. */
    method Trap(me: nat, uspp: array<int>, regs: array<int>, xf: array<Half>, env: Env) returns (r: Result)
      requires uspp != regs && uspp.Length == 1 && regs.Length == 15 && RawFrame(xf[..])
      requires |env.emu.regs| == 16
      modifies this, uspp, regs, xf
      ensures r.Blocked? <==> old(busy) && false !in env.stillBusy
      ensures r.Blocked? ==> regs[..] == old(regs[..]) && uspp[0] == old(uspp[0]) && xf[..] == old(xf[..])
      ensures r.Blocked? ==>
        State() == old(State()).(n := old(n).(lockWait := old(n).lockWait + |env.stillBusy| + 1))
      ensures !r.Blocked? ==> exists waits: nat ::
        var t := ReadTrap(old(regs[..]), old(uspp[0]), old(xf[..]));
        var start := old(State()).(busy := true, n := old(n).(lockWait := waits));
        var v := Serve(Acquire(start, me), me, t, env);
        && SleptFor(old(busy), env.stillBusy, waits - old(n).lockWait)
        && State() == v.g.(n := Account(v.g.n, t, v, env))
        && regs[..] + [uspp[0]] == v.regs && Join(xf[1], xf[2]) == ResumePc(t, v)
        && (r.Signalled? <==> v.signal.Some?)
        && (r.Signalled? ==> Told(Post(t, v.pc, v.signal.value)))
      ensures forall i :: 0 <= i < xf.Length && i != 1 && i != 2 ==> xf[i] == old(xf[i])
    {
      hide CountForm, CountSignal, CountDone, CountAdvice, CountPending, Serve, AdviceOf, Compared, Join, Post;
      var got := Lock(env.stillBusy);
      if !got { return Blocked; }
      ghost var start := State();
      var f := ReadTrap(regs[..], uspp[0], xf[..]);
      var pc, after, signal := ServeLocked(me, f, env);
      WriteBack(uspp, regs, xf, pc, after);
      if signal.None? {
        if Compared(f, pc) {
          n := CountAdvice(n, AdviceOf(env.adv));
        }
        n := CountDone(n, f);
        n := CountPending(n, env.pend, env.issig);
        r := Emulated;
      } else {
        PostSignal(f, pc, signal.value, xf);
        r := Signalled;
      }
      ghost var waits := start.n.lockWait;
      assert start == old(State()).(busy := true, n := old(n).(lockWait := waits));
    }

    method WriteBack(uspp: array<int>, regs: array<int>, xf: array<Half>, pc: Long, after: seq<int>)
      requires uspp != regs && uspp.Length == 1 && regs.Length == 15 && xf.Length >= 4 && |after| == 16
      modifies uspp, regs, xf
      ensures regs[..] + [uspp[0]] == after && Join(xf[1], xf[2]) == pc
      ensures forall i :: 0 <= i < xf.Length && i != 1 && i != 2 ==> xf[i] == old(xf[i])
    {
      for i := 0 to 15
        invariant forall k :: 0 <= k < i ==> regs[k] == after[k]
        invariant xf[..] == old(xf[..])
      {
        regs[i] := after[i];
      }
      uspp[0] := after[15];
      SetPc(xf, pc);
      assert regs[..] + [uspp[0]] == after;
    }

    method SetPc(xf: array<Half>, pc: Long)
      requires xf.Length >= 4
      modifies xf
      ensures Join(xf[1], xf[2]) == pc
      ensures forall i :: 0 <= i < xf.Length && i != 1 && i != 2 ==> xf[i] == old(xf[i])
    {
      xf[1], xf[2] := pc / 0x1_0000, pc % 0x1_0000;
    }
  }
}
