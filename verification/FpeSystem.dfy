/** The soft-FPU lane as many processes see it: every interleaving of `FpeGlue`'s pieces.  The kernel
    is uniprocessor and does not preempt itself, so one step is what a process does between two
    points where it can sleep: the lock, a user fetch, the emulator, signal delivery. */
module FpeSystem {
  import opened FpeGlue

  /** Where a process is.  GateOp, GateCmd and Emulating are inside the lock; Checking is the
      instrument's fetch after it; Delivering is issig/psig, with what was posted, if anything. */
  datatype Stage =
    | User | Asleep(t: Trap) | Awake(t: Trap)
    | GateOp(t: Trap) | GateCmd(t: Trap) | Emulating(t: Trap)
    | Checking(t: Trap, pc: Long) | Delivering(sent: Option<Posted>) | Dead

  /** What an entry leaves its process with: registers, PC, and the signal posted, if any. */
  datatype Left = Left(regs: seq<int>, pc: Long, posted: Option<Posted>)

  function LeftBy(t: Trap, v: Verdict): Left {
    Left(v.regs, ResumePc(t, v), if v.signal.Some? then Some(Post(t, v.pc, v.signal.value)) else None)
  }

  /** `in11` and `in60` count the entries that got past the lock, by vector; `wild` is a longjmp into
      anything but the frame of the process that aborted, or a kernel panic; `left` is each process's
      last entry as it ended. */
  datatype Sys = Sys(g: Shared, procs: map<nat, Stage>, in11: nat, in60: nat, wild: bool, left: map<nat, Left>)

  datatype Event =
    | Enter(p: nat, t: Trap) | Retry(p: nat)
    | FetchOp(p: nat, op: Fetch) | FetchCmd(p: nat, cmd: Fetch)
    | Returns(p: nat, e: Emulation, pend: bool)
    | Classify(p: nat, op: Fetch, pend: bool)
    | Issig(p: nat, deliver: bool, dies: bool)

  function Put(s: Sys, p: nat, g: Shared, st: Stage): Sys { s.(g := g, procs := s.procs[p := st]) }

  /** wakeup(&fpe_busy): every sleeper there runs again. */
  function Woken(procs: map<nat, Stage>): map<nat, Stage> {
    map q | q in procs :: if procs[q].Asleep? then Awake(procs[q].t) else procs[q]
  }

  function TryLock(s: Sys, p: nat, t: Trap): Sys {
    if s.g.busy then Put(s, p, s.g.(n := s.g.n.(lockWait := s.g.n.lockWait + 1)), Asleep(t))
    else
      var g := Acquire(s.g, p);
      if t.V60() then Put(s, p, g, GateOp(t)).(in60 := s.in60 + 1)
      else Put(s, p, g.(jb := Some(p)), Emulating(t)).(in11 := s.in11 + 1)
  }

  /** The success path up to issig. */
  function Succeed(s: Sys, p: nat, g: Shared, t: Trap, pend: bool): Sys {
    Put(s, p, g.(n := CountPending(CountDone(g.n, t), pend, false)), if pend then Delivering(None) else User)
  }

  /** From the wakeup to the next point where the process can sleep. */
  function Leave(s: Sys, p: nat, t: Trap, v: Verdict, pend: bool): Sys {
    var w := s.(procs := Woken(s.procs), left := s.left[p := LeftBy(t, v)]);
    match v.signal
    case Some(sig) =>
      var out := Post(t, v.pc, sig);
      Put(w, p, v.g.(n := CountSignal(v.g.n, t, out)), Delivering(Some(out)))
    case None =>
      if Compared(t, v.pc) then Put(w, p, v.g, Checking(t, v.pc)) else Succeed(w, p, v.g, t, pend)
  }

  function Gate(s: Sys, p: nat, t: Trap, form: Form): Sys {
    var g := s.g.(n := CountForm(s.g.n, form));
    if Refused(form) then Leave(s, p, t, Refuse(g, t, form), false) else Put(s, p, g.(jb := Some(p)), Emulating(t))
  }

  /** An abort jumps through the one setjmp buffer and reads the PC through the one frame pointer,
      whoever they belong to. */
  predicate JumpsHome(g: Shared, p: nat, e: Emulation) {
    e.Done? || e.Raise? || (g.jb == Some(p) && g.cur == Some(p))
  }

  predicate Enabled(s: Sys, e: Event) {
    e.p in s.procs &&
    match e
    case Enter(p, _) => s.procs[p].User?
    case Retry(p) => s.procs[p].Awake?
    case FetchOp(p, _) => s.procs[p].GateOp?
    case FetchCmd(p, _) => s.procs[p].GateCmd?
    case Returns(p, _, _) => s.procs[p].Emulating?
    case Classify(p, _, _) => s.procs[p].Checking?
    case Issig(p, _, _) => s.procs[p].Delivering?
  }

  function Next(s: Sys, e: Event): Sys
    requires Enabled(s, e)
  {
    match e
    case Enter(p, t) => TryLock(s, p, t)
    case Retry(p) => TryLock(s, p, s.procs[p].t)
    case FetchOp(p, op) =>
      if op.Fault? then Gate(s, p, s.procs[p].t, FetchFailed) else Put(s, p, s.g, GateCmd(s.procs[p].t))
    case FetchCmd(p, cmd) => Gate(s, p, s.procs[p].t, FormOf(cmd))
    case Returns(p, emu, pend) =>
      if JumpsHome(s.g, p, emu) then Leave(s, p, s.procs[p].t, Settle(s.g, emu), pend) else s.(wild := true)
    case Classify(p, op, pend) =>
      Succeed(s, p, s.g.(n := CountAdvice(s.g.n, AdviceOf(op))), s.procs[p].t, pend)
    case Issig(p, deliver, dies) =>
      var n := s.g.n;
      var counted := s.procs[p].sent.None? && deliver;
      Put(s, p, s.g.(n := n.(sigDeliver := n.sigDeliver + if counted then 1 else 0)),
          if deliver && dies then Dead else User)
  }

  predicate Runs(s: Sys, es: seq<Event>)
    decreases |es|
  {
    es == [] || (Enabled(s, es[0]) && Runs(Next(s, es[0]), es[1..]))
  }

  function EndOf(s: Sys, es: seq<Event>): Sys
    requires Runs(s, es)
    decreases |es|
  {
    if es == [] then s else EndOf(Next(s, es[0]), es[1..])
  }

  predicate Start(s: Sys) {
    && s.g == Shared(false, None, None, s.g.latch, ZERO) && s.in11 == 0 && s.in60 == 0 && !s.wild
    && forall p :: p in s.procs ==> s.procs[p].User?
  }

  const ZERO := Counters(0, 0, 0, 0, 0, 0, 0, 0, 0, 0, 0, 0, 0, 0, 0, 0, 0, 0, 0, 0, 0, 0, 0)

  // ---- The entry lock

  predicate Holds(st: Stage) { st.GateOp? || st.GateCmd? || st.Emulating? }

  /** What one process may be, given the shared state. */
  predicate Fits(g: Shared, p: nat, st: Stage) {
    && (Holds(st) <==> g.cur == Some(p))
    && (st.Emulating? <==> g.jb == Some(p))
    && (st.Asleep? ==> g.busy)
  }

  predicate LockInv(s: Sys) {
    && !s.wild
    && (s.g.busy <==> s.g.cur.Some?)
    && (s.g.jb.Some? ==> s.g.jb == s.g.cur)
    && (s.g.cur.Some? ==> s.g.cur.value in s.procs)
    && (s.g.busy ==> s.g.latch == CLEAR)
    && forall p :: p in s.procs ==> Fits(s.g, p, s.procs[p])
  }

  /** A try for the lock: while it is taken one more sleep is counted and the process sleeps; once it is
      free the process has it, with clean latches, and goes to the gate or straight to the emulator. */
  lemma TryIsCounted(s: Sys, e: Event)
    requires Enabled(s, e) && (e.Enter? || e.Retry?)
    ensures var z, t := Next(s, e), if e.Enter? then e.t else s.procs[e.p].t;
      && z.g.n == s.g.n.(lockWait := s.g.n.lockWait + One(s.g.busy)) && z.g.busy
      && (s.g.busy ==> z.procs[e.p] == Asleep(t) && z.g.cur == s.g.cur && z.g.jb == s.g.jb && z.g.latch == s.g.latch)
      && (!s.g.busy ==> z.g.cur == Some(e.p) && z.g.latch == Latch(0, 0, 0))
      && (!s.g.busy ==> z.procs[e.p] == if t.vector == 240 then GateOp(t) else Emulating(t))
      && forall q :: q in s.procs && q != e.p ==> z.procs[q] == s.procs[q]
  {
  }

  lemma LeaveKeepsLock(s: Sys, p: nat, t: Trap, v: Verdict, pend: bool)
    requires LockInv(s) && p in s.procs && Holds(s.procs[p]) && v.g == Release(v.g)
    ensures LockInv(Leave(s, p, t, v, pend))
  {
    hide CountSignal, CountDone, CountPending, Post, Compared;
  }

  lemma StepKeepsLock(s: Sys, e: Event)
    requires LockInv(s) && Enabled(s, e)
    ensures LockInv(Next(s, e))
  {
    hide CountSignal, CountDone, CountPending, CountForm, CountAdvice, Post, Compared, Leave, FormOf, AdviceOf,
      EmulationSignal;
    var p := e.p;
    assert Fits(s.g, p, s.procs[p]);
    match e
    case FetchOp(_, op) =>
      if op.Fault? {
        LeaveKeepsLock(s, p, s.procs[p].t,
                        Refuse(s.g.(n := CountForm(s.g.n, FetchFailed)), s.procs[p].t, FetchFailed), false);
      }
    case FetchCmd(_, cmd) =>
      var form := FormOf(cmd);
      if Refused(form) {
        LeaveKeepsLock(s, p, s.procs[p].t, Refuse(s.g.(n := CountForm(s.g.n, form)), s.procs[p].t, form), false);
      }
    case Returns(_, emu, pend) =>
      LeaveKeepsLock(s, p, s.procs[p].t, Settle(s.g, emu), pend);
    case _ =>
  }

  lemma {:induction false} RunKeepsLock(s: Sys, es: seq<Event>)
    requires LockInv(s) && Runs(s, es)
    ensures LockInv(EndOf(s, es))
    decreases |es|
  {
    if es != [] {
      StepKeepsLock(s, es[0]);
      RunKeepsLock(Next(s, es[0]), es[1..]);
    }
  }

  /** Over every interleaving: at most one process is between the lock and its release; the frame
      pointer is that process's and so is the setjmp buffer, armed exactly while it is in the
      emulator; no longjmp ever lands in another frame; the abort latches are clean whenever the
      lock is held; and a process in the instrument, in issig/psig or gone holds nothing. */
  lemma EntryLockSafety(s: Sys, es: seq<Event>)
    requires Start(s) && Runs(s, es)
    ensures var z := EndOf(s, es);
      && !z.wild
      && (forall p, q :: p in z.procs && q in z.procs && Holds(z.procs[p]) && Holds(z.procs[q]) ==> p == q)
      && (forall p :: p in z.procs && Holds(z.procs[p]) ==> z.g.busy && z.g.cur == Some(p) && z.g.latch == CLEAR)
      && (forall p :: p in z.procs ==> (z.procs[p].Emulating? <==> z.g.jb == Some(p)))
      && (z.g.busy ==> exists p :: p in z.procs && Holds(z.procs[p]))
      && (forall p :: p in z.procs && z.procs[p].Asleep? ==> z.g.busy)
  {
    RunKeepsLock(s, es);
    var z := EndOf(s, es);
    if z.g.busy {
      assert Fits(z.g, z.g.cur.value, z.procs[z.g.cur.value]);
    }
  }

  /** An abort ends in the aborting process's own frame, with the lock gone and everybody on it awake,
      and posts exactly its own reason: SIGILL at its PC, or SIGSEGV at the address that failed. */
  lemma AbortIsItsOwn(s: Sys, p: nat, e: Emulation, pend: bool)
    requires LockInv(s) && p in s.procs && s.procs[p].Emulating? && (e.Panic? || e.CopyFault?)
    ensures var z := Next(s, Returns(p, e, pend));
      && !z.wild && !z.g.busy && (forall q :: q in z.procs ==> !z.procs[q].Asleep?)
      && z.procs[p] == Delivering(Some(
           if e.Panic? then Posted(SIGILL, ILL_ILLOPC, e.pc, e.pc, false, false)
           else Posted(SIGSEGV, SEGV_ACCERR, e.addr, e.pc, false, false)))
  {
    hide CountSignal;
    assert Fits(s.g, p, s.procs[p]);
  }

  /** A signal the emulator raises is on its way, with the lock gone: a bare SIGFPE under the code of the
      most significant exception raised and enabled, at the emulator's address and PC, or without one
      as SIGILL rewound to the faulting instruction; any other signal as it was given. */
  lemma RaiseIsSent(s: Sys, p: nat, e: Emulation, pend: bool)
    requires LockInv(s) && p in s.procs && s.procs[p].Emulating? && e.Raise?
    ensures var z, t := Next(s, Returns(p, e, pend)), s.procs[p].t;
      && !z.wild && !z.g.busy && z.procs[p].Delivering? && z.procs[p].sent.Some?
      && PostedAsRaised(z.procs[p].sent.value, e, t.fault)
  {
    PostsRaise(s.procs[p].t, e);
    hide CountSignal, Post, PostedAsRaised;
    assert Fits(s.g, p, s.procs[p]);
  }

  /** The rest of a holder's own way through the lock. */
  function WayOut(p: nat, st: Stage, op: Fetch, cmd: Fetch, e: Emulation, pend: bool): seq<Event>
    requires Holds(st)
    decreases st.GateOp?
  {
    match st
    case Emulating(_) => [Returns(p, e, pend)]
    case GateCmd(_) => [FetchCmd(p, cmd)] + if Refused(FormOf(cmd)) then [] else [Returns(p, e, pend)]
    case GateOp(_) =>
      [FetchOp(p, op)] + if op.Fault? then [] else WayOut(p, GateCmd(st.t), op, cmd, e, pend)
  }

  lemma LeaveFrees(s: Sys, p: nat, t: Trap, v: Verdict, pend: bool)
    requires p in s.procs && v.g == Release(v.g)
    ensures var z := Leave(s, p, t, v, pend);
      !z.g.busy && p in z.procs && !Holds(z.procs[p]) && forall q :: q in z.procs ==> !z.procs[q].Asleep?
  {
    hide CountSignal, CountDone, CountPending, Post, Compared;
  }

  /** No wakeup is lost: a sleeper implies a holder, and whatever the fetches, the emulator and the
      pending signals turn out to be, the holder's own next steps free the lock and leave nobody
      asleep on it. */
  lemma SleepersAreReleased(s: Sys, q: nat, op: Fetch, cmd: Fetch, e: Emulation, pend: bool)
    requires LockInv(s) && q in s.procs && s.procs[q].Asleep?
    ensures s.g.busy && s.g.cur.value in s.procs && Holds(s.procs[s.g.cur.value])
    ensures var p := s.g.cur.value; var es := WayOut(p, s.procs[p], op, cmd, e, pend);
      && Runs(s, es) && !EndOf(s, es).g.busy
      && forall r :: r in EndOf(s, es).procs ==> !EndOf(s, es).procs[r].Asleep?
  {
    assert Fits(s.g, q, s.procs[q]);
    var p := s.g.cur.value;
    assert Fits(s.g, p, s.procs[p]);
    Drains(s, p, op, cmd, e, pend);
  }

  lemma {:induction false} Drains(s: Sys, p: nat, op: Fetch, cmd: Fetch, e: Emulation, pend: bool)
    requires LockInv(s) && p in s.procs && Holds(s.procs[p])
    ensures var es := WayOut(p, s.procs[p], op, cmd, e, pend);
      && Runs(s, es) && !EndOf(s, es).g.busy
      && forall r :: r in EndOf(s, es).procs ==> !EndOf(s, es).procs[r].Asleep?
    decreases if s.procs[p].GateOp? then 2 else if s.procs[p].GateCmd? then 1 else 0
  {
    hide CountSignal, CountDone, CountPending, CountForm, CountAdvice, Post, Compared, Leave, FormOf, AdviceOf,
      EmulationSignal;
    assert Fits(s.g, p, s.procs[p]);
    var t := s.procs[p].t;
    var es := WayOut(p, s.procs[p], op, cmd, e, pend);
    var z := Next(s, es[0]);
    StepKeepsLock(s, es[0]);
    if s.procs[p].Emulating? {
      LeaveFrees(s, p, t, Settle(s.g, e), pend);
    } else {
      var form := if s.procs[p].GateOp? then FetchFailed else FormOf(cmd);
      if |es| == 1 {
        LeaveFrees(s, p, t, Refuse(s.g.(n := CountForm(s.g.n, form)), t, form), false);
      } else {
        assert es[1..] == WayOut(p, z.procs[p], op, cmd, e, pend);
        Drains(z, p, op, cmd, e, pend);
      }
    }
  }

  // ---- The counters

  /** An entry not yet closed: past the lock on either vector; past the form gate; and a process whose
      pending-signal test said yes and which has not heard from issig. */
  datatype Kind = In11 | In60 | Gated | Owed

  predicate Is(k: Kind, st: Stage) {
    match k
    case In11 => (Holds(st) || st.Checking?) && !st.t.V60()
    case In60 => (Holds(st) || st.Checking?) && st.t.V60()
    case Gated => (st.Emulating? || st.Checking?) && st.t.V60()
    case Owed => st == Delivering(None)
  }

  function Those(k: Kind, procs: map<nat, Stage>): set<nat> { set p | p in procs && Is(k, procs[p]) }

  datatype Tally = Tally(in11: int, in60: int, gated: int, owed: int)

  function TallyOf(procs: map<nat, Stage>): Tally {
    Tally(|Those(In11, procs)|, |Those(In60, procs)|, |Those(Gated, procs)|, |Those(Owed, procs)|)
  }

  /** One process moves. */
  function Shift(c: Tally, before: Stage, after: Stage): Tally {
    Tally(c.in11 + One(Is(In11, after)) - One(Is(In11, before)), c.in60 + One(Is(In60, after)) - One(Is(In60, before)),
          c.gated + One(Is(Gated, after)) - One(Is(Gated, before)),
          c.owed + One(Is(Owed, after)) - One(Is(Owed, before)))
  }

  lemma Without(x: set<nat>, p: nat)
    ensures |x| == |x - {p}| + One(p in x)
  {
    if p in x {
      assert x == (x - {p}) + {p};
    } else {
      assert x == x - {p};
    }
  }

  lemma ThoseMove(k: Kind, procs: map<nat, Stage>, p: nat, st: Stage)
    requires p in procs
    ensures |Those(k, procs[p := st])| + One(Is(k, procs[p])) == |Those(k, procs)| + One(Is(k, st))
  {
    hide Is;
    assert Those(k, procs[p := st]) - {p} == Those(k, procs) - {p};
    Without(Those(k, procs[p := st]), p);
    Without(Those(k, procs), p);
  }

  lemma TallyMoves(procs: map<nat, Stage>, p: nat, st: Stage)
    requires p in procs
    ensures TallyOf(procs[p := st]) == Shift(TallyOf(procs), procs[p], st)
  {
    hide Is, Those;
    ThoseMove(In11, procs, p, st);
    ThoseMove(In60, procs, p, st);
    ThoseMove(Gated, procs, p, st);
    ThoseMove(Owed, procs, p, st);
  }

  lemma WakingCountsNothing(procs: map<nat, Stage>)
    ensures TallyOf(Woken(procs)) == TallyOf(procs)
  {
    forall k ensures Those(k, Woken(procs)) == Those(k, procs) {
    }
  }

  /** The identities, and the orders between counters that go with them; `due` is 1 between a failure
      being counted and its signal being counted, inside one step. */
  predicate Balanced(n: Counters, in11: nat, in60: nat, c: Tally, due: nat) {
    && n.sig == n.sigfpe + n.sigill + n.sigsegv + n.sigother
    && in11 == n.done + n.sig + c.in11
    && in60 == n.eaDone + n.eaSig + c.in60
    && n.eaImm + n.eaRegisters + n.eaControl + n.eaFetchFail == n.eaDone + n.eaSig + c.gated
    && n.panics + n.copyFail + n.eaControl + n.eaFetchFail <= n.sig + n.eaSig + due
    && n.rewind <= n.undecoded <= n.sigill + n.eaSig
    && n.eaPack <= n.eaImm && n.sigDeliver + c.owed <= n.sigPend
  }

  predicate Books(s: Sys) {
    && Balanced(s.g.n, s.in11, s.in60, TallyOf(s.procs), 0)
    && forall p :: p in s.procs && (s.procs[p].GateOp? || s.procs[p].GateCmd?) ==> s.procs[p].t.V60()
  }

  lemma SignalBalances(n: Counters, in11: nat, in60: nat, c: Tally, due: nat, t: Trap, at: Stage, pc: Long, sig: Signal)
    requires Balanced(n, in11, in60, c, due) && due <= 1 && at == Emulating(t)
    ensures var out := Post(t, pc, sig);
      Balanced(CountSignal(n, t, out), in11, in60, Shift(c, at, Delivering(Some(out))), 0)
  {
    hide FltCode;
  }

  lemma DoneBalances(n: Counters, in11: nat, in60: nat, c: Tally, t: Trap, at: Stage, pend: bool)
    requires Balanced(n, in11, in60, c, 0) && (at.Emulating? || at.Checking?) && at.t == t
    ensures Balanced(CountPending(CountDone(n, t), pend, false), in11, in60,
                     Shift(c, at, if pend then Delivering(None) else User), 0)
  {
  }

  lemma FormBalances(n: Counters, in11: nat, in60: nat, c: Tally, t: Trap, at: Stage, form: Form)
    requires Balanced(n, in11, in60, c, 0) && (at.GateOp? || at.GateCmd?) && at.t == t && t.V60()
    ensures Balanced(CountForm(n, form), in11, in60, Shift(c, at, Emulating(t)), One(Refused(form)))
  {
  }

  /** From the wakeup on, for a process counted as past the gate. */
  lemma LeaveBalances(s: Sys, p: nat, t: Trap, v: Verdict, pend: bool, due: nat)
    requires p in s.procs && s.procs[p] == Emulating(t) && (due == 0 || (due == 1 && v.signal.Some?))
    requires Balanced(v.g.n, s.in11, s.in60, TallyOf(s.procs), due)
    ensures var z := Leave(s, p, t, v, pend); Balanced(z.g.n, z.in11, z.in60, TallyOf(z.procs), 0)
  {
    hide TallyOf, Balanced, CountSignal, CountDone, CountPending, Post, Compared;
    var z := Leave(s, p, t, v, pend);
    var c := TallyOf(s.procs);
    WakingCountsNothing(s.procs);
    TallyMoves(Woken(s.procs), p, z.procs[p]);
    if v.signal.Some? {
      SignalBalances(v.g.n, s.in11, s.in60, c, due, t, s.procs[p], v.pc, v.signal.value);
    } else if Compared(t, v.pc) {
      assert Shift(c, s.procs[p], z.procs[p]) == c by { Same(c, s.procs[p], z.procs[p]); }
    } else {
      DoneBalances(v.g.n, s.in11, s.in60, c, t, s.procs[p], pend);
    }
  }

  lemma Same(c: Tally, a: Stage, b: Stage)
    requires a.Emulating? && b.Checking? && a.t == b.t
    ensures Shift(c, a, b) == c
  {
  }

  lemma GateBalances(s: Sys, p: nat, form: Form)
    requires p in s.procs && (s.procs[p].GateOp? || s.procs[p].GateCmd?) && s.procs[p].t.V60()
    requires Balanced(s.g.n, s.in11, s.in60, TallyOf(s.procs), 0)
    ensures var z := Gate(s, p, s.procs[p].t, form); Balanced(z.g.n, z.in11, z.in60, TallyOf(z.procs), 0)
  {
    hide TallyOf, Balanced, CountForm, Shift, Leave;
    var t := s.procs[p].t;
    var g := s.g.(n := CountForm(s.g.n, form));
    var past := Put(s, p, g, Emulating(t));
    FormBalances(s.g.n, s.in11, s.in60, TallyOf(s.procs), t, s.procs[p], form);
    TallyMoves(s.procs, p, Emulating(t));
    if Refused(form) {
      LeaveBalances(past, p, t, Refuse(g, t, form), false, 1);
      SameLeave(s, past, p, t, Refuse(g, t, form));
    }
  }

  /** What the leaving process was before does not matter. */
  lemma SameLeave(s: Sys, past: Sys, p: nat, t: Trap, v: Verdict)
    requires p in s.procs && past.procs == s.procs[p := Emulating(t)] && past.in11 == s.in11 && past.in60 == s.in60
      && past.wild == s.wild && past.left == s.left
    requires v.signal.Some?
    ensures Leave(s, p, t, v, false) == Leave(past, p, t, v, false)
  {
    hide Post, CountSignal;
    var out := Post(t, v.pc, v.signal.value);
    assert Woken(s.procs)[p := Delivering(Some(out))] == Woken(past.procs)[p := Delivering(Some(out))];
  }

  lemma EnterBalances(s: Sys, p: nat, t: Trap)
    requires p in s.procs && (s.procs[p].User? || s.procs[p].Awake?)
    requires Balanced(s.g.n, s.in11, s.in60, TallyOf(s.procs), 0)
    ensures var z := TryLock(s, p, t); Balanced(z.g.n, z.in11, z.in60, TallyOf(z.procs), 0)
  {
    hide TallyOf;
    TallyMoves(s.procs, p, TryLock(s, p, t).procs[p]);
  }

  lemma ClassifyBalances(s: Sys, e: Event)
    requires Enabled(s, e) && e.Classify?
    requires Balanced(s.g.n, s.in11, s.in60, TallyOf(s.procs), 0)
    ensures var z := Next(s, e); Balanced(z.g.n, z.in11, z.in60, TallyOf(z.procs), 0)
  {
    hide TallyOf, CountDone, CountPending;
    var t, at := s.procs[e.p].t, s.procs[e.p];
    TallyMoves(s.procs, e.p, Next(s, e).procs[e.p]);
    DoneBalances(CountAdvice(s.g.n, AdviceOf(e.op)), s.in11, s.in60, TallyOf(s.procs), t, at, e.pend);
  }

  lemma IssigBalances(s: Sys, e: Event)
    requires Enabled(s, e) && e.Issig?
    requires Balanced(s.g.n, s.in11, s.in60, TallyOf(s.procs), 0)
    ensures var z := Next(s, e); Balanced(z.g.n, z.in11, z.in60, TallyOf(z.procs), 0)
  {
    hide TallyOf;
    TallyMoves(s.procs, e.p, Next(s, e).procs[e.p]);
  }

  lemma FetchBalances(s: Sys, e: Event)
    requires Enabled(s, e) && e.FetchOp? && !e.op.Fault?
    requires Balanced(s.g.n, s.in11, s.in60, TallyOf(s.procs), 0)
    ensures var z := Next(s, e); Balanced(z.g.n, z.in11, z.in60, TallyOf(z.procs), 0)
  {
    hide TallyOf;
    TallyMoves(s.procs, e.p, Next(s, e).procs[e.p]);
  }

  lemma ReturnBalances(s: Sys, p: nat, emu: Emulation, pend: bool)
    requires p in s.procs && s.procs[p].Emulating? && JumpsHome(s.g, p, emu)
    requires Balanced(s.g.n, s.in11, s.in60, TallyOf(s.procs), 0)
    ensures var z := Next(s, Returns(p, emu, pend)); Balanced(z.g.n, z.in11, z.in60, TallyOf(z.procs), 0)
  {
    hide TallyOf, Leave;
    var v := Settle(s.g, emu);
    LeaveBalances(s, p, s.procs[p].t, v, pend, One(emu.Panic? || emu.CopyFault?));
  }

  /** Only a vector-60 entry is ever at the gate. */
  lemma GateStaysAt60(s: Sys, e: Event)
    requires Books(s) && Enabled(s, e)
    ensures var z := Next(s, e);
      forall p :: p in z.procs && (z.procs[p].GateOp? || z.procs[p].GateCmd?) ==> z.procs[p].t.V60()
  {
    hide Balanced, CountSignal, CountDone, CountPending, CountForm, CountAdvice, Post, Compared, FormOf,
      AdviceOf, EmulationSignal;
  }

  lemma StepKeepsBooks(s: Sys, e: Event)
    requires Books(s) && Enabled(s, e)
    ensures Books(Next(s, e))
  {
    hide Balanced, TallyOf, TryLock, Gate, Leave, Succeed;
    GateStaysAt60(s, e);
    var p := e.p;
    match e
    case Enter(_, t) => EnterBalances(s, p, t);
    case Retry(_) => EnterBalances(s, p, s.procs[p].t);
    case FetchOp(_, op) =>
      if op.Fault? { GateBalances(s, p, FetchFailed); } else { FetchBalances(s, e); }
    case FetchCmd(_, cmd) => GateBalances(s, p, FormOf(cmd));
    case Returns(_, emu, pend) =>
      if JumpsHome(s.g, p, emu) { ReturnBalances(s, p, emu, pend); }
    case Classify(_, _, _) => ClassifyBalances(s, e);
    case Issig(_, _, _) => IssigBalances(s, e);
  }

  lemma {:induction false} RunKeepsBooks(s: Sys, es: seq<Event>)
    requires Books(s) && Runs(s, es)
    ensures Books(EndOf(s, es))
    decreases |es|
  {
    if es != [] {
      StepKeepsBooks(s, es[0]);
      RunKeepsBooks(Next(s, es[0]), es[1..]);
    }
  }

  lemma StartBalances(s: Sys)
    requires Start(s)
    ensures Books(s)
  {
    forall k ensures Those(k, s.procs) == {} {
    }
    assert TallyOf(s.procs) == Tally(0, 0, 0, 0);
  }

  /** The counter identities at every scheduling point of every run, processes that die in psig
      included: the vector-11 signals are the sum of their four classes; every entry past the lock is
      closed by exactly one of done/sig on its own vector or is still in flight; the four gate forms
      account for every vector-60 outcome and every gated entry in flight.  With nothing in flight
      they are the identities the counters were built to satisfy. */
  lemma CounterIdentities(s: Sys, es: seq<Event>)
    requires Start(s) && Runs(s, es)
    ensures var z := EndOf(s, es); var n := z.g.n;
      && n.sig == n.sigfpe + n.sigill + n.sigsegv + n.sigother
      && z.in11 == n.done + n.sig + |Those(In11, z.procs)|
      && z.in60 == n.eaDone + n.eaSig + |Those(In60, z.procs)|
      && n.eaImm + n.eaRegisters + n.eaControl + n.eaFetchFail == n.eaDone + n.eaSig + |Those(Gated, z.procs)|
      && n.panics + n.copyFail + n.eaControl + n.eaFetchFail <= n.sig + n.eaSig
      && n.rewind <= n.undecoded <= n.sigill + n.eaSig && n.eaPack <= n.eaImm
      && n.sigDeliver + |Those(Owed, z.procs)| <= n.sigPend
  {
    hide Those;
    StartBalances(s);
    RunKeepsBooks(s, es);
  }

  // ---- One entry by itself

  /** The events of one entry that finds the lock free. */
  function Entry(p: nat, t: Trap, env: Env): seq<Event> {
    var form := if env.op.Fault? then FetchFailed else FormOf(env.cmd);
    var fetches := if env.op.Fault? then [FetchOp(p, env.op)] else [FetchOp(p, env.op), FetchCmd(p, env.cmd)];
    var gate := if t.V60() then fetches else [];
    if t.V60() && Refused(form) then [Enter(p, t)] + gate + [Issig(p, env.issig, false)]
    else
      var checked := env.emu.Done? && Compared(t, env.emu.pc);
      [Enter(p, t)] + gate + [Returns(p, env.emu, env.pend)]
      + (if checked then [Classify(p, env.adv, env.pend)] else [])
      + (if env.emu.Done? && !env.pend then [] else [Issig(p, env.issig, false)])
  }

  lemma Cons(s: Sys, e: Event, es: seq<Event>)
    ensures Runs(s, [e] + es) <==> Enabled(s, e) && Runs(Next(s, e), es)
    ensures Runs(s, [e] + es) ==> EndOf(s, [e] + es) == EndOf(Next(s, e), es)
  {
    assert ([e] + es)[1..] == es;
  }

  /** The entry is over: state, counters, registers, PC and signal are those of the sequential verdict. */
  predicate Ended(z: Sys, p: nat, t: Trap, v: Verdict, env: Env) {
    && z.g == v.g.(n := Account(v.g.n, t, v, env))
    && p in z.procs && z.procs[p].User? && p in z.left && z.left[p] == LeftBy(t, v)
  }

  /** Where the emulator's return leaves the process and the shared state. */
  lemma ReturnGives(s: Sys, p: nat, t: Trap, emu: Emulation, pend: bool)
    requires LockInv(s) && p in s.procs && s.procs[p] == Emulating(t)
    ensures var v := Settle(s.g, emu); var z := Next(s, Returns(p, emu, pend));
      && p in z.procs && p in z.left && z.left[p] == LeftBy(t, v)
      && (v.signal.Some? <==> !emu.Done?)
      && (v.signal.Some? ==> z.g == v.g.(n := CountSignal(v.g.n, t, Post(t, v.pc, v.signal.value)))
                             && z.procs[p].Delivering? && z.procs[p].sent.Some?)
      && (emu.Done? && Compared(t, emu.pc) ==> z.g == v.g && z.procs[p] == Checking(t, emu.pc))
      && (emu.Done? && !Compared(t, emu.pc) ==>
            z.g == v.g.(n := CountPending(CountDone(v.g.n, t), pend, false))
              && z.procs[p] == if pend then Delivering(None) else User)
  {
    hide CountSignal, CountDone, CountPending, Post, Compared;
    assert Fits(s.g, p, s.procs[p]);
  }

  lemma SettlePc(g: Shared, emu: Emulation)
    ensures Settle(g, emu).pc == emu.pc
  {
  }

  /** Past the gate: the emulator, the instrument, issig. */
  lemma TailIsServe(s: Sys, p: nat, t: Trap, env: Env)
    requires LockInv(s) && p in s.procs && s.procs[p] == Emulating(t)
    ensures var v := Settle(s.g, env.emu);
      var es := [Returns(p, env.emu, env.pend)]
        + (if env.emu.Done? && Compared(t, env.emu.pc) then [Classify(p, env.adv, env.pend)] else [])
        + (if env.emu.Done? && !env.pend then [] else [Issig(p, env.issig, false)]);
      Runs(s, es) && Ended(EndOf(s, es), p, t, v, env)
  {
    hide CountSignal, CountDone, CountAdvice, Post, Compared, AdviceOf, Leave, Settle, LeftBy, Runs, EndOf;
    ReturnGives(s, p, t, env.emu, env.pend);
    assert Settle(s.g, env.emu).pc == env.emu.pc by { SettlePc(s.g, env.emu); }
    var checked := env.emu.Done? && Compared(t, env.emu.pc);
    var first := Returns(p, env.emu, env.pend);
    var second := if checked then [Classify(p, env.adv, env.pend)] else [];
    var third := if env.emu.Done? && !env.pend then [] else [Issig(p, env.issig, false)];
    var s1 := Next(s, first);
    Cons(s, first, second + third);
    assert [first] + (second + third) == [first] + second + third;
    var s2 := if checked then Next(s1, second[0]) else s1;
    if checked {
      Cons(s1, second[0], third);
    } else {
      assert second + third == third;
    }
    if third != [] {
      Cons(s2, third[0], []);
      EmptyRun(Next(s2, third[0]));
      assert third == [third[0]] + [];
    } else {
      EmptyRun(s2);
    }
  }

  lemma GateRuns(s: Sys, p: nat, t: Trap, env: Env, rest: seq<Event>)
    requires p in s.procs && s.procs[p] == GateOp(t)
    ensures var gate := if env.op.Fault? then [FetchOp(p, env.op)] else [FetchOp(p, env.op), FetchCmd(p, env.cmd)];
      var z := Gate(s, p, t, if env.op.Fault? then FetchFailed else FormOf(env.cmd));
      (Runs(s, gate + rest) <==> Runs(z, rest)) && (Runs(z, rest) ==> EndOf(s, gate + rest) == EndOf(z, rest))
  {
    hide CountSignal, CountForm, Post, FormOf;
    var form := if env.op.Fault? then FetchFailed else FormOf(env.cmd);
    var one := FetchOp(p, env.op);
    if env.op.Fault? {
      Cons(s, one, rest);
    } else {
      var two := FetchCmd(p, env.cmd);
      var s1 := Next(s, one);
      Cons(s, one, [two] + rest);
      Cons(s1, two, rest);
      assert [one] + ([two] + rest) == [one, two] + rest;
      GateAgain(s, s1, p, t, form);
    }
  }

  /** The gate answers the same from either of its two fetches. */
  lemma GateAgain(s: Sys, s1: Sys, p: nat, t: Trap, form: Form)
    requires p in s.procs && s.procs[p] == GateOp(t) && s1 == Put(s, p, s.g, GateCmd(t))
    ensures Gate(s1, p, t, form) == Gate(s, p, t, form)
  {
    hide CountSignal, CountForm, Post, FormOf;
    var a, b := Gate(s1, p, t, form), Gate(s, p, t, form);
    assert a.procs == b.procs;
  }

  lemma RefusedIsServe(s: Sys, p: nat, t: Trap, form: Form, env: Env)
    requires p in s.procs && s.procs[p] == GateOp(t) && Refused(form)
    ensures var z := Gate(s, p, t, form);
      var e := Issig(p, env.issig, false);
      Enabled(z, e) && Ended(Next(z, e), p, t, Refuse(s.g.(n := CountForm(s.g.n, form)), t, form), env)
  {
    hide CountSignal, CountForm, Post, LeftBy;
  }

  /** One entry run event by event with nobody else moving leaves the state, the counters and the
      process's registers, PC and signal that `Serve` and `Account` say, so the method proved against
      them, `Glue.Trap`, is the same protocol as the interleaved one. */
  lemma EntryIsTrap(s: Sys, p: nat, t: Trap, env: Env)
    requires LockInv(s) && p in s.procs && s.procs[p].User? && !s.g.busy
    ensures var v := Serve(Acquire(s.g, p), p, t, env);
      var es := Entry(p, t, env);
      Runs(s, es) && Ended(EndOf(s, es), p, t, v, env)
  {
    hide CountSignal, CountForm, CountDone, CountAdvice, CountPending, Post, Compared, AdviceOf, FormOf, Runs,
      EndOf, Settle, LeftBy, Ended, Leave;
    var form := if env.op.Fault? then FetchFailed else FormOf(env.cmd);
    var fetches := if env.op.Fault? then [FetchOp(p, env.op)] else [FetchOp(p, env.op), FetchCmd(p, env.cmd)];
    var gate := if t.V60() then fetches else [];
    var tail := [Returns(p, env.emu, env.pend)]
      + (if env.emu.Done? && Compared(t, env.emu.pc) then [Classify(p, env.adv, env.pend)] else [])
      + (if env.emu.Done? && !env.pend then [] else [Issig(p, env.issig, false)]);
    var last := [Issig(p, env.issig, false)];
    var enter := Enter(p, t);
    var s1 := Next(s, enter);
    StepKeepsLock(s, enter);
    if !t.V60() {
      TailIsServe(s1, p, t, env);
      Cons(s, enter, tail);
      assert Entry(p, t, env) == [enter] + tail;
    } else {
      var z := Gate(s1, p, t, form);
      if Refused(form) {
        RefusedIsServe(s1, p, t, form, env);
        GateRuns(s1, p, t, env, last);
        Cons(s, enter, gate + last);
        Cons(z, last[0], []);
        EmptyRun(Next(z, last[0]));
        assert last == [last[0]] + [];
        assert Entry(p, t, env) == [enter] + (gate + last);
      } else {
        GateKeepsLock(s1, p, t, form);
        TailIsServe(z, p, t, env);
        GateRuns(s1, p, t, env, tail);
        Cons(s, enter, gate + tail);
        assert Entry(p, t, env) == [enter] + (gate + tail);
      }
    }
  }

  lemma GateKeepsLock(s: Sys, p: nat, t: Trap, form: Form)
    requires LockInv(s) && p in s.procs && s.procs[p] == GateOp(t) && !Refused(form)
    ensures LockInv(Gate(s, p, t, form))
  {
    hide CountForm;
    assert Fits(s.g, p, s.procs[p]);
  }

  lemma EmptyRun(s: Sys)
    ensures Runs(s, []) && EndOf(s, []) == s
  {
  }
}
