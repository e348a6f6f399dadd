/** Each entry into the soft-FPU lane is its own: whatever other processes do in between, a process is
    left with what the sequential protocol makes of its own trap and its own answers. */
module FpeEntries {
  import opened FpeGlue
  import opened FpeSystem

  /** What a process has been told in its last entry: its trap, the gate's fetches, the emulator. */
  datatype Told = Told(t: Option<Trap>, op: Fetch, cmd: Fetch, emu: Option<Emulation>)

  const NOTHING := Told(None, Fault, Fault, None)

  function Hears(p: nat, told: Told, e: Event): Told {
    if e.p != p then told
    else
      match e
      case Enter(_, t) => Told(Some(t), Fault, Fault, None)
      case FetchOp(_, op) => told.(op := op)
      case FetchCmd(_, cmd) => told.(cmd := cmd)
      case Returns(_, emu, _) => told.(emu := Some(emu))
      case _ => told
  }

  /** The same over a run. */
  function Story(p: nat, told: Told, es: seq<Event>): Told
    decreases |es|
  {
    if es == [] then told else Story(p, Hears(p, told, es[0]), es[1..])
  }

  const BLANK := Shared(true, None, None, CLEAR, ZERO)

  function Answers(told: Told): Env {
    Env([], told.op, told.cmd, if told.emu.Some? then told.emu.value else Done(0, []), Fault, false, false)
  }

  /** What the sequential protocol leaves the process with. */
  function Due(p: nat, told: Told): Left
    requires told.t.Some?
  {
    LeftBy(told.t.value, Serve(BLANK, p, told.t.value, Answers(told)))
  }

  /** Registers, PC and signal depend on the process's own trap and answers alone, not on the lane. */
  lemma ServeIgnoresLane(g: Shared, h: Shared, p: nat, q: nat, t: Trap, env: Env)
    ensures LeftBy(t, Serve(g, p, t, env)) == LeftBy(t, Serve(h, q, t, env))
  {
    hide Post, CountForm, FormOf;
  }

  lemma RefuseIgnoresLane(g: Shared, h: Shared, t: Trap, form: Form)
    requires Refused(form)
    ensures LeftBy(t, Refuse(g, t, form)) == LeftBy(t, Refuse(h, t, form))
  {
  }

  lemma SettleIgnoresLane(g: Shared, h: Shared, t: Trap, e: Emulation)
    ensures LeftBy(t, Settle(g, e)) == LeftBy(t, Settle(h, e))
  {
    hide Post;
  }

  predicate HasDue(s: Sys, p: nat, told: Told) {
    told.t.Some? && p in s.left && s.left[p] == Due(p, told)
  }

  /** How far a process has got and what it has been told go together. */
  predicate Consistent(s: Sys, p: nat, told: Told) {
    p in s.procs &&
    match s.procs[p]
    case Asleep(t) => told == NOTHING.(t := Some(t))
    case Awake(t) => told == NOTHING.(t := Some(t))
    case GateOp(t) => told == NOTHING.(t := Some(t)) && t.V60()
    case GateCmd(t) => told.t == Some(t) && t.V60() && told.op.Word? && told.emu.None?
    case Emulating(t) =>
      told.t == Some(t) && told.emu.None? && (t.V60() ==> told.op.Word? && !Refused(FormOf(told.cmd)))
    case Checking(_, _) => HasDue(s, p, told) && s.left[p].posted == None
    case Delivering(sent) => HasDue(s, p, told) && s.left[p].posted == sent
    case _ => told.t.Some? ==> HasDue(s, p, told)
  }

  /** A process as it was or woken, with what its last entry left it. */
  predicate Spared(s: Sys, z: Sys, p: nat) {
    && p in s.procs && p in z.procs
    && (z.procs[p] == s.procs[p] || (s.procs[p].Asleep? && z.procs[p] == Awake(s.procs[p].t)))
    && (p in z.left <==> p in s.left) && (p in s.left ==> z.left[p] == s.left[p])
  }

  lemma LeaveSparesOthers(s: Sys, q: nat, t: Trap, v: Verdict, pend: bool, p: nat)
    requires p in s.procs && p != q
    ensures Spared(s, Leave(s, q, t, v, pend), p)
  {
    hide CountSignal, CountDone, CountPending, Post, Compared, LeftBy;
  }

  /** Another process's step does no more to this one than wake it. */
  lemma OthersLeaveAlone(s: Sys, e: Event, p: nat)
    requires Enabled(s, e) && e.p != p && p in s.procs
    ensures Spared(s, Next(s, e), p)
  {
    hide CountForm, CountAdvice, FormOf, AdviceOf, Settle, Leave, CountDone, CountPending;
    match e
    case FetchOp(q, op) =>
      if op.Fault? {
        var t := s.procs[q].t;
        LeaveSparesOthers(s, q, t, Refuse(s.g.(n := CountForm(s.g.n, FetchFailed)), t, FetchFailed), false, p);
      }
    case FetchCmd(q, cmd) =>
      var t, form := s.procs[q].t, FormOf(cmd);
      if Refused(form) {
        LeaveSparesOthers(s, q, t, Refuse(s.g.(n := CountForm(s.g.n, form)), t, form), false, p);
      }
    case Returns(q, emu, pend) => LeaveSparesOthers(s, q, s.procs[q].t, Settle(s.g, emu), pend, p);
    case _ =>
  }

  lemma OwnLeave(s: Sys, p: nat, t: Trap, v: Verdict, pend: bool, told: Told)
    requires p in s.procs && told.t == Some(t) && LeftBy(t, v) == Due(p, told)
    ensures Consistent(Leave(s, p, t, v, pend), p, told)
  {
    hide CountSignal, CountDone, CountPending, Compared, Serve;
  }

  lemma OwnGate(s: Sys, p: nat, t: Trap, form: Form, told: Told)
    requires p in s.procs && told.t == Some(t) && t.V60() && told.emu.None?
    requires form == (if told.op.Fault? then FetchFailed else FormOf(told.cmd))
    ensures Consistent(Gate(s, p, t, form), p, told)
  {
    hide CountForm, FormOf, Leave;
    if Refused(form) {
      var g := s.g.(n := CountForm(s.g.n, form));
      RefuseIgnoresLane(g, BLANK.(n := CountForm(ZERO, form)), t, form);
      OwnLeave(s, p, t, Refuse(g, t, form), false, told);
    }
  }

  lemma OwnReturn(s: Sys, p: nat, emu: Emulation, pend: bool, told: Told)
    requires p in s.procs && s.procs[p].Emulating? && Consistent(s, p, told) && JumpsHome(s.g, p, emu)
    ensures Consistent(Next(s, Returns(p, emu, pend)), p, told.(emu := Some(emu)))
  {
    hide CountForm, FormOf, Leave, Settle;
    var t := s.procs[p].t;
    var form := if told.op.Fault? then FetchFailed else FormOf(told.cmd);
    var g := if t.V60() then BLANK.(n := CountForm(ZERO, form)) else BLANK;
    SettleIgnoresLane(s.g, g.(jb := Some(p)), t, emu);
    OwnLeave(s, p, t, Settle(s.g, emu), pend, told.(emu := Some(emu)));
  }

  lemma StepIsConsistent(s: Sys, e: Event, p: nat, told: Told)
    requires LockInv(s) && Enabled(s, e) && Consistent(s, p, told)
    ensures Consistent(Next(s, e), p, Hears(p, told, e))
  {
    hide Gate, Leave, FormOf, Due, Succeed, CountAdvice;
    if e.p != p {
      OthersLeaveAlone(s, e, p);
    } else {
      match e
      case FetchOp(_, op) =>
        if op.Fault? { OwnGate(s, p, s.procs[p].t, FetchFailed, Hears(p, told, e)); }
      case FetchCmd(_, cmd) => OwnGate(s, p, s.procs[p].t, FormOf(cmd), Hears(p, told, e));
      case Returns(_, emu, pend) =>
        assert Fits(s.g, p, s.procs[p]);
        OwnReturn(s, p, emu, pend, told);
      case Classify(_, _, _) => OwnClassify(s, e, told);
      case _ =>
    }
  }

  lemma OwnClassify(s: Sys, e: Event, told: Told)
    requires Enabled(s, e) && e.Classify? && Consistent(s, e.p, told)
    ensures Consistent(Next(s, e), e.p, told)
  {
  }

  lemma {:induction false} RunIsConsistent(s: Sys, es: seq<Event>, p: nat, told: Told)
    requires LockInv(s) && Runs(s, es) && Consistent(s, p, told)
    ensures Consistent(EndOf(s, es), p, Story(p, told, es))
    decreases |es|
  {
    if es != [] {
      StepKeepsLock(s, es[0]);
      StepIsConsistent(s, es[0], p, told);
      RunIsConsistent(Next(s, es[0]), es[1..], p, Hears(p, told, es[0]));
    }
  }

  /** Over every run and every interleaving: once an entry of a process has written back, the process's
      registers, PC and signal are those of the sequential protocol on its own trap, its own fetches
      and its own emulation, in whatever state the lane is taken to have been. */
  lemma EveryEntryIsItsOwn(s: Sys, es: seq<Event>, p: nat, g: Shared)
    requires Start(s) && Runs(s, es) && p in s.procs
    ensures var z, told := EndOf(s, es), Story(p, NOTHING, es);
      && p in z.procs
      && (told.t.Some? && (z.procs[p].Checking? || z.procs[p].Delivering? || z.procs[p].User? || z.procs[p].Dead?) ==>
            p in z.left && z.left[p] == LeftBy(told.t.value, Serve(g, p, told.t.value, Answers(told))))
      && (z.procs[p].Delivering? ==> p in z.left && z.left[p].posted == z.procs[p].sent)
  {
    RunIsConsistent(s, es, p, NOTHING);
    var told := Story(p, NOTHING, es);
    if told.t.Some? {
      ServeIgnoresLane(g, BLANK, p, p, told.t.value, Answers(told));
    }
  }
}
