/** The free-page reserve in the running system: processes whose requests go through it or past it,
    interrupts, and pageout, which must hold kernel memory itself before it can free anybody's page.
    One step is what happens with interrupts masked, or between two points where another process or
    an interrupt can run. */
module ReserveSystem {
  import Reserve
  import Sites = ReserveSites

  /** `need` is the kernel memory pageout must hold to push a dirty page.  Who is sent through the
      reserve: ordinary call sites if `routed`; kernel memory's unless its sites are `direct`; sched
      and pageout unless the test on curproc lets them by (`exempt`). */
  datatype Config = Config(total: nat, reserve: nat, need: nat, routed: bool, direct: bool, exempt: bool)

  datatype Kind = Ordinary | KernelMemory | Sched | Pageout

  datatype Ask = Ask(n: nat, kind: Kind, canWait: bool)

  /** The two loops a request can sleep in, both on &freemem. */
  datatype Place = InReserve | InPageGet

  datatype Proc = Running | Asleep(at: Place, ask: Ask) | Awake(at: Place, ask: Ask)

  /** A request that passed the reserve test but has not reached page_get's own: interrupts are open. */
  datatype Window = Closed | Open(pid: nat, ask: Ask)

  /** Pages by owner; who is doing what; how many sleeps page_free has not been told about. */
  datatype State = State(free: nat, ordinary: nat, kernel: nat, pageoutHas: nat,
                         window: Window, procs: map<nat, Proc>, waiters: nat)

  const PAGER: nat := 0

  datatype Event =
    | Request(pid: nat, ask: Ask) | Retry(pid: nat) | PageGet
    | InterruptAlloc(n: nat) | KernelFree(n: nat) | OrdinaryFree(pid: nat, n: nat)
    | PagerFree(n: nat) | PagerPush(n: nat)

  predicate Guarded(c: Config, k: Kind) {
    c.reserve > 0 &&
    match k
    case Ordinary => c.routed
    case KernelMemory => !c.direct
    case Sched => c.routed && !c.exempt
    case Pageout => !c.direct && !c.exempt
  }

  /** Free pages a request must find. */
  function Threshold(c: Config, at: Place, n: nat): nat { if at == InReserve then n + c.reserve else n }

  function Taken(s: State, a: Ask): State
    requires s.free >= a.n
  {
    match a.kind
    case Ordinary => s.(free := s.free - a.n, ordinary := s.ordinary + a.n)
    case KernelMemory => s.(free := s.free - a.n, kernel := s.kernel + a.n)
    case Sched => s.(free := s.free - a.n, kernel := s.kernel + a.n)
    case Pageout => s.(free := s.free - a.n, pageoutHas := s.pageoutHas + a.n)
  }

  function Put(s: State, p: nat, x: Proc): State { s.(procs := s.procs[p := x]) }

  /** One masked turn of either loop: go on, be refused, or sleep. */
  function Turn(c: Config, s: State, p: nat, at: Place, a: Ask): State {
    if s.free >= Threshold(c, at, a.n) then
      if at == InReserve then Put(s, p, Running).(window := Open(p, a)) else Put(Taken(s, a), p, Running)
    else if !a.canWait then Put(s, p, Running)
    else Put(s, p, Asleep(at, a)).(waiters := s.waiters + 1)
  }

  function Woken(procs: map<nat, Proc>): map<nat, Proc> {
    map p | p in procs :: if procs[p].Asleep? then Awake(procs[p].at, procs[p].ask) else procs[p]
  }

  /** page_free: pages come back, and if anybody waits on &freemem everybody there wakes, to test
      again. */
  function Freed(s: State, n: nat): State {
    if s.waiters == 0 then s.(free := s.free + n)
    else s.(free := s.free + n, waiters := 0, procs := Woken(s.procs))
  }

  /** Process `p` has the processor: no other request is between its two tests. */
  predicate Runs(s: State, p: nat) { s.window.Closed? && p in s.procs && s.procs[p].Running? }

  predicate Enabled(c: Config, s: State, e: Event) {
    match e
    case Request(p, a) => Runs(s, p) && (a.kind == Pageout <==> p == PAGER)
    case Retry(p) => s.window.Closed? && p in s.procs && s.procs[p].Awake?
    case PageGet => s.window.Open? && s.window.pid in s.procs
    case InterruptAlloc(n) => n > 0
    case KernelFree(n) => 0 < n <= s.kernel
    case OrdinaryFree(p, n) => Runs(s, p) && p != PAGER && 0 < n <= s.ordinary
    case PagerFree(n) => Runs(s, PAGER) && 0 < n <= s.pageoutHas
    case PagerPush(n) => Runs(s, PAGER) && s.pageoutHas >= c.need && 0 < n <= s.ordinary
  }

  function Next(c: Config, s: State, e: Event): State
    requires Enabled(c, s, e)
  {
    match e
    case Request(p, a) => Turn(c, s, p, if Guarded(c, a.kind) then InReserve else InPageGet, a)
    case Retry(p) => Turn(c, s, p, s.procs[p].at, s.procs[p].ask)
    case PageGet => Turn(c, s.(window := Closed), s.window.pid, InPageGet, s.window.ask)
    case InterruptAlloc(n) =>
      var at := if Guarded(c, KernelMemory) then InReserve else InPageGet;
      if s.free >= Threshold(c, at, n) then s.(free := s.free - n, kernel := s.kernel + n) else s
    case KernelFree(n) => Freed(s.(kernel := s.kernel - n), n)
    case OrdinaryFree(p, n) => Freed(s.(ordinary := s.ordinary - n), n)
    case PagerFree(n) => Freed(s.(pageoutHas := s.pageoutHas - n), n)
    case PagerPush(n) => Freed(s.(ordinary := s.ordinary - n), n)
  }

  // ---- Runs

  predicate Possible(c: Config, s: State, es: seq<Event>)
    decreases |es|
  {
    es == [] || (Enabled(c, s, es[0]) && Possible(c, Next(c, s, es[0]), es[1..]))
  }

  function EndOf(c: Config, s: State, es: seq<Event>): State
    requires Possible(c, s, es)
    decreases |es|
  {
    if es == [] then s else EndOf(c, Next(c, s, es[0]), es[1..])
  }

  /** Pages promised to the request in the window. */
  function Promised(s: State): nat { if s.window.Open? then s.window.ask.n else 0 }

  /** How many of the reserved pages are out when `free` are free. */
  function OutOfReserve(c: Config, free: nat): nat { if free >= c.reserve then 0 else c.reserve - free }

  /** The assumption on kernel memory: when kernel memory or sched takes pages, what is out of the
      reserve leaves pageout its need; and pageout asks for no more than that, and can wait. */
  predicate Budget(c: Config, s: State, e: Event)
    requires Enabled(c, s, e)
  {
    var t := Next(c, s, e);
    && (t.kernel > s.kernel ==> OutOfReserve(c, t.free) + (c.need - t.pageoutHas) <= c.reserve)
    && (e.Request? && e.pid == PAGER ==> s.pageoutHas + e.ask.n <= c.need && e.ask.canWait)
  }

  /** The further assumption on the window between a request's two tests: an interrupt in it leaves the
      request its pages and pageout, on top of them, its need.  The code does not see to it. */
  predicate Spares(c: Config, s: State, e: Event)
    requires Enabled(c, s, e)
  {
    var t := Next(c, s, e);
    e.InterruptAlloc? && s.window.Open? && t.kernel > s.kernel ==> t.free >= Promised(s) + (c.need - t.pageoutHas)
  }

  predicate Allowed(c: Config, s: State, e: Event, spared: bool) {
    Enabled(c, s, e) && Budget(c, s, e) && (spared ==> Spares(c, s, e))
  }

  /** Runs within the budget; `spared` ones keep the further assumption too. */
  predicate Kept(c: Config, s: State, es: seq<Event>, spared: bool)
    decreases |es|
  {
    es == [] || (Allowed(c, s, es[0], spared) && Kept(c, Next(c, s, es[0]), es[1..], spared))
  }

  lemma {:induction false} KeptIsPossible(c: Config, s: State, es: seq<Event>, spared: bool)
    requires Kept(c, s, es, spared)
    ensures Possible(c, s, es) && Kept(c, s, es, false)
    decreases |es|
  {
    if es != [] {
      KeptIsPossible(c, Next(c, s, es[0]), es[1..], spared);
    }
  }

  predicate Start(c: Config, s: State) {
    && s.free + s.ordinary + s.kernel == c.total && s.pageoutHas == 0
    && s.ordinary + c.reserve <= c.total && s.free >= c.need
    && s.window.Closed? && s.waiters == 0 && PAGER in s.procs
    && forall p :: p in s.procs ==> s.procs[p].Running?
  }

  // ---- What every reachable state keeps

  /** Ordinary requests are routed, pageout's get past the reserve one way or the other, and the
      reserve covers its need. */
  predicate Safe(c: Config) { c.routed && (c.direct || c.exempt) && 0 < c.need <= c.reserve }

  /** What one process may be doing. */
  predicate Fits(c: Config, s: State, p: nat, x: Proc) {
    && (x.Running? || (x.ask.canWait && x.ask.kind != Pageout && (x.at == InReserve <==> Guarded(c, x.ask.kind))))
    && (x.Asleep? ==> s.waiters > 0 && s.free < Threshold(c, x.at, x.ask.n))
    && (p == PAGER ==> x.Running?)
  }

  function PromisedOrdinary(s: State): nat {
    if s.window.Open? && s.window.ask.kind == Ordinary then s.window.ask.n else 0
  }

  predicate Inv(c: Config, s: State) {
    && s.free + s.ordinary + s.kernel + s.pageoutHas == c.total
    && s.ordinary + PromisedOrdinary(s) + c.reserve <= c.total
    && s.pageoutHas <= c.need && s.free >= Promised(s) + (c.need - s.pageoutHas)
    && (s.window.Open? ==> Runs(s.(window := Closed), s.window.pid) && Guarded(c, s.window.ask.kind))
    && PAGER in s.procs && forall p :: p in s.procs ==> Fits(c, s, p, s.procs[p])
  }

  lemma TurnKeepsInv(c: Config, s: State, p: nat, at: Place, a: Ask)
    requires Safe(c) && Inv(c, s) && s.window.Closed? && p in s.procs
    requires at == InReserve <==> Guarded(c, a.kind)
    requires p == PAGER ==> a.kind == Pageout && s.pageoutHas + a.n <= c.need
    requires a.kind == Pageout ==> p == PAGER
    requires var t := Turn(c, s, p, at, a);
      t.kernel > s.kernel ==> OutOfReserve(c, t.free) + (c.need - t.pageoutHas) <= c.reserve
    ensures Inv(c, Turn(c, s, p, at, a))
  {
    var t := Turn(c, s, p, at, a);
    forall q | q in t.procs ensures Fits(c, t, q, t.procs[q]) {
      assert q != p ==> t.procs[q] == s.procs[q] && Fits(c, s, q, s.procs[q]);
    }
  }

  lemma FreedKeepsInv(c: Config, s: State, r: State, n: nat)
    requires Inv(c, s) && r.procs == s.procs && r.waiters == s.waiters && r.window == s.window && r.free == s.free
    requires r.ordinary <= s.ordinary && r.pageoutHas <= s.pageoutHas
      && r.ordinary + r.kernel + r.pageoutHas + n + r.free == c.total
    requires r.pageoutHas + n >= s.pageoutHas
    ensures Inv(c, Freed(r, n))
  {
    var t := Freed(r, n);
    forall q | q in t.procs ensures Fits(c, t, q, t.procs[q]) {
      assert Fits(c, s, q, s.procs[q]);
    }
  }

  /** Where the invariant holds, the request in the window is granted and keeps it. */
  lemma WindowIsGranted(c: Config, s: State)
    requires Safe(c) && Inv(c, s) && s.window.Open?
    ensures Enabled(c, s, PageGet) && s.free >= s.window.ask.n
    ensures Next(c, s, PageGet) == Put(Taken(s.(window := Closed), s.window.ask), s.window.pid, Running)
    ensures Inv(c, Next(c, s, PageGet))
  {
    var t := Next(c, s, PageGet);
    forall q | q in t.procs ensures Fits(c, t, q, t.procs[q]) {
      assert Fits(c, s, q, s.procs[q]);
    }
  }

  /** An interrupt keeps the invariant if and only if it takes nothing or leaves an open request its
      pages and pageout its need, for every state and every size. */
  lemma InterruptKeepsInvExactly(c: Config, s: State, n: nat)
    requires Safe(c) && Inv(c, s) && Enabled(c, s, InterruptAlloc(n))
    ensures var t := Next(c, s, InterruptAlloc(n));
      Inv(c, t) <==> t == s || t.free >= Promised(s) + (c.need - s.pageoutHas)
  {
    var t := Next(c, s, InterruptAlloc(n));
    forall q | q in t.procs ensures Fits(c, t, q, t.procs[q]) {
      assert Fits(c, s, q, s.procs[q]);
    }
  }

  /** What an interrupt does: it takes all it asks for, for kernel memory, or leaves everything as it
      was; all exactly when its pages are free, and the reserve on top where it sees the reserve. */
  lemma InterruptTakes(c: Config, s: State, n: nat)
    requires Enabled(c, s, InterruptAlloc(n))
    ensures var k := if s.free < n + (if c.direct then 0 else c.reserve) then 0 else n;
      Next(c, s, InterruptAlloc(n)) == s.(free := s.free - k, kernel := s.kernel + k)
  {
  }

  lemma StepKeepsInv(c: Config, s: State, e: Event)
    requires Safe(c) && Inv(c, s) && Allowed(c, s, e, true)
    ensures Inv(c, Next(c, s, e))
  {
    hide Turn, Freed, Fits, Threshold;
    match e
    case Request(p, a) => TurnKeepsInv(c, s, p, if Guarded(c, a.kind) then InReserve else InPageGet, a);
    case Retry(p) =>
      AwakeFits(c, s, p);
      TurnKeepsInv(c, s, p, s.procs[p].at, s.procs[p].ask);
    case PageGet => WindowIsGranted(c, s);
    case InterruptAlloc(n) => InterruptKeepsInvExactly(c, s, n);
    case KernelFree(n) => FreedKeepsInv(c, s, s.(kernel := s.kernel - n), n);
    case OrdinaryFree(p, n) => FreedKeepsInv(c, s, s.(ordinary := s.ordinary - n), n);
    case PagerFree(n) => FreedKeepsInv(c, s, s.(pageoutHas := s.pageoutHas - n), n);
    case PagerPush(n) => FreedKeepsInv(c, s, s.(ordinary := s.ordinary - n), n);
  }

  lemma AwakeFits(c: Config, s: State, p: nat)
    requires Inv(c, s) && p in s.procs && s.procs[p].Awake?
    ensures p != PAGER && s.procs[p].ask.canWait && s.procs[p].ask.kind != Pageout
    ensures s.procs[p].at == InReserve <==> Guarded(c, s.procs[p].ask.kind)
  {
    assert Fits(c, s, p, s.procs[p]);
  }

  lemma {:induction false} RunKeepsInv(c: Config, s: State, es: seq<Event>)
    requires Safe(c) && Inv(c, s) && Kept(c, s, es, true)
    ensures Possible(c, s, es) && Inv(c, EndOf(c, s, es))
    decreases |es|
  {
    if es != [] {
      StepKeepsInv(c, s, es[0]);
      RunKeepsInv(c, Next(c, s, es[0]), es[1..]);
    }
  }

  /** No self-deadlock, over every interleaving within the budget: pageout never sleeps on &freemem
      and whatever it may still ask for is granted at once; only requests that bypass the reserve
      ever sleep inside page_get; ordinary holdings never exceed total - reserve, so every reserved
      page that is out is kernel memory's; a sleeper is counted and really short of memory. */
  lemma NoSelfDeadlock(c: Config, s: State, es: seq<Event>)
    requires Safe(c) && Start(c, s) && Kept(c, s, es, true)
    ensures Possible(c, s, es) && var t := EndOf(c, s, es);
      && t.free + t.ordinary + t.kernel + t.pageoutHas == c.total
      && t.ordinary <= c.total - c.reserve && c.reserve - t.free <= t.kernel + t.pageoutHas
      && PAGER in t.procs && t.procs[PAGER].Running?
      && (forall n: nat :: t.window.Closed? && t.pageoutHas + n <= c.need ==>
            var e := Request(PAGER, Ask(n, Pageout, true));
            t.free >= n && Enabled(c, t, e)
            && Next(c, t, e) == t.(free := t.free - n, pageoutHas := t.pageoutHas + n))
      && (forall p :: p in t.procs && !t.procs[p].Running? && t.procs[p].at == InPageGet ==>
            !Guarded(c, t.procs[p].ask.kind))
      && (forall p :: p in t.procs && t.procs[p].Asleep? ==>
            t.waiters > 0 && t.free < Threshold(c, t.procs[p].at, t.procs[p].ask.n))
  {
    StartFits(c, s);
    RunKeepsInv(c, s, es);
    var t := EndOf(c, s, es);
    forall p | p in t.procs ensures Fits(c, t, p, t.procs[p]) {
    }
    assert Fits(c, t, PAGER, t.procs[PAGER]);
    forall n: nat | t.window.Closed? && t.pageoutHas + n <= c.need
      ensures var e := Request(PAGER, Ask(n, Pageout, true));
        t.free >= n && Enabled(c, t, e) && Next(c, t, e) == t.(free := t.free - n, pageoutHas := t.pageoutHas + n)
    {
      GrantedAtOnce(c, t, n);
    }
  }

  lemma StartFits(c: Config, s: State)
    requires Safe(c) && Start(c, s)
    ensures Inv(c, s)
  {
  }

  lemma GrantedAtOnce(c: Config, t: State, n: nat)
    requires Safe(c) && Inv(c, t) && t.window.Closed? && t.pageoutHas + n <= c.need
    ensures var e := Request(PAGER, Ask(n, Pageout, true));
      && t.free >= n && Allowed(c, t, e, true)
      && Next(c, t, e) == t.(free := t.free - n, pageoutHas := t.pageoutHas + n)
  {
    assert Fits(c, t, PAGER, t.procs[PAGER]);
    assert t.procs[PAGER := Running] == t.procs;
  }

  // ---- Pages do come free

  /** Pageout's own way from where it is: take what is missing of its need, push `k` dirty pages,
      give the kernel memory back. */
  function PageOut(c: Config, t: State, k: nat): seq<Event>
    requires t.pageoutHas <= c.need
  {
    [Request(PAGER, Ask(c.need - t.pageoutHas, Pageout, true)), PagerPush(k), PagerFree(c.need)]
  }

  lemma Cons(c: Config, s: State, e: Event, es: seq<Event>)
    ensures forall spared :: Kept(c, s, [e] + es, spared) <==>
      Allowed(c, s, e, spared) && Kept(c, Next(c, s, e), es, spared)
    ensures Possible(c, s, [e] + es) <==> Enabled(c, s, e) && Possible(c, Next(c, s, e), es)
    ensures Possible(c, s, [e] + es) ==> EndOf(c, s, [e] + es) == EndOf(c, Next(c, s, e), es)
  {
    assert ([e] + es)[1..] == es;
  }

  /** Asleep in the reserve, with a request that `free` pages satisfy. */
  predicate Content(c: Config, x: Proc, free: nat) {
    x.Asleep? && x.at == InReserve && free >= x.ask.n + c.reserve
  }

  /** From every reachable state between requests pageout's own next steps are all granted; they free
      every page it pushes and leave nobody asleep; and a process woken in the reserve goes through
      if its request and the reserve fit into all that is not kernel memory's. */
  lemma PagesComeFree(c: Config, s: State, es: seq<Event>, k: nat)
    requires Safe(c) && Start(c, s) && Kept(c, s, es, true)
    ensures Possible(c, s, es) && EndOf(c, s, es).pageoutHas <= c.need
    ensures var t := EndOf(c, s, es);
      t.window.Closed? && 0 < k <= t.ordinary ==>
        && Kept(c, t, PageOut(c, t, k), true) && Possible(c, t, PageOut(c, t, k))
        && var z := EndOf(c, t, PageOut(c, t, k));
        && z == t.(free := t.free + t.pageoutHas + k, ordinary := t.ordinary - k, pageoutHas := 0,
                   waiters := 0, procs := if t.waiters > 0 then Woken(t.procs) else t.procs)
        && (forall p :: p in z.procs ==> !z.procs[p].Asleep?)
        && (forall p :: p in t.procs && Content(c, t.procs[p], t.free + t.pageoutHas + k) ==>
              Enabled(c, z, Retry(p)) && Next(c, z, Retry(p)).window == Open(p, t.procs[p].ask))
  {
    StartFits(c, s);
    RunKeepsInv(c, s, es);
    var t := EndOf(c, s, es);
    if t.window.Closed? && 0 < k <= t.ordinary {
      PageOutRuns(c, t, k);
      var z := EndOf(c, t, PageOut(c, t, k));
      forall p | p in t.procs && t.procs[p].Asleep?
        ensures t.waiters > 0 && z.procs[p] == Awake(t.procs[p].at, t.procs[p].ask)
      {
        assert Fits(c, t, p, t.procs[p]);
      }
    }
  }

  lemma PageOutRuns(c: Config, t: State, k: nat)
    requires Safe(c) && Inv(c, t) && t.window.Closed? && 0 < k <= t.ordinary
    ensures Kept(c, t, PageOut(c, t, k), true) && Possible(c, t, PageOut(c, t, k))
    ensures EndOf(c, t, PageOut(c, t, k)) ==
      t.(free := t.free + t.pageoutHas + k, ordinary := t.ordinary - k, pageoutHas := 0,
         waiters := 0, procs := if t.waiters > 0 then Woken(t.procs) else t.procs)
  {
    hide Turn, Kept, Possible, EndOf;
    var es := PageOut(c, t, k);
    var n := c.need - t.pageoutHas;
    GrantedAtOnce(c, t, n);
    assert Fits(c, t, PAGER, t.procs[PAGER]);
    var t1 := t.(free := t.free - n, pageoutHas := c.need);
    var t2 := Next(c, t1, es[1]);
    var t3 := Next(c, t2, es[2]);
    EmptyRun(c, t3);
    Cons(c, t2, es[2], []);
    Cons(c, t1, es[1], [es[2]]);
    Cons(c, t, es[0], [es[1], es[2]]);
    assert [es[2]] + [] == [es[2]] && [es[1]] + [es[2]] == [es[1], es[2]] && [es[0]] + [es[1], es[2]] == es;
  }

  lemma EmptyRun(c: Config, s: State)
    ensures (forall spared :: Kept(c, s, [], spared)) && Possible(c, s, []) && EndOf(c, s, []) == s
  {
  }

  /** A request here is one turn of the wait loop there: it is let through, refused or put to sleep
      exactly as `pgrsv_get` does with that much memory free and nothing to clean up. */
  lemma TurnIsOneRound(c: Config, s: State, p: nat, a: Ask, sr: nat)
    requires s.free < 0x8000_0000
    ensures var t := Turn(c, s, p, InReserve, a);
      var w := Reserve.WaitFor(Reserve.Memory(s.free, false), a.n + c.reserve, a.canWait, [], sr);
      && (w.outcome.ToPageGet? ==> t == Put(s, p, Running).(window := Open(p, a)))
      && (w.outcome.Refused? ==> t == Put(s, p, Running))
      && (w.outcome.Waiting? ==> t == Put(s, p, Asleep(InReserve, a)).(waiters := s.waiters + 1))
      && Reserve.Sleeps(w.trace) == t.waiters - s.waiters
  {
    var w := Reserve.WaitFor(Reserve.Memory(s.free, false), a.n + c.reserve, a.canWait, [], sr);
    if w.trace != [] {
      assert w.trace == [Reserve.Slept(Reserve.SR_IMP)] && w.trace[1..] == [];
    }
  }

  function CallerOf(k: Kind): Reserve.Caller {
    match k
    case Ordinary => Reserve.Ordinary
    case KernelMemory => Reserve.Ordinary
    case Sched => Reserve.Sched
    case Pageout => Reserve.Pageout
  }

  /** A request of the patched system is a call of `pgrsv_get`: the same callers see the reserve, and an
      ordinary one passes, is refused or goes to sleep in the one exactly as in the other. */
  method RequestIsCall(c: Config, s: State, p: nat, a: Ask, alloc: Reserve.Allocator)
    returns (r: Reserve.Outcome, trace: seq<Reserve.Event>)
    requires c.routed && c.exempt && a.kind != KernelMemory && Enabled(c, s, Request(p, a))
    requires s.free < 0x8000_0000 && alloc.pages == c.reserve && alloc.memory == Reserve.Memory(s.free, false)
    requires a.n * 4096 < Reserve.WORD && a.n < alloc.maxPageGet
    modifies alloc
    ensures var t := Next(c, s, Request(p, a));
      if c.reserve == 0 || a.kind == Sched || a.kind == Pageout then
        r == Reserve.ToPageGet && trace == [] && t == Turn(c, s, p, InPageGet, a)
      else
        && (r == Reserve.ToPageGet <==> t == Put(s, p, Running).(window := Open(p, a)))
        && (r == Reserve.Refused <==> t == Put(s, p, Running))
        && (r == Reserve.Waiting <==> t == Put(s, p, Asleep(InReserve, a)).(waiters := s.waiters + 1))
  {
    Reserve.WholePages(a.n);
    TurnIsOneRound(c, s, p, a, alloc.sr);
    r, trace := alloc.Get(a.n * 4096, a.canWait, CallerOf(a.kind), []);
  }

  // ---- What happens otherwise

  /** Every process, pageout among them, waits for more than all that is free or kernel memory's. */
  predicate Starved(c: Config, s: State) {
    && s.window.Closed? && PAGER in s.procs
    && forall p :: p in s.procs ==>
         && !s.procs[p].Running? && s.procs[p].ask.canWait
         && s.free + s.kernel < Threshold(c, s.procs[p].at, s.procs[p].ask.n)
  }

  /** Nobody got anything and everybody still waits for the same. */
  predicate Unmoved(s: State, z: State) {
    && z.ordinary == s.ordinary && z.pageoutHas == s.pageoutHas && z.procs.Keys == s.procs.Keys
    && forall p :: p in s.procs && !s.procs[p].Running? ==>
         !z.procs[p].Running? && z.procs[p].at == s.procs[p].at && z.procs[p].ask == s.procs[p].ask
  }

  /** Deadlock: everybody waits, and no run at all changes that, whatever kernel memory interrupts
      take and give back. */
  ghost predicate Dead(c: Config, s: State) {
    && PAGER in s.procs && (forall p :: p in s.procs ==> !s.procs[p].Running?)
    && forall es :: Possible(c, s, es) ==> Unmoved(s, EndOf(c, s, es))
  }

  lemma StarvedStep(c: Config, s: State, e: Event)
    requires Starved(c, s) && Enabled(c, s, e)
    ensures Starved(c, Next(c, s, e)) && Unmoved(s, Next(c, s, e))
  {
  }

  lemma {:induction false} StarvedForever(c: Config, s: State, es: seq<Event>)
    requires Starved(c, s) && Possible(c, s, es)
    ensures Starved(c, EndOf(c, s, es)) && Unmoved(s, EndOf(c, s, es))
    decreases |es|
  {
    if es != [] {
      StarvedStep(c, s, es[0]);
      StarvedForever(c, Next(c, s, es[0]), es[1..]);
    }
  }

  lemma StarvedIsDead(c: Config, s: State)
    requires Starved(c, s)
    ensures Dead(c, s)
  {
    forall es | Possible(c, s, es) ensures Unmoved(s, EndOf(c, s, es)) {
      StarvedForever(c, s, es);
    }
  }

  function Fresh(c: Config): State { State(c.total, 0, 0, 0, Closed, map[PAGER := Running, 1 := Running], 0) }

  /** The run of the observed deadlock: a process takes all it may, pageout asks for its need, the
      process asks once more. */
  function Starving(c: Config): seq<Event>
    requires c.reserve <= c.total
  {
    var all := Ask(if Guarded(c, Ordinary) then c.total - c.reserve else c.total, Ordinary, true);
    [Request(1, all)] + (if Guarded(c, Ordinary) then [PageGet] else [])
    + [Request(PAGER, Ask(c.need, Pageout, true)), Request(1, Ask(1, Ordinary, true))]
  }

  lemma StarvingEnds(c: Config)
    requires !Safe(c) && 0 < c.need <= c.total && c.reserve <= c.total
    ensures Start(c, Fresh(c)) && Kept(c, Fresh(c), Starving(c), true) && Possible(c, Fresh(c), Starving(c))
    ensures Starved(c, EndOf(c, Fresh(c), Starving(c)))
  {
    hide Kept, Possible, EndOf;
    var s := Fresh(c);
    var g := Guarded(c, Ordinary);
    var left := if g then c.reserve else 0;
    var all := Request(1, Ask(c.total - left, Ordinary, true));
    var ask := Request(PAGER, Ask(c.need, Pageout, true));
    var more := Request(1, Ask(1, Ordinary, true));
    var s1 := s.(free := left, ordinary := c.total - left);
    var s2 := Next(c, s1, ask);
    var s3 := Next(c, s2, more);
    EmptyRun(c, s3);
    Cons(c, s2, more, []);
    Cons(c, s1, ask, [more]);
    assert [more] + [] == [more] && [ask] + [more] == [ask, more];
    assert s.procs[1 := Running] == s.procs;
    if g {
      var s0 := Next(c, s, all);
      assert s0 == s.(window := Open(1, all.ask));
      assert Next(c, s0, PageGet) == s1;
      Cons(c, s0, PageGet, [ask, more]);
      Cons(c, s, all, [PageGet] + [ask, more]);
      assert Starving(c) == [all] + ([PageGet] + [ask, more]);
    } else {
      assert Next(c, s, all) == s1;
      Cons(c, s, all, [ask, more]);
      assert Starving(c) == [all] + [ask, more];
    }
    var at := if Guarded(c, Pageout) then InReserve else InPageGet;
    assert s2 == Put(s1, PAGER, Asleep(at, ask.ask)).(waiters := 1);
    assert s3 == Put(s2, 1, Asleep(if g then InReserve else InPageGet, more.ask)).(waiters := 2);
  }

  ghost predicate Deadlocks(c: Config, s: State, es: seq<Event>, spared: bool) {
    Start(c, s) && Kept(c, s, es, spared) && Possible(c, s, es) && Dead(c, EndOf(c, s, es))
  }

  /** As long as interrupts spare the window, a deadlock is reachable within the budget if and only if
      ordinary requests are not routed through the reserve, or pageout's cannot get past it, or it is
      smaller than pageout's need, an empty one above all. */
  lemma SparedDeadlockExactly(c: Config)
    requires 0 < c.need <= c.total && c.reserve <= c.total
    ensures (exists s, es :: Deadlocks(c, s, es, true)) <==> !Safe(c)
  {
    if Safe(c) {
      forall s, es ensures !Deadlocks(c, s, es, true) {
        if Start(c, s) && Kept(c, s, es, true) {
          NoSelfDeadlock(c, s, es);
        }
      }
    } else {
      StarvingEnds(c);
      StarvedIsDead(c, EndOf(c, Fresh(c), Starving(c)));
      assert Deadlocks(c, Fresh(c), Starving(c), true);
    }
  }

  // ---- The pass over the call sites is the other half

  /** The system a kernel image makes: what its call sites send through the reserve, with the test on
      curproc compiled in. */
  function ConfigOf(l: Sites.Layout, rels: Sites.Rels, total: nat, reserve: nat, need: nat): Config {
    Config(total, reserve, need, Sites.Todo(l, rels) == {}, Sites.ExemptsDirect(l, rels), true)
  }
}
