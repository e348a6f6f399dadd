/** The one race the reserve leaves: after its test interrupts are open until page_get's own, and
    page_get does not know the reserve.  What that can cost, and on which systems. */
module ReserveRace {
  import opened ReserveSystem
  import Sites = ReserveSites

  // ---- Reaching states one step at a time

  ghost predicate Reaches(c: Config, s: State, t: State) {
    exists es :: Kept(c, s, es, false) && Possible(c, s, es) && EndOf(c, s, es) == t
  }

  lemma {:induction false} Joined(c: Config, s: State, xs: seq<Event>, ys: seq<Event>)
    requires Possible(c, s, xs) && Kept(c, s, xs, false)
    requires Possible(c, EndOf(c, s, xs), ys) && Kept(c, EndOf(c, s, xs), ys, false)
    ensures Possible(c, s, xs + ys) && Kept(c, s, xs + ys, false)
    ensures EndOf(c, s, xs + ys) == EndOf(c, EndOf(c, s, xs), ys)
    decreases |xs|
  {
    if xs == [] {
      assert xs + ys == ys;
    } else {
      Joined(c, Next(c, s, xs[0]), xs[1..], ys);
      assert xs + ys == [xs[0]] + (xs[1..] + ys);
      Cons(c, s, xs[0], xs[1..] + ys);
    }
  }

  lemma ReachesHere(c: Config, s: State)
    ensures Reaches(c, s, s)
  {
    EmptyRun(c, s);
  }

  lemma ReachesOn(c: Config, s: State, t: State, u: State)
    requires Reaches(c, s, t) && Reaches(c, t, u)
    ensures Reaches(c, s, u)
  {
    var xs :| Kept(c, s, xs, false) && Possible(c, s, xs) && EndOf(c, s, xs) == t;
    var ys :| Kept(c, t, ys, false) && Possible(c, t, ys) && EndOf(c, t, ys) == u;
    Joined(c, s, xs, ys);
  }

  lemma Then(c: Config, s: State, t: State, e: Event)
    requires Reaches(c, s, t) && Allowed(c, t, e, false)
    ensures Reaches(c, s, Next(c, t, e))
  {
    var u := Next(c, t, e);
    EmptyRun(c, u);
    Cons(c, t, e, []);
    assert [e] + [] == [e];
    assert Kept(c, t, [e], false) && Possible(c, t, [e]) && EndOf(c, t, [e]) == u;
    ReachesOn(c, s, t, u);
  }

  // ---- Two runs on a safe configuration

  const SMALL := Config(10, 2, 2, true, true, true)

  function Ordinarily(n: nat): Ask { Ask(n, Ordinary, true) }
  function ForPageout(n: nat): Ask { Ask(n, Pageout, true) }

  function PagerSleeps(): map<nat, Proc> { map[PAGER := Asleep(InPageGet, ForPageout(2)), 1 := Running] }

  /** A request passes, an interrupt takes no more than the budget allows, page_get grants the request
      without sleeping, and pageout, asking for its need, goes to sleep. */
  lemma RaceMakesPageoutSleep()
    ensures Safe(SMALL) && Start(SMALL, Fresh(SMALL))
    ensures Reaches(SMALL, Fresh(SMALL), State(0, 4, 6, 0, Closed, PagerSleeps(), 1))
  {
    var c, s := SMALL, Fresh(SMALL);
    assert Safe(c) && Start(c, s);
    SmallSteps();
    hide Reaches, Next, Allowed, Fresh, PagerSleeps, SmallOpen, SmallTaken, SmallGranted;
    ReachesHere(c, s);
    Then(c, s, s, Request(1, Ordinarily(4)));
    Then(c, s, SmallOpen(), InterruptAlloc(6));
    Then(c, s, SmallTaken(), PageGet);
    Then(c, s, SmallGranted(), Request(PAGER, ForPageout(2)));
  }

  function SmallOpen(): State { Fresh(SMALL).(window := Open(1, Ordinarily(4))) }
  function SmallTaken(): State { SmallOpen().(free := 4, kernel := 6) }
  function SmallGranted(): State { Fresh(SMALL).(free := 0, ordinary := 4, kernel := 6) }

  lemma SmallSteps()
    ensures Allowed(SMALL, Fresh(SMALL), Request(1, Ordinarily(4)), false)
    ensures Next(SMALL, Fresh(SMALL), Request(1, Ordinarily(4))) == SmallOpen()
    ensures Allowed(SMALL, SmallOpen(), InterruptAlloc(6), false)
    ensures Next(SMALL, SmallOpen(), InterruptAlloc(6)) == SmallTaken()
    ensures Allowed(SMALL, SmallTaken(), PageGet, false) && Next(SMALL, SmallTaken(), PageGet) == SmallGranted()
    ensures Allowed(SMALL, SmallGranted(), Request(PAGER, ForPageout(2)), false)
    ensures Next(SMALL, SmallGranted(), Request(PAGER, ForPageout(2))) == State(0, 4, 6, 0, Closed, PagerSleeps(), 1)
  {
    var procs := Fresh(SMALL).procs;
    assert procs[1 := Running] == procs && procs[PAGER := Asleep(InPageGet, ForPageout(2))] == PagerSleeps();
  }

  /** Everything free, pageout and two processes running; then the first waiting in page_get. */
  function Three(c: Config): State {
    State(c.total, 0, 0, 0, Closed, map[PAGER := Running, 1 := Running, 2 := Running], 0)
  }

  function OneAwake(c: Config, n: nat): State {
    Three(c).(procs := map[PAGER := Running, 1 := Awake(InPageGet, Ordinarily(n)), 2 := Running])
  }

  /** A request of `n` pages that an interrupt taking `m` catches, within the budget. */
  predicate Catches(c: Config, n: nat, m: nat) {
    && Safe(c) && n + c.reserve <= c.total && 0 < m && m + n > c.total
    && m + (if c.direct then 0 else c.reserve) <= c.total && m + c.need <= c.total
  }

  function InWindow(c: Config, n: nat): State { Three(c).(window := Open(1, Ordinarily(n))) }

  function Interrupted(c: Config, n: nat, m: nat): State
    requires m <= c.total
  {
    InWindow(c, n).(free := c.total - m, kernel := m)
  }

  function SleepingPast(c: Config, n: nat, m: nat): State
    requires m <= c.total
  {
    State(c.total - m, 0, m, 0, Closed, map[PAGER := Running, 1 := Asleep(InPageGet, Ordinarily(n)), 2 := Running], 1)
  }

  lemma IntoWindow(c: Config, n: nat, m: nat)
    requires Catches(c, n, m)
    ensures Allowed(c, Three(c), Request(1, Ordinarily(n)), false)
    ensures Next(c, Three(c), Request(1, Ordinarily(n))) == InWindow(c, n)
    ensures Allowed(c, InWindow(c, n), InterruptAlloc(m), false)
    ensures Next(c, InWindow(c, n), InterruptAlloc(m)) == Interrupted(c, n, m)
  {
    assert Three(c).procs[1 := Running] == Three(c).procs;
  }

  lemma OutOfWindow(c: Config, n: nat, m: nat)
    requires Catches(c, n, m)
    ensures Allowed(c, Interrupted(c, n, m), PageGet, false)
    ensures Next(c, Interrupted(c, n, m), PageGet) == SleepingPast(c, n, m)
    ensures Allowed(c, SleepingPast(c, n, m), KernelFree(m), false)
    ensures Next(c, SleepingPast(c, n, m), KernelFree(m)) == OneAwake(c, n)
  {
    var asleep := SleepingPast(c, n, m).procs;
    assert Three(c).procs[1 := Asleep(InPageGet, Ordinarily(n))] == asleep;
    assert Woken(asleep) == OneAwake(c, n).procs;
  }

  /** It leaves the request awake in page_get with every page free again. */
  lemma Caught(c: Config, n: nat, m: nat)
    requires Catches(c, n, m)
    ensures Reaches(c, Three(c), OneAwake(c, n))
  {
    IntoWindow(c, n, m);
    OutOfWindow(c, n, m);
    hide Reaches, Next, Allowed, Three, InWindow, Interrupted, SleepingPast, OneAwake;
    var s := Three(c);
    ReachesHere(c, s);
    Then(c, s, s, Request(1, Ordinarily(n)));
    Then(c, s, InWindow(c, n), InterruptAlloc(m));
    Then(c, s, Interrupted(c, n, m), PageGet);
    Then(c, s, SleepingPast(c, n, m), KernelFree(m));
  }

  /** The interrupt takes so much that page_get itself sleeps, past the reserve.  When the pages are back
      another process takes all the reserve lets it, gives a little back, and the sleeper, testing
      only for its own pages, takes the reserve: ordinary processes hold everything, for good. */
  lemma RaceDeadlocks()
    ensures Safe(SMALL) && Start(SMALL, Three(SMALL))
    ensures exists t :: Reaches(SMALL, Three(SMALL), t) && t.ordinary == 10 && Dead(SMALL, t)
  {
    hide Reaches, Dead;
    Caught(SMALL, 4, 8);
    TakesTheRest(SMALL, 4, 8, 2);
  }

  /** From there the second process takes `all`, frees `back`, the first takes its `n` pages, and all
      three ask for more. */
  lemma TakesTheRest(c: Config, n: nat, all: nat, back: nat)
    requires Safe(c) && Reaches(c, Three(c), OneAwake(c, n))
    requires 0 < back <= all && all + c.reserve <= c.total && n == c.total - all + back
    ensures exists z :: Reaches(c, Three(c), z) && z.ordinary == c.total && Dead(c, z)
  {
    hide Reaches;
    var s, t := Three(c), OneAwake(c, n);
    Then(c, s, t, Request(2, Ordinarily(all)));
    var t1 := t.(window := Open(2, Ordinarily(all)));
    assert t.procs[2 := Running] == t.procs;
    Then(c, s, t1, PageGet);
    var t2 := t.(free := c.total - all, ordinary := all);
    assert Next(c, t1, PageGet) == t2;
    Then(c, s, t2, OrdinaryFree(2, back));
    var t3 := t.(free := n, ordinary := all - back);
    Then(c, s, t3, Retry(1));
    var t4 := s.(free := 0, ordinary := c.total);
    assert t.procs[1 := Running] == s.procs;
    assert Next(c, t3, Retry(1)) == t4;
    Then(c, s, t4, Request(PAGER, ForPageout(c.need)));
    var t5 := Next(c, t4, Request(PAGER, ForPageout(c.need)));
    Then(c, s, t5, Request(1, Ordinarily(1)));
    var t6 := Next(c, t5, Request(1, Ordinarily(1)));
    Then(c, s, t6, Request(2, Ordinarily(1)));
    var t7 := Next(c, t6, Request(2, Ordinarily(1)));
    assert Starved(c, t7);
    StarvedIsDead(c, t7);
  }

  // ---- On which systems

  /** Free pages an interrupt always leaves within the budget. */
  function Floor(c: Config, s: State): int { if c.direct then c.need - s.pageoutHas else c.reserve }

  /** Memory enough for a request to pass the reserve test and be caught by an interrupt. */
  predicate Roomy(c: Config) { c.total > c.reserve + if c.direct then c.need else c.reserve }

  /** What one process may be doing on a safe system on which page_get never makes wait what passed the
      reserve test. */
  predicate Waits(c: Config, s: State, p: nat, x: Proc) {
    && (x.Running? ||
        (&& x.ask.canWait && (x.at == InReserve <==> Guarded(c, x.ask.kind)) && (x.ask.kind == Pageout <==> p == PAGER)
         && (p == PAGER ==> s.pageoutHas + x.ask.n <= c.need)))
    && (x.Asleep? ==> s.waiters > 0 && s.free < Threshold(c, x.at, x.ask.n))
  }

  /** There ordinary holdings leave the reserve to kernel memory, although pageout may have to wait. */
  predicate Loose(c: Config, s: State) {
    && s.free + s.ordinary + s.kernel + s.pageoutHas == c.total
    && s.ordinary + PromisedOrdinary(s) + c.reserve <= c.total && s.pageoutHas <= c.need
    && (s.window.Open? ==>
          && s.window.pid != PAGER && s.window.ask.kind != Pageout
          && s.window.pid in s.procs && s.procs[s.window.pid].Running? && Guarded(c, s.window.ask.kind))
    && PAGER in s.procs && forall p :: p in s.procs ==> Waits(c, s, p, s.procs[p])
  }

  /** page_get has the pages of a request that passed the reserve test. */
  predicate Honoured(s: State, e: Event) { e.PageGet? && s.window.Open? ==> s.free >= s.window.ask.n }

  lemma LooseTurn(c: Config, s: State, p: nat, at: Place, a: Ask)
    requires Safe(c) && Loose(c, s) && s.window.Closed? && p in s.procs
    requires (at == InReserve <==> Guarded(c, a.kind)) && (a.kind == Pageout <==> p == PAGER)
    requires p == PAGER ==> s.pageoutHas + a.n <= c.need && a.canWait
    ensures Loose(c, Turn(c, s, p, at, a))
  {
    var t := Turn(c, s, p, at, a);
    forall q | q in t.procs ensures Waits(c, t, q, t.procs[q]) {
      assert q != p ==> t.procs[q] == s.procs[q] && Waits(c, s, q, s.procs[q]);
    }
  }

  lemma LooseFreed(c: Config, s: State, r: State, n: nat)
    requires Loose(c, s) && r.procs == s.procs && r.waiters == s.waiters && r.window == s.window && r.free == s.free
    requires r.ordinary <= s.ordinary && r.pageoutHas <= s.pageoutHas
      && r.ordinary + r.kernel + r.pageoutHas + n + r.free == c.total
    ensures Loose(c, Freed(r, n))
  {
    var t := Freed(r, n);
    forall q | q in t.procs ensures Waits(c, t, q, t.procs[q]) {
      assert Waits(c, s, q, s.procs[q]);
    }
  }

  lemma LooseWindow(c: Config, s: State, e: Event)
    requires Safe(c) && Loose(c, s) && (e.PageGet? || e.InterruptAlloc?) && Allowed(c, s, e, false) && Honoured(s, e)
    ensures Loose(c, Next(c, s, e))
  {
    var t := Next(c, s, e);
    forall q | q in t.procs ensures Waits(c, t, q, t.procs[q]) {
      assert Waits(c, s, q, s.procs[q]);
    }
  }

  lemma StepKeepsLoose(c: Config, s: State, e: Event)
    requires Safe(c) && Loose(c, s) && Allowed(c, s, e, false) && Honoured(s, e)
    ensures Loose(c, Next(c, s, e))
  {
    hide Turn, Freed, Threshold;
    match e
    case Request(p, a) => LooseTurn(c, s, p, if Guarded(c, a.kind) then InReserve else InPageGet, a);
    case Retry(p) =>
      assert Waits(c, s, p, s.procs[p]);
      LooseTurn(c, s, p, s.procs[p].at, s.procs[p].ask);
    case PageGet => LooseWindow(c, s, e);
    case InterruptAlloc(n) => LooseWindow(c, s, e);
    case KernelFree(n) => LooseFreed(c, s, s.(kernel := s.kernel - n), n);
    case OrdinaryFree(p, n) => LooseFreed(c, s, s.(ordinary := s.ordinary - n), n);
    case PagerFree(n) => LooseFreed(c, s, s.(pageoutHas := s.pageoutHas - n), n);
    case PagerPush(n) => LooseFreed(c, s, s.(ordinary := s.ordinary - n), n);
  }

  predicate AllHonoured(c: Config, s: State, es: seq<Event>)
    requires Possible(c, s, es)
    decreases |es|
  {
    es == [] || (Honoured(s, es[0]) && AllHonoured(c, Next(c, s, es[0]), es[1..]))
  }

  lemma {:induction false} RunKeepsLoose(c: Config, s: State, es: seq<Event>)
    requires Safe(c) && Loose(c, s) && Kept(c, s, es, false) && Possible(c, s, es) && AllHonoured(c, s, es)
    ensures Loose(c, EndOf(c, s, es))
    decreases |es|
  {
    if es != [] {
      StepKeepsLoose(c, s, es[0]);
      RunKeepsLoose(c, Next(c, s, es[0]), es[1..]);
    }
  }

  /** As long as page_get honours what passed the reserve test, whatever else interrupts do within the
      budget, ordinary holdings never exceed total - reserve and no state is dead. */
  lemma HonouredMeansAlive(c: Config, s: State, es: seq<Event>)
    requires Safe(c) && Start(c, s) && Kept(c, s, es, false) && Possible(c, s, es) && AllHonoured(c, s, es)
    ensures var t := EndOf(c, s, es); t.ordinary <= c.total - c.reserve && !Dead(c, t)
  {
    assert Loose(c, s);
    RunKeepsLoose(c, s, es);
    LooseIsNotDead(c, EndOf(c, s, es));
  }

  /** Without room for more, the request in the window fits under the floor. */
  predicate Tight(c: Config, s: State) {
    Loose(c, s) && (s.window.Open? ==> s.window.ask.n <= Floor(c, s) && s.window.ask.n <= s.free)
  }

  lemma StepKeepsTight(c: Config, s: State, e: Event)
    requires Safe(c) && !Roomy(c) && Tight(c, s) && Allowed(c, s, e, false)
    ensures Honoured(s, e) && Tight(c, Next(c, s, e))
  {
    hide Loose;
    StepKeepsLoose(c, s, e);
    assert s.free + s.ordinary + s.kernel + s.pageoutHas == c.total by { LooseAddsUp(c, s); }
  }

  lemma LooseAddsUp(c: Config, s: State)
    requires Loose(c, s)
    ensures s.free + s.ordinary + s.kernel + s.pageoutHas == c.total
  {
  }

  lemma {:induction false} RunKeepsTight(c: Config, s: State, es: seq<Event>)
    requires Safe(c) && !Roomy(c) && Tight(c, s) && Kept(c, s, es, false)
    ensures Possible(c, s, es) && AllHonoured(c, s, es)
    decreases |es|
  {
    if es != [] {
      StepKeepsTight(c, s, es[0]);
      RunKeepsTight(c, Next(c, s, es[0]), es[1..]);
    }
  }

  lemma PagerGoesOn(c: Config, s: State)
    requires Safe(c) && Loose(c, s) && !s.procs[PAGER].Running? && s.window.Closed?
    ensures exists es :: Possible(c, s, es) && !Unmoved(s, EndOf(c, s, es))
  {
    assert Waits(c, s, PAGER, s.procs[PAGER]);
    assert s.free + s.kernel >= s.procs[PAGER].ask.n;
    var retry := Retry(PAGER);
    if s.kernel == 0 {
      var t := Next(c, s, retry);
      EmptyRun(c, t);
      Cons(c, s, retry, []);
      assert Possible(c, s, [retry] + []) && !Unmoved(s, EndOf(c, s, [retry] + []));
    } else {
      var e := KernelFree(s.kernel);
      var t := Next(c, s, e);
      var u := Next(c, t, retry);
      EmptyRun(c, u);
      Cons(c, t, retry, []);
      Cons(c, s, e, [retry] + []);
      assert Possible(c, s, [e] + ([retry] + [])) && !Unmoved(s, EndOf(c, s, [e] + ([retry] + [])));
    }
  }

  /** On such a system pageout's wait always ends: kernel memory comes back, and then it is granted. */
  lemma LooseIsNotDead(c: Config, s: State)
    requires Safe(c) && Loose(c, s)
    ensures !Dead(c, s)
  {
    if !s.procs[PAGER].Running? && s.window.Closed? {
      PagerGoesOn(c, s);
    }
  }

  // ---- A queue in page_get on a system with room

  const ONE := Ask(1, Ordinary, true)

  predicate Present(c: Config, p: nat) { p < c.reserve + 2 }

  /** Pageout, a process that will take the most, and `c.reserve` others, of whom `k` wait for one page
      in page_get. */
  function Queue(c: Config, k: nat): map<nat, Proc> {
    map p: nat | p < c.reserve + 2 && Present(c, p) :: if 2 <= p < k + 2 then Awake(InPageGet, ONE) else Running
  }

  /** Pageout holds its need meanwhile, so interrupts may take all the rest. */
  function Queued(c: Config, k: nat): State
    requires c.need <= c.total
  {
    State(c.total - c.need, 0, 0, c.need, Closed, Queue(c, k), 0)
  }

  predicate Queueable(c: Config) { Safe(c) && c.direct && Roomy(c) }

  /** One more process passes the reserve test, is caught by an interrupt that takes everything and
      gives it back, and waits in page_get. */
  lemma QueueGrows(c: Config, s: State, k: nat)
    requires Queueable(c) && k < c.reserve && Reaches(c, s, Queued(c, k))
    ensures Reaches(c, s, Queued(c, k + 1))
  {
    hide Reaches;
    var p, all := k + 2, c.total - c.need;
    var s0 := Queued(c, k);
    var s1 := s0.(window := Open(p, ONE));
    var s2 := s1.(free := 0, kernel := all);
    var s3 := s2.(window := Closed, waiters := 1, procs := Queue(c, k)[p := Asleep(InPageGet, ONE)]);
    assert Queue(c, k)[p := Running] == Queue(c, k);
    assert Woken(s3.procs) == Queue(c, k + 1);
    hide Queue, Woken;
    assert Allowed(c, s0, Request(p, ONE), false) && Next(c, s0, Request(p, ONE)) == s1;
    assert Allowed(c, s1, InterruptAlloc(all), false) && Next(c, s1, InterruptAlloc(all)) == s2;
    assert Allowed(c, s2, PageGet, false) && Next(c, s2, PageGet) == s3;
    assert Allowed(c, s3, KernelFree(all), false) && Next(c, s3, KernelFree(all)) == Queued(c, k + 1);
    hide Next, Allowed;
    Then(c, s, s0, Request(p, ONE));
    Then(c, s, s1, InterruptAlloc(all));
    Then(c, s, s2, PageGet);
    Then(c, s, s3, KernelFree(all));
  }

  /** The same processes when `k` of the queue have got their page and asked for another. */
  function Served(c: Config, k: nat): map<nat, Proc> {
    map p: nat | p < c.reserve + 2 && Present(c, p) ::
      if p < 2 then Running else if p < k + 2 then Asleep(InReserve, ONE) else Awake(InPageGet, ONE)
  }

  function Draining(c: Config, k: nat): State
    requires k <= c.reserve <= c.total
  {
    State(c.reserve - k, c.total - c.reserve + k, 0, 0, Closed, Served(c, k), k)
  }

  /** The queue testing only for its own pages, each of its processes takes one from the reserve. */
  lemma QueueDrains(c: Config, s: State, k: nat)
    requires Queueable(c) && k < c.reserve && Reaches(c, s, Draining(c, k))
    ensures Reaches(c, s, Draining(c, k + 1))
  {
    hide Reaches;
    var p := k + 2;
    var s0 := Draining(c, k);
    var s1 := s0.(free := s0.free - 1, ordinary := s0.ordinary + 1, procs := Served(c, k)[p := Running]);
    assert Served(c, k)[p := Running][p := Asleep(InReserve, ONE)] == Served(c, k + 1);
    assert p in Served(c, k) && Served(c, k)[p] == Awake(InPageGet, ONE);
    hide Served;
    assert Allowed(c, s0, Retry(p), false) && Next(c, s0, Retry(p)) == s1;
    assert Allowed(c, s1, Request(p, ONE), false) && Next(c, s1, Request(p, ONE)) == Draining(c, k + 1);
    hide Next, Allowed;
    Then(c, s, s0, Retry(p));
    Then(c, s, s1, Request(p, ONE));
  }

  /** Between the two: pageout gives its memory back, and the first process takes all it may. */
  lemma QueueTurns(c: Config, s: State)
    requires Queueable(c) && Reaches(c, s, Queued(c, c.reserve))
    ensures Reaches(c, s, Draining(c, 0))
  {
    hide Reaches;
    var most := Ordinarily(c.total - c.reserve);
    var s0 := Queued(c, c.reserve);
    var s1 := s0.(free := c.total, pageoutHas := 0);
    var s2 := s1.(window := Open(1, most));
    assert Queue(c, c.reserve) == Served(c, 0) && Served(c, 0)[1 := Running] == Served(c, 0);
    assert PAGER in Served(c, 0) && 1 in Served(c, 0) && Served(c, 0)[PAGER].Running? && Served(c, 0)[1].Running?;
    hide Served, Queue;
    assert Allowed(c, s0, PagerFree(c.need), false) && Next(c, s0, PagerFree(c.need)) == s1;
    assert Allowed(c, s1, Request(1, most), false) && Next(c, s1, Request(1, most)) == s2;
    assert Allowed(c, s2, PageGet, false) && Next(c, s2, PageGet) == Draining(c, 0);
    hide Next, Allowed;
    Then(c, s, s0, PagerFree(c.need));
    Then(c, s, s1, Request(1, most));
    Then(c, s, s2, PageGet);
  }

  lemma {:induction false} QueueFills(c: Config, s: State, k: nat)
    requires Queueable(c) && k <= c.reserve && Reaches(c, s, Queued(c, 0))
    ensures Reaches(c, s, Queued(c, k))
  {
    if k > 0 {
      QueueFills(c, s, k - 1);
      QueueGrows(c, s, k - 1);
    }
  }

  lemma {:induction false} QueueEmpties(c: Config, s: State, k: nat)
    requires Queueable(c) && k <= c.reserve && Reaches(c, s, Draining(c, 0))
    ensures Reaches(c, s, Draining(c, k))
  {
    if k > 0 {
      QueueEmpties(c, s, k - 1);
      QueueDrains(c, s, k - 1);
    }
  }

  /** With the reserve gone, pageout and the first process go to sleep, and that is the end. */
  lemma QueueDies(c: Config, s: State)
    requires Queueable(c) && Reaches(c, s, Draining(c, c.reserve))
    ensures exists z :: Reaches(c, s, z) && Dead(c, z)
  {
    hide Reaches, Dead;
    var s0 := Draining(c, c.reserve);
    var s1 := s0.(waiters := c.reserve + 1, procs := s0.procs[PAGER := Asleep(InPageGet, ForPageout(c.need))]);
    var s2 := s1.(waiters := c.reserve + 2, procs := s1.procs[1 := Asleep(InReserve, ONE)]);
    assert Allowed(c, s0, Request(PAGER, ForPageout(c.need)), false);
    assert Next(c, s0, Request(PAGER, ForPageout(c.need))) == s1;
    assert Allowed(c, s1, Request(1, ONE), false) && Next(c, s1, Request(1, ONE)) == s2;
    assert Starved(c, s2);
    hide Next, Allowed, Starved;
    Then(c, s, s0, Request(PAGER, ForPageout(c.need)));
    Then(c, s, s1, Request(1, ONE));
    StarvedIsDead(c, s2);
  }

  function Line(c: Config): State { State(c.total, 0, 0, 0, Closed, Queue(c, 0), 0) }

  lemma QueueDeadlocks(c: Config)
    requires Queueable(c)
    ensures Start(c, Line(c)) && exists z :: Reaches(c, Line(c), z) && Dead(c, z)
  {
    var s := Line(c);
    var e := Request(PAGER, ForPageout(c.need));
    assert Queue(c, 0)[PAGER := Running] == Queue(c, 0);
    assert Allowed(c, s, e, false) && Next(c, s, e) == Queued(c, 0);
    ReachesHere(c, s);
    Then(c, s, s, e);
    QueueFills(c, s, c.reserve);
    QueueTurns(c, s);
    QueueEmpties(c, s, c.reserve);
    QueueDies(c, s);
  }

  // ---- When interrupts go through the reserve too

  /** Kernel memory leaves the reserve alone, but a request larger than it can still be caught. */
  lemma RoutedInterruptsDeadlock(c: Config)
    requires Safe(c) && !c.direct && Roomy(c)
    ensures Start(c, Three(c)) && exists z :: Reaches(c, Three(c), z) && Dead(c, z)
  {
    hide Reaches, Dead;
    Caught(c, c.reserve + 1, c.total - c.reserve);
    TakesTheRest(c, c.reserve + 1, c.total - c.reserve, 1);
  }

  /** Whatever interrupts do within the budget, a deadlock is reachable if and only if the system is not
      safe or it has more memory than the reserve and what interrupts always leave: then a request can
      be caught between its two tests, and from then on tests only for its own pages. */
  lemma DeadlockExactly(c: Config)
    requires 0 < c.need <= c.total && c.reserve <= c.total
    ensures (exists s, es :: Deadlocks(c, s, es, false)) <==> !Safe(c) || Roomy(c)
  {
    if !Safe(c) {
      SparedDeadlockExactly(c);
      var s, es :| Deadlocks(c, s, es, true);
      KeptIsPossible(c, s, es, true);
      assert Deadlocks(c, s, es, false);
    } else if Roomy(c) {
      RoomyDeadlocks(c);
    } else {
      forall s, es ensures !Deadlocks(c, s, es, false) {
        if Start(c, s) && Kept(c, s, es, false) {
          assert Tight(c, s);
          RunKeepsTight(c, s, es);
          HonouredMeansAlive(c, s, es);
        }
      }
    }
  }

  lemma RoomyDeadlocks(c: Config)
    requires Safe(c) && Roomy(c)
    ensures exists s, es :: Deadlocks(c, s, es, false)
  {
    var s := if c.direct then Line(c) else Three(c);
    if c.direct {
      QueueDeadlocks(c);
    } else {
      RoutedInterruptsDeadlock(c);
    }
    var z :| Reaches(c, s, z) && Dead(c, z);
    var es :| Kept(c, s, es, false) && Possible(c, s, es) && EndOf(c, s, es) == z;
    assert Deadlocks(c, s, es, false);
  }

  // ---- The pass over the call sites is the other half

  /** The pass takes a kernel in which the deadlock is reachable even when interrupts spare the window
      to one in which it is not, for every reserve that covers pageout's need; kernel memory's call
      sites keep reaching page_get.  When interrupts do not, it remains reachable if and only if there
      is more memory than the reserve and pageout's need. */
  lemma PassRemovesDeadlock(l: Sites.Layout, rels: Sites.Rels, total: nat, reserve: nat, need: nat)
    requires Sites.Judged(l, rels).Patched? && 0 < need <= reserve <= total
    ensures Sites.HookIndex(l.syms, 0).Some?
    ensures var rels' := Sites.Routed(rels, Sites.Todo(l, rels), Sites.HookIndex(l.syms, 0).value);
      var c, c' := ConfigOf(l, rels, total, reserve, need), ConfigOf(l, rels', total, reserve, need);
      && c'.routed && c'.direct
      && (exists s, es :: Deadlocks(c, s, es, true)) && !(exists s, es :: Deadlocks(c', s, es, true))
      && ((exists s, es :: Deadlocks(c', s, es, false)) <==> total > reserve + need)
  {
    var h := Sites.HookIndex(l.syms, 0).value;
    var rels' := Sites.Routed(rels, Sites.Todo(l, rels), h);
    Sites.RoutesAreRight(l, rels, h);
    forall off | off in Sites.Sites(l, rels') && Sites.Exempt(l, off) ensures Sites.Direct(l, rels', off) {
      assert off !in Sites.Wrong(l, rels');
    }
    var c, c' := ConfigOf(l, rels, total, reserve, need), ConfigOf(l, rels', total, reserve, need);
    assert !Safe(c) && Safe(c') && (Roomy(c') <==> total > reserve + need);
    hide Deadlocks;
    SparedDeadlockExactly(c);
    SparedDeadlockExactly(c');
    DeadlockExactly(c');
  }
}
