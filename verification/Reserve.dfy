/** The free-page reserve in front of page_get: its page arithmetic and its wait loop. */
module Reserve {
  const WORD := 0x1_0000_0000
  const SR_IMP := 0x2400
  type Int32 = x: int | -0x8000_0000 <= x < 0x8000_0000

  // ---- Page arithmetic in 32 bits, unsigned

  function NPages(bytes: nat): nat { (bytes + 0xFFF) % WORD / 4096 }
  function Want(npages: nat, reserve: nat): nat { (npages + reserve) % WORD }
  function Unsigned(free: Int32): nat { if free < 0 then free + WORD else free }

  /** The page count is the rounded-up one if and only if the rounding add does not wrap; when
      it does, the count is 0. */
  lemma PageCountIsCeiling(bytes: nat)
    requires bytes < WORD
    ensures NPages(bytes) == (bytes + 4095) / 4096 <==> bytes <= 0xFFFF_F000
    ensures bytes > 0xFFFF_F000 ==> NPages(bytes) == 0
  {
  }

  lemma WholePages(n: nat)
    requires n * 4096 < WORD
    ensures NPages(n * 4096) == n
  {
    assert n * 4096 <= 0xFFFF_F000;
    PageCountIsCeiling(n * 4096);
  }

  /** The threshold never wraps, whatever the request and whatever positive int the reserve is. */
  lemma WantDoesNotWrap(bytes: nat, reserve: nat)
    requires bytes < WORD && reserve < WORD / 2
    ensures Want(NPages(bytes), reserve) == NPages(bytes) + reserve
  {
  }

  // ---- The wait loop

  datatype Caller = Ordinary | Sched | Pageout

  /** Free memory and the delayed-free list as the loop finds them after a sleep or a cleanup(). */
  datatype Memory = Memory(free: Int32, bcln: bool)

  datatype Event = Cleaned(sr: nat) | Slept(sr: nat)

  /** How a call ends: refused, on to page_get, or still waiting when the observed events run out. */
  datatype Outcome = Refused | ToPageGet | Waiting

  datatype Wait = Wait(outcome: Outcome, memory: Memory, trace: seq<Event>)

  /** The loop as a function: memory, the threshold, and what each round finds afterwards. */
  function WaitFor(m: Memory, want: nat, canWait: bool, later: seq<Memory>, sr: nat): Wait
    decreases |later|
  {
    if Unsigned(m.free) >= want then Wait(ToPageGet, m, [])
    else if !canWait then Wait(Refused, m, [])
    else
      var e := if m.bcln then Cleaned(sr) else Slept(SR_IMP);
      if later == [] then Wait(Waiting, m, [e])
      else
        var w := WaitFor(later[0], want, canWait, later[1..], sr);
        Wait(w.outcome, w.memory, [e] + w.trace)
  }

  function Sleeps(trace: seq<Event>): nat {
    if trace == [] then 0 else Sleeps(trace[1..]) + if trace[0].Slept? then 1 else 0
  }

  class Allocator {
    const pages: Int32
    const maxPageGet: nat
    var memory: Memory
    var fmw: nat
    var calls: nat
    var waits: nat
    var fails: nat
    var sr: nat

    constructor (memory: Memory, pages: Int32, maxPageGet: nat, sr: nat)
      ensures this.memory == memory && this.pages == pages && this.maxPageGet == maxPageGet && this.sr == sr
      ensures fmw == 0 && calls == 0 && waits == 0 && fails == 0
    {
      this.memory, this.pages, this.maxPageGet, this.sr := memory, pages, maxPageGet, sr;
      fmw, calls, waits, fails := 0, 0, 0, 0;
    }

    /** The wait loop, entered and left masked unless it is still waiting; `s` is the caller's level. */
    method Await(want: nat, canWait: bool, later: seq<Memory>, s: nat) returns (r: Outcome, trace: seq<Event>)
      requires sr == SR_IMP
      modifies `memory, `fmw, `waits, `sr
      ensures Wait(r, memory, trace) == WaitFor(old(memory), want, canWait, later, s)
      ensures r.Waiting? || sr == SR_IMP
      ensures waits == old(waits) + Sleeps(trace) && fmw == old(fmw) + Sleeps(trace)
    {
      trace := [];
      var k := 0;
      ghost var all := WaitFor(memory, want, canWait, later, s);
      assert later[0..] == later && Continues(all, [], all) by { assert [] + all.trace == all.trace; }
      hide WaitFor, Sleeps, Continues, Unsigned;
      while Unsigned(memory.free) < want
        invariant k <= |later| && sr == SR_IMP
        invariant waits == old(waits) + Sleeps(trace) && fmw == old(fmw) + Sleeps(trace)
        invariant Continues(all, trace, WaitFor(memory, want, canWait, later[k..], s))
        decreases |later| - k
      {
        WaitRound(all, trace, memory, want, canWait, later, k, s);
        if !canWait { return Refused, trace; }
        if memory.bcln {
          sr := s;
          SleepsGrow(trace, Cleaned(sr));
          trace := trace + [Cleaned(sr)];
          if k == |later| { return Waiting, trace; }
          memory := later[k];
          sr := SR_IMP;
        } else {
          fmw := fmw + 1;
          waits := waits + 1;
          SleepsGrow(trace, Slept(sr));
          trace := trace + [Slept(sr)];
          if k == |later| { return Waiting, trace; }
          memory := later[k];
        }
        k := k + 1;
      }
      WaitDone(all, trace, memory, want, canWait, later[k..], s);
      return ToPageGet, trace;
    }

    /** pgrsv_get, up to its call of page_get; `later` is what memory looks like each time the loop
        gets the processor back.  Sched, pageout, an empty reserve and a request page_get refuses
        anyway go straight on; everybody else waits for the reserve on top of the request. */
    method Get(bytes: nat, canWait: bool, who: Caller, later: seq<Memory>) returns (r: Outcome, trace: seq<Event>)
      requires bytes < WORD
      modifies this
      ensures calls == old(calls) + 1
      ensures pages <= 0 || who == Sched || who == Pageout || NPages(bytes) >= maxPageGet ==>
        r == ToPageGet && trace == [] && memory == old(memory)
      ensures pages > 0 && who == Ordinary && NPages(bytes) < maxPageGet ==>
        && (r.ToPageGet? <==> Unsigned(memory.free) >= NPages(bytes) + pages)
        && (r.ToPageGet? && trace == [] <==> Unsigned(old(memory).free) >= NPages(bytes) + pages)
      ensures pages > 0 && who == Ordinary && NPages(bytes) < maxPageGet ==>
        Wait(r, memory, trace) == WaitFor(old(memory), NPages(bytes) + pages, canWait, later, old(sr))
      ensures r.Waiting? || sr == old(sr)
      ensures waits == old(waits) + Sleeps(trace) && fmw == old(fmw) + Sleeps(trace)
      ensures fails == old(fails) + if r.Refused? then 1 else 0
    {
      hide NPages, Want, WaitFor;
      PassesExactly(memory, NPages(bytes) + if pages > 0 then pages else 0, canWait, later, sr);
      calls := calls + 1;
      r, trace := ToPageGet, [];
      var npages := NPages(bytes);
      if pages > 0 && who.Ordinary? && npages < maxPageGet {
        WantDoesNotWrap(bytes, pages);
        var s := sr;
        sr := SR_IMP;
        r, trace := Await(Want(npages, pages), canWait, later, s);
        if r.Waiting? { return; }
        sr := s;
        if r.Refused? {
          fails := fails + 1;
        }
      }
    }
  }

  /** What the whole wait is, given the events so far and what the rest will be. */
  ghost predicate Continues(all: Wait, trace: seq<Event>, rest: Wait) {
    all == Wait(rest.outcome, rest.memory, trace + rest.trace)
  }

  lemma WaitDone(all: Wait, trace: seq<Event>, m: Memory, want: nat, canWait: bool, later: seq<Memory>, sr: nat)
    requires Continues(all, trace, WaitFor(m, want, canWait, later, sr)) && Unsigned(m.free) >= want
    ensures all == Wait(ToPageGet, m, trace)
  {
    assert trace + [] == trace;
  }

  lemma WaitRound(all: Wait, trace: seq<Event>, m: Memory, want: nat, canWait: bool,
                  later: seq<Memory>, k: nat, sr: nat)
    requires k <= |later| && Continues(all, trace, WaitFor(m, want, canWait, later[k..], sr)) && Unsigned(m.free) < want
    ensures !canWait ==> all == Wait(Refused, m, trace)
    ensures canWait ==> var e := if m.bcln then Cleaned(sr) else Slept(SR_IMP);
      if k == |later| then all == Wait(Waiting, m, trace + [e])
      else Continues(all, trace + [e], WaitFor(later[k], want, canWait, later[k + 1..], sr))
  {
    assert trace + [] == trace;
    if canWait && k < |later| {
      assert later[k..][1..] == later[k + 1..];
      var e := if m.bcln then Cleaned(sr) else Slept(SR_IMP);
      var w := WaitFor(later[k], want, canWait, later[k + 1..], sr);
      assert trace + ([e] + w.trace) == trace + [e] + w.trace;
    }
  }

  lemma {:induction false} SleepsGrow(trace: seq<Event>, e: Event)
    ensures Sleeps(trace + [e]) == Sleeps(trace) + if e.Slept? then 1 else 0
  {
    if trace == [] {
      assert trace + [e] == [e];
    } else {
      assert (trace + [e])[1..] == trace[1..] + [e];
      SleepsGrow(trace[1..], e);
    }
  }

  /** The two's complement bits of freemem, read as unsigned. */
  lemma UnsignedIsTheSameBits(free: Int32)
    ensures 0 <= Unsigned(free) < WORD && (Unsigned(free) - free) % WORD == 0
  {
  }

  /** A wait passes exactly when it ends with enough, and without an event exactly when it began so. */
  lemma PassesExactly(m: Memory, want: nat, canWait: bool, later: seq<Memory>, sr: nat)
    ensures var w := WaitFor(m, want, canWait, later, sr);
      && (w.outcome.ToPageGet? <==> Unsigned(w.memory.free) >= want)
      && (w.outcome.ToPageGet? && w.trace == [] <==> Unsigned(m.free) >= want)
  {
    WaitRespectsReserve(m, want, canWait, later, sr);
  }

  /** What one wait is, without recursion: memory as found is `m`, then `later`; every round short of
      the threshold runs cleanup() at the entry level if there are pages to clean and sleeps masked if
      not; it ends with the first sufficient memory, or is still waiting when there is none. */
  lemma {:induction false} WaitIs(m: Memory, want: nat, later: seq<Memory>, sr: nat)
    ensures var w, found := WaitFor(m, want, true, later, sr), [m] + later;
      && |w.trace| <= |found|
      && (forall i :: 0 <= i < |w.trace| ==>
            Unsigned(found[i].free) < want && w.trace[i] == if found[i].bcln then Cleaned(sr) else Slept(SR_IMP))
      && (if |w.trace| == |found| then w.outcome == Waiting && w.memory == found[|found| - 1]
          else w.outcome == ToPageGet && w.memory == found[|w.trace|] && Unsigned(w.memory.free) >= want)
    decreases |later|
  {
    if Unsigned(m.free) < want && later != [] {
      WaitIs(later[0], want, later[1..], sr);
      assert [later[0]] + later[1..] == later;
      var w, rest := WaitFor(m, want, true, later, sr), WaitFor(later[0], want, true, later[1..], sr);
      assert forall i :: 1 <= i < |w.trace| ==> w.trace[i] == rest.trace[i - 1] && ([m] + later)[i] == later[i - 1];
    }
  }

  /** Without permission to wait there is no event: refused exactly when memory is short. */
  lemma RefusesExactly(m: Memory, want: nat, later: seq<Memory>, sr: nat)
    ensures WaitFor(m, want, false, later, sr) ==
      Wait(if Unsigned(m.free) < want then Refused else ToPageGet, m, [])
  {
  }

  /** A call passes the reserve only with the whole reserve free behind its pages, waits only below
      it, and never sleeps unmasked or cleans up masked. */
  lemma {:induction false} WaitRespectsReserve(m: Memory, want: nat, canWait: bool, later: seq<Memory>, sr: nat)
    ensures var w := WaitFor(m, want, canWait, later, sr);
      && (w.outcome.ToPageGet? <==> Unsigned(w.memory.free) >= want)
      && (w.outcome.Refused? ==> !canWait && w.trace == [] && w.memory == m)
      && (forall e :: e in w.trace ==> e.sr == if e.Slept? then SR_IMP else sr)
      && |w.trace| <= |later| + 1
    decreases |later|
  {
    if Unsigned(m.free) < want && canWait && later != [] {
      WaitRespectsReserve(later[0], want, canWait, later[1..], sr);
    }
  }
}
