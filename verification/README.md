# AMIX kernel port: verified models

This project models the parts of the port that carry a protocol, a parser or an all-or-nothing edit,
and proves what they are relied on for. `dafny verify dfyconfig.toml` checks all of it.

| file | what it models |
|---|---|
| `Reserve.dfy` | `pgrsv_get`: page arithmetic, the wait loop, the interrupt level, the counters |
| `ReserveSystem.dfy` | ordinary processes, kernel memory, interrupts and pageout sharing free memory, step by step |
| `ReserveRace.dfy` | what interrupts between a request's two tests can do to that system, and on which kernels |
| `ReserveSites.dfy` | the pass that decides which call sites of `page_get` see the reserve, and its check |
| `FpeGlue.dfy` | one soft-FPU trap entry: lock, form gate, abort, write-back, signal |
| `FpeSystem.dfy` | the same entry interleaved over any number of processes |
| `FpeEntries.dfy` | what each process is left with in such an interleaving |
| `Telnet.dfy` | the negotiation filter and the prompt search of the command runners |
| `RootHint.dfy` | the root-hint record, its application, and the second decoder it must agree with |
| `PatchEngines.dfy` | the single-pass and the two-phase image editors, over arbitrary tables |
| `NfsGeometry.dfy` | the NFS read path whose four immediates the two-phase editor converts |
| `VectorRetarget.dfy` | the vector/decline relocation pair of the two FPU arms, and the link check on it |
| `B2Verify.dfy` | the read-and-compare classifier |
| `BuildId.dfy` | the partitioned build-id allocator and the stamp field |

Code that changes things in place is a class or a method over an array, proved against a function of
its inputs or an invariant; the interleaved systems are state machines whose steps run between two
points where the kernel can switch processes.

## Assumptions

- The kernel is uniprocessor and does not preempt itself between sleep points; a masked section runs
  without interrupts.
- `page_get` waits only while `freemem` is below the request; `page_free` wakes everybody on
  `&freemem` when the waiter counter is nonzero and clears it (`src/pgrsv.c:4-19`).
- When kernel memory or sched takes pages, what is then out of the reserve, counted on `freemem`, plus
  what pageout may still ask for does not exceed the reserve; pageout asks for no more than its `need`
  and can wait (`ReserveSystem.Budget`).
- Only where a result says that interrupts spare the window: an interrupt between a request's reserve
  test and `page_get`'s own test leaves the request its pages and pageout, on top of them, its need
  (`ReserveSystem.Spares`). The code does not see to it; `ReserveRace.dfy` says what happens otherwise.
- Every page pageout could free is dirty: it pushes one only while it holds the kernel memory it needs
  (`src/pgrsv.c:4-8`).
- For a signal the emulator reports the frame's PC as the address (`src/fpe_glue.c:781-783`); where
  nothing is said of it, it may report any.
- `fpu_emulate` ends an instruction, asks for a signal, or aborts through `fpe_panic` or a failed
  copy; `copyin`, `issig`, `psig`, `sleep` and `page_get` are opaque steps whose answers are inputs.
- ELF files are given as symbols, relocations and bytes that are already parsed.

## Where the code and its promises differ

Each with the input that shows it and the exact condition.

- Interrupts are open between `pgrsv_get`'s test and `page_get`'s (`src/pgrsv.c:99-101`), and `page_get`
  does not know the reserve. An interrupt there can make pageout sleep although `page_get` grants the
  request (`ReserveRace.RaceMakesPageoutSleep`), and when `page_get` has to sleep, a permanent deadlock
  can follow although the reserve covers pageout's need (`ReserveRace.RaceDeadlocks`). Within the
  kernel-memory budget it is reachable if and only if the system is not safe anyway or it has more
  memory than the reserve and what interrupts always leave, pageout's need on a patched kernel
  (`ReserveRace.DeadlockExactly`); it is not if interrupts spare the window
  (`ReserveSystem.SparedDeadlockExactly`) or `page_get` honours what passed the test
  (`ReserveRace.HonouredMeansAlive`).
- The page count of `pgrsv_get` is the rounded-up one exactly up to 0xFFFFF000 bytes; one byte more
  wraps to 0 pages (`Reserve.PageCountIsCeiling`).
- `pump` ends a subnegotiation at the first IAC SE pair it finds, also when that pair is the second
  half of a doubled IAC and a data byte 240. Doubling, as RFC 855 asks, does not protect it: the rest of
  the body is delivered as text (`Telnet.LeakExample`, and exactly when in
  `Telnet.PayloadExactlyWhenNothingLeaks`).
- A token cut between two successive reads is misread, because each read starts with an empty tail
  (`Telnet.TwoReadsHearTheStream`).
- A changed longword in a checked record can switch root record and boot disk: a root record's first
  longword set to zero, or set to the magic in front of a stale valid one
  (`RootHint.OneLongSwitchesDisks`, and exactly when in `RootHint.RecordCorruption`).
- The partial guard of `patch_memcntl.py` can never fire: a half-converted image is completed
  (`PatchEngines.KernelFile.ApplyGuardedPass`).
- The installers accept images on which the decline word does not receive the displaced handler or the
  link check fails afterwards (`VectorRetarget.AcceptedButWrong`, and exactly when in
  `VectorRetarget.DisplacedHandlerKept`, `InstalledPassesVectorCheck` and `InstalledPassesDeclineCheck`).
- `patch_pgrsv_sites.py` makes `pgrsv_get` call itself if the symbol list names another ordinary caller
  last at its address (`ReserveSites.PassBreaksOwnCall`, and exactly when in
  `ReserveSites.ResultStaysValid`); its own check then refuses the kernel.
- A clock set back and forward repeats build ids (`BuildId.ClockSetBack`, and exactly when in
  `BuildId.DistinctExactly`). Numbers of 100 and more do not fit the field
  (`BuildId.FieldFits`).
- The converted NFS gate compares two sums that can wrap: it accepts the last page of the offset space
  for every file that ends before it, and refuses every page but that one to a file of more than
  0xFFFFF000 bytes (`NfsGeometry.WrapsAtBothEnds`, and exactly when in `NfsGeometry.GateRightExactly`).

## Model

| member | source | states |
|---|---|---|
| ReserveSystem.StepKeepsInv | src/pgrsv.c:79-101 | every step of every actor within the budget, sleeping and waking included and interrupts sparing the window, keeps conservation, the bound on ordinary holdings, pageout's cover, and every sleeper counted and short |
| ReserveSystem.RunKeepsInv | src/pgrsv.c:79-101 | the same over every finite interleaving |
| ReserveSystem.WindowIsGranted | src/pgrsv.c:99-101 | where that invariant holds, a request that passed the reserve test is granted by `page_get`, and the invariant stays |
| ReserveSystem.InterruptKeepsInvExactly | src/pgrsv.c:99-101 | for every state and size, an interrupt keeps the invariant if and only if it takes nothing or leaves an open request its pages and pageout its need |
| ReserveSystem.NoSelfDeadlock | src/pgrsv.c:4-19 | whatever the interleaving, as long as interrupts spare the window: pageout never sleeps on `&freemem` and its next request is granted at once; ordinary processes hold at most total minus reserve, so what is out of the reserve is kernel memory's; only requests past the reserve ever sleep inside `page_get`; a sleeper is counted for wakeup and really short |
| ReserveSystem.PagesComeFree | src/pgrsv.c:4-17 | from every state so reached, between requests, pageout's own steps are all granted, free every page it pushes and wake everybody; a process waiting in the reserve then goes through if all that is not kernel memory's covers it and the reserve |
| ReserveSystem.TurnIsOneRound | src/pgrsv.c:82-98 | a turn in the reserve lets a request through, refuses it or puts it to sleep exactly as one turn of the wait loop of `pgrsv_get` |
| ReserveSystem.RequestIsCall | src/pgrsv.c:67-102 | on a kernel whose ordinary requests are routed, for an ordinary process, sched and pageout: a request in the system and the call of `pgrsv_get` under the same configuration agree: which are sent through the reserve, and whether they go on, are refused or wait |
| ReserveSystem.InterruptTakes | src/pgrsv.c:11-17 | an interrupt takes all it asks for or changes nothing; it takes it exactly when its pages are free, with the reserve on top where its call sites are routed |
| ReserveSystem.StarvingEnds | src/pgrsv.c:4-10 | the run of the observed deadlock: a process takes all it may, pageout asks for its buffer, the process asks once more, and everybody waits for more than is free or kernel memory's |
| ReserveSystem.StarvedForever | src/pgrsv.c:4-10 | from there no run at all, whatever kernel memory is taken and given back in it, gives pageout or any process anything or ends its wait |
| ReserveSystem.SparedDeadlockExactly | src/pgrsv.c:11-17 | with interrupts sparing the window, a permanent deadlock is reachable within the budget if and only if ordinary requests are not routed through the reserve, or pageout's cannot get past it, or it is smaller than pageout's need |
| ReserveRace.RaceMakesPageoutSleep | src/pgrsv.c:99-101 | a run on a safe system within the budget in which `page_get` never sleeps and pageout does |
| ReserveRace.RaceDeadlocks | src/pgrsv.c:99-101 | a run on the same system after which ordinary processes hold every page for good |
| ReserveRace.HonouredMeansAlive | src/pgrsv.c:79-101 | on a safe system, whatever interrupts do within the budget, as long as `page_get` has the pages of what passed the test, ordinary holdings leave the reserve and nothing is ever deadlocked |
| ReserveRace.DeadlockExactly | src/pgrsv.c:79-101 | with interrupts doing anything within the budget, a permanent deadlock is reachable if and only if the system is not safe or it has more memory than the reserve plus what interrupts always leave |
| ReserveRace.QueueDeadlocks | src/pgrsv.c:79-101 | the run to it on every safe system with that memory whose kernel memory bypasses the reserve: one process after another is caught in the window and waits in `page_get`, past the reserve |
| ReserveRace.RoutedInterruptsDeadlock | src/pgrsv.c:79-101 | the same where kernel memory does not bypass it |
| ReserveRace.RunKeepsTight | src/pgrsv.c:79-101 | without that memory `page_get` always has the pages of what passed the test |
| ReserveRace.PassRemovesDeadlock | src/patch_pgrsv_sites.py:129-156 | for every reserve that covers pageout's need, a kernel the pass patches has a reachable deadlock before even with interrupts sparing the window, and none after; without that, one is left after if and only if there is more memory than the reserve and the need; kernel memory's sites still call `page_get` directly |
| Reserve.PageCountIsCeiling | src/pgrsv.c:75 | the 32-bit page count is the ceiling of bytes/4096 if and only if bytes is at most 0xFFFFF000 |
| Reserve.WantDoesNotWrap | src/pgrsv.c:76 | the threshold is never wrapped, for any request and any nonnegative reserve |
| Reserve.Allocator.Await | src/pgrsv.c:82-98 | the loop reaches the outcome, memory and event trace of the wait specification, counts each sleep in both counters, and ends masked unless still asleep |
| Reserve.Allocator.Get | src/pgrsv.c:67-102 | sched and pageout, a reserve of 0 and a request of `max_page_get` pages or more go to `page_get` at once; an ordinary request under a positive reserve goes there if and only if its pages and the reserve are free, at once if they are on entry, and otherwise ends as the wait specification says; the entry interrupt level is back on every way out; each counter moves by what happened |
| Reserve.WaitRespectsReserve | src/pgrsv.c:82-100 | a call passes exactly when the whole reserve is free behind its pages, is refused only without permission to wait, sleeps only masked and calls `cleanup` only at the entry level |
| Reserve.WaitRound | src/pgrsv.c:82-98 | one turn of the loop is one turn of the specification, in each of refuse, clean up and sleep |
| Reserve.WaitIs | src/pgrsv.c:82-98 | the wait, for any observations: its end is that of the first one with enough free memory, or the entry one when it may not wait; each observation before it is one `cleanup` at the entry level if the delayed-free list is nonempty, else one masked sleep |
| Reserve.PassesExactly | src/pgrsv.c:82-98 | a call passes exactly when the memory it ends on holds its threshold, and without any event exactly when the memory it starts on does |
| Reserve.RefusesExactly | src/pgrsv.c:83-86 | a call is refused exactly when it may not wait and its pages and the reserve are not free on entry |
| Reserve.UnsignedIsTheSameBits | src/pgrsv.c:82 | the comparison reads a negative `freemem` as the unsigned number with the same 32 bits |
| ReserveSites.OwnerIsNearest | src/patch_pgrsv_sites.py:58-70 | the owner is the function with the greatest start not above the site, none if all start above, marked `after:` past its end |
| ReserveSites.BelowSplits | src/patch_pgrsv_sites.py:58-70 | in a sorted list the functions starting at or below an offset are exactly a prefix |
| ReserveSites.Owner | src/patch_pgrsv_sites.py:58-70 | the scanning loop finds that owner |
| ReserveSites.Kernel.Patch | src/patch_pgrsv_sites.py:129-156 | points every ordinary caller's direct site at the first defined `pgrsv_get` and changes nothing else; the result is the one its refusals give in the pass's order, and a refusal leaves the image as it was; its own re-check never fails |
| ReserveSites.JudgedMeans | src/patch_pgrsv_sites.py:81-145 | every result by name and offset: which references make a site unknown, what an image fit to patch has exactly one of, when the hook is missing, an exempt caller is routed, nothing is left, or the image is half-patched |
| ReserveSites.RetargetedByName | src/patch_pgrsv_sites.py:145-148 | a successful pass turns exactly the type-1 entries of callers other than the four exempt ones that name `page_get`, by name |
| ReserveSites.HookIsFirst | src/patch_pgrsv_sites.py:133 | the hook's symbol is the first defined one of its name |
| ReserveSites.RoutesAreRight | src/patch_pgrsv_sites.py:147-166 | afterwards no site is on the wrong path; every former site is still seen as one if and only if the hook's symbol is not a section symbol; all other relocations are unchanged |
| ReserveSites.ResultStaysValid | src/patch_pgrsv_sites.py:107-126 | the result passes `cmd_check`'s validation if and only if the symbol list names no other ordinary caller last at `pgrsv_get`'s address |
| ReserveSites.OwnCallIsNoSite | src/patch_pgrsv_sites.py:58-97 | the hook's own call is left alone if and only if that holds |
| ReserveSites.OwnerInBody | src/patch_pgrsv_sites.py:58-78 | everything in a function's body, as `extent` bounds it, is owned by the last function symbol at its start |
| ReserveSites.PassBreaksOwnCall | src/patch_pgrsv_sites.py:58-78 | an image on which the pass succeeds and makes `pgrsv_get` call itself |
| ReserveSites.SubsetStaysValid | src/patch_pgrsv_sites.py:81-126 | retargeting any part of the sites keeps every site known, and the validation exactly if the hook's own call is not in it |
| ReserveSites.EveryPartIsKnown | src/patch_pgrsv_sites.py:134-145 | on a kernel that carries any part of the pass, a run patches if the part is empty, skips if it is everything, and refuses every part in between |
| ReserveSites.InnerAfter | src/patch_pgrsv_sites.py:118-126 | the hook's direct calls after the pass are those before, minus the retargeted ones |
| ReserveSites.ExemptSitesStay | src/patch_pgrsv_sites.py:114-117 | each exempt caller keeps exactly its sites |
| FpeSystem.StepKeepsLock | src/fpe_glue.c:462-632 | every step of every process keeps the lock invariant |
| FpeSystem.RunKeepsLock | src/fpe_glue.c:462-632 | the same over every run |
| FpeSystem.EntryLockSafety | src/fpe_glue.c:462-632 | at most one process between lock and release; the current-frame variable and the armed setjmp buffer are always its own; no longjmp lands elsewhere; the abort latches are clear while the lock is held; nobody in `issig`/`psig` or dead holds anything |
| FpeSystem.AbortIsItsOwn | src/fpe_glue.c:202-285 | an abort ends in its own process's frame with the lock free and nobody asleep on it, and posts its own reason and address |
| FpeSystem.RaiseIsSent | src/fpe_glue.c:775-841 | a signal the emulator raises is on its way with the lock free: a bare SIGFPE with the code of the top exception raised and enabled, at the emulator's address and PC, or as SIGILL rewound to the faulting instruction if there is none; any other as given |
| FpeSystem.TryIsCounted | src/fpe_glue.c:462-476 | each try for a taken lock counts one sleep and changes nothing else; a free one is taken with clean latches and leads to the gate on vector 60 and the emulator on vector 11 |
| FpeSystem.SleepersAreReleased | src/fpe_glue.c:462-466 | a sleeper on the lock implies a holder, and the holder's own next steps, whatever they are told, free the lock and wake every sleeper |
| FpeSystem.Drains | src/fpe_glue.c:572-632 | from any point inside the lock success, refusal and abort all reach the release |
| FpeSystem.LeaveKeepsLock | src/fpe_glue.c:628-632 | the release and what follows it up to the next sleep keep the lock invariant |
| FpeSystem.CounterIdentities | src/fpe_glue.c:572-604 | at every scheduling point of every run: signals are the sum of their classes, every entry past the lock is closed once or in flight, and the four form counters equal the vector-60 outcomes plus the gated entries in flight |
| FpeSystem.StepKeepsBooks | src/fpe_glue.c:732-773 | every step keeps all these identities and orders |
| FpeSystem.RunKeepsBooks | src/fpe_glue.c:732-773 | the same over every run, processes that die in `psig` included |
| FpeSystem.SignalBalances | src/fpe_glue.c:775-867 | counting one signal closes exactly one entry and pays for at most one counted failure |
| FpeSystem.FormBalances | src/fpe_glue.c:572-604 | passing the gate opens exactly one gated entry, refused forms owing one signal |
| FpeSystem.EntryIsTrap | src/fpe_glue.c:437-869 | one entry run event by event leaves the shared state, counters, registers, PC and posted signal that `Glue.Trap` is proved to leave, so the interleaved and the sequential models are one protocol |
| FpeEntries.EveryEntryIsItsOwn | src/fpe_glue.c:437-869 | over every run and every interleaving, once an entry has written back, its process's registers, PC and signal are those of the sequential protocol on its own trap, fetches and emulation |
| FpeEntries.RunIsConsistent | src/fpe_glue.c:437-869 | how far each process has got and what it has been told always go together |
| FpeEntries.OthersLeaveAlone | src/fpe_glue.c:462-632 | another process's step does no more to a process than wake it |
| FpeEntries.ServeIgnoresLane | src/fpe_glue.c:502-841 | what an entry leaves its process with does not depend on the state of the lane |
| FpeSystem.TailIsServe | src/fpe_glue.c:614-773 | the same for the part behind the form gate |
| FpeGlue.CodeIsTopException | src/fpe_glue.c:340-374 | the branch ladder gives the class of the most significant exception both enabled and raised, and 0 exactly when there is none |
| FpeGlue.OneException | src/fpe_glue.c:340-374 | each of the eight exceptions alone, by its bit, gives its SVR4 code: 7 7 7 4 5 3 6 6 |
| FpeGlue.RefusalRestarts | src/fpe_glue.c:572-618 | on every frame the vector-60 arm lets through, a refused form resumes at the faulting instruction as stacked, reports it in `si_addr`, changes no register, never asks the emulator and closes as one vector-60 signal, SIGSEGV exactly if a fetch failed; refused are failed fetches and command words with top bits 10, all others reach the emulator |
| FpeGlue.RaiseIsPosted | src/fpe_glue.c:775-841 | from the raw frame and what the emulator raised, on either vector: SIGFPE without a code is posted with the class of the top exception raised and enabled, at the emulator's address and PC, exactly when there is one, else as SIGILL at the faulting instruction; any other signal with exactly the number, code, address and PC given |
| FpeGlue.OtherEnds | src/fpe_glue.c:614-632 | from the raw frame: an instruction done posts nothing; a panic posts SIGILL at the PC reached, a failed copy SIGSEGV with code 2 at the address that failed; registers and PC are the emulator's |
| FpeGlue.TurnIsCounted | src/fpe_glue.c:689-867 | what the emulator's turn adds to each of the counters, in either arm, and that it adds nothing else: aborts, endings, classes of signals, rewinds, the instrument and the pending-signal tests |
| FpeGlue.RefusalIsCounted | src/fpe_glue.c:572-604 | a refused form adds the form and one vector-60 signal, and nothing else |
| FpeGlue.FormIsCounted | src/fpe_glue.c:572-604 | which form counters a command word moves, by its top bits and its source specifier |
| FpeGlue.PackedBits | src/fpe_glue.c:588-591 | a form below bit 15 is packed exactly when bits 12 to 10 are 011 |
| FpeGlue.BranchBits | src/fpe_glue.c:703-714 | a PC off the straight line is control flow exactly for the operation types and the FDBcc mode named by those bits of the opcode |
| FpeGlue.LaneIsFreed | src/fpe_glue.c:614-632 | whatever an entry is told, it gives back the lock, the setjmp buffer and the frame pointer |
| FpeGlue.FrameRead | src/fpe_glue.c:508-526 | the stacked PC and the faulting instruction's address are the frame's words 1-2 and, in format 4 only, 6-7, high half first |
| FpeGlue.AdmittedShape | src/fpe040.s:159-177 | the two arms let through one frame shape each, and in it the faulting instruction's address is the stacked PC on vector 60 and the last longword on vector 11 |
| FpeGlue.AdmittedExactly | src/fpe040.s:159-177 | an arm admits exactly its own frame word from user mode, with emulation on and no FPU present |
| FpeGlue.FpeSignalDiscipline | src/fpe_glue.c:801-841 | a SIGFPE without code stays one, at the emulator's PC, if and only if some exception is raised and enabled; otherwise it is SIGILL rewound to the faulting instruction; the rewind and undecoded counters follow |
| FpeGlue.SigAddrIsResumePc | src/fpe_glue.c:781-841 | for a SIGFPE without code, `si_addr` is the address the process resumes at if and only if the emulator reported the frame's PC or the instruction was rewound |
| FpeGlue.SignalCountsOnce | src/fpe_glue.c:775-867 | one signal moves one total, and on vector 11 one class with it |
| FpeGlue.Glue.constructor | src/fpe_glue.c:177-181 | the lane starts unlocked and unarmed, with nothing latched |
| FpeGlue.Glue.DeriveCode | src/fpe_glue.c:340-374 | the ladder as written computes the specified code and latches the status it looked at |
| FpeGlue.Glue.Lock | src/fpe_glue.c:462-466 | the entry gets the lock exactly if it was free or is found free after some sleep, counts exactly the sleeps it takes, and touches nothing else |
| FpeGlue.Glue.ServeLocked | src/fpe_glue.c:502-632 | gate, emulator, abort and release reach the specified state and verdict with the lock free |
| FpeGlue.Glue.PostSignal | src/fpe_glue.c:775-867 | the signal told, the frame's PC and all counters are those of the posting rule, and no other frame word is written |
| FpeGlue.Glue.WriteBack | src/fpe_glue.c:634-651 | all sixteen registers and the PC land in place; status register, format word and tail do not change |
| FpeGlue.Glue.Trap | src/fpe_glue.c:437-869 | one whole entry: blocked ones change nothing of the process; others end in the specified shared state after exactly the sleeps the lock takes, with the registers, PC and signal of the protocol, and never write the status register, format word or tail |
| Telnet.SplitInvariance | test-tools/emu.py:18-54 | decoding in two parts with the tail carried over is decoding at once, for every cut |
| Telnet.ChunkingInvariance | test-tools/emu.py:18-57 | output, replies and pending bytes do not depend on how the stream was chunked |
| Telnet.PendingIsPartOfOneToken | test-tools/emu.py:34-49 | the carried bytes are empty or a proper prefix of exactly one token |
| Telnet.NextStable | test-tools/emu.py:32-50 | a complete token is the same token whatever arrives after it |
| Telnet.EveryCommand | test-tools/emu.py:28-50 | by RFC 854's codes, on every stream: bytes below 255 and doubled 255 are payload; 253 is answered 252 and 251 answered 254 on the same option; 252, 254 and every other two-byte command vanish unanswered |
| Telnet.Unfinished | test-tools/emu.py:34-49 | a lone 255, a request without its option and a 255 250 without 255 240 wait whole; with one, everything up to the first is dropped |
| Telnet.EndIsFirstPair | test-tools/emu.py:46 | the search finds the first 255 240 from its start, and nothing exactly when there is none |
| Telnet.WireItem | test-tools/emu.py:28-53 | each item a peer may send decodes to its payload and its refusal, and decoding goes on behind it |
| Telnet.WireRoundTrip | test-tools/emu.py:28-53 | every well-formed stream gives its payload in order, one WONT per DO, one DONT per WILL, nothing pending |
| Telnet.SearchInBody | test-tools/emu.py:45-49 | the search inside a subnegotiation stops at the first IAC SE of option and escaped body, else at the real end |
| Telnet.PayloadExactlyWhenNothingLeaks | test-tools/emu.py:45-49 | the output is exactly the payload if and only if no subnegotiation has bytes behind an inner IAC SE |
| Telnet.LeakExample | test-tools/emu.py:45-49 | a subnegotiation whose body leaks one byte as text |
| Telnet.RefusalsAreNotAnswered | test-tools/emu.py:40-43 | what one filtering peer sends back provokes nothing at the other and leaves nothing pending |
| Telnet.Filter.Pump | test-tools/emu.py:18-54 | the index loop outputs, answers and keeps exactly what the stream semantics says; timeouts and end of file change nothing |
| Telnet.ReadUntil | test-tools/emu.py:56-68 | the buffer is the payload of what was received; the needle returned is the first in list order that stands anywhere in it; no earlier receive had one; a needle whose last byte arrives with a receive, behind any payload, is returned at that receive or an earlier one ended the read; without a needle it stops only at end of file or the time limit |
| Telnet.FirstHit | test-tools/emu.py:63-65 | the first needle, in list order, for which the buffer is something, the needle, something; none exactly when there is none |
| Telnet.ContainsIsOccurs | test-tools/emu.py:64 | the search succeeds exactly when the buffer is something, the needle, something |
| Telnet.NeedleFoundHoweverCut | test-tools/emu.py:56-68 | a prompt is found after some receive if and only if it is in the payload of the whole stream |
| Telnet.TwoReadsHearTheStream | test-tools/emu.py:56-57 | one read after another hears the stream, whatever the second receives, if and only if the first ended between two tokens |
| Telnet.OutputGrows | test-tools/hw.py:54-104 | the output after some chunks is a prefix of the output after more |
| RootHint.Sum0 | src/rth1.c:66-76 | the loop accepts exactly the records whose longwords sum to 0 modulo 2^32 |
| RootHint.OneChangeShows | src/rth1.c:66-76 | changing one longword changes the sum, always |
| RootHint.TotalIsPlain | src/rth1.c:66-76 | the running sum is the plain sum reduced modulo 2^32 |
| RootHint.Card | src/rth1.c:83-124 | a controller is returned if and only if it is the only registered one that matches the request |
| RootHint.RecordCorruption | src/rth1.c:158-189 | for every used record and every change of one longword, exactly which changes are not refused as no record, bad record or bad root record, and what those do: nothing at all behind an unused root record; otherwise, if the result is used, root record and boot disk have changed places |
| RootHint.OneLongSwitchesDisks | src/rth1.c:164-188 | a record that one longword turns from a root-record hint into a boot-disk hint, and back |
| RootHint.BadRootRecordRefused | src/rth1.c:164-169 | a record that is present but bad never falls through to the boot disk |
| RootHint.Kernel.CheckRooted | src/rth1.c:131-149 | accepts exactly an sd root device with a swap name of that shape |
| RootHint.RootedMeans | src/rth1.c:131-149 | the shape, character by character: `/dev/dsk/c?d0s2` and its NUL at offset 16, under major 18 |
| RootHint.Kernel.Apply | src/rth1.c:151-208 | both or neither, over the raw longwords: each refusal exactly under its condition; the boot disk is used if and only if a checked record without a root record has the boot bit, unit at most 7, and exactly one registered controller at base r[4], or of id r[5] if that is 0, or without AutoConfig entry for the motherboard bit; the root record likewise by longwords 9 to 12; the new low byte names that unit and controller, slice 1, the name its hex digit; every other byte and bit is kept; the second decoder agrees |
| RootHint.ReadMeans | src/rth1.c:158-189 | from the longwords alone, with the plain sum: which refusal, or which record is used |
| RootHint.RequestMeans | src/rth1.c:165-188 | which longwords become unit, base, id and motherboard bit: the controllers they name, for a boot node and a root record |
| RootHint.VerdictMeans | src/rth1.c:158-192 | when the unit is out of range and when boot disk or root record is used, from the longwords and the registered bases |
| RootHint.OnlyMatchMeans | src/rth1.c:99-123 | the one match of each kind of request: the only controller at the base, of the id of the first entry at its base, or with no entry at all |
| RootHint.LowByteIs | src/rth1.c:195-197 | the low byte and the digit as they stand in the image, for every unit and card |
| RootHint.Written | src/check_root_family.py:169-178 | the two writes, read back by the independent decoder, name the same controller |
| RootHint.LowByte | src/check_root_family.py:169-174 | every field the decoder reads from the minor depends on the low byte only |
| PatchEngines.Sweep | src/patch_modelb.py:734-749 | one pass succeeds if and only if every site reads old or new, converts exactly the table, counts each entry once, and otherwise names the first bad one |
| PatchEngines.PendingCounts | src/patch_modelb.py:734-749 | what a pass counts as written is the number of different sites that do not read new |
| PatchEngines.HoldsAt | src/patch_modelb.py:738-741 | a slice reads as given bytes exactly when it lies inside the image and agrees byte by byte |
| PatchEngines.KernelFile.ApplySinglePass | src/patch_modelb.py:734-750 | the file is converted, or untouched on any unexpected site |
| PatchEngines.KernelFile.ApplyGuardedPass | src/patch_memcntl.py:127-168 | as the single pass, with canaries checked on the converted image before it is written; the partial guard never fires |
| PatchEngines.Survey | src/patch_nfs_getpage.py:174-197 | sorts the sites into pending and converted, or finds the first that is neither |
| PatchEngines.SurveyUndo | src/patch_nfs_getpage.py:136-150 | the sites to revert, or the first that is neither old nor new |
| PatchEngines.CheckCanaries | src/patch_nfs_getpage.py:161-172 | true exactly when every canary holds |
| PatchEngines.KernelFile.ApplyUnit | src/patch_nfs_getpage.py:161-208 | each refusal exactly under its condition and without a write; succeeds exactly on none-new or all-new images with intact canaries, and then all sites are new and nothing else changed |
| PatchEngines.KernelFile.RevertUnit | src/patch_nfs_getpage.py:136-159 | from any mixture to all-old, counting exactly the sites that did not read old, or untouched if a site is unknown |
| PatchEngines.KernelFile.WriteAll | src/patch_nfs_putpage.py:111-118 | writing only the pending sites converts the whole table |
| PatchEngines.ConvertedIsUnique | src/patch_modelb.py:734-750 | a table determines the converted image |
| PatchEngines.SecondPassSkips | src/patch_modelb.py:741-742 | on a converted image a pass writes nothing and skips everything |
| PatchEngines.PassesCommute | src/patch_modelb.py:403-410 | two tables that agree wherever they meet succeed on the same images in either order and leave the same image |
| PatchEngines.CanariesSurvive | src/patch_memcntl.py:154-164 | canaries that touch no site hold after a conversion exactly if they held before |
| PatchEngines.MixtureIsRefused | src/patch_nfs_getpage.py:191-197 | with old and new bytes different, a strict mixture has a converted site, which is the refused case |
| PatchEngines.RevertUndoesApply | src/patch_nfs_getpage.py:136-202 | reverting an applied all-old image gives that image back, byte for byte |
| PatchEngines.ApplyUndoesRevert | src/patch_nfs_getpage.py:136-202 | applying again to a reverted all-new image gives that image back, byte for byte |
| NfsGeometry.GateRightExactly | src/patch_nfs_getpage.py:10-17 | for every file size and every page of the 32-bit offset space the converted gate is right if and only if its two sums both wrap or neither does; which way it is wrong otherwise |
| NfsGeometry.StaleGateExactly | src/patch_nfs_getpage.py:19-30 | the same for allowance 2047: where nothing wraps it is wrong exactly on last pages with 1..2048 bytes, which it refuses |
| NfsGeometry.WrapsAtBothEnds | src/patch_nfs_getpage.py:12-17 | a one-page file lets in the page at 0xFFFFF000, and a file of 0xFFFFF001 bytes is refused its first page, with all edits in |
| NfsGeometry.FillPageList | src/patch_nfs_getpage.py:41-56 | the ring walk stores the pages the countdown allows, in ring order, and holds each as often as it stores it |
| NfsGeometry.EachPageOnce | src/patch_nfs_getpage.py:41-56 | every page of an n-page ring is stored exactly once with step 4096 and exactly twice with 2048 |
| NfsGeometry.CountPages | src/patch_nfs_getpage.py:41-50 | the countdown over n pages ends after n steps of 4096 or 2n steps of 2048 |
| NfsGeometry.TimesInTwoLaps | src/patch_nfs_getpage.py:51-56 | how often each page has been stored after any number of steps up to two laps |
| NfsGeometry.StoredAt | src/patch_nfs_getpage.py:41-56 | entry i of the list is the page i steps around the ring |
| NfsGeometry.IoLengthRounds | src/patch_nfs_getpage.py:110-113 | masking only the low sixteen bits still rounds the whole length down to the unit |
| NfsGeometry.LengthRightExactly | src/patch_nfs_getpage.py:110-113 | the rounded length is whole pages if and only if the 32-bit add does not wrap, and 0 when it does |
| NfsGeometry.TailLength | src/patch_nfs_getpage.py:34-39 | for each combination of the two edits, exactly which one-page tails get a full page of I/O |
| NfsGeometry.FourSitesOrNone | src/patch_nfs_getpage.py:57-61 | the gate wherever its sums wrap alike, the page list and the I/O length are all right if and only if all four sites are converted |
| NfsGeometry.RightExactlyWhenConverted | src/patch_nfs_getpage.py:57-61 | an image whose sites all read old or new reads correctly if and only if the two-phase editor counts all four as converted, so every half state it refuses is a wrong kernel |
| VectorRetarget.Install | src/patch_fpe_vec11.py:85-125 | the verdict is the specified one; on success exactly the vector's and the decline's words change, else nothing |
| VectorRetarget.InstallMeans | src/patch_fpe_vec11.py:85-124 | of an image with the three symbols: the vector's word is the first relocation in the four bytes at 4 times the vector into `M68Kvec`, the decline's the first in six; each refusal exactly under its condition; success points the decline at the vector's old symbol and the vector at the arm |
| VectorRetarget.MissingSymbol | src/patch_fpe_vec11.py:65-87 | the symbols are missing exactly when nothing carries one of the three names |
| VectorRetarget.DisplacedHandlerKept | src/patch_fpe_vec60.py:94-134 | afterwards the vector names the arm, and the decline names exactly the displaced handler if and only if the two words are different |
| VectorRetarget.WriteOrderMatters | src/patch_fpe_vec11.py:118-124 | between the two writes both words name the old handler; in the other order a declined exception would reach `nullvect` |
| VectorRetarget.SecondRunSkips | src/patch_fpe_vec11.py:97-99 | a second run finds its own arm and changes nothing |
| VectorRetarget.SharedWordLoops | src/patch_fpe_vec11.py:105-124 | one word in both parts ends up naming the arm |
| VectorRetarget.AcceptedButWrong | src/patch_fpe_vec11.py:78-124 | three images the installer accepts: one ends with the decline naming the arm, one fails the vector check, one the decline check |
| VectorRetarget.InstalledPassesVectorCheck | src/check_fpe_relocs.py:127-140 | the result passes checks 4 and 8 if and only if the word found stands at the vector's exact address or they passed before |
| VectorRetarget.InstalledPassesDeclineCheck | src/check_fpe_relocs.py:142-160 | the result passes checks 5 and 9 if and only if the decline's relocations stand at one offset and are not the vector's |
| VectorRetarget.FinishedKernelChecks | src/check_fpe_relocs.py:195-228 | for both arms, with the link check's own name lists, an ordinary image passes all four checks |
| VectorRetarget.ArmNames | src/check_fpe_relocs.py:42-43 | both arms by vector offset and names, and no arm is among the handlers either arm may displace |
| VectorRetarget.OtherArmUnaffected | src/patch_fpe_vec60.py:94-134 | installing one arm changes nothing the other's installer sees |
| VectorRetarget.BothArms | src/patch_fpe_vec60.py:94-134 | either order gives the same image, and a declined exception goes vector, arm, displaced handler and stops, so dispatch is acyclic |
| B2Verify.Sum16 | test-tools/b2verify.c:50-64 | the loop computes the running checksum from any start |
| B2Verify.OneByte | test-tools/b2verify.c:60-61 | one byte rotates the sixteen bits right by one, the last bit to the front, and is added modulo 2^16 |
| B2Verify.ZerosRotate | test-tools/b2verify.c:58-62 | n zero bytes rotate the sixteen bits by n |
| B2Verify.SixteenZeros | test-tools/b2verify.c:58-62 | sixteen zero bytes give every sum back |
| B2Verify.SumInParts | test-tools/b2verify.c:58-64 | the checksum of a whole is that of its parts in turn |
| B2Verify.CompareChunk | test-tools/b2verify.c:224-232 | continues a comparison that agreed so far to the first difference |
| B2Verify.RetryOffset | test-tools/b2verify.c:104-134 | transient exactly if one of the attempts reads something; else the last attempt's error |
| B2Verify.Classify | test-tools/b2verify.c:187-259 | for every sequence of read sizes: total and checksum of all bytes read, the least differing offset, and the specified exit code |
| B2Verify.FirstDifferenceUnique | test-tools/b2verify.c:224-232 | there is one such offset |
| B2Verify.MismatchMeansNotPrefix | test-tools/b2verify.c:224-232 | a difference is found exactly when the destination is not a prefix of the source |
| B2Verify.CodesMean | test-tools/b2verify.c:236-259 | exit 0 if and only if read to the end, byte-equal and not short by its inode; and, read to the end and not short by its inode, exit 6 exactly for a proper prefix and exit 5 exactly if some offset differs |
| B2Verify.FailuresMean | test-tools/b2verify.c:196-243 | after a failed read the code is 1 if the offset could be read again, else 2 for EFAULT and 3 for anything else; short by its inode is 4 |
| B2Verify.SuccessIsReading | test-tools/b2verify.c:124-128 | an attempt succeeds exactly by reading at least one byte |
| BuildId.BuildDir.NextSeq | src/stamp_buildid.py:80-99 | issues the number after the file's on the file's date inside the block, the block's first otherwise, and stores it; refuses past the block's end and stores nothing |
| BuildId.BuildDir.Session | src/stamp_buildid.py:80-99 | any run of calls issues exactly the specified log |
| BuildId.LogIsCounted | src/stamp_buildid.py:80-99 | whatever file a directory starts with, what it says and every run's stamps stay in the block, count up by one within a day and restart with a new date, and the file keeps up |
| BuildId.DistinctExactly | src/stamp_buildid.py:90-98 | one run's stamps are all different, from any file, if and only if the clock and the file say so: no date comes back, save the file's own after a run that starts on it, for no more calls than there is room below the file's number, or any if that number is the block's last |
| BuildId.NothingReissuedExactly | src/stamp_buildid.py:90-98 | nothing the file says or the run issued is issued again if and only if no date comes back on the clock, the file's date read first, or the block is empty |
| BuildId.StampsOfDate | src/stamp_buildid.py:90-99 | with no date coming back, the stamps of a date are as many as its calls, from the start of the block as far as it reaches |
| BuildId.OwnDate | src/stamp_buildid.py:90-99 | calls on the file's own date go on from its number as far as the block reaches |
| BuildId.OtherFileIgnored | src/stamp_buildid.py:90-92 | a file of another date or another block makes no difference from the first call on |
| BuildId.ClockSetBack | src/stamp_buildid.py:92 | the same three days repeat a stamp without a file and do not with one |
| BuildId.StampsNeverRepeat | src/stamp_buildid.py:63-99 | over all machines, runs and initial files, clones and files of an older scheme included, disjoint blocks and clocks that never go back give pairwise different stamps |
| BuildId.FileNeverRepeats | src/stamp_buildid.py:90-94 | with a clock that has not gone back since the file was written, nothing it says was issued is issued again |
| BuildId.LogFollowsDays | src/stamp_buildid.py:80-99 | with days that never go back, neither do the stamps' dates |
| BuildId.ExhaustedStaysExhausted | src/stamp_buildid.py:95-98 | a used-up block refuses every further call that day and leaves the file alone |
| BuildId.FieldFits | src/stamp_buildid.py:106-109 | the stamp is sixteen characters exactly for numbers below 100 |
| BuildId.FieldReads | src/stamp_buildid.py:106 | the sixteen characters read back: " 68040-", the date, "-" and two digits that are the number |
| BuildId.FieldIsInjective | src/stamp_buildid.py:106-109 | two stamps that read the same have the same date and number |

## Left out

- ELF headers, string tables, file I/O, printing, arguments: sections, symbols and relocations are inputs.
- The concrete patch tables, canary lists and the other `patch_*.py` scripts: more tables for the same two engines.
- `patch_nfs_putpage.py`'s own geometry; its engine is the two-phase one modelled here.
- `fpu_emulate`, the assembly entry code, `page_get`, `page_free`, `sleep`, `copyin`, `issig`, `psig`, `trapsig`: opaque steps.
- FpeGlue.Glue.Trap: does not model the census and the sticky counters of the entry arms, the CPU-type redirection, the advisory address latches or the `fpe_fault_addr` and last-opword latches, and the counters are unbounded where the code's are 32 bits; register contents after an aborted emulation are whatever the emulator left.
- Reserve.Allocator.Get: stops at the call of `page_get`; `wakeprocs` before each sleep is part of the sleep event.
- ReserveSystem.NoSelfDeadlock: assumes that interrupts spare the window, see `ReserveRace`; leaves out requests of `max_page_get` pages or more, which `page_get` refuses, and `cleanup` of the delayed-free list; pages are anonymous, so whose page pageout pushes is not modelled.
- ReserveSystem.RequestIsCall: assumes fewer than 2^31 free pages and a byte count of whole pages that fits 32 bits, and an empty delayed-free list; `page_get` itself is the second turn.
- ReserveSites.Kernel.Patch: relocations are a map from offset to entry, so two entries at one offset are not represented, and symbol indices are not cut to 24 bits; the data-word checks of `cmd_check` and the alias pass are not part of the model.
- VectorRetarget.Install: symbol indices are not cut to 24 bits; checks 1, 2, 3, 6 and 7 of the link check are not part of the model.
- Telnet.ReadUntil: the time limit is the end of the list of receives; sockets, login and the command protocol above the filter are not part of the model.
- RootHint.Kernel.Apply: the console messages and the lazy registration of controllers by `sdopen` are not part of the model; the registered bases are inputs.
- RootHint.Kernel.CheckRooted: requires the swap file name buffer to be long enough, as the kernel's structure is.
- B2Verify.Classify: loading the source, `stat` and open failures, and the printed report lines are not part of the model.
- BuildId.BuildDir.NextSeq: the block comes as an input, not from `blocks.py`; overwriting the field in the image is not part of the model.
- Code that works by regular expressions (`detect_pagesize.py`, the text rewriters), hardware probes and timing tools.
