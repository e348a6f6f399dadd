/** The build-id allocator: one counter file per build directory, a block of sequence numbers per
    machine, a fresh count every day. */
module BuildId {
  datatype Block = Block(lo: nat, hi: nat)

  /** The counter file: missing or not two words, or the date and number last issued; a second word
      that is no number counts as 0. */
  datatype Stored = Nothing | Last(date: nat, number: int)

  datatype Reply = Exhausted | Issued(number: nat)

  datatype Stamp = Stamp(date: nat, number: nat)

  /** The file holds a number of this block; anything else is an older file or another machine's. */
  predicate Own(b: Block, st: Stored) { st.Last? && b.lo <= st.number <= b.hi }

  /** The number a call would issue: the next one today, or the start of the block. */
  function Candidate(b: Block, st: Stored, today: nat): nat {
    if Own(b, st) && st.date == today then st.number + 1 else b.lo
  }

  class BuildDir {
    const block: Block
    var file: Stored

    constructor (block: Block, file: Stored)
      ensures this.block == block && this.file == file
    {
      this.block, this.file := block, file;
    }

    method NextSeq(today: nat) returns (r: Reply)
      modifies this
      ensures r.Exhausted? <==> Candidate(block, old(file), today) > block.hi
      ensures r.Exhausted? ==> file == old(file)
      ensures r.Issued? ==> r.number == Candidate(block, old(file), today) && block.lo <= r.number <= block.hi
                            && file == Last(today, r.number)
      ensures var f := old(file);
        r == if f.Last? && f.date == today && block.lo <= f.number <= block.hi then
               if f.number < block.hi then Issued(f.number + 1) else Exhausted
             else if block.lo <= block.hi then Issued(block.lo)
             else Exhausted
    {
      var seq' := block.lo;
      if file.Last? && file.date == today && block.lo <= file.number <= block.hi {
        seq' := file.number + 1;
      }
      if seq' > block.hi {
        return Exhausted;
      }
      file := Last(today, seq');
      return Issued(seq');
    }

    /** A run of calls, one per entry of `days`, and what it issues. */
    method Session(days: seq<nat>) returns (log: seq<Stamp>)
      modifies this
      ensures log == Log(block, old(file), days)
    {
      log := [];
      ghost var start := file;
      assert days[..0] == [] && days[..|days|] == days;
      for i := 0 to |days|
        invariant log == Log(block, start, days[..i]) && file == After(block, start, days[..i])
      {
        assert days[..i + 1][..i] == days[..i];
        var r := NextSeq(days[i]);
        if r.Issued? {
          log := log + [Stamp(days[i], r.number)];
        }
      }
    }
  }

  /** The counter file after a run of calls, and the stamps issued in it. */
  function After(b: Block, st: Stored, days: seq<nat>): Stored {
    if days == [] then st
    else
      var before, today := After(b, st, days[..|days| - 1]), days[|days| - 1];
      var n := Candidate(b, before, today);
      if n > b.hi then before else Last(today, n)
  }

  function Log(b: Block, st: Stored, days: seq<nat>): seq<Stamp> {
    if days == [] then []
    else
      var before, today := days[..|days| - 1], days[|days| - 1];
      var n := Candidate(b, After(b, st, before), today);
      Log(b, st, before) + if n > b.hi then [] else [Stamp(today, n)]
  }

  /** The shape of every log: inside the block, counting up within a day, restarting on a new date. */
  predicate Counted(b: Block, log: seq<Stamp>) {
    && (forall i :: 0 <= i < |log| ==> b.lo <= log[i].number <= b.hi)
    && (log != [] ==> log[0].number == b.lo)
    && (forall i :: 0 < i < |log| ==>
          log[i].number == if log[i].date == log[i - 1].date then log[i - 1].number + 1 else b.lo)
  }

  /** What the file a directory starts with says was issued before. */
  function History(b: Block, st: Stored): seq<Stamp> {
    if Own(b, st) then seq(st.number - b.lo + 1, i requires 0 <= i => Stamp(st.date, b.lo + i)) else []
  }

  /** The file holds the last stamp of `full`, and one of its own only if there is one. */
  predicate Tracks(b: Block, full: seq<Stamp>, st: Stored) {
    if Own(b, st) then full != [] && full[|full| - 1] == Stamp(st.date, st.number) else full == []
  }

  lemma HistoryIsCounted(b: Block, st: Stored)
    ensures Counted(b, History(b, st)) && Tracks(b, History(b, st), st)
  {
  }

  /** Whatever file a directory starts with, what it says and the stamps of any run count up together
      from the start of the block, and the file keeps up with them. */
  lemma {:induction false} LogIsCounted(b: Block, st: Stored, days: seq<nat>)
    ensures var full := History(b, st) + Log(b, st, days);
      Counted(b, full) && Tracks(b, full, After(b, st, days))
    decreases |days|
  {
    hide Counted, Tracks, History;
    if days == [] {
      HistoryIsCounted(b, st);
      assert History(b, st) + [] == History(b, st);
    } else {
      var before, today := days[..|days| - 1], days[|days| - 1];
      LogIsCounted(b, st, before);
      var full, file := History(b, st) + Log(b, st, before), After(b, st, before);
      if Candidate(b, file, today) <= b.hi {
        CountedStep(b, full, file, today);
        var more := [Stamp(today, Candidate(b, file, today))];
        assert History(b, st) + (Log(b, st, before) + more) == full + more;
      } else {
        assert Log(b, st, before) + [] == Log(b, st, before);
      }
    }
  }

  lemma CountedStep(b: Block, full: seq<Stamp>, st: Stored, today: nat)
    requires Counted(b, full) && Tracks(b, full, st) && Candidate(b, st, today) <= b.hi
    ensures var n := Candidate(b, st, today);
      Counted(b, full + [Stamp(today, n)]) && Tracks(b, full + [Stamp(today, n)], Last(today, n))
  {
  }

  predicate Distinct(log: seq<Stamp>) { forall i, j :: 0 <= i < j < |log| ==> log[i] != log[j] }

  /** No date comes back once another has followed it. */
  predicate NoReturn(dates: seq<nat>) {
    forall i, j, k :: 0 <= i < j < k < |dates| && dates[i] == dates[k] ==> dates[j] == dates[i]
  }

  function DatesOf(log: seq<Stamp>): (d: seq<nat>)
    ensures |d| == |log| && forall i :: 0 <= i < |log| ==> d[i] == log[i].date
  {
    seq(|log|, i requires 0 <= i < |log| => log[i].date)
  }

  lemma {:induction false} CountsUp(b: Block, log: seq<Stamp>, i: nat, k: nat)
    requires Counted(b, log) && i <= k < |log| && forall j :: i <= j <= k ==> log[j].date == log[i].date
    ensures log[k].number == log[i].number + (k - i)
    decreases k
  {
    if i < k {
      CountsUp(b, log, i, k - 1);
    }
  }

  lemma {:induction false} DayStart(b: Block, log: seq<Stamp>, i: nat) returns (s: nat)
    requires Counted(b, log) && i < |log|
    ensures s <= i && log[s] == Stamp(log[i].date, b.lo) && forall j :: s <= j <= i ==> log[j].date == log[i].date
    decreases i
  {
    if i == 0 || log[i - 1].date != log[i].date {
      s := i;
    } else {
      s := DayStart(b, log, i - 1);
    }
  }

  lemma NoReturnStep(dates: seq<nat>, x: nat)
    ensures NoReturn(dates + [x]) <==> NoReturn(dates) && (x in dates ==> dates[|dates| - 1] == x)
  {
    var more := dates + [x];
    assert forall i :: 0 <= i < |dates| ==> more[i] == dates[i];
    if NoReturn(more) {
      assert NoReturn(dates);
      if x in dates {
        var i :| 0 <= i < |dates| && dates[i] == x;
        assert more[|dates|] == x && more[i] == x;
      }
    }
  }

  /** The date the file stands on, if it is this block's, and the clock readings. */
  function Readings(b: Block, st: Stored, days: seq<nat>): seq<nat> {
    (if Own(b, st) then [st.date] else []) + days
  }

  /** The dates of what was issued are the readings, less those on which the block was used up: the
      same dates, the same last one, and one comes back in the one exactly if it does in the other. */
  lemma {:induction false} DatesAreReadings(b: Block, st: Stored, days: seq<nat>)
    requires b.lo <= b.hi
    ensures Follows(Readings(b, st, days), History(b, st) + Log(b, st, days))
    ensures StandsOn(b, After(b, st, days), Readings(b, st, days))
    decreases |days|
  {
    hide NoReturn, Follows;
    if days == [] {
      HistoryFollows(b, st);
      assert History(b, st) + [] == History(b, st);
    } else {
      var before, today := days[..|days| - 1], days[|days| - 1];
      DatesAreReadings(b, st, before);
      ReadingsGoOn(b, st, before, today);
      assert days == before + [today];
    }
  }

  lemma ReadingsGoOn(b: Block, st: Stored, before: seq<nat>, today: nat)
    requires b.lo <= b.hi && Follows(Readings(b, st, before), History(b, st) + Log(b, st, before))
    requires StandsOn(b, After(b, st, before), Readings(b, st, before))
    ensures Follows(Readings(b, st, before + [today]), History(b, st) + Log(b, st, before + [today]))
    ensures StandsOn(b, After(b, st, before + [today]), Readings(b, st, before + [today]))
  {
    hide Follows, History, Log, After, Own;
    OneMore(b, st, before, today);
    LastReading(b, st, before, today);
    hide Readings;
    var read, past, file := Readings(b, st, before), History(b, st) + Log(b, st, before), After(b, st, before);
    var n := Candidate(b, file, today);
    if n <= b.hi {
      FollowsOn(read, past, today, n);
      assert History(b, st) + (Log(b, st, before) + [Stamp(today, n)]) == past + [Stamp(today, n)];
      CandidateFits(b, file, today);
    } else {
      UsedUp(b, file, today);
      FollowsStill(read, past, today);
      assert Log(b, st, before) + [] == Log(b, st, before);
    }
  }

  lemma LastReading(b: Block, st: Stored, before: seq<nat>, today: nat)
    ensures Readings(b, st, before + [today]) == Readings(b, st, before) + [today]
    ensures Readings(b, st, before) == [] ==> After(b, st, before) == st && !Own(b, st)
  {
  }

  lemma CandidateFits(b: Block, file: Stored, today: nat)
    requires b.lo <= b.hi && Candidate(b, file, today) <= b.hi
    ensures Own(b, Last(today, Candidate(b, file, today)))
  {
  }

  /** A call is refused only on the file's own date. */
  lemma UsedUp(b: Block, file: Stored, today: nat)
    requires b.lo <= b.hi < Candidate(b, file, today)
    ensures Own(b, file) && file.date == today
  {
  }

  /** The file is this block's and stands on the last of the readings. */
  predicate StandsOn(b: Block, st: Stored, read: seq<nat>) {
    read != [] ==> Own(b, st) && st.date == read[|read| - 1]
  }

  /** One more call. */
  lemma OneMore(b: Block, st: Stored, before: seq<nat>, today: nat)
    ensures var file := After(b, st, before);
      var n := Candidate(b, file, today);
      && Log(b, st, before + [today]) == Log(b, st, before) + (if n > b.hi then [] else [Stamp(today, n)])
      && After(b, st, before + [today]) == if n > b.hi then file else Last(today, n)
  {
    assert (before + [today])[..|before|] == before;
  }

  /** A log on the dates of these readings, in their order, with the same last one. */
  ghost predicate Follows(read: seq<nat>, full: seq<Stamp>) {
    && (forall d :: d in read <==> d in DatesOf(full))
    && (read != [] ==> full != [] && full[|full| - 1].date == read[|read| - 1])
    && (NoReturn(read) <==> NoReturn(DatesOf(full)))
  }

  lemma HistoryFollows(b: Block, st: Stored)
    ensures Follows(Readings(b, st, []), History(b, st))
  {
    if Own(b, st) {
      assert DatesOf(History(b, st))[0] == st.date;
    }
  }

  lemma FollowsOn(read: seq<nat>, full: seq<Stamp>, today: nat, n: nat)
    requires Follows(read, full)
    ensures Follows(read + [today], full + [Stamp(today, n)])
  {
    var dates := DatesOf(full);
    assert DatesOf(full + [Stamp(today, n)]) == dates + [today];
    NoReturnStep(read, today);
    NoReturnStep(dates, today);
  }

  lemma FollowsStill(read: seq<nat>, full: seq<Stamp>, today: nat)
    requires Follows(read, full) && read != [] && read[|read| - 1] == today
    ensures Follows(read + [today], full)
  {
    NoReturnStep(read, today);
  }

  lemma EmptyBlock(b: Block, st: Stored, days: seq<nat>)
    requires b.lo > b.hi
    ensures History(b, st) + Log(b, st, days) == []
  {
    LogIsCounted(b, st, days);
  }

  /** In one build directory no number that the file says was used, or that a run has used, is issued
      again if and only if no date comes back on the clock, the file's date read first. */
  lemma NothingReissuedExactly(b: Block, st: Stored, days: seq<nat>)
    ensures Distinct(History(b, st) + Log(b, st, days)) <==> b.lo > b.hi || NoReturn(Readings(b, st, days))
  {
    LogIsCounted(b, st, days);
    if b.lo > b.hi {
      EmptyBlock(b, st, days);
    } else {
      DatesAreReadings(b, st, days);
      CountedDistinct(b, History(b, st) + Log(b, st, days));
    }
  }

  // ---- One run by itself

  lemma {:induction false} LogSplits(b: Block, st: Stored, xs: seq<nat>, ys: seq<nat>)
    ensures After(b, st, xs + ys) == After(b, After(b, st, xs), ys)
    ensures Log(b, st, xs + ys) == Log(b, st, xs) + Log(b, After(b, st, xs), ys)
    decreases |ys|
  {
    if ys == [] {
      assert xs + ys == xs;
    } else {
      assert (xs + ys)[..|xs + ys| - 1] == xs + ys[..|ys| - 1];
      LogSplits(b, st, xs, ys[..|ys| - 1]);
    }
  }

  /** A file of another date or another block makes no difference from the first call on. */
  lemma {:induction false} OtherFileIgnored(b: Block, st: Stored, days: seq<nat>)
    requires b.lo <= b.hi && (days == [] || !(Own(b, st) && st.date == days[0]))
    ensures Log(b, st, days) == Log(b, Nothing, days)
    ensures days != [] ==> After(b, st, days) == After(b, Nothing, days)
    decreases |days|
  {
    if days != [] {
      OtherFileIgnored(b, st, days[..|days| - 1]);
    }
  }

  /** How many calls fall on `d` before another date. */
  function FirstRun(days: seq<nat>, d: nat): (r: nat)
    ensures r <= |days| && (forall i :: 0 <= i < r ==> days[i] == d) && (r < |days| ==> days[r] != d)
  {
    if days == [] || days[0] != d then 0 else 1 + FirstRun(days[1..], d)
  }

  function Count(days: seq<nat>, d: nat): nat {
    if days == [] then 0 else Count(days[..|days| - 1], d) + if days[|days| - 1] == d then 1 else 0
  }

  function Min(x: int, y: int): int { if x < y then x else y }

  /** Calls on the file's own date go on from its number, as far as the block reaches. */
  lemma {:induction false} OwnDate(b: Block, st: Stored, days: seq<nat>)
    requires Own(b, st) && forall i :: 0 <= i < |days| ==> days[i] == st.date
    ensures After(b, st, days) == Last(st.date, Min(st.number + |days|, b.hi))
    ensures var log := Log(b, st, days);
      && |log| == Min(|days|, b.hi - st.number)
      && forall i :: 0 <= i < |log| ==> log[i] == Stamp(st.date, st.number + 1 + i)
    decreases |days|
  {
    if days != [] {
      OwnDate(b, st, days[..|days| - 1]);
    }
  }

  lemma CountStep(days: seq<nat>, today: nat, d: nat)
    ensures Count(days + [today], d) == Count(days, d) + if today == d then 1 else 0
  {
    assert (days + [today])[..|days|] == days;
  }

  /** What the file holds after these days: as many as the last date has calls, as far as the block
      reaches. */
  predicate HoldsCount(b: Block, days: seq<nat>) {
    days != [] ==> var today := days[|days| - 1];
      After(b, Nothing, days) == Last(today, b.lo + Min(Count(days, today), b.hi - b.lo + 1) - 1)
  }

  lemma CountHeld(b: Block, before: seq<nat>, today: nat)
    requires b.lo <= b.hi && NoReturn(before + [today]) && HoldsCount(b, before)
    ensures HoldsCount(b, before + [today])
  {
    NoReturnStep(before, today);
    NotCounted(before, today);
    OneMore(b, Nothing, before, today);
    CountStep(before, today, today);
    assert before == [] ==> After(b, Nothing, before) == Nothing;
    hide NoReturn, Log, After, Count;
  }

  lemma {:induction false} FileOfDate(b: Block, days: seq<nat>)
    requires b.lo <= b.hi && NoReturn(days)
    ensures HoldsCount(b, days)
    decreases |days|
  {
    if days != [] {
      var before, today := days[..|days| - 1], days[|days| - 1];
      hide HoldsCount;
      assert days == before + [today];
      NoReturnStep(before, today);
      FileOfDate(b, before);
      CountHeld(b, before, today);
    }
  }

  /** Stamp (d, x) is issued exactly if the date has more calls than `x` stands above the block's start. */
  predicate IssuedByCount(b: Block, days: seq<nat>, d: nat, x: nat) {
    Stamp(d, x) in Log(b, Nothing, days) <==> b.lo <= x <= b.hi && x < b.lo + Count(days, d)
  }

  lemma OneMoreIssued(b: Block, before: seq<nat>, today: nat, d: nat, x: nat)
    requires b.lo <= b.hi && NoReturn(before + [today]) && IssuedByCount(b, before, d, x) && HoldsCount(b, before)
    ensures IssuedByCount(b, before + [today], d, x)
  {
    NoReturnStep(before, today);
    NotCounted(before, today);
    OneMore(b, Nothing, before, today);
    CountStep(before, today, d);
    assert before == [] ==> After(b, Nothing, before) == Nothing;
    hide NoReturn, Log, After, Count;
  }

  /** Without a file and with no date coming back, the stamps of a date are as many as its calls, from
      the start of the block, as far as it reaches. */
  lemma {:induction false} StampsOfDate(b: Block, days: seq<nat>, d: nat, x: nat)
    requires b.lo <= b.hi && NoReturn(days)
    ensures IssuedByCount(b, days, d, x)
    decreases |days|
  {
    if days != [] {
      var before, today := days[..|days| - 1], days[|days| - 1];
      hide IssuedByCount, HoldsCount;
      assert days == before + [today];
      NoReturnStep(before, today);
      StampsOfDate(b, before, d, x);
      FileOfDate(b, before);
      OneMoreIssued(b, before, today, d, x);
    }
  }

  lemma {:induction false} NotCounted(days: seq<nat>, d: nat)
    ensures d !in days ==> Count(days, d) == 0
    decreases |days|
  {
    if days != [] {
      assert days == days[..|days| - 1] + [days[|days| - 1]];
      NotCounted(days[..|days| - 1], d);
    }
  }

  /** No date comes back, save the file's own, when the run starts on it: after that it may come back
      once, for no more calls than the file's number leaves room for below it, or for any number of
      them if the file's number is the block's last. */
  predicate ReturnsHarmlessly(b: Block, st: Stored, days: seq<nat>) {
    var run := if Own(b, st) then FirstRun(days, st.date) else 0;
    && NoReturn(days[run..])
    && (run > 0 ==> st.number == b.hi || Count(days[run..], st.date) <= st.number + 1 - b.lo)
  }

  /** The stamps of one run are all different if and only if that holds of the file and the clock: a
      clock set back and forward again hands out the day's first numbers again. */
  lemma DistinctExactly(b: Block, st: Stored, days: seq<nat>)
    ensures Distinct(Log(b, st, days)) <==> b.lo > b.hi || ReturnsHarmlessly(b, st, days)
  {
    var run := if Own(b, st) then FirstRun(days, st.date) else 0;
    if b.lo > b.hi {
      EmptyBlock(b, st, days);
    } else if run == 0 {
      assert days[run..] == days;
      OtherFileIgnored(b, st, days);
      NothingReissuedExactly(b, Nothing, days);
      assert Readings(b, Nothing, days) == days && [] + Log(b, Nothing, days) == Log(b, Nothing, days);
    } else {
      GoesOn(b, st, days, run);
    }
  }

  lemma GoesOn(b: Block, st: Stored, days: seq<nat>, run: nat)
    requires b.lo <= b.hi && Own(b, st) && run == FirstRun(days, st.date) > 0
    ensures Distinct(Log(b, st, days)) <==> ReturnsHarmlessly(b, st, days)
  {
    hide NoReturn, Count, Log, Distinct;
    assert days == days[..run] + days[run..];
    InTwoParts(b, st, days[..run], days[run..]);
  }

  lemma InTwoParts(b: Block, st: Stored, first: seq<nat>, rest: seq<nat>)
    requires b.lo <= b.hi && Own(b, st) && first != [] && forall i :: 0 <= i < |first| ==> first[i] == st.date
    requires rest == [] || rest[0] != st.date
    ensures Distinct(Log(b, st, first + rest)) <==>
      NoReturn(rest) && (st.number == b.hi || Count(rest, st.date) <= st.number + 1 - b.lo)
  {
    hide After, Distinct, NoReturn, Log, Count;
    OwnDate(b, st, first);
    LogSplits(b, st, first, rest);
    OtherFileIgnored(b, After(b, st, first), rest);
    PartsMeet(b, st, Log(b, st, first), rest);
  }

  /** The first run's stamps and the later ones of its date meet exactly where the counts overlap. */
  lemma PartsMeet(b: Block, st: Stored, first: seq<Stamp>, rest: seq<nat>)
    requires b.lo <= b.hi && Own(b, st) && (first == [] <==> st.number == b.hi)
    requires forall i :: 0 <= i < |first| ==> first[i] == Stamp(st.date, st.number + 1 + i) && st.number + 1 + i <= b.hi
    ensures Distinct(first + Log(b, Nothing, rest)) <==>
      NoReturn(rest) && (st.number == b.hi || Count(rest, st.date) <= st.number + 1 - b.lo)
  {
    NothingReissuedExactly(b, Nothing, rest);
    assert Readings(b, Nothing, rest) == rest && [] + Log(b, Nothing, rest) == Log(b, Nothing, rest);
    var later := Log(b, Nothing, rest);
    DistinctParts(first, later);
    if NoReturn(rest) {
      forall s | s in first ensures s in later <==> s.number < b.lo + Count(rest, st.date) {
        StampsOfDate(b, rest, st.date, s.number);
      }
      if st.number < b.hi {
        assert first[0] in first;
      }
    }
  }

  lemma DistinctParts(x: seq<Stamp>, y: seq<Stamp>)
    ensures Distinct(x + y) <==> Distinct(x) && Distinct(y) && forall s :: s in x ==> s !in y
  {
    var z := x + y;
    assert forall i :: 0 <= i < |x| ==> z[i] == x[i];
    assert forall i :: 0 <= i < |y| ==> z[|x| + i] == y[i];
    if Distinct(z) {
      forall i, j | 0 <= i < j < |y| ensures y[i] != y[j] {
        assert z[|x| + i] != z[|x| + j];
      }
      forall s | s in x ensures s !in y {
        var i :| 0 <= i < |x| && x[i] == s;
        assert z[i] == s;
      }
    } else if Distinct(x) && Distinct(y) {
      var i, j :| 0 <= i < j < |z| && z[i] == z[j];
      assert z[i] in x && z[j] in y;
    }
  }

  lemma ThreeDays(b: Block, st: Stored)
    requires b == Block(0, 9) && (st == Nothing || st == Last(0, 5))
    ensures Log(b, st, [0, 1, 0]) == [Stamp(0, Candidate(b, st, 0)), Stamp(1, 0), Stamp(0, 0)]
  {
    var n := Candidate(b, st, 0);
    assert [0, 1, 0][..2] == [0, 1] && [0, 1][..1] == [0] && [0][..0] == [];
    assert Log(b, st, [0]) == [Stamp(0, n)] && After(b, st, [0]) == Last(0, n);
    assert Log(b, st, [0, 1]) == [Stamp(0, n), Stamp(1, 0)] && After(b, st, [0, 1]) == Last(1, 0);
  }

  /** A clock set back repeats a stamp when there was no file; a file in the block keeps its own day's
      numbers apart for as long as the count stays below it. */
  lemma ClockSetBack()
    ensures var b := Block(0, 9);
      && Log(b, Nothing, [0, 1, 0]) == [Stamp(0, 0), Stamp(1, 0), Stamp(0, 0)]
      && !Distinct(Log(b, Nothing, [0, 1, 0]))
      && Log(b, Last(0, 5), [0, 1, 0]) == [Stamp(0, 6), Stamp(1, 0), Stamp(0, 0)]
      && Distinct(Log(b, Last(0, 5), [0, 1, 0])) && !NoReturn([0, 1, 0])
  {
    var b, days := Block(0, 9), [0, 1, 0];
    ThreeDays(b, Nothing);
    ThreeDays(b, Last(0, 5));
    var l := Log(b, Nothing, days);
    assert l[0] == l[2];
    assert days[0] == days[2] && days[1] != days[0];
  }

  lemma CountedDistinct(b: Block, log: seq<Stamp>)
    requires Counted(b, log)
    ensures Distinct(log) <==> NoReturn(DatesOf(log))
  {
    var dates := DatesOf(log);
    if NoReturn(dates) {
      forall i, k | 0 <= i < k < |log| ensures log[i] != log[k] {
        if log[i].date == log[k].date {
          assert dates[i] == dates[k];
          forall j | i <= j <= k ensures log[j].date == log[i].date {
            assert dates[j] == log[j].date;
          }
          CountsUp(b, log, i, k);
        }
      }
    } else {
      var i, j, k :| 0 <= i < j < k < |log| && dates[i] == dates[k] && dates[j] != dates[i];
      var first := DayStart(b, log, i);
      var again := DayStart(b, log, k);
      assert again > j;
    }
  }

  predicate NonDecreasing(days: seq<nat>) { forall i, j :: 0 <= i < j < |days| ==> days[i] <= days[j] }

  predicate DatesUpTo(log: seq<Stamp>, day: nat) { forall i :: 0 <= i < |log| ==> log[i].date <= day }
  predicate DatesRise(log: seq<Stamp>) { forall i, j :: 0 <= i < j < |log| ==> log[i].date <= log[j].date }

  lemma {:induction false} LogFollowsDays(b: Block, st: Stored, days: seq<nat>)
    requires NonDecreasing(days)
    ensures DatesRise(Log(b, st, days)) && DatesUpTo(Log(b, st, days), if days == [] then 0 else days[|days| - 1])
    decreases |days|
  {
    if days != [] {
      var before, today := days[..|days| - 1], days[|days| - 1];
      LogFollowsDays(b, st, before);
      var log := Log(b, st, before);
      assert before != [] ==> before[|before| - 1] == days[|before| - 1] && days[|before| - 1] <= today;
      assert DatesUpTo(log, today);
      assert DatesRise(log + [Stamp(today, Candidate(b, After(b, st, before), today))]);
      assert log + [] == log;
    }
  }

  lemma ForwardIsHarmless(b: Block, st: Stored, days: seq<nat>)
    requires NonDecreasing(days)
    ensures ReturnsHarmlessly(b, st, days)
  {
    var run := if Own(b, st) then FirstRun(days, st.date) else 0;
    var rest := days[run..];
    assert forall i :: 0 <= i < |rest| ==> rest[i] == days[run + i];
    if run > 0 {
      assert st.date !in rest by {
        assert days[0] == st.date;
      }
      NotCounted(rest, st.date);
    }
  }

  /** Over all machines, all runs and all files they start with, clones and old ones included: disjoint
      blocks, one directory each, clocks that never go back, and no stamp is ever issued twice. */
  lemma StampsNeverRepeat(blocks: seq<Block>, files: seq<Stored>, days: seq<seq<nat>>, m: nat, i: nat, n: nat, j: nat)
    requires |blocks| == |days| == |files|
    requires forall x, y :: 0 <= x < y < |blocks| ==> blocks[x].hi < blocks[y].lo || blocks[y].hi < blocks[x].lo
    requires forall x :: 0 <= x < |days| ==> NonDecreasing(days[x])
    requires m < |blocks| && n < |blocks| && (m != n || i != j)
    requires i < |Log(blocks[m], files[m], days[m])| && j < |Log(blocks[n], files[n], days[n])|
    ensures Log(blocks[m], files[m], days[m])[i] != Log(blocks[n], files[n], days[n])[j]
  {
    InBlock(blocks[m], files[m], days[m], i);
    InBlock(blocks[n], files[n], days[n], j);
    if m == n {
      ForwardIsHarmless(blocks[m], files[m], days[m]);
      DistinctExactly(blocks[m], files[m], days[m]);
    }
  }

  lemma InBlock(b: Block, st: Stored, days: seq<nat>, i: nat)
    requires i < |Log(b, st, days)|
    ensures b.lo <= Log(b, st, days)[i].number <= b.hi
  {
    LogIsCounted(b, st, days);
    var h, full := |History(b, st)|, History(b, st) + Log(b, st, days);
    assert full[h + i] == Log(b, st, days)[i];
  }

  /** With a clock that has not gone back since the file was written, neither is a number issued again
      that the file says was. */
  lemma FileNeverRepeats(b: Block, st: Stored, days: seq<nat>)
    requires NonDecreasing(days) && (Own(b, st) && days != [] ==> st.date <= days[0])
    ensures Distinct(History(b, st) + Log(b, st, days))
  {
    NothingReissuedExactly(b, st, days);
    assert NonDecreasing(Readings(b, st, days));
  }

  /** Once a day's block is used up, every further call that day is refused. */
  lemma {:induction false} ExhaustedStaysExhausted(b: Block, st: Stored, today: nat, calls: nat)
    requires Candidate(b, st, today) > b.hi
    ensures After(b, st, seq(calls, _ => today)) == st && Log(b, st, seq(calls, _ => today)) == []
  {
    if calls > 0 {
      var s := seq(calls, _ => today);
      assert s[..calls - 1] == seq(calls - 1, _ => today);
      ExhaustedStaysExhausted(b, st, today, calls - 1);
    }
  }

  // ---- The sixteen characters

  const PREFIX := " 68040-"
  const FIELD_LEN := 16

  function Digit(n: nat): char
    requires n < 10
  {
    "0123456789"[n]
  }

  function Decimal(n: nat): string {
    if n < 10 then [Digit(n)] else Decimal(n / 10) + [Digit(n % 10)]
  }

  function Padded(n: nat): string { if n < 10 then "0" + Decimal(n) else Decimal(n) }

  function Field(today: string, number: nat): string { PREFIX + today + "-" + Padded(number) }

  lemma {:induction false} DecimalLength(n: nat)
    ensures |Decimal(n)| == 1 <==> n < 10
    ensures |Decimal(n)| == 2 <==> 10 <= n < 100
    ensures |Decimal(n)| >= 1
  {
    if n >= 10 {
      DecimalLength(n / 10);
    }
  }

  /** With a six-character date the stamp fits the field exactly for numbers below 100. */
  lemma FieldFits(today: string, number: nat)
    requires |today| == 6
    ensures |Field(today, number)| == FIELD_LEN <==> number < 100
  {
    DecimalLength(number);
  }

  /** What a reader of the sixteen characters finds: the machine, the date, and a number of two digits. */
  lemma FieldReads(today: string, number: nat)
    requires |today| == 6 && number < 100
    ensures var f := Field(today, number);
      && |f| == 16 && f[..7] == " 68040-" && f[7..13] == today && f[13] == '-'
      && '0' <= f[14] <= '9' && '0' <= f[15] <= '9'
      && number == 10 * (f[14] as int - '0' as int) + (f[15] as int - '0' as int)
  {
    FieldFits(today, number);
    FieldParts(today, number);
    TwoDigits(number);
    DigitIs(number / 10);
    DigitIs(number % 10);
    var f := Field(today, number);
    assert f[14..][0] == f[14] && f[14..][1] == f[15];
    hide Padded, Digit, Decimal;
    assert f[..7] == " 68040-" && f[13] == '-';
  }

  lemma DigitIs(n: nat)
    requires n < 10
    ensures '0' <= Digit(n) <= '9' && Digit(n) as int == '0' as int + n
  {
  }

  lemma DigitsDiffer(a: nat, b: nat)
    requires a < 10 && b < 10 && Digit(a) == Digit(b)
    ensures a == b
  {
    var s := "0123456789";
    assert forall i, j :: 0 <= i < j < 10 ==> s[i] != s[j];
  }

  /** Two stamps that fit and read the same name the same date and number. */
  lemma FieldIsInjective(d1: string, n1: nat, d2: string, n2: nat)
    requires |d1| == 6 && |d2| == 6 && n1 < 100 && n2 < 100
    requires Field(d1, n1) == Field(d2, n2)
    ensures d1 == d2 && n1 == n2
  {
    TwoDigits(n1);
    TwoDigits(n2);
    hide Padded, Digit;
    var f := Field(d1, n1);
    FieldParts(d1, n1);
    FieldParts(d2, n2);
    assert [Digit(n1 / 10), Digit(n1 % 10)] == [Digit(n2 / 10), Digit(n2 % 10)];
    hide Field, Decimal;
    assert Digit(n1 / 10) == Padded(n1)[0] && Digit(n1 % 10) == Padded(n1)[1];
    assert Digit(n2 / 10) == Padded(n2)[0] && Digit(n2 % 10) == Padded(n2)[1];
    DigitsDiffer(n1 / 10, n2 / 10);
    DigitsDiffer(n1 % 10, n2 % 10);
  }

  /** Where a field keeps its date and its number. */
  lemma FieldParts(today: string, number: nat)
    requires |today| == 6
    ensures |Field(today, number)| >= 14 && Field(today, number)[7..13] == today
    ensures Field(today, number)[14..] == Padded(number)
  {
    hide Padded;
  }

  lemma TwoDigits(n: nat)
    requires n < 100
    ensures Padded(n) == [Digit(n / 10), Digit(n % 10)]
  {
    assert Decimal(n / 10) == [Digit(n / 10)];
  }
}
