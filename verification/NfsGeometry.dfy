/** The three computations in the NFS read path that four immediates decide: the end-of-file gate,
    the countdown that fills the caller's page list, and the rounded I/O length. */
module NfsGeometry {
  import PatchEngines

  const PAGE := 4096
  const HALF := 2048
  const WORD := 0x1_0000_0000

  /** Which of the four sites carry their converted immediate. */
  datatype Edits = Edits(gate: bool, countdown: bool, roundAdd: bool, roundMask: bool) {
    function Allowance(): nat { if gate then PAGE - 1 else HALF - 1 }
    function Step(): nat { if countdown then PAGE else HALF }
    function Add(): nat { if roundAdd then PAGE - 1 else HALF - 1 }
    function Unit(): nat { if roundMask then PAGE else HALF }
  }

  // ---- The end-of-file gate: r_size + allowance against off + len, in 32 bits, unsigned

  predicate Gate(e: Edits, size: nat, off: nat, len: nat) {
    (size + e.Allowance()) % WORD >= (off + len) % WORD
  }

  /** The start of a page in the 32-bit offset space; the last page ends at 2^32, which is 0 again. */
  predicate Page32(off: nat) { off < WORD && off % PAGE == 0 }

  /** Each side of the comparison is a 32-bit sum. */
  predicate SizeWraps(e: Edits, size: nat) { size + e.Allowance() >= WORD }
  predicate EndWraps(off: nat) { off + PAGE >= WORD }

  /** The gate gives the right answer for one page of one file. */
  predicate RightAt(e: Edits, size: nat, off: nat) { Gate(e, size, off, PAGE) <==> off < size }

  lemma Sums(e: Edits, size: nat, off: nat)
    requires size < WORD && Page32(off)
    ensures (size + e.Allowance()) % WORD == size + e.Allowance() - (if SizeWraps(e, size) then WORD else 0)
    ensures (off + PAGE) % WORD == if EndWraps(off) then 0 else off + PAGE
    ensures EndWraps(off) <==> off == WORD - PAGE
  {
    assert EndWraps(off) ==> off == WORD - PAGE;
  }

  /** The converted gate is right, for every file size and every page, if and only if both sums wrap or
      neither does.  With only the size wrapped it refuses a page of the file; with only the end
      wrapped it accepts the last page of the offset space, which no such file reaches. */
  lemma GateRightExactly(e: Edits, size: nat, off: nat)
    requires e.gate && size < WORD && Page32(off)
    ensures RightAt(e, size, off) <==> (SizeWraps(e, size) <==> EndWraps(off))
    ensures SizeWraps(e, size) && !EndWraps(off) ==> off < size && !Gate(e, size, off, PAGE)
    ensures !SizeWraps(e, size) && EndWraps(off) ==> off >= size && Gate(e, size, off, PAGE)
  {
    Sums(e, size, off);
    if off < size {
      assert size + e.Allowance() >= off + PAGE;
    }
  }

  /** The unconverted gate, in the same terms: where neither sum wraps it is wrong exactly on a last
      page that holds 1..2048 bytes of the file, which it refuses; elsewhere as above. */
  lemma StaleGateExactly(e: Edits, size: nat, off: nat)
    requires !e.gate && size < WORD && Page32(off)
    ensures !SizeWraps(e, size) && !EndWraps(off) ==>
      && (!RightAt(e, size, off) <==> off < size && size - off <= HALF)
      && (off < size && size - off < PAGE ==> (Gate(e, size, off, PAGE) <==> !(1 <= size % PAGE <= HALF)))
    ensures SizeWraps(e, size) && !EndWraps(off) ==> off < size && !Gate(e, size, off, PAGE)
    ensures EndWraps(off) ==> Gate(e, size, off, PAGE) && (RightAt(e, size, off) <==> size > WORD - PAGE)
  {
    Sums(e, size, off);
    if off < size && size - off < PAGE {
      assert size == PAGE * (off / PAGE) + (size - off);
      assert size % PAGE == size - off;
    }
    if SizeWraps(e, size) && !EndWraps(off) {
      assert off <= WORD - 2 * PAGE;
    }
  }

  /** With all four edits in: a one-page file lets the last page of the offset space in, and a file
      of 0xFFFFF001 bytes is refused its first page. */
  lemma WrapsAtBothEnds()
    ensures var e := Edits(true, true, true, true);
      && Gate(e, PAGE, WORD - PAGE, PAGE) && !RightAt(e, PAGE, WORD - PAGE)
      && !Gate(e, 0xFFFF_F001, 0, PAGE) && !RightAt(e, 0xFFFF_F001, 0)
      && RightAt(e, 0xFFFF_F001, WORD - PAGE)
  {
    var e := Edits(true, true, true, true);
    GateRightExactly(e, PAGE, WORD - PAGE);
    GateRightExactly(e, 0xFFFF_F001, 0);
    GateRightExactly(e, 0xFFFF_F001, WORD - PAGE);
  }

  // ---- The page list: a ring walked by a byte countdown

  /** Entries a countdown from `sz` in steps of `step` writes: at least one, the test is at the end. */
  function Count(sz: int, step: nat): nat
    requires step > 0
    decreases if sz > 0 then sz else 0
  {
    if sz - step > 0 then 1 + Count(sz - step, step) else 1
  }

  /** In whole pages the countdown ends after one step per page, or after two when it counts halves. */
  lemma {:induction false} CountPages(n: nat)
    requires n > 0
    ensures Count(n * PAGE, PAGE) == n && Count(n * PAGE, HALF) == 2 * n
  {
    if n > 1 {
      CountPages(n - 1);
      assert Count(n * PAGE, HALF) == 1 + Count(n * PAGE - HALF, HALF);
    } else {
      assert Count(PAGE, HALF) == 1 + Count(HALF, HALF);
    }
  }

  /** Where the walk around an n-page ring is after `i` steps. */
  function Pos(n: nat, i: nat): (p: nat)
    requires n > 0
    ensures p < n
  {
    if i == 0 then 0 else Follow(n, Pos(n, i - 1))
  }

  function Follow(n: nat, p: nat): nat { if p + 1 == n then 0 else p + 1 }

  lemma {:induction false} PosInTwoLaps(n: nat, i: nat)
    requires 0 < n && i < 2 * n
    ensures Pos(n, i) == if i < n then i else i - n
  {
    if i > 0 {
      PosInTwoLaps(n, i - 1);
    }
  }

  /** How often page `k` is among the first `count` entries. */
  function Times(n: nat, count: nat, k: nat): nat
    requires n > 0
  {
    if count == 0 then 0 else Times(n, count - 1, k) + if Pos(n, count - 1) == k then 1 else 0
  }

  lemma {:induction false} TimesInTwoLaps(n: nat, count: nat, k: nat)
    requires k < n && count <= 2 * n
    ensures Times(n, count, k) == if count <= k then 0 else if count <= n + k then 1 else 2
  {
    if count > 0 {
      TimesInTwoLaps(n, count - 1, k);
      PosInTwoLaps(n, count - 1);
    }
  }

  class Page {
    var hold: nat
    const next: Page?

    constructor (next: Page?) {
      this.hold, this.next := 0, next;
    }
  }

  /** `ring` is a circular cluster list: distinct pages, each one's successor the next, the last
      one's the first. */
  predicate Ring(ring: seq<Page>) {
    && ring != []
    && (forall i, j :: 0 <= i < j < |ring| ==> ring[i] != ring[j])
    && (forall i {:trigger ring[i].next} :: 0 <= i < |ring| ==> ring[i].next == ring[Follow(|ring|, i)])
  }

  ghost function HoldsOf(ring: seq<Page>): (h: seq<nat>)
    reads ring
    ensures |h| == |ring| && forall k :: 0 <= k < |ring| ==> h[k] == ring[k].hold
  {
    seq(|ring|, k requires 0 <= k < |ring| reads ring => ring[k].hold)
  }

  /** After `i` rounds: the pointers stored, the page the walk is at, and every page held once more
      for each entry that names it. */
  ghost predicate Walked(ring: seq<Page>, before: seq<nat>, now: seq<nat>, pl: seq<Page>, i: nat, pp: Page?)
    requires ring != []
  {
    && |pl| == i && pl == Stored(ring, i) && pp == ring[Pos(|ring|, i)]
    && |before| == |now| == |ring| && forall k :: 0 <= k < |ring| ==> now[k] == before[k] + Times(|ring|, i, k)
  }

  method Hold(ghost ring: seq<Page>, ghost at: nat, pp: Page)
    requires Ring(ring) && at < |ring| && pp == ring[at]
    modifies pp
    ensures HoldsOf(ring) == old(HoldsOf(ring))[at := old(HoldsOf(ring))[at] + 1]
  {
    pp.hold := pp.hold + 1;
  }

  /** The loop that hands a cluster back: hold a page, store it, follow p_next, count down. */
  method FillPageList(ghost ring: seq<Page>, first: Page, sz: int, step: nat) returns (pl: seq<Page>)
    requires step > 0 && Ring(ring) && first == ring[0]
    modifies ring
    ensures |pl| == Count(sz, step)
    ensures pl == Stored(ring, |pl|)
    ensures forall k :: 0 <= k < |ring| ==> ring[k].hold == old(ring[k].hold) + Times(|ring|, |pl|, k)
  {
    hide Ring, Pos, Times, Count, Stored, Follow, HoldsOf, Walked;
    pl := [];
    var pp: Page, left: int, more := first, sz, true;
    ghost var before, now, i := HoldsOf(ring), HoldsOf(ring), 0;
    Setout(ring, before);
    while more
      invariant now == HoldsOf(ring) && ring != [] && Walked(ring, before, now, pl, i, pp)
      invariant i + (if more then Count(left, step) else 0) == Count(sz, step)
      decreases more, if left > 0 then left else 0
    {
      Round(ring, before, now, pl, i, pp);
      CountStep(left, step);
      Hold(ring, Pos(|ring|, i), pp);
      now := HoldsOf(ring);
      pl := pl + [pp];
      pp := pp.next;
      left := left - step;
      more := left > 0;
      i := i + 1;
    }
    Finished(ring, before, pl, i, pp);
  }

  lemma Setout(ring: seq<Page>, before: seq<nat>)
    requires Ring(ring) && |before| == |ring|
    ensures ring != [] && Walked(ring, before, before, [], 0, ring[0])
  {
  }

  lemma Finished(ring: seq<Page>, before: seq<nat>, pl: seq<Page>, i: nat, pp: Page?)
    requires ring != [] && Walked(ring, before, HoldsOf(ring), pl, i, pp)
    ensures |pl| == i && pl == Stored(ring, i)
    ensures forall k :: 0 <= k < |ring| ==> ring[k].hold == before[k] + Times(|ring|, i, k)
  {
  }

  /** The page pointers the loop stores in its first `count` rounds. */
  ghost function Stored(ring: seq<Page>, count: nat): seq<Page>
    requires ring != []
  {
    if count == 0 then [] else Stored(ring, count - 1) + [ring[Pos(|ring|, count - 1)]]
  }

  lemma {:induction false} StoredAt(ring: seq<Page>, count: nat, i: nat)
    requires ring != [] && i < count
    ensures |Stored(ring, count)| == count && Stored(ring, count)[i] == ring[Pos(|ring|, i)]
  {
    if i < count - 1 {
      StoredAt(ring, count - 1, i);
    } else if count > 1 {
      StoredAt(ring, count - 1, 0);
    }
  }

  lemma Round(ring: seq<Page>, before: seq<nat>, now: seq<nat>, pl: seq<Page>, i: nat, pp: Page)
    requires Ring(ring) && Walked(ring, before, now, pl, i, pp)
    ensures pp.next != null && pp == ring[Pos(|ring|, i)]
    ensures var at := Pos(|ring|, i);
      at < |now| && Walked(ring, before, now[at := now[at] + 1], pl + [pp], i + 1, pp.next)
  {
  }

  lemma CountStep(left: int, step: nat)
    requires step > 0
    ensures Count(left, step) == 1 + if left - step > 0 then Count(left - step, step) else 0
  {
  }

  /** Every page of a cluster is handed over, and held, exactly once with the converted countdown
      and exactly twice with the stale one. */
  lemma EachPageOnce(n: nat, k: nat)
    requires k < n
    ensures Times(n, Count(n * PAGE, PAGE), k) == 1
    ensures Times(n, Count(n * PAGE, HALF), k) == 2
  {
    CountPages(n);
    TimesInTwoLaps(n, n, k);
    TimesInTwoLaps(n, 2 * n, k);
  }

  // ---- The I/O length: add in 32 bits, then mask the low sixteen

  function IoLength(e: Edits, len: nat): nat {
    var sum := (len + e.Add()) % WORD;
    var low := sum % 0x1_0000;
    sum - low + (low - low % e.Unit())
  }

  lemma IoLengthRounds(e: Edits, len: nat)
    requires len + e.Add() < WORD
    ensures IoLength(e, len) == len + e.Add() - (len + e.Add()) % e.Unit()
  {
    LowWord(len + e.Add());
  }

  lemma Unique4096(x: nat, k: nat, r: nat)
    requires x == 4096 * k + r && r < 4096
    ensures x % 4096 == r
  {
  }

  lemma Unique2048(x: nat, k: nat, r: nat)
    requires x == 2048 * k + r && r < 2048
    ensures x % 2048 == r
  {
  }

  lemma LowWord(sum: nat)
    ensures sum % 0x1_0000 % PAGE == sum % PAGE && sum % 0x1_0000 % HALF == sum % HALF
  {
    var q, low := sum / 0x1_0000, sum % 0x1_0000;
    Unique4096(sum, 16 * q + low / 4096, low % 4096);
    Unique2048(sum, 32 * q + low / 2048, low % 2048);
  }

  /** The I/O covers a one-page tail exactly for these lengths and combinations. */
  lemma TailLength(e: Edits, len: nat)
    requires 1 <= len <= PAGE
    ensures IoLength(e, len) == PAGE <==>
            if e.roundAdd then e.roundMask || len <= HALF else len > HALF
  {
    IoLengthRounds(e, len);
  }

  function WholePages(len: nat): nat { (len + PAGE - 1) / PAGE * PAGE }

  /** With both edits the rounded length is whole pages, for every length, if and only if the 32-bit
      add does not wrap; when it does, the length is 0. */
  lemma LengthRightExactly(e: Edits, len: nat)
    requires e.roundAdd && e.roundMask && 1 <= len < WORD
    ensures IoLength(e, len) == WholePages(len) <==> len + PAGE - 1 < WORD
    ensures len + PAGE - 1 >= WORD ==> IoLength(e, len) == 0
  {
    if len + PAGE - 1 < WORD {
      IoLengthRounds(e, len);
    } else {
      assert (len + PAGE - 1) % WORD == len + PAGE - 1 - WORD;
    }
  }

  // ---- All four together

  ghost predicate GateRight(e: Edits) {
    forall size: nat, off: nat :: size < WORD && Page32(off) && (SizeWraps(e, size) <==> EndWraps(off)) ==>
      RightAt(e, size, off)
  }

  ghost predicate ListRight(e: Edits) {
    forall n: nat, k: nat :: k < n ==> Times(n, Count(n * PAGE, e.Step()), k) == 1
  }

  ghost predicate LengthRight(e: Edits) {
    forall len: nat :: 1 <= len && len + PAGE - 1 < WORD ==> IoLength(e, len) == WholePages(len)
  }

  /** The four edits are jointly necessary and sufficient: the gate admits exactly the pages of the
      file wherever its sums wrap together or not at all, the list names each page once, and the I/O
      initialises whole pages, if and only if all four are in. */
  lemma FourSitesOrNone(e: Edits)
    ensures GateRight(e) && ListRight(e) && LengthRight(e) <==> e == Edits(true, true, true, true)
  {
    if e == Edits(true, true, true, true) {
      forall size: nat, off: nat | size < WORD && Page32(off) && (SizeWraps(e, size) <==> EndWraps(off))
        ensures RightAt(e, size, off)
      {
        GateRightExactly(e, size, off);
      }
      forall n: nat, k: nat | k < n ensures Times(n, Count(n * PAGE, e.Step()), k) == 1 {
        EachPageOnce(n, k);
      }
      forall len: nat | 1 <= len && len + PAGE - 1 < WORD ensures IoLength(e, len) == WholePages(len) {
        IoLengthRounds(e, len);
      }
    } else {
      if !e.gate {
        StaleGateExactly(e, 1, 0);
        assert Page32(0) && !RightAt(e, 1, 0);
      }
      if !e.countdown {
        EachPageOnce(1, 0);
        assert Times(1, Count(1 * PAGE, e.Step()), 0) == 2;
      }
      if !(e.roundAdd && e.roundMask) {
        var len := if e.roundAdd then PAGE else 1;
        TailLength(e, len);
        assert IoLength(e, len) != WholePages(len);
      }
    }
  }

  /** Which edits an image carries, by the editor's table of four: gate, countdown, add, mask. */
  function EditsOf(img: seq<PatchEngines.Byte>, t: seq<PatchEngines.Site>): Edits
    requires |t| == 4
  {
    Edits(PatchEngines.Holds(img, t[0].off, t[0].after), PatchEngines.Holds(img, t[1].off, t[1].after),
          PatchEngines.Holds(img, t[2].off, t[2].after), PatchEngines.Holds(img, t[3].off, t[3].after))
  }

  /** Among images whose four sites all read old or new, one reads correctly if and only if the editor
      counts every site as converted: all its half states are wrong kernels, which is why it refuses
      them, and what it writes is right. */
  lemma RightExactlyWhenConverted(img: seq<PatchEngines.Byte>, t: seq<PatchEngines.Site>)
    requires |t| == 4 && PatchEngines.AllRead(img, t)
    ensures forall i :: 0 <= i < 4 && !PatchEngines.Holds(img, t[i].off, t[i].after) ==>
      PatchEngines.Holds(img, t[i].off, t[i].before)
    ensures var e := EditsOf(img, t); GateRight(e) && ListRight(e) && LengthRight(e) <==> PatchEngines.AllNew(img, t)
  {
    hide GateRight, ListRight, LengthRight, PatchEngines.Holds;
    FourSitesOrNone(EditsOf(img, t));
    assert t[0] in t && t[1] in t && t[2] in t && t[3] in t;
  }
}
