/** The two engines that edit a kernel image in place: one pass over a table of sites, and a
    two-phase one that verifies everything before it writes anything and can be reverted. */
module PatchEngines {
  type Byte = x: int | 0 <= x < 256

  datatype Site = Site(off: nat, before: seq<Byte>, after: seq<Byte>)
  datatype Canary = Canary(off: nat, want: seq<Byte>)

  function Min(a: nat, b: nat): nat { if a < b then a else b }

  /** img[off:off+n] as Python slices it: cut short, never out of range. */
  function Slice(img: seq<Byte>, off: nat, n: nat): seq<Byte> {
    img[Min(off, |img|)..Min(off + n, |img|)]
  }

  predicate Holds(img: seq<Byte>, off: nat, bytes: seq<Byte>) { Slice(img, off, |bytes|) == bytes }

  predicate Covers(s: Site, p: nat) { s.off <= p < s.off + |s.before| }

  predicate Disjoint(a: Site, b: Site) {
    a.off + |a.before| <= b.off || b.off + |b.before| <= a.off
  }

  /** What both engines rely on in a table: replacements of equal, nonzero length, and any two
      entries either touch no common byte or are the same edit listed twice. */
  predicate Coherent(t: seq<Site>) {
    && (forall i :: 0 <= i < |t| ==> 0 < |t[i].before| == |t[i].after|)
    && (forall i, j :: 0 <= i < |t| && 0 <= j < |t| ==> t[i] == t[j] || Disjoint(t[i], t[j]))
  }

  predicate Reads(img: seq<Byte>, s: Site) { Holds(img, s.off, s.before) || Holds(img, s.off, s.after) }

  predicate AllNew(img: seq<Byte>, t: seq<Site>) { forall s :: s in t ==> Holds(img, s.off, s.after) }
  predicate AllOld(img: seq<Byte>, t: seq<Site>) { forall s :: s in t ==> Holds(img, s.off, s.before) }
  predicate AllRead(img: seq<Byte>, t: seq<Site>) { forall s :: s in t ==> Reads(img, s) }
  predicate Intact(img: seq<Byte>, cs: seq<Canary>) { forall c :: c in cs ==> Holds(img, c.off, c.want) }

  /** `img'` is `img` with exactly the table's new bytes: every site new, every other byte kept. */
  predicate Converted(img: seq<Byte>, t: seq<Site>, img': seq<Byte>) {
    && |img'| == |img|
    && AllNew(img', t)
    && SameOutside(img, t, img')
  }

  predicate SameOutside(img: seq<Byte>, t: seq<Site>, img': seq<Byte>) {
    |img'| == |img| && forall p :: 0 <= p < |img| && (forall s :: s in t ==> !Covers(s, p)) ==> img'[p] == img[p]
  }

  lemma HoldsAt(img: seq<Byte>, off: nat, bytes: seq<Byte>)
    ensures bytes != [] ==>
      (Holds(img, off, bytes) <==> off + |bytes| <= |img| && forall k :: 0 <= k < |bytes| ==> img[off + k] == bytes[k])
  {
    if Holds(img, off, bytes) && bytes != [] {
      assert |Slice(img, off, |bytes|)| == |bytes|;
      forall k | 0 <= k < |bytes| ensures img[off + k] == bytes[k] {
        assert Slice(img, off, |bytes|)[k] == bytes[k];
      }
    }
  }

  lemma HeldByte(img: seq<Byte>, s: Site, p: nat)
    requires |s.before| == |s.after| && Covers(s, p) && Holds(img, s.off, s.after)
    ensures p < |img| && img[p] == s.after[p - s.off]
  {
    HoldsAt(img, s.off, s.after);
    assert img[s.off + (p - s.off)] == s.after[p - s.off];
  }

  /** Two converted images of the same image are the same image. */
  lemma ConvertedIsUnique(img: seq<Byte>, t: seq<Site>, a: seq<Byte>, b: seq<Byte>)
    requires Coherent(t) && Converted(img, t, a) && Converted(img, t, b)
    ensures a == b
  {
    forall p | 0 <= p < |img| ensures a[p] == b[p] {
      if s :| s in t && Covers(s, p) {
        HeldByte(a, s, p);
        HeldByte(b, s, p);
      }
    }
  }

  // ---- One write

  function Write(img: seq<Byte>, off: nat, bytes: seq<Byte>): (r: seq<Byte>)
    requires off + |bytes| <= |img|
    ensures |r| == |img|
    ensures forall p :: 0 <= p < |img| ==> r[p] == if off <= p < off + |bytes| then bytes[p - off] else img[p]
  {
    img[..off] + bytes + img[off + |bytes|..]
  }

  lemma WriteKeepsDisjoint(img: seq<Byte>, off: nat, bytes: seq<Byte>, off': nat, bytes': seq<Byte>)
    requires off + |bytes| <= |img|
    requires bytes' != [] && (off + |bytes| <= off' || off' + |bytes'| <= off)
    ensures Holds(Write(img, off, bytes), off', bytes') <==> Holds(img, off', bytes')
  {
    var img' := Write(img, off, bytes);
    HoldsAt(img, off', bytes');
    HoldsAt(img', off', bytes');
  }

  lemma WriteHolds(img: seq<Byte>, off: nat, bytes: seq<Byte>)
    requires off + |bytes| <= |img|
    ensures Holds(Write(img, off, bytes), off, bytes)
  {
    assert Slice(Write(img, off, bytes), off, |bytes|) == bytes;
  }

  // ---- Tables grow one entry at a time

  /** While a table is being applied: where `now` stands after its first `i` entries. */
  ghost predicate Underway(img: seq<Byte>, t: seq<Site>, i: nat, now: seq<Byte>) {
    i <= |t| && Converted(img, t[..i], now)
  }

  /** A site that is not among the entries already applied still reads what it read at the start. */
  lemma UntouchedSite(img: seq<Byte>, t: seq<Site>, i: nat, now: seq<Byte>, bytes: seq<Byte>)
    requires Coherent(t) && i < |t| && Underway(img, t, i, now)
    requires t[i] !in t[..i] && |bytes| == |t[i].before|
    ensures Holds(now, t[i].off, bytes) <==> Holds(img, t[i].off, bytes)
  {
    var s := t[i];
    HoldsAt(img, s.off, bytes);
    HoldsAt(now, s.off, bytes);
    forall p | s.off <= p < s.off + |bytes| && p < |img| ensures now[p] == img[p] {
      forall u | u in t[..i] ensures !Covers(u, p) {
        assert u != s && u in t;
        assert Disjoint(u, s);
      }
    }
  }

  /** An entry listed before is already done; a fresh one reads as it did in the original. */
  lemma SiteNow(img: seq<Byte>, t: seq<Site>, i: nat, now: seq<Byte>)
    requires Coherent(t) && i < |t| && Underway(img, t, i, now)
    ensures t[i] in t[..i] ==> Holds(now, t[i].off, t[i].after)
    ensures t[i] !in t[..i] ==>
      && (Holds(now, t[i].off, t[i].after) <==> Holds(img, t[i].off, t[i].after))
      && (Holds(now, t[i].off, t[i].before) <==> Holds(img, t[i].off, t[i].before))
    ensures AllRead(img, t[..i]) ==> (Reads(now, t[i]) <==> t[i] in t[..i] || Reads(img, t[i]))
  {
    if t[i] !in t[..i] {
      UntouchedSite(img, t, i, now, t[i].after);
      UntouchedSite(img, t, i, now, t[i].before);
    }
  }

  lemma SkipStep(img: seq<Byte>, t: seq<Site>, i: nat, now: seq<Byte>)
    requires Coherent(t) && i < |t| && Underway(img, t, i, now) && Holds(now, t[i].off, t[i].after)
    ensures Underway(img, t, i + 1, now)
  {
    assert t[..i + 1] == t[..i] + [t[i]];
  }

  lemma WriteStep(img: seq<Byte>, t: seq<Site>, i: nat, now: seq<Byte>)
    requires Coherent(t) && i < |t| && Underway(img, t, i, now) && t[i].off + |t[i].after| <= |now|
    ensures Underway(img, t, i + 1, Write(now, t[i].off, t[i].after))
  {
    var s := t[i];
    var next := Write(now, s.off, s.after);
    assert t[..i + 1] == t[..i] + [s];
    WriteHolds(now, s.off, s.after);
    forall u | u in t[..i + 1] ensures Holds(next, u.off, u.after) {
      if u != s {
        assert u in t[..i] && u in t && Disjoint(u, s);
        WriteKeepsDisjoint(now, s.off, s.after, u.off, u.after);
      }
    }
    forall p | 0 <= p < |img| && (forall u :: u in t[..i + 1] ==> !Covers(u, p)) ensures next[p] == img[p] {
      assert !Covers(s, p);
      assert forall u :: u in t[..i] ==> !Covers(u, p);
    }
  }

  /** How many entries one pass writes: those not yet new and not repeats of an earlier entry. */
  function Pending(img: seq<Byte>, t: seq<Site>): nat {
    if t == [] then 0
    else
      var last, rest := t[|t| - 1], t[..|t| - 1];
      Pending(img, rest) + if last in rest || Holds(img, last.off, last.after) then 0 else 1
  }

  /** That is the number of different sites in the table that do not read new. */
  lemma {:induction false} PendingCounts(img: seq<Byte>, t: seq<Site>)
    ensures Pending(img, t) == |set s | s in t && !Holds(img, s.off, s.after)|
    decreases |t|
  {
    if t != [] {
      var last, rest := t[|t| - 1], t[..|t| - 1];
      PendingCounts(img, rest);
      assert t == rest + [last];
      hide Holds;
      var before := set s | s in rest && !Holds(img, s.off, s.after);
      var now := set s | s in t && !Holds(img, s.off, s.after);
      assert now == if last in rest || Holds(img, last.off, last.after) then before else before + {last};
    }
  }

  lemma UnderwayStart(img: seq<Byte>, t: seq<Site>)
    ensures Underway(img, t, 0, img)
  {
  }

  lemma PendingStep(img: seq<Byte>, t: seq<Site>, i: nat)
    requires i < |t|
    ensures t[..i + 1] == t[..i] + [t[i]]
    ensures Pending(img, t[..i + 1]) ==
      Pending(img, t[..i]) + if t[i] in t[..i] || Holds(img, t[i].off, t[i].after) then 0 else 1
  {
    assert t[..i + 1][..i] == t[..i];
  }

  lemma CoherentSubset(sub: seq<Site>, t: seq<Site>)
    requires Coherent(t) && forall s :: s in sub ==> s in t
    ensures Coherent(sub)
  {
    forall i | 0 <= i < |sub| ensures 0 < |sub[i].before| == |sub[i].after| {
      assert sub[i] in t;
    }
    forall i, j | 0 <= i < |sub| && 0 <= j < |sub| ensures sub[i] == sub[j] || Disjoint(sub[i], sub[j]) {
      assert sub[i] in t && sub[j] in t;
    }
  }

  /** Writing only the sites that are not new yet converts the whole table. */
  lemma ConvertedBySubset(img: seq<Byte>, todo: seq<Site>, t: seq<Site>, now: seq<Byte>)
    requires Coherent(t) && Converted(img, todo, now)
    requires forall s :: s in todo <==> s in t && !Holds(img, s.off, s.after)
    ensures Converted(img, t, now)
  {
    forall s | s in t ensures Holds(now, s.off, s.after) {
      if s !in todo {
        CoherentSubset(todo + [s], t);
        UntouchedByOthers(img, todo, s, now);
      }
    }
  }

  lemma UntouchedByOthers(img: seq<Byte>, todo: seq<Site>, s: Site, now: seq<Byte>)
    requires Coherent(todo + [s]) && s !in todo && SameOutside(img, todo, now)
    ensures Holds(img, s.off, s.after) ==> Holds(now, s.off, s.after)
  {
    var t := todo + [s];
    assert t[|todo|] == s;
    HoldsAt(img, s.off, s.after);
    HoldsAt(now, s.off, s.after);
    forall p | s.off <= p < s.off + |s.after| && p < |img| ensures now[p] == img[p] {
      forall u | u in todo ensures !Covers(u, p) {
        var k :| 0 <= k < |todo| && todo[k] == u;
        assert t[k] == u;
      }
    }
  }

  lemma UndoCoherent(t: seq<Site>)
    requires Coherent(t)
    ensures Coherent(Undo(t))
  {
    var u := Undo(t);
    forall i, j | 0 <= i < |u| && 0 <= j < |u| ensures u[i] == u[j] || Disjoint(u[i], u[j]) {
      assert t[i] == t[j] || Disjoint(t[i], t[j]);
    }
  }

  // ---- The file and its editors

  /** Entry `k` is the first that reads neither old nor new. */
  predicate FirstBad(img: seq<Byte>, t: seq<Site>, k: nat) {
    k < |t| && !Reads(img, t[k]) && AllRead(img, t[..k])
  }

  datatype Pass = Wrote(done: nat, skip: nat) | Unexpected(index: nat) | CanaryBroken
  datatype Unit = Applied(patched: nat, already: nat) | SiteUnknown(index: nat) | HalfApplied | CanaryHit

  /** No site reads its new bytes. */
  predicate NoneNew(img: seq<Byte>, t: seq<Site>) { forall s :: s in t ==> !Holds(img, s.off, s.after) }

  /** The table that undoes `t`. */
  function Undo(t: seq<Site>): (u: seq<Site>)
    ensures |u| == |t| && forall i :: 0 <= i < |t| ==> u[i] == Site(t[i].off, t[i].after, t[i].before)
  {
    if t == [] then [] else [Site(t[0].off, t[0].after, t[0].before)] + Undo(t[1..])
  }

  /** One pass over the image: skip a site that is new, convert one that is old, give up on
      anything else. */
  method Sweep(buf: array<Byte>, t: seq<Site>) returns (r: Pass)
    requires Coherent(t)
    modifies buf
    ensures r.Wrote? <==> AllRead(old(buf[..]), t)
    ensures r.Wrote? ==>
      Converted(old(buf[..]), t, buf[..]) && r.done == Pending(old(buf[..]), t) && r.done + r.skip == |t|
    ensures !r.Wrote? ==> r.Unexpected? && FirstBad(old(buf[..]), t, r.index)
  {
    ghost var img := buf[..];
    var done, skip := 0, 0;
    assert t[..0] == [] && t[..|t|] == t && Pending(img, []) == 0;
    UnderwayStart(img, t);
    hide Coherent, Converted, Slice, Write, Pending;
    for i := 0 to |t|
      invariant Underway(img, t, i, buf[..]) && AllRead(img, t[..i])
      invariant done == Pending(img, t[..i]) && done + skip == i
    {
      var s := t[i];
      SiteNow(img, t, i, buf[..]);
      PendingStep(img, t, i);
      var cur := Slice(buf[..], s.off, |s.before|);
      assert |s.before| == |s.after| by { CoherentSite(t, i); }
      if cur == s.after {
        SkipStep(img, t, i, buf[..]);
        skip := skip + 1;
      } else if cur == s.before {
        CoherentSite(t, i);
        HoldsAt(buf[..], s.off, s.before);
        WriteStep(img, t, i, buf[..]);
        Store(buf, s.off, s.after);
        done := done + 1;
      } else {
        assert !Reads(img, s) && s in t;
        return Unexpected(i);
      }
    }
    return Wrote(done, skip);
  }

  lemma CoherentSite(t: seq<Site>, i: nat)
    requires Coherent(t) && i < |t|
    ensures 0 < |t[i].before| == |t[i].after|
  {
  }

  method CheckCanaries(img: seq<Byte>, canaries: seq<Canary>) returns (ok: bool)
    ensures ok <==> Intact(img, canaries)
  {
    for i := 0 to |canaries|
      invariant forall j :: 0 <= j < i ==> Holds(img, canaries[j].off, canaries[j].want)
    {
      if !Holds(img, canaries[i].off, canaries[i].want) {
        assert canaries[i] in canaries;
        return false;
      }
    }
    return true;
  }

  /** First phase: sort the sites into pending and converted; `bad` is the first that is neither,
      or |t|. */
  method Survey(img: seq<Byte>, t: seq<Site>) returns (todo: seq<Site>, already: nat, bad: nat)
    ensures bad <= |t| && (bad == |t| <==> AllRead(img, t)) && (bad < |t| ==> FirstBad(img, t, bad))
    ensures bad == |t| ==>
      && (forall s :: s in todo <==> s in t && !Holds(img, s.off, s.after))
      && |todo| + already == |t|
      && (already == 0 <==> NoneNew(img, t))
  {
    todo, already := [], 0;
    for i := 0 to |t|
      invariant AllRead(img, t[..i]) && |todo| + already == i
      invariant forall s :: s in todo <==> s in t[..i] && !Holds(img, s.off, s.after)
      invariant already == 0 <==> NoneNew(img, t[..i])
    {
      var s := t[i];
      assert t[..i + 1] == t[..i] + [s] && s in t && s in t[..i + 1];
      if Holds(img, s.off, s.after) {
        already := already + 1;
      } else if Holds(img, s.off, s.before) {
        todo := todo + [s];
      } else {
        return todo, already, i;
      }
    }
    assert t[..|t|] == t;
    return todo, already, |t|;
  }

  /** The first phase of a revert: the undo entries of the sites that are converted. */
  method SurveyUndo(img: seq<Byte>, t: seq<Site>) returns (todo: seq<Site>, bad: nat)
    ensures bad <= |t| && (bad == |t| <==> AllRead(img, t)) && (bad < |t| ==> FirstBad(img, t, bad)) && |todo| <= |t|
    ensures bad == |t| ==> |todo| == |NotOld(img, t, |t|)|
    ensures bad == |t| ==> forall s :: s in todo <==> s in Undo(t) && !Holds(img, s.off, s.after)
    ensures forall s :: s in todo ==> Holds(img, s.off, s.before)
  {
    todo := [];
    var u := Undo(t);
    hide AllRead, Holds, Undo;
    ReadSoFar(img, t);
    for i := 0 to |t|
      invariant todo == ToUndo(img, t, i) && AllRead(img, t[..i])
    {
      var s := t[i];
      ReadOneMore(img, t, i);
      if Holds(img, s.off, s.before) {
      } else if Holds(img, s.off, s.after) {
        todo := todo + [u[i]];
      } else {
        UndoSurveyed(img, t, i);
        return todo, i;
      }
    }
    UndoSurveyed(img, t, |t|);
    ToUndoCounts(img, t, |t|);
    return todo, |t|;
  }

  /** The positions among the first `i` that do not read old. */
  ghost function NotOld(img: seq<Byte>, t: seq<Site>, i: nat): set<nat>
    requires i <= |t|
  {
    set k: nat | k < i && !Holds(img, t[k].off, t[k].before)
  }

  lemma NotOldStep(img: seq<Byte>, t: seq<Site>, i: nat)
    requires i < |t|
    ensures |NotOld(img, t, i + 1)| == |NotOld(img, t, i)| + if Holds(img, t[i].off, t[i].before) then 0 else 1
  {
    hide Holds;
    var before, now := NotOld(img, t, i), NotOld(img, t, i + 1);
    if Holds(img, t[i].off, t[i].before) {
      assert now == before;
    } else {
      assert now == before + {i};
    }
  }

  lemma {:induction false} ToUndoCounts(img: seq<Byte>, t: seq<Site>, i: nat)
    requires i <= |t|
    ensures |ToUndo(img, t, i)| == |NotOld(img, t, i)|
  {
    hide Holds;
    if i > 0 {
      hide NotOld, Undo;
      ToUndoCounts(img, t, i - 1);
      NotOldStep(img, t, i - 1);
    }
  }

  /** The undo entries of those of the first `i` sites that do not read old. */
  function ToUndo(img: seq<Byte>, t: seq<Site>, i: nat): (r: seq<Site>)
    requires i <= |t|
    ensures |r| <= i
  {
    if i == 0 then []
    else ToUndo(img, t, i - 1) + if Holds(img, t[i - 1].off, t[i - 1].before) then [] else [Undo(t)[i - 1]]
  }

  lemma {:induction false} ToUndoHas(img: seq<Byte>, t: seq<Site>, i: nat, s: Site)
    requires i <= |t| && AllRead(img, t[..i])
    ensures s in ToUndo(img, t, i) <==> s in Undo(t)[..i] && !Holds(img, s.off, s.after)
    ensures s in ToUndo(img, t, i) ==> Holds(img, s.off, s.before)
  {
    hide Holds, Undo;
    if i > 0 {
      var u := Undo(t);
      ReadOneMore(img, t, i - 1);
      assert u[..i] == u[..i - 1] + [u[i - 1]];
      ToUndoHas(img, t, i - 1, s);
    }
  }

  lemma ReadOneMore(img: seq<Byte>, t: seq<Site>, i: nat)
    requires i < |t|
    ensures AllRead(img, t[..i + 1]) <==> AllRead(img, t[..i]) && Reads(img, t[i])
    ensures AllRead(img, t[..i]) && !Reads(img, t[i]) ==> FirstBad(img, t, i) && !AllRead(img, t)
  {
    hide Reads;
    assert t[..i + 1] == t[..i] + [t[i]];
    assert t[i] in t;
  }

  lemma ReadSoFar(img: seq<Byte>, t: seq<Site>)
    ensures AllRead(img, t[..0]) && (AllRead(img, t[..|t|]) <==> AllRead(img, t))
  {
    assert t[..|t|] == t;
  }

  lemma UndoSurveyed(img: seq<Byte>, t: seq<Site>, i: nat)
    requires i <= |t| && AllRead(img, t[..i])
    ensures forall s :: s in ToUndo(img, t, i) ==> Holds(img, s.off, s.before)
    ensures i == |t| ==> forall s :: s in ToUndo(img, t, i) <==> s in Undo(t) && !Holds(img, s.off, s.after)
  {
    hide Holds, Undo, ToUndo;
    forall s
      ensures s in ToUndo(img, t, i) ==> Holds(img, s.off, s.before)
      ensures s in ToUndo(img, t, i) <==> s in Undo(t)[..i] && !Holds(img, s.off, s.after)
    {
      ToUndoHas(img, t, i, s);
    }
    assert Undo(t)[..|t|] == Undo(t);
  }

  class KernelFile {
    var bytes: seq<Byte>

    constructor (image: seq<Byte>)
      ensures bytes == image
    {
      bytes := image;
    }

    /** The single pass over a file, which is written only when the pass reaches the end. */
    method ApplySinglePass(t: seq<Site>) returns (r: Pass)
      requires Coherent(t)
      modifies this
      ensures r.Wrote? <==> AllRead(old(bytes), t)
      ensures r.Wrote? ==> Converted(old(bytes), t, bytes) && r.done == Pending(old(bytes), t) && r.done + r.skip == |t|
      ensures !r.Wrote? ==> r.Unexpected? && FirstBad(old(bytes), t, r.index) && bytes == old(bytes)
    {
      var buf := Load(bytes);
      r := Sweep(buf, t);
      if r.Wrote? {
        bytes := buf[..];
      }
    }

    /** The same pass with a guard against partial tables and a list of canaries before the write.
        The guard never fires: a half-converted file is completed, not refused. */
    method ApplyGuardedPass(t: seq<Site>, canaries: seq<Canary>) returns (r: Pass)
      requires Coherent(t)
      modifies this
      ensures r.Unexpected? <==> !AllRead(old(bytes), t)
      ensures r.Unexpected? ==> FirstBad(old(bytes), t, r.index)
      ensures r.Wrote? ==> Converted(old(bytes), t, bytes) && Intact(bytes, canaries)
      ensures r.Wrote? ==> r.done == Pending(old(bytes), t) && r.done + r.skip == |t|
      ensures r.CanaryBroken? ==> exists now :: Converted(old(bytes), t, now) && !Intact(now, canaries)
      ensures !r.Wrote? ==> bytes == old(bytes)
    {
      var buf := Load(bytes);
      r := Sweep(buf, t);
      if r.Unexpected? { return; }
      if r.done > 0 && r.done != |t| && r.skip == 0 {
        assert false;
      }
      var intact := CheckCanaries(buf[..], canaries);
      if !intact {
        return CanaryBroken;
      }
      bytes := buf[..];
    }

    /** Two phases: check every canary and every site, then write all sites or none. */
    method ApplyUnit(t: seq<Site>, canaries: seq<Canary>) returns (r: Unit)
      requires Coherent(t)
      modifies this
      ensures r.CanaryHit? <==> !Intact(old(bytes), canaries)
      ensures r.SiteUnknown? <==> Intact(old(bytes), canaries) && !AllRead(old(bytes), t)
      ensures r.SiteUnknown? ==> FirstBad(old(bytes), t, r.index)
      ensures r.HalfApplied? <==> Intact(old(bytes), canaries) && AllRead(old(bytes), t)
                                  && !AllNew(old(bytes), t) && !NoneNew(old(bytes), t)
      ensures r.Applied? ==> Converted(old(bytes), t, bytes)
      ensures r.Applied? ==> r.patched == (if AllNew(old(bytes), t) then 0 else |t|) && r.patched + r.already == |t|
      ensures !r.Applied? ==> bytes == old(bytes)
    {
      var intact := CheckCanaries(bytes, canaries);
      if !intact {
        return CanaryHit;
      }
      var todo, already, bad := Survey(bytes, t);
      if bad < |t| {
        return SiteUnknown(bad);
      }
      assert todo != [] ==> todo[0] in t;
      if todo != [] && already > 0 {
        return HalfApplied;
      }
      WriteAll(todo, t);
      assert t != [] ==> t[0] in t;
      return Applied(|todo|, already);
    }

    /** Back to the original bytes, from any mixture: all sites verified, then all reverted. */
    method RevertUnit(t: seq<Site>) returns (r: Unit)
      requires Coherent(t)
      modifies this
      ensures r.Applied? <==> AllRead(old(bytes), t)
      ensures r.Applied? ==> Converted(old(bytes), Undo(t), bytes)
      ensures r.Applied? ==> r.patched == |NotOld(old(bytes), t, |t|)| && r.patched + r.already == |t|
      ensures !r.Applied? ==> r.SiteUnknown? && FirstBad(old(bytes), t, r.index) && bytes == old(bytes)
    {
      UndoCoherent(t);
      var todo, bad := SurveyUndo(bytes, t);
      if bad < |t| {
        return SiteUnknown(bad);
      }
      WriteAll(todo, Undo(t));
      return Applied(|todo|, |t| - |todo|);
    }

    /** Second phase: writes the verified sites that are still to do. */
    method WriteAll(todo: seq<Site>, t: seq<Site>)
      requires Coherent(t)
      requires forall s :: s in todo <==> s in t && !Holds(bytes, s.off, s.after)
      requires forall s :: s in todo ==> Holds(bytes, s.off, s.before)
      modifies this
      ensures Converted(old(bytes), t, bytes)
    {
      CoherentSubset(todo, t);
      var buf := Load(bytes);
      UnderwayStart(bytes, todo);
      for i := 0 to |todo|
        invariant buf.Length == |bytes| && bytes == old(bytes) && fresh(buf)
        invariant Underway(bytes, todo, i, buf[..])
      {
        HoldsAt(bytes, todo[i].off, todo[i].before);
        WriteStep(bytes, todo, i, buf[..]);
        Store(buf, todo[i].off, todo[i].after);
      }
      assert todo[..|todo|] == todo;
      ConvertedBySubset(bytes, todo, t, buf[..]);
      bytes := buf[..];
    }
  }

  method Load(s: seq<Byte>) returns (a: array<Byte>)
    ensures fresh(a) && a[..] == s
  {
    a := new Byte[|s|](i requires 0 <= i < |s| => s[i]);
  }

  /** buf[off:off+n] = bytes */
  method Store(a: array<Byte>, off: nat, bytes: seq<Byte>)
    requires off + |bytes| <= a.Length
    modifies a
    ensures a[..] == Write(old(a[..]), off, bytes)
  {
    forall k | 0 <= k < |bytes| {
      a[off + k] := bytes[k];
    }
  }

  // ---- What the two engines promise together

  /** A second single pass over a converted image writes nothing. */
  lemma {:induction false} SecondPassSkips(img: seq<Byte>, t: seq<Site>)
    requires AllNew(img, t)
    ensures AllRead(img, t) && Pending(img, t) == 0 && Converted(img, t, img)
    decreases |t|
  {
    if t != [] {
      assert forall s :: s in t[..|t| - 1] ==> s in t;
      SecondPassSkips(img, t[..|t| - 1]);
      assert t[|t| - 1] in t;
    }
  }

  lemma AfterOther(img: seq<Byte>, t: seq<Site>, u: seq<Site>, now: seq<Byte>, s: Site)
    requires Coherent(t + u) && Converted(img, t, now) && s in u
    ensures Reads(img, s) ==> Reads(now, s)
    ensures AllRead(img, t) ==> (Reads(now, s) ==> Reads(img, s))
  {
    if s !in t {
      CoherentSubset(t + [s], t + u);
      assert (t + [s])[..|t|] == t;
      UntouchedSite(img, t + [s], |t|, now, s.before);
      UntouchedSite(img, t + [s], |t|, now, s.after);
    }
  }

  /** Passes over two tables that agree wherever they meet commute: either order succeeds on the
      same images, and both leave the image of the joint table. */
  lemma PassesCommute(img: seq<Byte>, t: seq<Site>, u: seq<Site>, a: seq<Byte>, b: seq<Byte>,
                      c: seq<Byte>, d: seq<Byte>)
    requires Coherent(t + u)
    requires Converted(img, t, a) && Converted(a, u, b)
    requires Converted(img, u, c) && Converted(c, t, d)
    ensures b == d && Converted(img, t + u, b)
    ensures AllRead(img, t) && AllRead(a, u) <==> AllRead(img, u) && AllRead(c, t)
  {
    CoherentSubset(u + t, t + u);
    Joint(img, t, u, a, b);
    Joint(img, u, t, c, d);
    assert forall s :: s in u + t <==> s in t + u;
    ConvertedIsUnique(img, t + u, b, d);
    forall s | s in u ensures AllRead(img, t) ==> (Reads(a, s) <==> Reads(img, s)) {
      AfterOther(img, t, u, a, s);
    }
    forall s | s in t ensures AllRead(img, u) ==> (Reads(c, s) <==> Reads(img, s)) {
      AfterOther(img, u, t, c, s);
    }
  }

  lemma Joint(img: seq<Byte>, t: seq<Site>, u: seq<Site>, a: seq<Byte>, b: seq<Byte>)
    requires Coherent(t + u) && Converted(img, t, a) && Converted(a, u, b)
    ensures Converted(img, t + u, b)
  {
    forall s | s in t + u ensures Holds(b, s.off, s.after) {
      if s !in u {
        CoherentSubset(u + [s], t + u);
        UntouchedByOthers(a, u, s, b);
      }
    }
    forall p | 0 <= p < |img| && (forall s :: s in t + u ==> !Covers(s, p)) ensures b[p] == img[p] {
      assert forall s :: s in t ==> !Covers(s, p);
      assert forall s :: s in u ==> !Covers(s, p);
    }
  }

  /** Canaries that touch no site are in the same state before and after a conversion. */
  lemma CanariesSurvive(img: seq<Byte>, t: seq<Site>, now: seq<Byte>, canaries: seq<Canary>)
    requires Coherent(t) && Converted(img, t, now)
    requires forall c, s :: c in canaries && s in t ==>
      c.want != [] && (c.off + |c.want| <= s.off || s.off + |s.before| <= c.off)
    ensures Intact(now, canaries) <==> Intact(img, canaries)
  {
    if t == [] {
      assert now == img;
    } else {
      forall c | c in canaries ensures Holds(now, c.off, c.want) <==> Holds(img, c.off, c.want) {
        assert t[0] in t && c.want != [];
        HoldsAt(img, c.off, c.want);
        HoldsAt(now, c.off, c.want);
        forall p | c.off <= p < c.off + |c.want| && p < |img| ensures now[p] == img[p] {
          assert forall s :: s in t ==> !Covers(s, p);
        }
      }
    }
  }

  /** A site's new bytes cannot also be its old ones; with that, an image of all-old sites has
      nothing converted, and a mixture is neither all old nor all new. */
  lemma MixtureIsRefused(img: seq<Byte>, t: seq<Site>)
    requires Coherent(t) && forall s :: s in t ==> s.before != s.after
    ensures AllRead(img, t) ==> (NoneNew(img, t) <==> AllOld(img, t))
    ensures AllRead(img, t) && !AllOld(img, t) && !AllNew(img, t) ==> !NoneNew(img, t)
  {
    forall s | s in t && Holds(img, s.off, s.before) ensures !Holds(img, s.off, s.after) {
      assert |s.before| == |s.after|;
    }
  }

  /** Revert after apply is the identity on an all-old image: the bytes the two runs produce are the
      ones they started from. */
  lemma RevertUndoesApply(img: seq<Byte>, t: seq<Site>, applied: seq<Byte>, reverted: seq<Byte>)
    requires Coherent(t) && AllOld(img, t)
    requires Converted(img, t, applied) && Converted(applied, Undo(t), reverted)
    ensures AllRead(applied, t) && reverted == img
  {
    UndoCoherent(t);
    UndoConverts(img, t, applied);
    hide Undo, Slice, Coherent, SameOutside;
    ConvertedIsUnique(applied, Undo(t), reverted, img);
  }

  lemma UndoConverts(img: seq<Byte>, t: seq<Site>, applied: seq<Byte>)
    requires Coherent(t) && AllOld(img, t) && Converted(img, t, applied)
    ensures Converted(applied, Undo(t), img)
  {
    UndoEntries(t);
    var u := Undo(t);
    hide Undo, Slice, Coherent;
    forall p | 0 <= p < |img| && (forall s :: s in u ==> !Covers(s, p)) ensures img[p] == applied[p] {
      forall s | s in t ensures !Covers(s, p) {
        assert !Covers(Site(s.off, s.after, s.before), p);
      }
    }
  }

  lemma UndoEntries(t: seq<Site>)
    ensures forall s :: s in Undo(t) ==> Site(s.off, s.after, s.before) in t
    ensures forall s :: s in t ==> Site(s.off, s.after, s.before) in Undo(t)
    ensures Coherent(t) ==> forall s :: s in t ==> |s.before| == |s.after|
  {
    var u := Undo(t);
    forall s | s in u ensures Site(s.off, s.after, s.before) in t {
      var i :| 0 <= i < |u| && u[i] == s;
      assert t[i] in t;
    }
    forall s | s in t ensures Site(s.off, s.after, s.before) in u {
      var i :| 0 <= i < |t| && t[i] == s;
      assert u[i] in u;
    }
  }

  lemma UndoUndone(t: seq<Site>)
    ensures Undo(Undo(t)) == t
  {
    var u := Undo(Undo(t));
    forall i | 0 <= i < |t| ensures u[i] == t[i] {
      assert Undo(t)[i] == Site(t[i].off, t[i].after, t[i].before);
    }
  }

  /** And apply after revert is the identity on an all-new one. */
  lemma ApplyUndoesRevert(img: seq<Byte>, t: seq<Site>, reverted: seq<Byte>, applied: seq<Byte>)
    requires Coherent(t) && AllNew(img, t)
    requires Converted(img, Undo(t), reverted) && Converted(reverted, t, applied)
    ensures AllRead(reverted, t) && applied == img
  {
    var u := Undo(t);
    UndoCoherent(t);
    UndoUndone(t);
    forall s | s in u ensures Holds(img, s.off, s.before) {
      var i :| 0 <= i < |u| && u[i] == s;
      assert t[i] in t;
    }
    RevertUndoesApply(img, u, reverted, applied);
    forall s | s in t ensures Reads(reverted, s) {
      var i :| 0 <= i < |t| && t[i] == s;
      assert u[i] in u;
    }
  }
}
