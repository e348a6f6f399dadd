/** Routing the allocator's ordinary callers through the free-page reserve: a pass over the
    relocations of .text that retargets every call site but those of kernel memory, and its check. */
module ReserveSites {
  const R_68K_32 := 1
  const CALLEE := "page_get"
  const HOOK := "pgrsv_get"
  const EXEMPT := ["segkmem_alloc", "hat_ptalloc", "hat_sdtalloc", "page_delmem"]
  const CALLERS := ["after:hat_devload", "anon_private", "anon_zero", "hat_dup", "pvn_kluster", "rfc_pageget",
                    "rfc_writefill", "s5getapage", "segmap_pagecreate", "segu_get_orig", "ufs_getapage"] + EXEMPT

  datatype Option<T> = None | Some(value: T)
  datatype Func = Func(value: nat, size: nat, name: string)
  datatype Symbol = Symbol(name: string, section: bool, defined: bool)
  datatype Rel = Rel(sym: nat, typ: nat, addend: int)

  // ---- The function a site sits in

  predicate Sorted(gt: seq<Func>) { forall i, j :: 0 <= i < j < |gt| ==> gt[i].value <= gt[j].value }

  /** How many functions at the head of the list start at or below `off`. */
  function Below(gt: seq<Func>, off: nat): (n: nat)
    ensures n <= |gt|
  {
    if gt == [] || gt[0].value > off then 0 else 1 + Below(gt[1..], off)
  }

  function OwnerOf(gt: seq<Func>, off: nat): Option<string> {
    var n := Below(gt, off);
    if n == 0 then None
    else
      var f := gt[n - 1];
      Some(if f.size == 0 || off < f.value + f.size then f.name else "after:" + f.name)
  }

  lemma {:induction false} BelowSplits(gt: seq<Func>, off: nat)
    requires Sorted(gt)
    ensures forall i :: 0 <= i < |gt| ==> (gt[i].value <= off <==> i < Below(gt, off))
  {
    if gt != [] {
      if gt[0].value <= off {
        BelowSplits(gt[1..], off);
        assert forall i :: 1 <= i < |gt| ==> gt[i] == gt[1..][i - 1];
      }
    }
  }

  /** The owner is the function with the greatest start not above the site: none if every function
      starts above it, and "after:" its name if the site is past its end. */
  lemma OwnerIsNearest(gt: seq<Func>, off: nat)
    requires Sorted(gt)
    ensures OwnerOf(gt, off) == None <==> forall i :: 0 <= i < |gt| ==> gt[i].value > off
    ensures OwnerOf(gt, off) != None ==> exists k ::
      && 0 <= k < |gt| && gt[k].value <= off
      && (forall j :: 0 <= j < |gt| && gt[j].value <= off ==> gt[j].value <= gt[k].value)
      && OwnerOf(gt, off).value ==
           if gt[k].size == 0 || off < gt[k].value + gt[k].size then gt[k].name else "after:" + gt[k].name
  {
    BelowSplits(gt, off);
    var n := Below(gt, off);
    if n > 0 {
      assert gt[n - 1].value <= off;
      assert forall j :: 0 <= j < |gt| && gt[j].value <= off ==> gt[j].value <= gt[n - 1].value;
    }
  }

  method Owner(gt: seq<Func>, off: nat) returns (r: Option<string>)
    ensures r == OwnerOf(gt, off)
  {
    var best: Option<Func> := None;
    var i := 0;
    while i < |gt|
      invariant i <= |gt| && Below(gt, off) == i + Below(gt[i..], off)
      invariant best == if i == 0 then None else Some(gt[i - 1])
    {
      if gt[i].value <= off {
        best := Some(gt[i]);
      } else {
        break;
      }
      assert gt[i..][1..] == gt[i + 1..];
      i := i + 1;
    }
    match best
    case None => return None;
    case Some(f) => return Some(if f.size == 0 || off < f.value + f.size then f.name else "after:" + f.name);
  }

  // ---- The image

  /** What stays fixed while the pass runs: symbols, functions, which relocations fill the operand of
      a jsr, and whether page_get rounds to 4 KiB pages. */
  datatype Layout = Layout(syms: seq<Symbol>, gt: seq<Func>, jsr: set<nat>, textSize: nat, btopr: bool)

  type Rels = map<nat, Rel>

  function Target(l: Layout, r: Rel): Option<string> {
    if r.sym < |l.syms| && !l.syms[r.sym].section then Some(l.syms[r.sym].name) else None
  }

  /** A reference to either name from outside pgrsv_get. */
  predicate IsSite(l: Layout, rels: Rels, off: nat) {
    && off in rels
    && (Target(l, rels[off]) == Some(CALLEE) || Target(l, rels[off]) == Some(HOOK))
    && OwnerOf(l.gt, off) != Some(HOOK)
  }

  function Sites(l: Layout, rels: Rels): set<nat> { set off | off in rels && IsSite(l, rels, off) }

  predicate Direct(l: Layout, rels: Rels, off: nat) { off in rels && Target(l, rels[off]) == Some(CALLEE) }

  predicate Exempt(l: Layout, off: nat) { OwnerOf(l.gt, off).Some? && OwnerOf(l.gt, off).value in EXEMPT }

  /** Every site is a plain `jsr` through an addend-free R_68K_32, from a caller the pass knows. */
  predicate SitesKnown(l: Layout, rels: Rels) {
    forall off :: off in Sites(l, rels) ==>
      && rels[off].typ == R_68K_32 && rels[off].addend == 0 && off in l.jsr
      && OwnerOf(l.gt, off).Some? && OwnerOf(l.gt, off).value in CALLERS
  }

  function Starts(gt: seq<Func>, name: string): set<nat> { set i | 0 <= i < |gt| && gt[i].name == name }

  predicate Unique(gt: seq<Func>, name: string) { |Starts(gt, name)| == 1 }

  /** Offsets in the body of the function that starts at `lo`: up to the next higher start. */
  predicate InBody(l: Layout, lo: nat, off: nat) {
    && lo <= off
    && (forall f :: f in l.gt && f.value > lo ==> off < f.value)
    && (off < l.textSize || exists f :: f in l.gt && f.value > lo)
  }

  function Inner(l: Layout, rels: Rels): set<nat> {
    set off | off in rels && Direct(l, rels, off) && exists f :: f in l.gt && f.name == HOOK && InBody(l, f.value, off)
  }

  function SitesOf(l: Layout, rels: Rels, caller: string): set<nat> {
    set off | off in Sites(l, rels) && OwnerOf(l.gt, off) == Some(caller)
  }

  predicate Valid(l: Layout, rels: Rels) {
    && l.btopr && Unique(l.gt, CALLEE) && Unique(l.gt, HOOK)
    && (forall x :: x in EXEMPT ==> |SitesOf(l, rels, x)| == 1)
    && |Inner(l, rels)| == 1
  }

  /** The first defined symbol named pgrsv_get. */
  function HookIndex(syms: seq<Symbol>, i: nat): (r: Option<nat>)
    requires i <= |syms|
    ensures r.Some? ==> i <= r.value < |syms| && syms[r.value].name == HOOK && syms[r.value].defined
    decreases |syms| - i
  {
    if i == |syms| then None
    else if syms[i].name == HOOK && syms[i].defined then Some(i)
    else HookIndex(syms, i + 1)
  }

  // ---- The pass

  function Todo(l: Layout, rels: Rels): set<nat> {
    set off | off in Sites(l, rels) && !Exempt(l, off) && Direct(l, rels, off)
  }

  function Done(l: Layout, rels: Rels): set<nat> {
    set off | off in Sites(l, rels) && !Exempt(l, off) && !Direct(l, rels, off)
  }

  function Wrong(l: Layout, rels: Rels): set<nat> {
    set off | off in Sites(l, rels) && (Direct(l, rels, off) <==> !Exempt(l, off))
  }

  /** The relocations with the symbol of exactly the offsets in `which` replaced. */
  function Routed(rels: Rels, which: set<nat>, hook: nat): Rels {
    map off | off in rels :: if off in which then rels[off].(sym := hook, typ := R_68K_32) else rels[off]
  }

  datatype Outcome = Patched | Skipped | UnknownSite | Invalid | NoHook | ExemptRouted | HalfPatched

  predicate ExemptsDirect(l: Layout, rels: Rels) {
    forall off :: off in Sites(l, rels) && Exempt(l, off) ==> Direct(l, rels, off)
  }

  /** How the pass ends, refusal by refusal in its order.  Its own check of what it wrote is not
      among the results: it never fails. */
  function Judged(l: Layout, rels: Rels): Outcome {
    if !SitesKnown(l, rels) then UnknownSite
    else if !Valid(l, rels) then Invalid
    else if HookIndex(l.syms, 0).None? then NoHook
    else if !ExemptsDirect(l, rels) then ExemptRouted
    else if Todo(l, rels) == {} then Skipped
    else if Done(l, rels) != {} then HalfPatched
    else Patched
  }

  // ---- The same, name by name

  ghost predicate Names(l: Layout, r: Rel, name: string) {
    r.sym < |l.syms| && !l.syms[r.sym].section && l.syms[r.sym].name == name
  }

  /** A relocation outside pgrsv_get that names page_get or pgrsv_get. */
  ghost predicate Refers(l: Layout, rels: Rels, off: nat) {
    && off in rels && (Names(l, rels[off], "page_get") || Names(l, rels[off], "pgrsv_get"))
    && OwnerOf(l.gt, off) != Some("pgrsv_get")
  }

  /** The caller allocates kernel memory or removes pages. */
  ghost predicate KernelCaller(l: Layout, off: nat) {
    var c := OwnerOf(l.gt, off);
    c == Some("segkmem_alloc") || c == Some("hat_ptalloc") || c == Some("hat_sdtalloc") || c == Some("page_delmem")
  }

  ghost predicate OrdinaryCaller(l: Layout, off: nat) {
    var c := OwnerOf(l.gt, off);
    || c == Some("after:hat_devload") || c == Some("anon_private") || c == Some("anon_zero") || c == Some("hat_dup")
    || c == Some("pvn_kluster") || c == Some("rfc_pageget") || c == Some("rfc_writefill") || c == Some("s5getapage")
    || c == Some("segmap_pagecreate") || c == Some("segu_get_orig") || c == Some("ufs_getapage")
  }

  /** A plain `jsr` of type 1 with no addend, from a caller on the list. */
  ghost predicate PlainCall(l: Layout, rels: Rels, off: nat) {
    off in rels && rels[off].typ == 1 && rels[off].addend == 0 && off in l.jsr
      && (KernelCaller(l, off) || OrdinaryCaller(l, off))
  }

  ghost predicate HookCall(l: Layout, rels: Rels, off: nat) {
    && off in rels && Names(l, rels[off], "page_get")
    && exists i :: 0 <= i < |l.gt| && l.gt[i].name == "pgrsv_get" && l.gt[i].value <= off
         && (forall f :: f in l.gt && f.value > l.gt[i].value ==> off < f.value)
         && (off < l.textSize || exists f :: f in l.gt && f.value > l.gt[i].value)
  }

  ghost predicate OneOf(p: nat -> bool) { exists x: nat :: p(x) && forall y: nat :: p(y) ==> y == x }

  ghost predicate FuncNamed(gt: seq<Func>, name: string, i: nat) { i < |gt| && gt[i].name == name }

  ghost predicate CallsOnce(l: Layout, rels: Rels, caller: string) {
    OneOf((off: nat) => Refers(l, rels, off) && OwnerOf(l.gt, off) == Some(caller))
  }

  /** What the pass asks of an image before it looks at what is routed where. */
  ghost predicate FitToPatch(l: Layout, rels: Rels) {
    && l.btopr && OneOf((i: nat) => FuncNamed(l.gt, "page_get", i))
    && OneOf((i: nat) => FuncNamed(l.gt, "pgrsv_get", i))
    && CallsOnce(l, rels, "segkmem_alloc") && CallsOnce(l, rels, "hat_ptalloc")
    && CallsOnce(l, rels, "hat_sdtalloc") && CallsOnce(l, rels, "page_delmem")
    && OneOf((off: nat) => HookCall(l, rels, off))
  }

  /** An ordinary caller that goes to the given name. */
  ghost predicate Goes(l: Layout, rels: Rels, off: nat, name: string) {
    Refers(l, rels, off) && !KernelCaller(l, off) && Names(l, rels[off], name)
  }

  ghost predicate KernelRouted(l: Layout, rels: Rels, off: nat) {
    Refers(l, rels, off) && KernelCaller(l, off) && Names(l, rels[off], "pgrsv_get")
  }

  ghost predicate DefinedHook(syms: seq<Symbol>, h: nat) {
    h < |syms| && syms[h].name == "pgrsv_get" && syms[h].defined
  }

  /** Every ordinary caller's page_get now goes to the first defined pgrsv_get; nothing else changed. */
  ghost predicate Retargeted(l: Layout, rels: Rels, rels': Rels) {
    rels'.Keys == rels.Keys && exists h: nat ::
      && DefinedHook(l.syms, h) && (forall k: nat :: k < h ==> !DefinedHook(l.syms, k))
      && forall off :: off in rels ==>
           rels'[off] == if Goes(l, rels, off, "page_get") then Rel(h, 1, rels[off].addend) else rels[off]
  }

  /** Every result of the pass, over the names in the image. */
  lemma JudgedMeans(l: Layout, rels: Rels)
    ensures Judged(l, rels) ==
      if exists off :: Refers(l, rels, off) && !PlainCall(l, rels, off) then UnknownSite
      else if !FitToPatch(l, rels) then Invalid
      else if forall h :: !DefinedHook(l.syms, h) then NoHook
      else if exists off :: KernelRouted(l, rels, off) then ExemptRouted
      else if forall off :: !Goes(l, rels, off, "page_get") then Skipped
      else if exists off :: Goes(l, rels, off, "pgrsv_get") then HalfPatched
      else Patched
  {
    KnownMeans(l, rels);
    ValidMeans(l, rels);
    HookIsFirst(l.syms, 0);
    RoutedMeans(l, rels);
    hide SitesKnown, Valid, HookIndex, ExemptsDirect, Todo, Done;
    hide Refers, PlainCall, FitToPatch, KernelRouted, Goes, DefinedHook;
    assert Todo(l, rels) == {} <==> forall off :: !Goes(l, rels, off, "page_get");
    assert Done(l, rels) == {} <==> forall off :: !Goes(l, rels, off, "pgrsv_get");
  }

  lemma SiteMeans(l: Layout, rels: Rels, off: nat)
    ensures off in Sites(l, rels) <==> Refers(l, rels, off)
    ensures Exempt(l, off) <==> KernelCaller(l, off)
    ensures Direct(l, rels, off) <==> off in rels && Names(l, rels[off], "page_get")
    ensures Refers(l, rels, off) && !Direct(l, rels, off) ==> Names(l, rels[off], "pgrsv_get")
    ensures off in rels && Names(l, rels[off], "pgrsv_get") ==> !Direct(l, rels, off)
  {
    hide OwnerOf;
    NamesDiffer();
  }

  lemma KnownMeans(l: Layout, rels: Rels)
    ensures SitesKnown(l, rels) <==> !exists off :: Refers(l, rels, off) && !PlainCall(l, rels, off)
  {
    hide OwnerOf, Refers;
    forall off ensures off in Sites(l, rels) <==> Refers(l, rels, off) {
      SiteMeans(l, rels, off);
    }
    hide Sites;
    forall off | off in rels
      ensures PlainCall(l, rels, off) <==>
        && rels[off].typ == R_68K_32 && rels[off].addend == 0 && off in l.jsr
        && OwnerOf(l.gt, off).Some? && OwnerOf(l.gt, off).value in CALLERS
    {
      CallersAre(l, off);
    }
    hide PlainCall;
    assert forall off :: Refers(l, rels, off) ==> off in rels by {
      forall off | Refers(l, rels, off) ensures off in rels {
        SiteMeans(l, rels, off);
        assert off in Sites(l, rels);
      }
    }
  }

  lemma CallersAre(l: Layout, off: nat)
    ensures OwnerOf(l.gt, off).Some? && OwnerOf(l.gt, off).value in CALLERS <==>
            KernelCaller(l, off) || OrdinaryCaller(l, off)
  {
    hide OwnerOf;
  }

  lemma RoutedMeans(l: Layout, rels: Rels)
    ensures ExemptsDirect(l, rels) <==> forall off :: !KernelRouted(l, rels, off)
    ensures forall off :: off in Todo(l, rels) <==> Goes(l, rels, off, "page_get")
    ensures forall off :: off in Done(l, rels) <==> Goes(l, rels, off, "pgrsv_get")
  {
    forall off
      ensures off in Sites(l, rels) && Exempt(l, off) && !Direct(l, rels, off) <==> KernelRouted(l, rels, off)
      ensures off in Todo(l, rels) <==> Goes(l, rels, off, "page_get")
      ensures off in Done(l, rels) <==> Goes(l, rels, off, "pgrsv_get")
    {
      SiteMeans(l, rels, off);
      hide Refers, KernelCaller, Exempt, Direct, Names, IsSite;
    }
  }

  lemma {:induction false} HookIsFirst(syms: seq<Symbol>, i: nat)
    requires i <= |syms|
    ensures HookIndex(syms, i).None? <==> forall h :: i <= h ==> !DefinedHook(syms, h)
    ensures HookIndex(syms, i).Some? ==> var h := HookIndex(syms, i).value;
      DefinedHook(syms, h) && forall k :: i <= k < h ==> !DefinedHook(syms, k)
    decreases |syms| - i
  {
    if i < |syms| && !DefinedHook(syms, i) {
      HookIsFirst(syms, i + 1);
    } else if i < |syms| {
      assert DefinedHook(syms, i);
    }
  }

  lemma OneMember(s: set<nat>, p: nat -> bool)
    requires forall x: nat :: x in s <==> p(x)
    ensures |s| == 1 <==> OneOf(p)
  {
    if |s| == 1 {
      var x :| x in s;
      assert |s - {x}| == 0;
      assert forall y: nat :: p(y) ==> y == x by {
        forall y: nat | p(y) ensures y == x {
          assert y in s && y !in s - {x};
        }
      }
    }
    if OneOf(p) {
      var x: nat :| p(x) && forall y: nat :: p(y) ==> y == x;
      assert s == {x};
    }
  }

  lemma ValidMeans(l: Layout, rels: Rels)
    ensures Valid(l, rels) <==> FitToPatch(l, rels)
  {
    hide SitesOf, Unique, Inner, CallsOnce, OneOf, HookCall, FuncNamed, EXEMPT;
    OneFunc(l.gt, CALLEE);
    OneFunc(l.gt, HOOK);
    ExemptCallOnce(l, rels);
    InnerMeans(l, rels);
  }

  lemma OneFunc(gt: seq<Func>, name: string)
    ensures Unique(gt, name) <==> OneOf((i: nat) => FuncNamed(gt, name, i))
  {
    OneMember(Starts(gt, name), (i: nat) => FuncNamed(gt, name, i));
  }

  lemma ExemptCallOnce(l: Layout, rels: Rels)
    ensures (forall x :: x in EXEMPT ==> |SitesOf(l, rels, x)| == 1) <==>
      && CallsOnce(l, rels, "segkmem_alloc") && CallsOnce(l, rels, "hat_ptalloc")
      && CallsOnce(l, rels, "hat_sdtalloc") && CallsOnce(l, rels, "page_delmem")
  {
    hide SitesOf, CallsOnce;
    CallsOnceMeans(l, rels, "segkmem_alloc");
    CallsOnceMeans(l, rels, "hat_ptalloc");
    CallsOnceMeans(l, rels, "hat_sdtalloc");
    CallsOnceMeans(l, rels, "page_delmem");
    FourExempt(x => |SitesOf(l, rels, x)| == 1);
    hide EXEMPT;
  }

  lemma FourExempt(p: string -> bool)
    ensures (forall x :: x in EXEMPT ==> p(x)) <==>
            p("segkmem_alloc") && p("hat_ptalloc") && p("hat_sdtalloc") && p("page_delmem")
  {
    assert EXEMPT[0] == "segkmem_alloc" && EXEMPT[1] == "hat_ptalloc" && EXEMPT[2] == "hat_sdtalloc"
      && EXEMPT[3] == "page_delmem";
  }

  lemma CallsOnceMeans(l: Layout, rels: Rels, caller: string)
    ensures |SitesOf(l, rels, caller)| == 1 <==> CallsOnce(l, rels, caller)
  {
    forall off ensures off in Sites(l, rels) <==> Refers(l, rels, off) {
      SiteMeans(l, rels, off);
    }
    hide Sites, Refers, OwnerOf;
    OneMember(SitesOf(l, rels, caller), (off: nat) => Refers(l, rels, off) && OwnerOf(l.gt, off) == Some(caller));
  }

  lemma InnerMeans(l: Layout, rels: Rels)
    ensures |Inner(l, rels)| == 1 <==> OneOf((off: nat) => HookCall(l, rels, off))
  {
    forall off ensures off in Inner(l, rels) <==> HookCall(l, rels, off) {
      SiteMeans(l, rels, off);
      hide Direct, Names;
      if off in rels {
        assert (exists f :: f in l.gt && f.name == HOOK && InBody(l, f.value, off)) <==>
          exists i :: 0 <= i < |l.gt| && l.gt[i].name == HOOK && InBody(l, l.gt[i].value, off);
      }
    }
    OneMember(Inner(l, rels), (off: nat) => HookCall(l, rels, off));
  }

  class Kernel {
    const layout: Layout
    var rels: Rels

    constructor (layout: Layout, rels: Rels)
      ensures this.layout == layout && this.rels == rels
    {
      this.layout, this.rels := layout, rels;
    }

    method Patch() returns (r: Outcome)
      modifies this
      ensures r == Judged(layout, old(rels))
      ensures r.Patched? ==> rels == Routed(old(rels), Todo(layout, old(rels)), HookIndex(layout.syms, 0).value)
      ensures !r.Patched? ==> rels == old(rels)
      ensures r.Patched? ==> Retargeted(layout, old(rels), rels)
    {
      hide Routed, SitesKnown, Valid, Inner, Retargeted;
      var before := rels;
      if !SitesKnown(layout, rels) { return UnknownSite; }
      if !Valid(layout, rels) { return Invalid; }
      var h := HookIndex(layout.syms, 0);
      if h.None? { return NoHook; }
      var todo, done := Todo(layout, rels), Done(layout, rels);
      if !ExemptsDirect(layout, rels) { return ExemptRouted; }
      if todo == {} { return Skipped; }
      if done != {} { return HalfPatched; }
      var left := todo;
      RouteNone(before, h.value);
      assert todo - left == {};
      while left != {}
        invariant left <= todo
        invariant rels == Routed(before, todo - left, h.value)
        decreases left
      {
        var off :| off in left;
        RouteOne(before, todo - left, off, h.value);
        rels := rels[off := rels[off].(sym := h.value, typ := R_68K_32)];
        assert todo - left + {off} == todo - (left - {off});
        left := left - {off};
      }
      assert todo - left == todo;
      RoutesAreRight(layout, before, h.value);
      RetargetedByName(layout, before, h.value);
      if Wrong(layout, rels) != {} {
        assert false;
      }
      return Patched;
    }
  }

  lemma RouteNone(rels: Rels, h: nat)
    ensures Routed(rels, {}, h) == rels
  {
  }

  lemma RouteOne(rels: Rels, which: set<nat>, off: nat, h: nat)
    requires off in rels && off !in which
    ensures var now := Routed(rels, which, h);
      off in now && now[off := now[off].(sym := h, typ := R_68K_32)] == Routed(rels, which + {off}, h)
  {
  }

  lemma RetargetedByName(l: Layout, rels: Rels, h: nat)
    requires HookIndex(l.syms, 0) == Some(h)
    ensures Retargeted(l, rels, Routed(rels, Todo(l, rels), h))
  {
    RoutedMeans(l, rels);
    HookIsFirst(l.syms, 0);
    hide Todo, Goes, HookIndex;
    var now := Routed(rels, Todo(l, rels), h);
    assert forall off :: off in rels ==>
      now[off] == if off in Todo(l, rels) then Rel(h, 1, rels[off].addend) else rels[off];
    assert DefinedHook(l.syms, h);
  }

  lemma NamesDiffer()
    ensures CALLEE != HOOK
  {
    assert |CALLEE| == 8 && |HOOK| == 9;
  }

  /** What each former site names after the pass. */
  lemma RoutedTarget(l: Layout, rels: Rels, which: set<nat>, h: nat, off: nat)
    requires off in rels && h < |l.syms| && l.syms[h].name == HOOK
    ensures off in Routed(rels, which, h)
    ensures off !in which ==> Routed(rels, which, h)[off] == rels[off]
    ensures off in which ==> Target(l, Routed(rels, which, h)[off]) == if l.syms[h].section then None else Some(HOOK)
  {
  }

  /** After the pass no reference is on the wrong path: one from outside pgrsv_get is direct if and
      only if its owner is exempt. Every former site is still a site unless the hook's first symbol
      is a section symbol, which the readers do not see as a name. */
  lemma RoutesAreRight(l: Layout, rels: Rels, h: nat)
    requires HookIndex(l.syms, 0) == Some(h) && Done(l, rels) == {}
    requires forall off :: off in Sites(l, rels) && Exempt(l, off) ==> Direct(l, rels, off)
    ensures var rels' := Routed(rels, Todo(l, rels), h);
      && Wrong(l, rels') == {} && Todo(l, rels') == {}
      && (Todo(l, rels) != {} ==> (Sites(l, rels') == Sites(l, rels) <==> !l.syms[h].section))
      && (forall off :: off in rels && off !in Todo(l, rels) ==> rels'[off] == rels[off])
  {
    NamesDiffer();
    var todo := Todo(l, rels);
    var rels' := Routed(rels, todo, h);
    forall off | off in rels
      ensures off in todo ==> (IsSite(l, rels', off) <==> !l.syms[h].section) && !Direct(l, rels', off)
      ensures off !in todo ==>
        (IsSite(l, rels', off) <==> IsSite(l, rels, off)) && (Direct(l, rels', off) <==> Direct(l, rels, off))
    {
      RoutedTarget(l, rels, todo, h, off);
    }
    forall off | off in Sites(l, rels') ensures off !in Wrong(l, rels') {
      if off !in todo {
        assert off in Sites(l, rels) && off !in Done(l, rels);
      }
    }
    if l.syms[h].section && todo != {} {
      var off :| off in todo;
      assert off in Sites(l, rels) && off !in Sites(l, rels');
    }
  }

  /** The last function symbol at the address where the one at index `h` starts. */
  function LastAt(gt: seq<Func>, h: nat): (f: Func)
    requires h < |gt|
  {
    if Below(gt, gt[h].value) == 0 then gt[h] else gt[Below(gt, gt[h].value) - 1]
  }

  /** pgrsv_get's own address is named last by itself, or by a caller that stays direct. */
  predicate HookNamedLast(gt: seq<Func>) {
    forall h :: 0 <= h < |gt| && gt[h].name == HOOK ==> LastAt(gt, h).name == HOOK || LastAt(gt, h).name in EXEMPT
  }

  lemma {:induction false} SamePrefix(gt: seq<Func>, a: nat, b: nat)
    requires forall i :: 0 <= i < |gt| ==> (gt[i].value <= a <==> gt[i].value <= b)
    ensures Below(gt, a) == Below(gt, b)
  {
    if gt != [] {
      assert gt[0].value <= a <==> gt[0].value <= b;
      SamePrefix(gt[1..], a, b);
    }
  }

  /** The owner of everything in pgrsv_get's body is the last function symbol at its start. */
  lemma OwnerInBody(l: Layout, h: nat, off: nat)
    requires Sorted(l.gt) && h < |l.gt| && InBody(l, l.gt[h].value, off)
    ensures var f := LastAt(l.gt, h);
      f.value == l.gt[h].value
      && OwnerOf(l.gt, off) == Some(if f.size == 0 || off < f.value + f.size then f.name else "after:" + f.name)
  {
    var gt, lo := l.gt, l.gt[h].value;
    BelowSplits(gt, lo);
    BelowSplits(gt, off);
    forall i | 0 <= i < |gt| ensures gt[i].value <= lo <==> gt[i].value <= off {
      assert gt[i] in gt;
    }
    SamePrefix(gt, lo, off);
    assert h < Below(gt, lo);
  }

  /** A name that says "after:" is nobody's exempt caller, and of the hook's names none. */
  lemma AfterNames(name: string)
    ensures ("after:" + name) !in EXEMPT && "after:" + name != HOOK
    ensures "after:" + name in CALLERS ==> name == "hat_devload"
  {
    var a := "after:" + name;
    assert a[..6] == "after:";
    assert a[0] == 'a' && a[1] == 'f' && a[5] == ':';
    if a in CALLERS {
      assert a == "after:hat_devload" by {
        assert "anon_private"[1] == 'n' && "anon_zero"[1] == 'n';
      }
      assert a[6..] == name && "after:hat_devload"[6..] == "hat_devload";
    }
  }

  lemma OtherNames()
    ensures HOOK !in EXEMPT && HOOK !in CALLERS && "hat_devload" !in EXEMPT && "hat_devload" != HOOK
      && "hat_devload" !in CALLERS
  {
    assert HOOK[0] == 'p' && HOOK[1] == 'g';
    assert "page_delmem"[1] == 'a' && "pvn_kluster"[1] == 'v';
    assert |"hat_devload"| == 11 && |"hat_ptalloc"| == 11 && "hat_devload"[4] == 'd' && "hat_ptalloc"[4] == 'p';
    assert "segkmem_alloc"[0] == 's' && |"hat_sdtalloc"| == 12 && "page_delmem"[0] == 'p';
    assert forall i :: 0 <= i < |CALLERS| ==> CALLERS[i] != "hat_devload" && CALLERS[i] != HOOK;
  }

  /** pgrsv_get's own call is among the sites the pass retargets exactly when the symbol list names
      another, ordinary caller last at its address. */
  lemma OwnCallIsNoSite(l: Layout, rels: Rels)
    requires Sorted(l.gt) && SitesKnown(l, rels) && Valid(l, rels)
    ensures Inner(l, rels) !! Todo(l, rels) <==> HookNamedLast(l.gt)
  {
    hide Below, Target;
    OtherNames();
    assert |Inner(l, rels)| == 1;
    var off :| off in Inner(l, rels);
    assert Inner(l, rels) == {off} by {
      assert |Inner(l, rels) - {off}| == 0;
    }
    var f :| f in l.gt && f.name == HOOK && InBody(l, f.value, off);
    var h :| 0 <= h < |l.gt| && l.gt[h] == f;
    OnlyStart(l.gt, h);
    OwnerInBody(l, h, off);
    AfterNames(LastAt(l.gt, h).name);
    NamesDiffer();
    assert IsSite(l, rels, off) ==> off in Sites(l, rels);
  }

  lemma OnlyStart(gt: seq<Func>, h: nat)
    requires Unique(gt, HOOK) && h < |gt| && gt[h].name == HOOK
    ensures forall i :: 0 <= i < |gt| && gt[i].name == HOOK ==> i == h
  {
    assert h in Starts(gt, HOOK) && |Starts(gt, HOOK) - {h}| == 0;
    forall i | 0 <= i < |gt| && gt[i].name == HOOK ensures i == h {
      assert i in Starts(gt, HOOK);
    }
  }

  /** The result passes the validation the check on the finished kernel repeats if and only if no
      other ordinary caller is named last at pgrsv_get's address: then pgrsv_get would call itself. */
  lemma ResultStaysValid(l: Layout, rels: Rels)
    requires Sorted(l.gt) && Judged(l, rels).Patched?
    ensures var rels' := Routed(rels, Todo(l, rels), HookIndex(l.syms, 0).value);
      SitesKnown(l, rels') && (Valid(l, rels') <==> HookNamedLast(l.gt))
  {
    OwnCallIsNoSite(l, rels);
    SubsetStaysValid(l, rels, HookIndex(l.syms, 0).value, Todo(l, rels));
  }

  /** The same for any part of the sites to do. */
  lemma SubsetStaysValid(l: Layout, rels: Rels, h: nat, which: set<nat>)
    requires HookIndex(l.syms, 0) == Some(h) && SitesKnown(l, rels) && Valid(l, rels) && which <= Todo(l, rels)
    ensures SitesKnown(l, Routed(rels, which, h)) && (Valid(l, Routed(rels, which, h)) <==> Inner(l, rels) !! which)
  {
    NamesDiffer();
    var rels' := Routed(rels, which, h);
    forall off | off in rels
      ensures off in which ==> !Direct(l, rels', off)
      ensures off !in which ==> rels'[off] == rels[off]
    {
      RoutedTarget(l, rels, which, h, off);
    }
    InnerAfter(l, rels, rels', which);
    forall x | x in EXEMPT ensures SitesOf(l, rels', x) == SitesOf(l, rels, x) {
      ExemptSitesStay(l, rels, rels', which, x);
    }
    forall off | off in Sites(l, rels')
      ensures off in Sites(l, rels) && rels'[off].typ == R_68K_32 && rels'[off].addend == rels[off].addend
    {
      if off in which { assert off in Sites(l, rels); }
    }
    if Inner(l, rels) !! which {
      assert Inner(l, rels') == Inner(l, rels);
    } else {
      var off :| off in Inner(l, rels) && off in which;
      assert |Inner(l, rels) - {off}| == 0;
      assert Inner(l, rels') == {};
    }
  }

  /** What is to do and what is done when `which` of the sites have been retargeted. */
  lemma PartOfPass(l: Layout, rels: Rels, h: nat, which: set<nat>)
    requires HookIndex(l.syms, 0) == Some(h) && !l.syms[h].section
    requires ExemptsDirect(l, rels) && Done(l, rels) == {} && which <= Todo(l, rels)
    ensures var rels' := Routed(rels, which, h);
      ExemptsDirect(l, rels') && Todo(l, rels') == Todo(l, rels) - which && Done(l, rels') == which
  {
    hide HookIndex, Exempt, OwnerOf;
    var rels' := Routed(rels, which, h);
    NamesDiffer();
    forall off | off in rels
      ensures IsSite(l, rels', off) <==> IsSite(l, rels, off)
      ensures Direct(l, rels', off) <==> Direct(l, rels, off) && off !in which
    {
      RoutedTarget(l, rels, which, h, off);
    }
    assert Sites(l, rels') == Sites(l, rels);
    forall off | off in Sites(l, rels) && !Exempt(l, off) ensures Direct(l, rels, off) {
      assert off !in Done(l, rels);
    }
  }

  /** Whatever part of the pass a kernel carries, a run over it knows: nothing is patched afresh, the
      whole is skipped, and every part in between is refused. */
  lemma EveryPartIsKnown(l: Layout, rels: Rels, which: set<nat>)
    requires Sorted(l.gt) && Judged(l, rels).Patched? && which <= Todo(l, rels)
    requires HookNamedLast(l.gt) && !l.syms[HookIndex(l.syms, 0).value].section
    ensures Judged(l, Routed(rels, which, HookIndex(l.syms, 0).value)) ==
      if which == {} then Patched else if which == Todo(l, rels) then Skipped else HalfPatched
  {
    hide SitesKnown, Valid, Sites, Todo, Done, ExemptsDirect, Routed, HookNamedLast, Inner, Sorted, HookIndex;
    OwnCallIsNoSite(l, rels);
    SubsetStaysValid(l, rels, HookIndex(l.syms, 0).value, which);
    PartOfPass(l, rels, HookIndex(l.syms, 0).value, which);
    if Todo(l, rels) - which == {} {
      assert forall off :: off in Todo(l, rels) ==> off in which || off in Todo(l, rels) - which;
      assert which == Todo(l, rels);
    }
  }

  /** An image on which the pass makes pgrsv_get call itself: s5getapage, a known caller, is listed
      behind it at the same address. */
  function SharedStart(): Layout {
    Layout([Symbol(CALLEE, false, true), Symbol(HOOK, false, true)],
           [Func(0, 0, CALLEE), Func(16, 0, HOOK), Func(16, 0, "s5getapage"),
            Func(32, 0, EXEMPT[0]), Func(48, 0, EXEMPT[1]), Func(64, 0, EXEMPT[2]), Func(80, 0, EXEMPT[3])],
           {20, 36, 52, 68, 84}, 96, true)
  }

  function SharedRels(): Rels {
    var direct := Rel(0, R_68K_32, 0);
    map[20 := direct, 36 := direct, 52 := direct, 68 := direct, 84 := direct]
  }

  lemma SharedOwners()
    ensures var gt := SharedStart().gt;
      && Sorted(gt) && OwnerOf(gt, 20) == Some("s5getapage")
      && OwnerOf(gt, 36) == Some(EXEMPT[0]) && OwnerOf(gt, 52) == Some(EXEMPT[1])
      && OwnerOf(gt, 68) == Some(EXEMPT[2]) && OwnerOf(gt, 84) == Some(EXEMPT[3])
  {
    var gt := SharedStart().gt;
    OwnerIs(gt, 20, 2);
    OwnerIs(gt, 36, 3);
    OwnerIs(gt, 52, 4);
    OwnerIs(gt, 68, 5);
    OwnerIs(gt, 84, 6);
  }

  /** The owner of a site between two neighbours in the list. */
  lemma OwnerIs(gt: seq<Func>, off: nat, i: nat)
    requires Sorted(gt) && i < |gt| && gt[i].value <= off && (i + 1 < |gt| ==> off < gt[i + 1].value)
    ensures gt[i].size == 0 ==> OwnerOf(gt, off) == Some(gt[i].name)
  {
    BelowSplits(gt, off);
    assert i < Below(gt, off);
    if i + 1 < |gt| {
      assert !(i + 1 < Below(gt, off));
    }
  }

  lemma SharedNames()
    ensures "s5getapage" in CALLERS && "s5getapage" !in EXEMPT && "s5getapage" != HOOK && CALLEE != HOOK
    ensures "s5getapage" != CALLEE
    ensures |EXEMPT| == 4 && forall i, j :: 0 <= i < j < 4 ==> EXEMPT[i] != EXEMPT[j]
    ensures forall i :: 0 <= i < 4 ==> EXEMPT[i] in CALLERS && EXEMPT[i] != HOOK && EXEMPT[i] != CALLEE
  {
    assert CALLERS[7] == "s5getapage" && CALLERS[11] == EXEMPT[0] && CALLERS[12] == EXEMPT[1];
    assert CALLERS[13] == EXEMPT[2] && CALLERS[14] == EXEMPT[3];
    assert |"s5getapage"| == 10 && |CALLEE| == 8 && "s5getapage"[1] == '5' && "segkmem_alloc"[1] == 'e'
      && "hat_ptalloc"[0] == 'h' && "hat_sdtalloc"[4] == 's';
    assert "hat_ptalloc"[4] == 'p' && "page_delmem"[0] == 'p' && "page_delmem"[5] == 'd' && CALLEE[5] == 'g'
      && HOOK[1] == 'g';
  }

  lemma PassBreaksOwnCall()
    ensures var l, rels := SharedStart(), SharedRels();
      && Judged(l, rels) == Patched
      && Routed(rels, Todo(l, rels), 1)[20].sym == 1
      && !Valid(l, Routed(rels, Todo(l, rels), 1))
  {
    var l, rels := SharedStart(), SharedRels();
    SharedOwners();
    SharedNames();
    SharedVerdict();
    hide Judged, Valid, OwnerOf, HookIndex, Todo, SitesKnown, Sites, Direct, Sorted;
    hide EXEMPT, CALLERS, HOOK, CALLEE;
    ResultStaysValid(l, rels);
    BelowSplits(l.gt, 16);
    assert l.gt[2].value <= 16 && l.gt[3].value > 16;
    assert LastAt(l.gt, 1) == l.gt[2];
  }

  lemma SharedSites()
    ensures var l, rels := SharedStart(), SharedRels();
      && Sites(l, rels) == {20, 36, 52, 68, 84} && (forall off :: off in rels ==> Direct(l, rels, off))
      && SitesOf(l, rels, EXEMPT[0]) == {36} && SitesOf(l, rels, EXEMPT[1]) == {52}
      && SitesOf(l, rels, EXEMPT[2]) == {68} && SitesOf(l, rels, EXEMPT[3]) == {84}
  {
    var l, rels := SharedStart(), SharedRels();
    SharedOwners();
    SharedNames();
    hide OwnerOf, Below;
    hide EXEMPT, CALLERS, HOOK, CALLEE;
    assert forall off :: off in rels ==> Target(l, rels[off]) == Some(CALLEE);
  }

  lemma SharedBody()
    ensures Inner(SharedStart(), SharedRels()) == {20}
  {
    var l, rels := SharedStart(), SharedRels();
    SharedNames();
    SharedSites();
    hide OwnerOf, Below, Direct, Sites, SitesOf;
    hide EXEMPT, CALLERS, HOOK, CALLEE;
    assert l.gt[1] in l.gt && l.gt[1].name == HOOK && l.gt[3] in l.gt && l.gt[3].value == 32;
    assert forall f :: f in l.gt && f.value > 16 ==> f.value >= 32;
    assert forall f :: f in l.gt && f.name == HOOK ==> f.value == 16;
    assert InBody(l, 16, 20) && forall off :: off in rels && off != 20 ==> !InBody(l, 16, off);
  }

  lemma SharedSymbols()
    ensures var l := SharedStart(); Unique(l.gt, CALLEE) && Unique(l.gt, HOOK) && HookIndex(l.syms, 0) == Some(1)
  {
    var l := SharedStart();
    SharedNames();
    hide EXEMPT, CALLERS, HOOK, CALLEE;
    assert HookIndex(l.syms, 0) == HookIndex(l.syms, 1) == Some(1);
    assert |l.gt| == 7 && l.gt[0].name == CALLEE && l.gt[1].name == HOOK && l.gt[2].name == "s5getapage";
    assert l.gt[3].name == EXEMPT[0] && l.gt[4].name == EXEMPT[1] && l.gt[5].name == EXEMPT[2]
      && l.gt[6].name == EXEMPT[3];
    assert Starts(l.gt, CALLEE) == {0} && Starts(l.gt, HOOK) == {1};
  }

  lemma SharedVerdict()
    ensures var l, rels := SharedStart(), SharedRels();
      Judged(l, rels) == Patched && HookIndex(l.syms, 0) == Some(1) && 20 in Todo(l, rels)
  {
    var l, rels := SharedStart(), SharedRels();
    SharedOwners();
    SharedNames();
    SharedSites();
    SharedBody();
    SharedSymbols();
    hide OwnerOf, Below, Sites, Direct, SitesOf, Inner, Unique, HookIndex, IsSite, Target;
    hide EXEMPT, CALLERS, HOOK, CALLEE;
    assert forall x :: x in EXEMPT ==> |SitesOf(l, rels, x)| == 1;
    assert SitesKnown(l, rels);
    assert !Exempt(l, 20);
  }

  lemma InnerAfter(l: Layout, rels: Rels, rels': Rels, todo: set<nat>)
    requires rels'.Keys == rels.Keys
    requires forall off :: off in rels ==> if off in todo then !Direct(l, rels', off) else rels'[off] == rels[off]
    ensures Inner(l, rels') == Inner(l, rels) - todo
  {
    forall off | off in rels ensures off in Inner(l, rels') <==> off in Inner(l, rels) - todo {
      if off !in todo {
        assert Direct(l, rels', off) <==> Direct(l, rels, off);
      }
    }
  }

  lemma ExemptSitesStay(l: Layout, rels: Rels, rels': Rels, todo: set<nat>, x: string)
    requires rels'.Keys == rels.Keys && x in EXEMPT
    requires forall off :: off in todo ==> !Exempt(l, off)
    requires forall off :: off in rels && off !in todo ==> rels'[off] == rels[off]
    ensures SitesOf(l, rels', x) == SitesOf(l, rels, x)
  {
    forall off | off in rels ensures off in SitesOf(l, rels', x) <==> off in SitesOf(l, rels, x) {
      if OwnerOf(l.gt, off) == Some(x) {
        assert Exempt(l, off) && off !in todo;
      }
    }
  }
}
