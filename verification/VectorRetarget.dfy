/** Installing an exception arm ahead of the handler a vector names, and giving the displaced handler
    to the arm's decline jump: two relocation words, written in an order that keeps every state safe. */
module VectorRetarget {
  const R_68K_32 := 1
  const NULLVECT := "nullvect"

  datatype Symbol = Symbol(name: string, value: nat)
  datatype Reloc = Reloc(off: nat, sym: nat, typ: nat)
  datatype Lookup = NotFound | Found(at: nat)

  /** One arm: the vector it goes on, its own name, its decline jump and the handlers it may displace. */
  datatype Arm = Arm(vector: nat, target: string, decline: string, allowed: seq<string>)

  const SPAN := 6

  const VEC11 := Arm(11, "fpe_vec11", "fpe_decline", ["fpsp_vec11", NULLVECT])
  const VEC60 := Arm(60, "fpe_vec60", "fpe_decline60", ["fpsp_vec60", NULLVECT])

  /** The first symbol of that name. */
  function SymIndex(syms: seq<Symbol>, name: string): (r: Lookup)
    ensures r.Found? ==> r.at < |syms| && syms[r.at].name == name
    ensures r.NotFound? ==> forall i :: 0 <= i < |syms| ==> syms[i].name != name
  {
    SymIndexFrom(syms, name, 0)
  }

  function SymIndexFrom(syms: seq<Symbol>, name: string, i: nat): (r: Lookup)
    requires i <= |syms|
    ensures r.Found? ==>
      i <= r.at < |syms| && syms[r.at].name == name && forall j :: i <= j < r.at ==> syms[j].name != name
    ensures r.NotFound? ==> forall j :: i <= j < |syms| ==> syms[j].name != name
    decreases |syms| - i
  {
    if i == |syms| then NotFound else if syms[i].name == name then Found(i) else SymIndexFrom(syms, name, i + 1)
  }

  /** The first relocation, in table order, whose offset lies in [lo, hi). */
  function FindReloc(rs: seq<Reloc>, lo: nat, hi: nat): (r: Lookup)
    ensures r.Found? ==> r.at < |rs| && lo <= rs[r.at].off < hi && forall j :: 0 <= j < r.at ==> !(lo <= rs[j].off < hi)
    ensures r.NotFound? ==> forall j :: 0 <= j < |rs| ==> !(lo <= rs[j].off < hi)
  {
    FindRelocFrom(rs, lo, hi, 0)
  }

  function FindRelocFrom(rs: seq<Reloc>, lo: nat, hi: nat, i: nat): (r: Lookup)
    requires i <= |rs|
    ensures r.Found? ==>
      i <= r.at < |rs| && lo <= rs[r.at].off < hi && forall j :: i <= j < r.at ==> !(lo <= rs[j].off < hi)
    ensures r.NotFound? ==> forall j :: i <= j < |rs| ==> !(lo <= rs[j].off < hi)
    decreases |rs| - i
  {
    if i == |rs| then NotFound else if lo <= rs[i].off < hi then Found(i) else FindRelocFrom(rs, lo, hi, i + 1)
  }

  datatype Outcome =
    | Installed | AlreadyInstalled
    | NoSymbol | NoVectorReloc | VectorType | UnknownHandler | NoDeclineReloc | DeclineType | DeclineTaken

  /** Where an arm's two relocations are, once every lookup the installer makes has succeeded. */
  datatype Slots = Slots(vector: nat, decline: nat, target: nat)

  function Value(syms: seq<Symbol>, name: string): nat
    requires SymIndex(syms, name).Found?
  {
    syms[SymIndex(syms, name).at].value
  }

  function VectorSlot(syms: seq<Symbol>, a: Arm): nat
    requires SymIndex(syms, "M68Kvec").Found?
  {
    Value(syms, "M68Kvec") + a.vector * 4
  }

  predicate HasSymbols(syms: seq<Symbol>, a: Arm) {
    SymIndex(syms, "M68Kvec").Found? && SymIndex(syms, a.target).Found? && SymIndex(syms, a.decline).Found?
  }

  predicate Sane(syms: seq<Symbol>, rs: seq<Reloc>) { forall r :: r in rs ==> r.sym < |syms| }

  function Names(syms: seq<Symbol>, r: Reloc): string
    requires r.sym < |syms|
  {
    syms[r.sym].name
  }

  /** The verdict on an image, check by check in the installer's order. */
  function Verdict(syms: seq<Symbol>, rs: seq<Reloc>, a: Arm): Outcome
    requires Sane(syms, rs)
  {
    if !HasSymbols(syms, a) then NoSymbol
    else
      var v := FindReloc(rs, VectorSlot(syms, a), VectorSlot(syms, a) + 4);
      if v.NotFound? then NoVectorReloc
      else if rs[v.at].typ != R_68K_32 then VectorType
      else if Names(syms, rs[v.at]) == a.target then AlreadyInstalled
      else if Names(syms, rs[v.at]) !in a.allowed then UnknownHandler
      else
        var d := FindReloc(rs, Value(syms, a.decline), Value(syms, a.decline) + SPAN);
        if d.NotFound? then NoDeclineReloc
        else if rs[d.at].typ != R_68K_32 then DeclineType
        else if Names(syms, rs[d.at]) != NULLVECT then DeclineTaken
        else Installed
  }

  function SlotsOf(syms: seq<Symbol>, rs: seq<Reloc>, a: Arm): (s: Slots)
    requires Sane(syms, rs) && Verdict(syms, rs, a) == Installed
    ensures s.vector < |rs| && s.decline < |rs| && s.target < |syms|
  {
    Slots(FindReloc(rs, VectorSlot(syms, a), VectorSlot(syms, a) + 4).at,
          FindReloc(rs, Value(syms, a.decline), Value(syms, a.decline) + SPAN).at,
          SymIndex(syms, a.target).at)
  }

  /** The image after the first of the two writes, and after both. */
  function HalfWay(rs: seq<Reloc>, s: Slots): seq<Reloc>
    requires s.vector < |rs| && s.decline < |rs|
  {
    rs[s.decline := rs[s.decline].(sym := rs[s.vector].sym, typ := R_68K_32)]
  }

  function Final(rs: seq<Reloc>, s: Slots): seq<Reloc>
    requires s.vector < |rs| && s.decline < |rs|
  {
    HalfWay(rs, s)[s.vector := rs[s.vector].(sym := s.target, typ := R_68K_32)]
  }

  /** The installer over the relocation table of an image. */
  method Install(syms: seq<Symbol>, rs: array<Reloc>, a: Arm) returns (r: Outcome)
    requires Sane(syms, rs[..])
    modifies rs
    ensures r == Verdict(syms, old(rs[..]), a)
    ensures r == Installed ==> rs[..] == Final(old(rs[..]), SlotsOf(syms, old(rs[..]), a))
    ensures r != Installed ==> rs[..] == old(rs[..])
  {
    if !HasSymbols(syms, a) { return NoSymbol; }
    var slot := VectorSlot(syms, a);
    var dec := Value(syms, a.decline);
    var v := FindReloc(rs[..], slot, slot + 4);
    if v.NotFound? { return NoVectorReloc; }
    var vhit := rs[v.at];
    assert vhit in rs[..];
    if vhit.typ != R_68K_32 { return VectorType; }
    var prev := Names(syms, vhit);
    if prev == a.target { return AlreadyInstalled; }
    if prev !in a.allowed { return UnknownHandler; }
    var d := FindReloc(rs[..], dec, dec + SPAN);
    if d.NotFound? { return NoDeclineReloc; }
    var dhit := rs[d.at];
    assert dhit in rs[..];
    if dhit.typ != R_68K_32 { return DeclineType; }
    if Names(syms, dhit) != NULLVECT { return DeclineTaken; }
    ghost var s := SlotsOf(syms, rs[..], a);
    rs[d.at] := dhit.(sym := vhit.sym, typ := R_68K_32);
    assert rs[..] == HalfWay(old(rs[..]), s);
    rs[v.at] := Reloc(rs[v.at].off, SymIndex(syms, a.target).at, R_68K_32);
    assert rs[..] == Final(old(rs[..]), s);
    return Installed;
  }

  // ---- The same by symbol and offset

  ghost predicate FirstNamed(syms: seq<Symbol>, name: string, i: nat) {
    i < |syms| && syms[i].name == name && forall j :: 0 <= j < i ==> syms[j].name != name
  }

  ghost predicate FirstIn(rs: seq<Reloc>, lo: nat, hi: nat, i: nat) {
    i < |rs| && lo <= rs[i].off < hi && forall j :: 0 <= j < i ==> !(lo <= rs[j].off < hi)
  }

  ghost predicate NoneIn(rs: seq<Reloc>, lo: nat, hi: nat) {
    forall i :: 0 <= i < |rs| ==> !(lo <= rs[i].off < hi)
  }

  lemma SymIndexIs(syms: seq<Symbol>, name: string, i: nat)
    ensures SymIndex(syms, name) == Found(i) <==> FirstNamed(syms, name, i)
  {
    var f := SymIndexFrom(syms, name, 0);
    if FirstNamed(syms, name, i) {
      assert f.Found?;
      assert !(f.at < i) && !(i < f.at);
    }
  }

  lemma FindRelocIs(rs: seq<Reloc>, lo: nat, hi: nat, i: nat)
    ensures FindReloc(rs, lo, hi) == Found(i) <==> FirstIn(rs, lo, hi, i)
  {
    hide FindReloc;
    var f := FindReloc(rs, lo, hi);
    if FirstIn(rs, lo, hi, i) {
      assert f.Found?;
      assert !(f.at < i) && !(i < f.at);
    }
  }

  /** The image lacks a symbol if and only if nothing carries one of the three names. */
  lemma MissingSymbol(syms: seq<Symbol>, rs: seq<Reloc>, a: Arm)
    requires Sane(syms, rs)
    ensures Verdict(syms, rs, a) == NoSymbol <==>
      exists name :: name in ["M68Kvec", a.target, a.decline] && forall i :: 0 <= i < |syms| ==> syms[i].name != name
  {
    hide SymIndex, FindReloc;
    var names := ["M68Kvec", a.target, a.decline];
    assert names[0] in names && names[1] in names && names[2] in names;
  }

  /** Of an image with the three symbols: the vector's long is `4 * a.vector` bytes into M68Kvec and
      the decline jump six bytes long; each refusal has its condition; an installation points the
      decline jump's word at the vector's old symbol and the vector's word at the arm's. */
  lemma InstallMeans(syms: seq<Symbol>, rs: seq<Reloc>, a: Arm, m: nat, t: nat, d: nat, v: nat, e: nat)
    requires Sane(syms, rs)
    requires FirstNamed(syms, "M68Kvec", m) && FirstNamed(syms, a.target, t) && FirstNamed(syms, a.decline, d)
    ensures var r, slot, dec := Verdict(syms, rs, a), syms[m].value + 4 * a.vector, syms[d].value;
      && (r.NoVectorReloc? <==> NoneIn(rs, slot, slot + 4))
      && (FirstIn(rs, slot, slot + 4, v) ==>
           var name, direct := syms[rs[v].sym].name, rs[v].typ == 1;
           && (r.VectorType? <==> !direct)
           && (r.AlreadyInstalled? <==> direct && name == a.target)
           && (r.UnknownHandler? <==> direct && name != a.target && name !in a.allowed)
           && (r.NoDeclineReloc? <==>
                direct && name != a.target && name in a.allowed && NoneIn(rs, dec, dec + 6))
           && (direct && name != a.target && name in a.allowed && FirstIn(rs, dec, dec + 6, e) ==>
                && (r.DeclineType? <==> rs[e].typ != 1)
                && (r.DeclineTaken? <==> rs[e].typ == 1 && syms[rs[e].sym].name != "nullvect")
                && (r.Installed? <==> rs[e].typ == 1 && syms[rs[e].sym].name == "nullvect")
                && (r.Installed? ==>
                      Final(rs, SlotsOf(syms, rs, a)) ==
                        rs[e := Reloc(rs[e].off, rs[v].sym, 1)][v := Reloc(rs[v].off, t, 1)])))
  {
    hide SymIndex, FindReloc, FirstNamed, FirstIn;
    SymIndexIs(syms, "M68Kvec", m);
    SymIndexIs(syms, a.target, t);
    SymIndexIs(syms, a.decline, d);
    var slot, dec := syms[m].value + 4 * a.vector, syms[d].value;
    FindRelocIs(rs, slot, slot + 4, v);
    FindRelocIs(rs, dec, dec + 6, e);
    if FirstIn(rs, slot, slot + 4, v) {
      assert rs[v] in rs;
    }
    if FirstIn(rs, dec, dec + 6, e) {
      assert rs[e] in rs;
    }
  }

  // ---- Where an exception goes

  /** What the vector slot of an arm names, and what its decline jump names. */
  function VectorNames(syms: seq<Symbol>, rs: seq<Reloc>, a: Arm): string
    requires Sane(syms, rs) && HasSymbols(syms, a)
  {
    var v := FindReloc(rs, VectorSlot(syms, a), VectorSlot(syms, a) + 4);
    if v.Found? then Names(syms, rs[v.at]) else ""
  }

  function DeclineNames(syms: seq<Symbol>, rs: seq<Reloc>, a: Arm): string
    requires Sane(syms, rs) && HasSymbols(syms, a)
  {
    var d := FindReloc(rs, Value(syms, a.decline), Value(syms, a.decline) + SPAN);
    if d.Found? then Names(syms, rs[d.at]) else ""
  }

  lemma SameOffsets(rs: seq<Reloc>, rs': seq<Reloc>, lo: nat, hi: nat)
    requires |rs'| == |rs| && forall i :: 0 <= i < |rs| ==> rs'[i].off == rs[i].off
    ensures FindReloc(rs', lo, hi) == FindReloc(rs, lo, hi)
  {
    var f, f' := FindReloc(rs, lo, hi), FindReloc(rs', lo, hi);
    if f.Found? { assert rs'[f.at].off == rs[f.at].off; }
    if f'.Found? { assert rs'[f'.at].off == rs[f'.at].off; }
  }

  /** What `rs'` is to `rs` when the word at index `i` was pointed at symbol `sym`. */
  predicate Pointed(rs: seq<Reloc>, i: nat, sym: nat, rs': seq<Reloc>) {
    i < |rs| && rs' == rs[i := rs[i].(sym := sym, typ := R_68K_32)]
  }

  lemma PointedNames(syms: seq<Symbol>, rs: seq<Reloc>, i: nat, sym: nat, rs': seq<Reloc>, a: Arm)
    requires Sane(syms, rs) && HasSymbols(syms, a) && Pointed(rs, i, sym, rs') && sym < |syms|
    ensures Sane(syms, rs')
    ensures var v := FindReloc(rs, VectorSlot(syms, a), VectorSlot(syms, a) + 4);
      VectorNames(syms, rs', a) == if v == Found(i) then syms[sym].name else VectorNames(syms, rs, a)
    ensures var d := FindReloc(rs, Value(syms, a.decline), Value(syms, a.decline) + SPAN);
      DeclineNames(syms, rs', a) == if d == Found(i) then syms[sym].name else DeclineNames(syms, rs, a)
  {
    hide FindReloc, SymIndex;
    PointedSane(syms, rs, i, sym, rs');
    SameOffsets(rs, rs', VectorSlot(syms, a), VectorSlot(syms, a) + 4);
    SameOffsets(rs, rs', Value(syms, a.decline), Value(syms, a.decline) + SPAN);
  }

  lemma PointedSane(syms: seq<Symbol>, rs: seq<Reloc>, i: nat, sym: nat, rs': seq<Reloc>)
    requires Sane(syms, rs) && Pointed(rs, i, sym, rs') && sym < |syms|
    ensures Sane(syms, rs')
  {
    forall r | r in rs' ensures r.sym < |syms| {
      if r in rs {}
    }
  }

  lemma FinalIsSane(syms: seq<Symbol>, rs: seq<Reloc>, a: Arm)
    requires Sane(syms, rs) && Verdict(syms, rs, a) == Installed
    ensures var s := SlotsOf(syms, rs, a);
      && Pointed(rs, s.decline, rs[s.vector].sym, HalfWay(rs, s)) && Sane(syms, HalfWay(rs, s))
      && Pointed(HalfWay(rs, s), s.vector, s.target, Final(rs, s)) && Sane(syms, Final(rs, s))
  {
    hide FindReloc, SymIndex;
    var s := SlotsOf(syms, rs, a);
    assert rs[s.vector] in rs;
    PointedNames(syms, rs, s.decline, rs[s.vector].sym, HalfWay(rs, s), a);
    PointedNames(syms, HalfWay(rs, s), s.vector, s.target, Final(rs, s), a);
  }

  /** After a successful run the vector names the arm, and the decline jump names exactly the handler
      the vector named before if and only if the two words are different ones. */
  lemma DisplacedHandlerKept(syms: seq<Symbol>, rs: seq<Reloc>, a: Arm)
    requires Sane(syms, rs) && Verdict(syms, rs, a) == Installed
    ensures var s, f := SlotsOf(syms, rs, a), Final(rs, SlotsOf(syms, rs, a));
      && Sane(syms, f)
      && VectorNames(syms, f, a) == a.target
      && (DeclineNames(syms, f, a) == VectorNames(syms, rs, a) <==> s.vector != s.decline)
  {
    hide FindReloc, SymIndex;
    FinalIsSane(syms, rs, a);
    var s := SlotsOf(syms, rs, a);
    var h, f := HalfWay(rs, s), Final(rs, s);
    PointedNames(syms, rs, s.decline, rs[s.vector].sym, h, a);
    PointedNames(syms, h, s.vector, s.target, f, a);
    SameOffsets(rs, h, VectorSlot(syms, a), VectorSlot(syms, a) + 4);
    SameOffsets(rs, h, Value(syms, a.decline), Value(syms, a.decline) + SPAN);
  }

  /** Between the two writes the vector still names its old handler and the decline jump already
      does; with the writes swapped, a declined exception would reach nullvect instead. */
  lemma WriteOrderMatters(syms: seq<Symbol>, rs: seq<Reloc>, a: Arm)
    requires Sane(syms, rs) && Verdict(syms, rs, a) == Installed
    requires SlotsOf(syms, rs, a).vector != SlotsOf(syms, rs, a).decline
    ensures var h := HalfWay(rs, SlotsOf(syms, rs, a));
      Sane(syms, h) && VectorNames(syms, h, a) == DeclineNames(syms, h, a) == VectorNames(syms, rs, a)
    ensures var s := SlotsOf(syms, rs, a); forall rs' :: Pointed(rs, s.vector, s.target, rs') && Sane(syms, rs') ==>
      VectorNames(syms, rs', a) == a.target && DeclineNames(syms, rs', a) == NULLVECT
  {
    hide FindReloc, SymIndex;
    FinalIsSane(syms, rs, a);
    var s := SlotsOf(syms, rs, a);
    PointedNames(syms, rs, s.decline, rs[s.vector].sym, HalfWay(rs, s), a);
    forall rs' | Pointed(rs, s.vector, s.target, rs') && Sane(syms, rs')
      ensures VectorNames(syms, rs', a) == a.target && DeclineNames(syms, rs', a) == NULLVECT
    {
      PointedNames(syms, rs, s.vector, s.target, rs', a);
    }
  }

  /** A second run finds its own arm on the vector and changes nothing. */
  lemma SecondRunSkips(syms: seq<Symbol>, rs: seq<Reloc>, a: Arm)
    requires Sane(syms, rs) && Verdict(syms, rs, a) == Installed
    ensures var f := Final(rs, SlotsOf(syms, rs, a)); Sane(syms, f) && Verdict(syms, f, a) == AlreadyInstalled
  {
    hide FindReloc, SymIndex;
    FinalIsSane(syms, rs, a);
    var s := SlotsOf(syms, rs, a);
    SameOffsets(rs, Final(rs, s), VectorSlot(syms, a), VectorSlot(syms, a) + 4);
  }

  // ---- The link check that runs on the finished image

  /** The first relocation at exactly the vector's word names the arm, with the right type. */
  predicate CheckVector(syms: seq<Symbol>, rs: seq<Reloc>, a: Arm)
    requires Sane(syms, rs) && HasSymbols(syms, a)
  {
    var v := FindReloc(rs, VectorSlot(syms, a), VectorSlot(syms, a) + 1);
    v.Found? && Names(syms, rs[v.at]) == a.target && rs[v.at].typ == R_68K_32
  }

  /** All relocations in [lo, hi) stand at one offset, and there is one. */
  predicate OneOffset(rs: seq<Reloc>, lo: nat, hi: nat) {
    var d := FindReloc(rs, lo, hi);
    d.Found? && forall i :: 0 <= i < |rs| && lo <= rs[i].off < hi ==> rs[i].off == rs[d.at].off
  }

  /** The decline jump carries one relocation, to a handler the arm may displace and to no arm. */
  predicate CheckDecline(syms: seq<Symbol>, rs: seq<Reloc>, a: Arm, arms: seq<string>)
    requires Sane(syms, rs) && HasSymbols(syms, a)
  {
    && OneOffset(rs, Value(syms, a.decline), Value(syms, a.decline) + SPAN)
    && DeclineNames(syms, rs, a) !in arms
    && DeclineNames(syms, rs, a) in a.allowed
  }

  /** The arms each decline check refuses to see named. */
  const ARMS11 := [VEC11.target]
  const ARMS60 := [VEC60.target, VEC11.target]

  /** No arm is among the handlers an arm may displace. */
  lemma ArmNames()
    ensures forall h :: h in VEC11.allowed || h in VEC60.allowed ==> h != VEC11.target && h != VEC60.target
    ensures VEC11.target == "fpe_vec11" != VEC60.target == "fpe_vec60"
    ensures 4 * VEC11.vector == 0x2C && 4 * VEC60.vector == 0xF0
    ensures VEC11.decline == "fpe_decline" && VEC60.decline == "fpe_decline60"
    ensures VEC11.allowed == ["fpsp_vec11", "nullvect"] && VEC60.allowed == ["fpsp_vec60", "nullvect"]
  {
    assert VEC11.target[7] != VEC60.target[7];
    assert |VEC11.target| == 9 && |VEC60.target| == 9;
    assert |"fpsp_vec11"| == 10 && |"fpsp_vec60"| == 10 && |NULLVECT| == 8;
  }

  /** The result satisfies the vector check if and only if the word that was found stands at the
      vector's exact address (or the check already passed). */
  lemma InstalledPassesVectorCheck(syms: seq<Symbol>, rs: seq<Reloc>, a: Arm)
    requires Sane(syms, rs) && Verdict(syms, rs, a) == Installed && NULLVECT != a.target
    ensures var s, f := SlotsOf(syms, rs, a), Final(rs, SlotsOf(syms, rs, a));
      && Sane(syms, f)
      && (CheckVector(syms, f, a) <==> rs[s.vector].off == VectorSlot(syms, a) || CheckVector(syms, rs, a))
  {
    hide FindReloc, SymIndex;
    FinalIsSane(syms, rs, a);
    var s := SlotsOf(syms, rs, a);
    var f, slot := Final(rs, s), VectorSlot(syms, a);
    SameOffsets(rs, f, slot, slot + 1);
    var v := FindReloc(rs, slot, slot + 1);
    if rs[s.vector].off == slot {
      assert v == Found(s.vector);
    } else if v.Found? {
      assert v.at != s.vector;
    }
  }

  /** What was displaced is a handler the arm may displace. */
  lemma InstalledFinds(syms: seq<Symbol>, rs: seq<Reloc>, a: Arm)
    requires Sane(syms, rs) && Verdict(syms, rs, a) == Installed
    ensures HasSymbols(syms, a) && VectorNames(syms, rs, a) in a.allowed
  {
    hide FindReloc, SymIndex;
  }

  /** It satisfies the decline check if and only if the decline span has its relocations at one
      offset and the word found there is not the vector's. */
  lemma InstalledPassesDeclineCheck(syms: seq<Symbol>, rs: seq<Reloc>, a: Arm, arms: seq<string>)
    requires Sane(syms, rs) && Verdict(syms, rs, a) == Installed
    requires a.target in arms && forall h :: h in a.allowed ==> h !in arms
    ensures var s, f := SlotsOf(syms, rs, a), Final(rs, SlotsOf(syms, rs, a));
      && Sane(syms, f)
      && (CheckDecline(syms, f, a, arms) <==>
           OneOffset(rs, Value(syms, a.decline), Value(syms, a.decline) + SPAN) && s.vector != s.decline)
  {
    hide FindReloc, SymIndex, Final, CheckDecline, DeclineNames, VectorNames, OneOffset;
    DisplacedHandlerKept(syms, rs, a);
    InstalledFinds(syms, rs, a);
    var s := SlotsOf(syms, rs, a);
    var f, lo := Final(rs, s), Value(syms, a.decline);
    if s.vector == s.decline {
      SharedWordLoops(syms, rs, a);
    }
    FinalOffsets(rs, s);
    OneOffsetStays(rs, f, lo, lo + SPAN);
    DeclineChecked(syms, f, a, arms, s.vector == s.decline);
  }

  lemma DeclineChecked(syms: seq<Symbol>, f: seq<Reloc>, a: Arm, arms: seq<string>, shared: bool)
    requires Sane(syms, f) && HasSymbols(syms, a) && a.target in arms && forall h :: h in a.allowed ==> h !in arms
    requires if shared then DeclineNames(syms, f, a) == a.target else DeclineNames(syms, f, a) in a.allowed
    ensures CheckDecline(syms, f, a, arms) <==>
      OneOffset(f, Value(syms, a.decline), Value(syms, a.decline) + SPAN) && !shared
  {
    hide FindReloc, SymIndex, OneOffset, DeclineNames;
  }

  /** One word playing both parts ends up naming the arm: the decline jump would loop. */
  lemma SharedWordLoops(syms: seq<Symbol>, rs: seq<Reloc>, a: Arm)
    requires Sane(syms, rs) && Verdict(syms, rs, a) == Installed
    requires SlotsOf(syms, rs, a).vector == SlotsOf(syms, rs, a).decline
    ensures var f := Final(rs, SlotsOf(syms, rs, a)); Sane(syms, f) && DeclineNames(syms, f, a) == a.target
  {
    hide FindReloc, SymIndex;
    FinalIsSane(syms, rs, a);
    SameOffsets(rs, Final(rs, SlotsOf(syms, rs, a)), Value(syms, a.decline), Value(syms, a.decline) + SPAN);
  }

  // ---- Images the installer accepts and the link check would not

  const VECTORS := 0x1000
  const SLOT11 := VECTORS + 11 * 4

  /** The names the installer looks up, the decline jump at `dec`. */
  function Names11(dec: nat): seq<Symbol> {
    [Symbol("M68Kvec", VECTORS), Symbol(VEC11.target, 0x8000), Symbol(VEC11.decline, dec), Symbol(NULLVECT, 0x9000)]
  }

  lemma Found11(dec: nat)
    ensures var syms := Names11(dec);
      && HasSymbols(syms, VEC11) && SymIndex(syms, VEC11.target) == Found(1)
      && VectorSlot(syms, VEC11) == SLOT11 && Value(syms, VEC11.decline) == dec
  {
    var syms := Names11(dec);
    assert |"M68Kvec"| == 7 && |VEC11.target| == 9 && |VEC11.decline| == 11 && |NULLVECT| == 8;
    assert syms[0].name == "M68Kvec" && syms[1].name == VEC11.target && syms[2].name == VEC11.decline;
    assert SymIndex(syms, "M68Kvec") == Found(0) && SymIndex(syms, VEC11.decline) == Found(2);
  }

  /** The decline jump on the vector's own word; a relocation inside the vector's word but not at its
      start; two relocations in the decline jump. */
  const SHARED := [Reloc(SLOT11, 3, R_68K_32)]
  const INSIDE := [Reloc(SLOT11 + 1, 3, R_68K_32), Reloc(0x8102, 3, R_68K_32)]
  const DOUBLE := [Reloc(SLOT11, 3, R_68K_32), Reloc(0x8102, 3, R_68K_32), Reloc(0x8104, 3, R_68K_32)]

  lemma AcceptedImages()
    ensures var shared, apart := Names11(SLOT11), Names11(0x8100);
      && Sane(shared, SHARED) && Verdict(shared, SHARED, VEC11) == Installed
      && SlotsOf(shared, SHARED, VEC11) == Slots(0, 0, 1)
      && Sane(apart, INSIDE) && Verdict(apart, INSIDE, VEC11) == Installed
      && SlotsOf(apart, INSIDE, VEC11) == Slots(0, 1, 1)
      && Sane(apart, DOUBLE) && Verdict(apart, DOUBLE, VEC11) == Installed
      && SlotsOf(apart, DOUBLE, VEC11) == Slots(0, 1, 1)
  {
    Found11(SLOT11);
    Found11(0x8100);
    hide SymIndex, Value, VectorSlot;
    ArmNames();
    assert NULLVECT == VEC11.allowed[1];
    assert FindReloc(INSIDE, SLOT11, SLOT11 + 4) == Found(0) by { assert INSIDE[0].off == SLOT11 + 1; }
    assert FindReloc(INSIDE, 0x8100, 0x8106) == Found(1) by {
      assert INSIDE[1].off == 0x8102 && INSIDE[0].off == SLOT11 + 1;
    }
    assert FindReloc(DOUBLE, SLOT11, SLOT11 + 4) == Found(0) by { assert DOUBLE[0].off == SLOT11; }
    assert FindReloc(DOUBLE, 0x8100, 0x8106) == Found(1) by {
      assert DOUBLE[1].off == 0x8102 && DOUBLE[0].off == SLOT11;
    }
  }

  /** All three are installed; the first one's decline jump then names the arm itself, the second
      fails the vector check and the third the decline check. */
  lemma AcceptedButWrong()
    ensures var shared, apart := Names11(SLOT11), Names11(0x8100);
      && Sane(shared, Final(SHARED, Slots(0, 0, 1))) && HasSymbols(shared, VEC11)
      && DeclineNames(shared, Final(SHARED, Slots(0, 0, 1)), VEC11) == VEC11.target
      && Sane(apart, Final(INSIDE, Slots(0, 1, 1))) && HasSymbols(apart, VEC11)
      && !CheckVector(apart, Final(INSIDE, Slots(0, 1, 1)), VEC11)
      && Sane(apart, Final(DOUBLE, Slots(0, 1, 1)))
      && !CheckDecline(apart, Final(DOUBLE, Slots(0, 1, 1)), VEC11, ARMS11)
  {
    AcceptedImages();
    ArmNames();
    Found11(SLOT11);
    Found11(0x8100);
    hide SymIndex, Value, VectorSlot, Verdict, SlotsOf, Final, CheckVector, CheckDecline;
    SharedWordLoops(Names11(SLOT11), SHARED, VEC11);
    InsideFails();
    assert NULLVECT == VEC11.allowed[1];
    InstalledPassesVectorCheck(Names11(0x8100), INSIDE, VEC11);
    InstalledPassesDeclineCheck(Names11(0x8100), DOUBLE, VEC11, ARMS11);
    assert !OneOffset(DOUBLE, 0x8100, 0x8100 + SPAN) by {
      assert DOUBLE[1].off != DOUBLE[2].off;
    }
  }

  lemma InsideFails()
    ensures Sane(Names11(0x8100), INSIDE) && HasSymbols(Names11(0x8100), VEC11)
    ensures !CheckVector(Names11(0x8100), INSIDE, VEC11)
  {
    Found11(0x8100);
  }

  /** On an ordinary image, where each of the four words is the only relocation of its slot, both
      arms' installations satisfy the four checks on the finished kernel. */
  lemma FinishedKernelChecks(syms: seq<Symbol>, rs: seq<Reloc>, a: Arm, arms: seq<string>)
    requires Sane(syms, rs) && Verdict(syms, rs, a) == Installed
    requires (a == VEC11 && arms == ARMS11) || (a == VEC60 && arms == ARMS60)
    requires var s := SlotsOf(syms, rs, a);
      s.vector != s.decline && rs[s.vector].off == VectorSlot(syms, a)
        && OneOffset(rs, Value(syms, a.decline), Value(syms, a.decline) + SPAN)
    ensures var f := Final(rs, SlotsOf(syms, rs, a));
      Sane(syms, f) && CheckVector(syms, f, a) && CheckDecline(syms, f, a, arms)
  {
    hide FindReloc, SymIndex, Final, CheckVector, CheckDecline, OneOffset, Verdict;
    ArmNames();
    assert NULLVECT in a.allowed;
    InstalledPassesVectorCheck(syms, rs, a);
    InstalledPassesDeclineCheck(syms, rs, a, arms);
  }

  lemma FinalOffsets(rs: seq<Reloc>, s: Slots)
    requires s.vector < |rs| && s.decline < |rs|
    ensures |Final(rs, s)| == |rs| && forall i :: 0 <= i < |rs| ==> Final(rs, s)[i].off == rs[i].off
  {
  }

  lemma OneOffsetStays(rs: seq<Reloc>, rs': seq<Reloc>, lo: nat, hi: nat)
    requires |rs'| == |rs| && forall i :: 0 <= i < |rs| ==> rs'[i].off == rs[i].off
    ensures OneOffset(rs', lo, hi) <==> OneOffset(rs, lo, hi)
  {
    hide FindReloc;
    SameOffsets(rs, rs', lo, hi);
  }

  // ---- Both arms

  /** The two arms' words are four different ones. */
  predicate Apart(s: Slots, t: Slots) {
    s.vector != s.decline && t.vector != t.decline && {s.vector, s.decline} !! {t.vector, t.decline}
  }

  /** Installing one arm does not change what the other's installer sees. */
  lemma OtherArmUnaffected(syms: seq<Symbol>, rs: seq<Reloc>, a: Arm, b: Arm)
    requires Sane(syms, rs) && Verdict(syms, rs, a) == Installed && Verdict(syms, rs, b) == Installed
    requires Apart(SlotsOf(syms, rs, a), SlotsOf(syms, rs, b))
    ensures var f := Final(rs, SlotsOf(syms, rs, a));
      && Sane(syms, f)
      && Verdict(syms, f, b) == Installed && SlotsOf(syms, f, b) == SlotsOf(syms, rs, b)
      && VectorNames(syms, f, b) == VectorNames(syms, rs, b)
      && DeclineNames(syms, f, b) == DeclineNames(syms, rs, b)
  {
    hide FindReloc, SymIndex;
    FinalIsSane(syms, rs, a);
    var s, t := SlotsOf(syms, rs, a), SlotsOf(syms, rs, b);
    var f := Final(rs, s);
    SameOffsets(rs, f, VectorSlot(syms, b), VectorSlot(syms, b) + 4);
    SameOffsets(rs, f, Value(syms, b.decline), Value(syms, b.decline) + SPAN);
    assert f[t.vector] == rs[t.vector] && f[t.decline] == rs[t.decline];
  }

  /** A declined exception, hop by hop: an arm hands over to what its decline jump names. */
  function Path(syms: seq<Symbol>, rs: seq<Reloc>, handler: string, hops: nat): seq<string>
    requires Sane(syms, rs) && HasSymbols(syms, VEC11) && HasSymbols(syms, VEC60)
    decreases hops
  {
    if hops == 0 then [handler]
    else if handler == VEC11.target then [handler] + Path(syms, rs, DeclineNames(syms, rs, VEC11), hops - 1)
    else if handler == VEC60.target then [handler] + Path(syms, rs, DeclineNames(syms, rs, VEC60), hops - 1)
    else [handler]
  }

  /** With both arms in, in either order, the image is the same one, and a declined exception on
      either vector goes vector, arm, displaced handler and stops there: no path ever loops. */
  lemma BothArms(syms: seq<Symbol>, rs: seq<Reloc>, hops: nat)
    requires Sane(syms, rs) && Verdict(syms, rs, VEC11) == Installed && Verdict(syms, rs, VEC60) == Installed
    requires Apart(SlotsOf(syms, rs, VEC11), SlotsOf(syms, rs, VEC60))
    requires hops > 0
    ensures var s, t := SlotsOf(syms, rs, VEC11), SlotsOf(syms, rs, VEC60);
      var f := Final(Final(rs, s), t);
      && f == Final(Final(rs, t), s)
      && Sane(syms, f)
      && Path(syms, f, VectorNames(syms, f, VEC11), hops) == ["fpe_vec11", VectorNames(syms, rs, VEC11)]
      && Path(syms, f, VectorNames(syms, f, VEC60), hops) == ["fpe_vec60", VectorNames(syms, rs, VEC60)]
  {
    hide FindReloc, SymIndex;
    var s, t := SlotsOf(syms, rs, VEC11), SlotsOf(syms, rs, VEC60);
    var one, other := Final(rs, s), Final(rs, t);
    OtherArmUnaffected(syms, rs, VEC11, VEC60);
    OtherArmUnaffected(syms, rs, VEC60, VEC11);
    FinalIsSane(syms, rs, VEC11);
    FinalIsSane(syms, rs, VEC60);
    FinalIsSane(syms, one, VEC60);
    FinalIsSane(syms, other, VEC11);
    var f := Final(one, t);
    assert f == Final(other, s);
    DisplacedHandlerKept(syms, one, VEC60);
    DisplacedHandlerKept(syms, other, VEC11);
    StopsAtDisplaced(syms, f, VectorNames(syms, rs, VEC11), VEC11, hops);
    StopsAtDisplaced(syms, f, VectorNames(syms, rs, VEC60), VEC60, hops);
  }

  lemma StopsAtDisplaced(syms: seq<Symbol>, f: seq<Reloc>, prev: string, a: Arm, hops: nat)
    requires Sane(syms, f) && HasSymbols(syms, VEC11) && HasSymbols(syms, VEC60) && (a == VEC11 || a == VEC60)
    requires hops > 0 && prev in a.allowed && DeclineNames(syms, f, a) == prev
    ensures Path(syms, f, a.target, hops) == [a.target, prev]
  {
    hide FindReloc, SymIndex;
    ArmNames();
    assert Path(syms, f, prev, hops - 1) == [prev];
  }
}
