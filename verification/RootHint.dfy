/** The root hint: a checksummed record left by the boot loader names a disk, and the kernel turns it
    into rootdev and the swap file's controller digit, both or neither, before root is mounted.
    Longwords are numbers below 2^32; masks and shifts are written as division and remainder. */
module RootHint {
  const WORD := 0x1_0000_0000
  type Long = x: int | 0 <= x < 0x1_0000_0000
  type Byte = x: int | 0 <= x < 256

  const RTH1_MAGIC: Long := 0x52544831
  const RTO1_MAGIC: Long := 0x52544F31
  const RTH1_LONGS := 14
  const RTH1_CHECKED := 7
  const NAUTO := 16
  const SDCARDS := 2
  const BO_NAME := 0x10
  const SD_MAJOR := 18

  // ---- The checksum

  function Total(s: seq<Long>): Long {
    if s == [] then 0 else (Total(s[..|s| - 1]) + s[|s| - 1]) % WORD
  }

  method Sum0(p: seq<Long>) returns (ok: bool)
    ensures ok <==> Total(p) == 0
  {
    var s: Long := 0;
    assert p[..0] == [] && p[..|p|] == p;
    for i := 0 to |p|
      invariant s == Total(p[..i])
    {
      assert p[..i + 1][..i] == p[..i];
      s := (s + p[i]) % WORD;
    }
    return s == 0;
  }

  lemma AddInjective(a: Long, x: Long, y: Long)
    ensures (a + x) % WORD == (a + y) % WORD <==> x == y
  {
    assert (a + x) % WORD == if a + x < WORD then a + x else a + x - WORD;
    assert (a + y) % WORD == if a + y < WORD then a + y else a + y - WORD;
  }

  /** Changing any one longword of a checked record changes its 32-bit sum. */
  lemma {:induction false} OneChangeShows(s: seq<Long>, i: nat, v: Long)
    requires i < |s|
    ensures Total(s[i := v]) == Total(s) <==> v == s[i]
    decreases |s|
  {
    var n := |s| - 1;
    var head := s[..n];
    if i == n {
      assert s[i := v][..n] == head;
      AddInjective(Total(head), v, s[n]);
    } else {
      assert s[i := v][..n] == head[i := v];
      OneChangeShows(head, i, v);
      AddInjective(s[n], Total(head[i := v]), Total(head));
    }
  }

  // ---- The controller a record names

  datatype Board = Board(addr: Long, manuf: nat, product: Byte)
  datatype Request = Request(unit: Long, base: Long, id: Long, mobo: bool)

  /** The manufacturer word and product byte in the record's form. */
  function BoardId(b: Board): nat { b.manuf * 0x1_0000 + b.product * 0x100 }

  /** Bit `k`, counted from the low end by its weight. */
  predicate Bit(x: Long, weight: nat)
    requires weight > 0
  {
    x / weight % 2 == 1
  }

  /** The first AutoConfig entry at a base address; |boards| if there is none. */
  function Entry(boards: seq<Board>, base: Long): (i: nat)
    ensures i <= |boards| && (i < |boards| ==> boards[i].addr == base)
    ensures forall k :: 0 <= k < i ==> boards[k].addr != base
  {
    if boards == [] || boards[0].addr == base then 0 else 1 + Entry(boards[1..], base)
  }

  /** Whether a registered controller is the one asked for: by board base, else by the id of the
      AutoConfig entry at its base, or, for the motherboard, by having no entry at all. */
  predicate Matches(boards: seq<Board>, cards: seq<Long>, q: Request, c: nat)
    requires c < |cards|
  {
    && cards[c] != 0
    && var hit := Entry(boards, cards[c]);
       if q.mobo then hit == |boards|
       else if q.base != 0 then cards[c] == q.base
       else hit < |boards| && BoardId(boards[hit]) == q.id
  }

  predicate Asks(q: Request) { q.mobo || q.base != 0 || q.id != 0 }

  /** rth1_card: the one matching controller, or -1. */
  method Card(boards: seq<Board>, cards: seq<Long>, q: Request) returns (found: int)
    requires |boards| == NAUTO && |cards| == SDCARDS
    ensures found == -1 || 0 <= found < |cards|
    ensures found >= 0 <==> Asks(q) && exists c :: OnlyMatch(boards, cards, q, c)
    ensures found >= 0 ==> OnlyMatch(boards, cards, q, found)
  {
    if !q.mobo && q.base == 0 && q.id == 0 { return -1; }
    found := -1;
    var n := 0;
    for c := 0 to |cards|
      invariant n == 0 <==> found == -1
      invariant n == 0 ==> forall k :: 0 <= k < c ==> !Matches(boards, cards, q, k)
      invariant found >= 0 ==> found < c && Matches(boards, cards, q, found)
      invariant n == 1 ==> forall k :: 0 <= k < c && k != found ==> !Matches(boards, cards, q, k)
      invariant found >= -1 && n >= 0
      invariant n > 1 ==> exists j, k :: 0 <= j < k < c && Matches(boards, cards, q, j) && Matches(boards, cards, q, k)
    {
      if cards[c] == 0 { continue; }
      var hit := 0;
      while hit < |boards|
        invariant hit <= Entry(boards, cards[c])
      {
        if boards[hit].addr == cards[c] { break; }
        hit := hit + 1;
      }
      var match' := if q.mobo then hit == |boards|
                    else if q.base != 0 then cards[c] == q.base
                    else hit < |boards| && BoardId(boards[hit]) == q.id;
      assert hit == Entry(boards, cards[c]);
      if match' {
        found := c;
        n := n + 1;
      }
    }
    assert n != 1 ==> forall c :: !OnlyMatch(boards, cards, q, c) by {
      if n != 1 {
        forall c ensures !OnlyMatch(boards, cards, q, c) {
          if n == 0 && 0 <= c < |cards| {
            assert !Matches(boards, cards, q, c);
          }
        }
      }
    }
    if n != 1 {
      return -1;
    }
    assert OnlyMatch(boards, cards, q, found);
  }

  ghost predicate OnlyMatch(boards: seq<Board>, cards: seq<Long>, q: Request, c: int) {
    0 <= c < |cards| && forall k :: 0 <= k < |cards| ==> (Matches(boards, cards, q, k) <==> k == c)
  }

  // ---- Reading the record

  datatype Source = BootDisk | RootRecord
  datatype Reason = Used | NoRecord | BadRecord | BadRootRecord | NoBootNode | UnitRange | NotPresent | NotDiskRooted

  datatype Reading = Reading(why: Reason, source: Source, q: Request)

  const NO_REQUEST := Request(0, 0, 0, false)

  function Refuse(why: Reason): Reading { Reading(why, BootDisk, NO_REQUEST) }

  predicate GoodHeader(r: seq<Long>, magic: Long, bytes: Long)
    requires |r| >= 2
  {
    r[0] == magic && r[1] / 0x1_0000 == 1 && r[1] % 0x1_0000 >= bytes
  }

  /** What the fourteen longwords ask for, before the unit and the controller are looked at. */
  function Read(r: seq<Long>): Reading
    requires |r| == RTH1_LONGS
  {
    if r[0] == 0 then Refuse(NoRecord)
    else if !GoodHeader(r, RTH1_MAGIC, 56) || Total(r[..RTH1_CHECKED]) != 0 then Refuse(BadRecord)
    else if r[7] != 0 then
      var o := r[7..];
      if !GoodHeader(o, RTO1_MAGIC, 28) || Total(o) != 0 then Refuse(BadRootRecord)
      else Reading(Used, RootRecord, Request(o[2], o[3], o[4], Bit(o[5], 1)))
    else if !Bit(r[2], 1) then Refuse(NoBootNode)
    else if Bit(r[2], 2) then Reading(Used, BootDisk, Request(r[3], r[4], r[5], false))
    else Reading(Used, BootDisk, Request(r[3], 0, 0, Bit(r[2], 4)))
  }

  predicate Bad(why: Reason) { why in {NoRecord, BadRecord, BadRootRecord} }

  /** The changes of one longword in a used record that go unnoticed: a root record's first longword
      set to zero; in a record without a root record, anything behind the checked part that is not
      read, and the first longword of the unused part turned into a valid root record's. */
  predicate Unnoticed(r: seq<Long>, i: nat, v: Long)
    requires |r| == RTH1_LONGS && i < RTH1_LONGS
  {
    if Read(r).source.RootRecord? then i == 7 && v == 0
    else i > 7 || (i == 7 && GoodHeader(r[7..][0 := v], RTO1_MAGIC, 28) && Total(r[7..][0 := v]) == 0)
  }

  /** A single changed longword in a used record is caught in all other cases.  A change behind an
      unused root record changes nothing at all; the other two swap root record and boot disk. */
  lemma RecordCorruption(r: seq<Long>, i: nat, v: Long)
    requires |r| == RTH1_LONGS && i < RTH1_LONGS && v != r[i] && Read(r).why.Used?
    ensures var r' := r[i := v];
      && (Bad(Read(r').why) <==> !Unnoticed(r, i, v))
      && (Unnoticed(r, i, v) && i > 7 ==> Read(r') == Read(r))
      && (Unnoticed(r, i, v) && i == 7 && Read(r').why.Used? ==> Read(r').source != Read(r).source)
  {
    var r' := r[i := v];
    if i < RTH1_CHECKED {
      assert r'[..RTH1_CHECKED] == r[..RTH1_CHECKED][i := v];
      OneChangeShows(r[..RTH1_CHECKED], i, v);
    } else {
      assert r'[..RTH1_CHECKED] == r[..RTH1_CHECKED];
      assert r'[7..] == r[7..][i - 7 := v];
      OneChangeShows(r[7..], i - 7, v);
    }
  }

  /** A record with a root record: unit 3 of the board at 0x40000000 instead of boot unit 2. */
  const ROOTED: seq<Long> :=
    [RTH1_MAGIC, 0x1_0038, 1, 2, 0, 0, 0xADAA_B794, RTO1_MAGIC, 0x1_001C, 3, 0x4000_0000, 0, 0, 0x6DAA_B0B0]

  function Plain(s: seq<Long>): nat { if s == [] then 0 else s[0] + Plain(s[1..]) }

  lemma {:induction false} PlainGrows(s: seq<Long>, x: Long)
    ensures Plain(s + [x]) == Plain(s) + x
  {
    if s == [] {
      assert s + [x] == [x] && [x][1..] == [];
    } else {
      assert (s + [x])[1..] == s[1..] + [x];
      PlainGrows(s[1..], x);
    }
  }

  lemma UniqueWord(x: nat, k: nat, r: nat)
    requires x == 0x1_0000_0000 * k + r && r < 0x1_0000_0000
    ensures x % 0x1_0000_0000 == r
  {
  }

  lemma ReduceOnce(p: nat, x: Long)
    ensures (p % WORD + x) % WORD == (p + x) % WORD
  {
    var q, r := p / WORD, p % WORD;
    if r + x < WORD {
      UniqueWord(p + x, q, r + x);
    } else {
      UniqueWord(p + x, q + 1, r + x - WORD);
      UniqueWord(r + x, 1, r + x - WORD);
    }
  }

  /** The running 32-bit sum is the plain sum, taken modulo 2^32 once. */
  lemma {:induction false} TotalIsPlain(s: seq<Long>)
    ensures Total(s) == Plain(s) % WORD
    decreases |s|
  {
    if s != [] {
      var n := |s| - 1;
      TotalIsPlain(s[..n]);
      PlainGrows(s[..n], s[n]);
      assert s == s[..n] + [s[n]];
      ReduceOnce(Plain(s[..n]), s[n]);
    }
  }

  lemma PlainOfSeven(a: Long, b: Long, c: Long, d: Long, e: Long, f: Long, g: Long)
    ensures Plain([a, b, c, d, e, f, g]) == a + b + c + d + e + f + g
  {
    assert [a, b, c, d, e, f, g][1..] == [b, c, d, e, f, g];
    assert [b, c, d, e, f, g][1..] == [c, d, e, f, g] && [c, d, e, f, g][1..] == [d, e, f, g];
    assert [d, e, f, g][1..] == [e, f, g] && [e, f, g][1..] == [f, g] && [f, g][1..] == [g] && [g][1..] == [];
    assert Plain([g]) == g;
    assert Plain([f, g]) == f + g;
    assert Plain([e, f, g]) == e + f + g;
    assert Plain([d, e, f, g]) == d + e + f + g;
    assert Plain([c, d, e, f, g]) == c + d + e + f + g;
    assert Plain([b, c, d, e, f, g]) == b + c + d + e + f + g;
  }

  lemma RootedSums()
    ensures Total(ROOTED[..7]) == 0 && Total(ROOTED[7..]) == 0
  {
    TotalIsPlain(ROOTED[..7]);
    TotalIsPlain(ROOTED[7..]);
    hide Total, Plain;
    assert ROOTED[..7] == [RTH1_MAGIC, 0x1_0038, 1, 2, 0, 0, 0xADAA_B794];
    assert ROOTED[7..] == [RTO1_MAGIC, 0x1_001C, 3, 0x4000_0000, 0, 0, 0x6DAA_B0B0];
    PlainOfSeven(RTH1_MAGIC, 0x1_0038, 1, 2, 0, 0, 0xADAA_B794);
    PlainOfSeven(RTO1_MAGIC, 0x1_001C, 3, 0x4000_0000, 0, 0, 0x6DAA_B0B0);
  }

  /** One longword set to zero turns that record into a good one for the boot disk, and set back it
      turns it into one for the root record again. */
  lemma OneLongSwitchesDisks()
    ensures var boot := ROOTED[7 := 0];
      && Read(ROOTED) == Reading(Used, RootRecord, Request(3, 0x4000_0000, 0, false))
      && Read(boot) == Reading(Used, BootDisk, Request(2, 0, 0, false))
      && boot[7 := RTO1_MAGIC] == ROOTED
      && Unnoticed(ROOTED, 7, 0) && Unnoticed(boot, 7, RTO1_MAGIC)
  {
    var boot := ROOTED[7 := 0];
    RootedSums();
    hide Total;
    assert boot[..7] == ROOTED[..7] && boot[7..][0 := RTO1_MAGIC] == ROOTED[7..];
    assert boot[7 := RTO1_MAGIC] == ROOTED;
  }

  /** A root record that is there but bad is refused as such; it never falls through to the boot disk. */
  lemma BadRootRecordRefused(r: seq<Long>)
    requires |r| == RTH1_LONGS && r[7] != 0
    ensures Read(r).why.Used? ==> Read(r).source.RootRecord?
    ensures !Read(r).why.Used? ==> Read(r).why in {NoRecord, BadRecord, BadRootRecord}
  {
  }

  // ---- The same on the raw longwords

  /** The record's first seven longwords: magic "RTH1", version 1 with at least 0x38 bytes, sum zero. */
  ghost predicate Checked(r: seq<Long>)
    requires |r| == RTH1_LONGS
  {
    r[0] == 0x52544831 && 0x1_0038 <= r[1] <= 0x1_FFFF && Plain(r[..7]) % 0x1_0000_0000 == 0
  }

  /** The root record behind them: magic "RTO1", version 1 with at least 0x1c bytes, sum zero. */
  ghost predicate RootChecked(r: seq<Long>)
    requires |r| == RTH1_LONGS
  {
    && Checked(r) && r[7] == 0x52544F31 && 0x1_001C <= r[8] <= 0x1_FFFF
    && Plain(r[7..]) % 0x1_0000_0000 == 0
  }

  /** No root record, and the boot node bit set. */
  ghost predicate BootNode(r: seq<Long>)
    requires |r| == RTH1_LONGS
  {
    Checked(r) && r[7] == 0 && r[2] % 2 == 1
  }

  /** Controller `c` and no other is registered at `base`. */
  ghost predicate AtBase(cards: seq<Long>, base: Long, c: int) {
    |cards| == 2 && 0 <= c < 2 && cards[c] == base && cards[1 - c] != base
  }

  ghost predicate FirstAt(boards: seq<Board>, a: Long, k: int) {
    0 <= k < |boards| && boards[k].addr == a && forall j :: 0 <= j < k ==> boards[j].addr != a
  }

  /** The first AutoConfig entry at address `a` has this manufacturer word and product byte. */
  ghost predicate BoardIs(boards: seq<Board>, a: Long, id: Long) {
    exists k :: FirstAt(boards, a, k) && boards[k].manuf * 0x1_0000 + boards[k].product * 0x100 == id
  }

  ghost predicate WithId(boards: seq<Board>, cards: seq<Long>, id: Long, c: int) {
    && |cards| == 2 && 0 <= c < 2
    && cards[c] != 0 && BoardIs(boards, cards[c], id)
    && !(cards[1 - c] != 0 && BoardIs(boards, cards[1 - c], id))
  }

  ghost predicate NoBoard(boards: seq<Board>, a: Long) { forall k :: 0 <= k < |boards| ==> boards[k].addr != a }

  ghost predicate OnMotherboard(boards: seq<Board>, cards: seq<Long>, c: int) {
    && |cards| == 2 && 0 <= c < 2
    && cards[c] != 0 && NoBoard(boards, cards[c])
    && !(cards[1 - c] != 0 && NoBoard(boards, cards[1 - c]))
  }

  /** Longwords 2, 4 and 5 of a record without a root record name controller `c`. */
  ghost predicate BootDiskOn(r: seq<Long>, boards: seq<Board>, cards: seq<Long>, c: int)
    requires |r| == RTH1_LONGS
  {
    if r[2] / 2 % 2 == 1 then
      if r[4] != 0 then AtBase(cards, r[4], c) else r[5] != 0 && WithId(boards, cards, r[5], c)
    else r[2] / 4 % 2 == 1 && OnMotherboard(boards, cards, c)
  }

  /** Longwords 10, 11 and 12 of a record with a root record name controller `c`. */
  ghost predicate RootDiskOn(r: seq<Long>, boards: seq<Board>, cards: seq<Long>, c: int)
    requires |r| == RTH1_LONGS
  {
    if r[12] % 2 == 1 then OnMotherboard(boards, cards, c)
    else if r[10] != 0 then AtBase(cards, r[10], c)
    else r[11] != 0 && WithId(boards, cards, r[11], c)
  }

  lemma {:induction false} EntryIsFirst(boards: seq<Board>, a: Long, id: Long)
    ensures Entry(boards, a) == |boards| <==> NoBoard(boards, a)
    ensures BoardIs(boards, a, id) <==>
      var hit := Entry(boards, a); hit < |boards| && BoardId(boards[hit]) == id
  {
    var hit := Entry(boards, a);
    assert hit < |boards| ==> FirstAt(boards, a, hit);
    forall k | FirstAt(boards, a, k) ensures k == hit {
      assert !(hit < k) && !(k < hit);
    }
  }

  /** The only match of each kind of request, in raw terms. */
  lemma OnlyMatchMeans(boards: seq<Board>, cards: seq<Long>, q: Request, c: int)
    requires |cards| == SDCARDS && Asks(q)
    ensures OnlyMatch(boards, cards, q, c) <==>
      if q.mobo then OnMotherboard(boards, cards, c)
      else if q.base != 0 then AtBase(cards, q.base, c)
      else WithId(boards, cards, q.id, c)
  {
    EntryIsFirst(boards, cards[0], q.id);
    EntryIsFirst(boards, cards[1], q.id);
    hide Entry;
    if 0 <= c < 2 {
      assert OnlyMatch(boards, cards, q, c) <==>
        Matches(boards, cards, q, c) && !Matches(boards, cards, q, 1 - c);
    }
  }

  /** Which record asks, and why one does not, from the longwords alone. */
  lemma ReadMeans(r: seq<Long>)
    requires |r| == RTH1_LONGS
    ensures var rd := Read(r);
      && (rd.why.NoRecord? <==> r[0] == 0)
      && (rd.why.BadRecord? <==> r[0] != 0 && !Checked(r))
      && (rd.why.BadRootRecord? <==> Checked(r) && r[7] != 0 && !RootChecked(r))
      && (rd.why.NoBootNode? <==> Checked(r) && r[7] == 0 && r[2] % 2 == 0)
      && (rd.why.Used? <==> RootChecked(r) || BootNode(r))
      && (rd.why.Used? ==> (rd.source.RootRecord? <==> RootChecked(r)))
  {
    TotalIsPlain(r[..7]);
    TotalIsPlain(r[7..]);
    hide Total, Plain;
  }

  /** The verdict on a record, the unit and the controllers, from the longwords alone. */
  lemma VerdictMeans(r: seq<Long>, boards: seq<Board>, cards: seq<Long>)
    requires |r| == RTH1_LONGS && |cards| == SDCARDS
    ensures var rd, v := Read(r), Verdict(Read(r), boards, cards);
      && (v.UnitRange? <==> (BootNode(r) && r[3] > 7) || (RootChecked(r) && r[9] > 7))
      && (v.Used? && rd.source.BootDisk? <==>
            BootNode(r) && r[3] <= 7 && exists c :: BootDiskOn(r, boards, cards, c))
      && (v.Used? && rd.source.RootRecord? <==>
            RootChecked(r) && r[9] <= 7 && exists c :: RootDiskOn(r, boards, cards, c))
  {
    ReadMeans(r);
    RequestMeans(r, boards, cards);
    hide Total, Plain, Entry;
  }

  /** The request and its only match, from the longwords alone. */
  lemma RequestMeans(r: seq<Long>, boards: seq<Board>, cards: seq<Long>)
    requires |r| == RTH1_LONGS && |cards| == SDCARDS
    ensures var q := Read(r).q;
      && (BootNode(r) ==> q.unit == r[3])
      && (RootChecked(r) ==> q.unit == r[9])
      && (BootNode(r) ==>
            forall c :: BootDiskOn(r, boards, cards, c) <==> Asks(q) && OnlyMatch(boards, cards, q, c))
      && (RootChecked(r) ==>
            forall c :: RootDiskOn(r, boards, cards, c) <==> Asks(q) && OnlyMatch(boards, cards, q, c))
  {
    ReadMeans(r);
    var q := Read(r).q;
    hide Total, Plain, Entry;
    forall c | Asks(q)
      ensures OnlyMatch(boards, cards, q, c) <==>
        if q.mobo then OnMotherboard(boards, cards, c)
        else if q.base != 0 then AtBase(cards, q.base, c)
        else WithId(boards, cards, q.id, c)
    {
      OnlyMatchMeans(boards, cards, q, c);
    }
    hide OnlyMatch, OnMotherboard, AtBase, WithId;
  }

  // ---- Applying it

  const HEAD: seq<Byte> := [0x2F, 0x64, 0x65, 0x76, 0x2F, 0x64, 0x73, 0x6B, 0x2F, 0x63]
  const TAIL: seq<Byte> := [0x64, 0x30, 0x73, 0x32, 0x00]

  /** The device is an sd disk and the swap name is /dev/dsk/c?d0s2, NUL included. */
  predicate DiskRooted(dev: Long, swap: seq<Byte>) {
    && dev / 0x4_0000 == SD_MAJOR
    && |swap| >= BO_NAME + 16
    && swap[BO_NAME..BO_NAME + 10] == HEAD
    && swap[BO_NAME + 11..BO_NAME + 16] == TAIL
  }

  function HexDigit(v: Byte): Byte
    requires v < 16
  {
    if v < 10 then 0x30 + v else 0x61 + v - 10
  }

  /** The independent reading of a name digit: int(digit, 16), or 16 if it is not a hex digit. */
  function DigitValue(d: Byte): nat {
    if 0x30 <= d <= 0x39 then d - 0x30
    else if 0x61 <= d <= 0x66 then d - 0x61 + 10
    else if 0x41 <= d <= 0x46 then d - 0x41 + 10
    else 16
  }

  /** The independent decoder of a device number. */
  datatype Device = Device(major: nat, unit: nat, card: nat, slice: nat, controller: nat)

  function DecodeDev(dev: Long): Device {
    var minor := dev % 0x4_0000;
    Device(dev / 0x4_0000 % 0x100, minor % 8, minor / 8 % 2, minor / 16 % 8, minor % 16)
  }

  /** Slice 1 of controller `v`: the low byte is replaced, the rest of the number is kept. */
  function NewDev(dev: Long, v: nat): Long
    requires v < 16
  {
    dev - dev % 0x100 + 0x10 + v
  }

  /** The device number's upper fourteen bits are 18 and the name is the literal one. */
  lemma RootedMeans(dev: Long, swap: seq<Byte>)
    ensures DiskRooted(dev, swap) <==>
      && dev / 0x4_0000 == 18 && |swap| >= 32
      && forall i :: 0 <= i < 16 && i != 10 ==> swap[16 + i] == "/dev/dsk/c?d0s2\0"[i] as int
  {
    if |swap| >= 32 {
      var name := "/dev/dsk/c?d0s2\0";
      assert forall i :: 0 <= i < 10 ==> HEAD[i] == name[i] as int;
      assert forall i :: 0 <= i < 5 ==> TAIL[i] == name[11 + i] as int;
      assert swap[16..26] == HEAD <==> forall i :: 0 <= i < 10 ==> swap[16..26][i] == HEAD[i];
      assert swap[27..32] == TAIL <==> forall i :: 0 <= i < 5 ==> swap[27..32][i] == TAIL[i];
      if DiskRooted(dev, swap) {
        forall i | 0 <= i < 16 && i != 10 ensures swap[16 + i] == name[i] as int {
          if i < 10 {
            assert swap[16..26][i] == HEAD[i];
          } else {
            assert swap[27..32][i - 11] == TAIL[i - 11];
          }
        }
      }
      if forall i :: 0 <= i < 16 && i != 10 ==> swap[16 + i] == name[i] as int {
        assert forall i :: 0 <= i < 5 ==> swap[27..32][i] == swap[16 + (11 + i)];
      }
    }
  }

  class Kernel {
    var rootdev: Long
    var swapfile: array<Byte>
    var used: nat
    var why: Reason

    constructor (rootdev: Long, swapfile: array<Byte>)
      ensures this.rootdev == rootdev && this.swapfile == swapfile
    {
      this.rootdev, this.swapfile, used, why := rootdev, swapfile, 0, NotDiskRooted;
    }

    method CheckRooted() returns (ok: bool)
      requires swapfile.Length >= BO_NAME + 16
      ensures ok <==> DiskRooted(rootdev, swapfile[..])
    {
      if rootdev / 0x4_0000 != SD_MAJOR { return false; }
      for i := 0 to 10
        invariant forall k :: 0 <= k < i ==> swapfile[BO_NAME + k] == HEAD[k]
      {
        if swapfile[BO_NAME + i] != HEAD[i] {
          assert swapfile[..][BO_NAME..BO_NAME + 10][i] != HEAD[i];
          return false;
        }
      }
      for i := 0 to 5
        invariant forall k :: 0 <= k < i ==> swapfile[BO_NAME + 11 + k] == TAIL[k]
      {
        if swapfile[BO_NAME + 11 + i] != TAIL[i] {
          assert swapfile[..][BO_NAME + 11..BO_NAME + 16][i] != TAIL[i];
          return false;
        }
      }
      assert swapfile[..][BO_NAME..BO_NAME + 10] == HEAD;
      assert swapfile[..][BO_NAME + 11..BO_NAME + 16] == TAIL;
      return true;
    }

    /** rth1_apply: both rootdev and the digit, or neither. */
    method Apply(r: seq<Long>, boards: seq<Board>, cards: seq<Long>)
      requires |r| == RTH1_LONGS && |boards| == NAUTO && |cards| == SDCARDS && swapfile.Length >= BO_NAME + 16
      modifies this, swapfile
      ensures swapfile == old(swapfile)
      ensures used == 0 <==> !why.Used?
      ensures used == 0 ==> rootdev == old(rootdev) && swapfile[..] == old(swapfile[..])
      ensures used > 0 ==> var rd := Read(r);
        && used == (if rd.source.RootRecord? then 2 else 1)
        && Agrees(old(rootdev), old(swapfile[..]), rootdev, swapfile[..], rd.q, boards, cards)
      ensures why.NotDiskRooted? <==> !DiskRooted(old(rootdev), old(swapfile[..]))
      ensures DiskRooted(old(rootdev), old(swapfile[..])) ==>
        why == Verdict(Read(r), boards, cards)
      ensures DiskRooted(old(rootdev), old(swapfile[..])) ==>
        && (why.NoRecord? <==> r[0] == 0)
        && (why.BadRecord? <==> r[0] != 0 && !Checked(r))
        && (why.BadRootRecord? <==> Checked(r) && r[7] != 0 && !RootChecked(r))
        && (why.NoBootNode? <==> Checked(r) && r[7] == 0 && r[2] % 2 == 0)
        && (why.UnitRange? <==> (BootNode(r) && r[3] > 7) || (RootChecked(r) && r[9] > 7))
        && (used == 1 <==> BootNode(r) && r[3] <= 7 && exists c :: BootDiskOn(r, boards, cards, c))
        && (used == 2 <==> RootChecked(r) && r[9] <= 7 && exists c :: RootDiskOn(r, boards, cards, c))
      ensures used == 1 ==> rootdev % 8 == r[3] && BootDiskOn(r, boards, cards, rootdev / 8 % 2)
      ensures used == 2 ==> rootdev % 8 == r[9] && RootDiskOn(r, boards, cards, rootdev / 8 % 2)
      ensures used > 0 ==>
        var low := rootdev % 0x100;
        && rootdev == old(rootdev) / 0x100 * 0x100 + low && 0x10 <= low < 0x20
        && swapfile[..] == old(swapfile[..])[26 := "0123456789abcdef"[low - 0x10] as int]
    {
      ReadMeans(r);
      RequestMeans(r, boards, cards);
      VerdictMeans(r, boards, cards);
      used, why := 0, Used;
      var rd := Read(r);
      var card := -1;
      var rooted := CheckRooted();
      if !rooted {
        why := NotDiskRooted;
      } else {
        why := rd.why;
      }
      if why.Used? && rd.q.unit > 7 {
        why := UnitRange;
      }
      if why.Used? {
        card := Card(boards, cards, rd.q);
        if card < 0 {
          why := NotPresent;
        }
      }
      if why.Used? {
        var v := card * 8 + rd.q.unit;
        Written(rootdev, swapfile[..], rd.q.unit, card);
        LowByteIs(rootdev, rd.q.unit, card);
        rootdev := NewDev(rootdev, v);
        swapfile[BO_NAME + 10] := HexDigit(v);
        used := if rd.source.RootRecord? then 2 else 1;
      }
    }
  }

  ghost function Verdict(rd: Reading, boards: seq<Board>, cards: seq<Long>): Reason {
    if !rd.why.Used? then rd.why
    else if rd.q.unit > 7 then UnitRange
    else if Asks(rd.q) && exists c :: OnlyMatch(boards, cards, rd.q, c) then Used
    else NotPresent
  }

  /** A hint that was used: the device and the name the second decoder reads from the result agree
      with each other and with the request, and nothing else changed. */
  ghost predicate Agrees(dev: Long, swap: seq<Byte>, dev': Long, swap': seq<Byte>, q: Request,
                         boards: seq<Board>, cards: seq<Long>) {
    && DiskRooted(dev', swap')
    && OnlyMatch(boards, cards, q, DecodeDev(dev').card)
    && DecodeDev(dev').unit == q.unit && DecodeDev(dev').slice == 1
    && DecodeDev(dev').major == DecodeDev(dev).major && dev' / 0x100 == dev / 0x100
    && |swap'| == |swap| && DigitValue(swap'[BO_NAME + 10]) == DecodeDev(dev').controller
    && forall i :: 0 <= i < |swap| && i != BO_NAME + 10 ==> swap'[i] == swap[i]
  }

  lemma Written(dev: Long, swap: seq<Byte>, unit: nat, card: nat)
    requires DiskRooted(dev, swap) && unit <= 7 && card < SDCARDS
    ensures var v := card * 8 + unit;
      var dev', swap' := NewDev(dev, v), swap[BO_NAME + 10 := HexDigit(v)];
      && DiskRooted(dev', swap')
      && DecodeDev(dev') == Device(DecodeDev(dev).major, unit, card, 1, v)
      && dev' / 0x100 == dev / 0x100
      && DigitValue(HexDigit(v)) == v
  {
    var v := card * 8 + unit;
    SwapStaysRooted(dev, swap, NewDev(dev, v), HexDigit(v));
    NewDevDecodes(dev, unit, card);
  }

  /** The new low byte and digit, as they stand in the image. */
  lemma LowByteIs(dev: Long, unit: nat, card: nat)
    requires unit <= 7 && card < SDCARDS
    ensures var v := card * 8 + unit;
      var dev' := NewDev(dev, v);
      && dev' % 0x100 == 0x10 + v && dev' == dev / 0x100 * 0x100 + (0x10 + v)
      && dev' % 8 == unit && dev' / 8 % 2 == card
      && HexDigit(v) == "0123456789abcdef"[v] as int
  {
    var high, low := dev / 0x100, 0x10 + card * 8 + unit;
    assert NewDev(dev, card * 8 + unit) == 0x100 * high + low;
    Shift8(high, low);
    SliceOne(unit, card);
  }

  lemma SwapStaysRooted(dev: Long, swap: seq<Byte>, dev': Long, digit: Byte)
    requires DiskRooted(dev, swap)
    ensures dev' / 0x4_0000 == dev / 0x4_0000 ==> DiskRooted(dev', swap[BO_NAME + 10 := digit])
  {
    var swap' := swap[BO_NAME + 10 := digit];
    assert swap'[BO_NAME..BO_NAME + 10] == swap[BO_NAME..BO_NAME + 10];
    assert swap'[BO_NAME + 11..BO_NAME + 16] == swap[BO_NAME + 11..BO_NAME + 16];
  }

  lemma SliceOne(unit: nat, card: nat)
    requires unit <= 7 && card < SDCARDS
    ensures var low := 0x10 + card * 8 + unit;
      low % 8 == unit && low / 8 % 2 == card && low / 16 % 8 == 1 && low % 16 == card * 8 + unit
  {
  }

  lemma NewDevDecodes(dev: Long, unit: nat, card: nat)
    requires unit <= 7 && card < SDCARDS
    ensures var v := card * 8 + unit;
      var dev' := NewDev(dev, v);
      && DecodeDev(dev') == Device(DecodeDev(dev).major, unit, card, 1, v)
      && dev' / 0x100 == dev / 0x100 && dev' / 0x4_0000 == dev / 0x4_0000
  {
    var v := card * 8 + unit;
    var high := dev / 0x100;
    assert dev == 0x100 * high + dev % 0x100 && NewDev(dev, v) == 0x100 * high + (0x10 + v);
    LowByte(high, dev % 0x100);
    LowByte(high, 0x10 + v);
    SliceOne(unit, card);
  }

  /** A device number by its upper bits and its low byte. */
  lemma LowByte(high: nat, low: nat)
    requires low < 0x100
    ensures var dev := 0x100 * high + low;
      && dev / 0x100 == high && dev / 0x4_0000 == high / 0x400
      && dev % 0x4_0000 % 8 == low % 8 && dev % 0x4_0000 / 8 % 2 == low / 8 % 2
      && dev % 0x4_0000 / 16 % 8 == low / 16 % 8 && dev % 0x4_0000 % 16 == low % 16
  {
    var k := high % 0x400;
    var minor := 0x100 * k + low;
    assert 0x100 * high + low == 0x4_0000 * (high / 0x400) + minor;
    assert (0x100 * high + low) % 0x4_0000 == minor;
    MinorBits(k, low);
  }

  lemma MinorBits(k: nat, low: nat)
    requires low < 0x100
    ensures var minor := 0x100 * k + low;
      && minor % 8 == low % 8 && minor / 8 % 2 == low / 8 % 2
      && minor / 16 % 8 == low / 16 % 8 && minor % 16 == low % 16
  {
    Shift8(k, low);
    Shift16(k, low);
  }

  lemma Shift8(k: nat, low: nat)
    ensures (0x100 * k + low) % 8 == low % 8 && (0x100 * k + low) / 8 == 32 * k + low / 8
    ensures (0x100 * k + low) / 8 % 2 == low / 8 % 2
  {
    assert 0x100 * k + low == 8 * (32 * k + low / 8) + low % 8;
  }

  lemma Shift16(k: nat, low: nat)
    ensures (0x100 * k + low) % 16 == low % 16 && (0x100 * k + low) / 16 == 16 * k + low / 16
    ensures (0x100 * k + low) / 16 % 8 == low / 16 % 8
  {
    assert 0x100 * k + low == 16 * (16 * k + low / 16) + low % 16;
    assert 16 * k + low / 16 == 8 * (2 * k + low / 16 / 8) + low / 16 % 8;
  }
}
