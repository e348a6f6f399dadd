/** The telnet side of the command runner: a filter that strips negotiation from a byte stream that
    arrives in arbitrary chunks, and answers every option request with a refusal. */
module Telnet {
  type Byte = x: int | 0 <= x < 256

  const IAC: Byte := 255
  const DONT: Byte := 254
  const DO: Byte := 253
  const WONT: Byte := 252
  const WILL: Byte := 251
  const SB: Byte := 250
  const SE: Byte := 240

  predicate Negotiates(cmd: Byte) {
    cmd == DO || cmd == DONT || cmd == WILL || cmd == WONT
  }

  function Refusal(cmd: Byte, opt: Byte): seq<Byte> {
    if cmd == DO then [IAC, WONT, opt] else if cmd == WILL then [IAC, DONT, opt] else []
  }

  datatype Find = Missing | At(pos: nat)

  /** The first position at or after `from` where IAC SE stands. */
  function FindEnd(d: seq<Byte>, from: nat): Find
    decreases |d| - from
  {
    if from + 1 >= |d| then Missing
    else if d[from] == IAC && d[from + 1] == SE then At(from)
    else FindEnd(d, from + 1)
  }

  /** One token read off the front of a stream: not yet complete, or `len` bytes long. */
  datatype Step = Incomplete | Token(len: nat, out: seq<Byte>, reply: seq<Byte>)

  function Next(d: seq<Byte>): (s: Step)
    requires d != []
    ensures s.Token? ==> 0 < s.len
  {
    if d[0] != IAC then Token(1, [d[0]], [])
    else if |d| < 2 then Incomplete
    else if d[1] == IAC then Token(2, [IAC], [])
    else if Negotiates(d[1]) then
      if |d| < 3 then Incomplete else Token(3, [], Refusal(d[1], d[2]))
    else if d[1] == SB then
      match FindEnd(d, 2)
      case Missing => Incomplete
      case At(j) => Token(j + 2, [], [])
    else Token(2, [], [])
  }

  datatype Decoded = Decoded(out: seq<Byte>, reply: seq<Byte>, pending: seq<Byte>) {
    /** `this` followed by `next`, which was decoded from this pending tail and newer bytes. */
    function Then(next: Decoded): Decoded {
      Decoded(out + next.out, reply + next.reply, next.pending)
    }
  }

  /** What a whole stream means: its payload, the refusals it provokes, the unfinished tail. */
  function Decode(d: seq<Byte>): Decoded
    decreases |d|
  {
    if d == [] then Decoded([], [], [])
    else
      match Next(d)
      case Incomplete => Decoded([], [], d)
      case Token(n, o, r) =>
        NextFits(d);
        Decoded(o, r, []).Then(Decode(d[n..]))
  }

  // ---- The token reader only looks at the token it reads

  lemma {:induction false} FindEndFits(d: seq<Byte>, from: nat)
    ensures FindEnd(d, from).At? ==> from <= FindEnd(d, from).pos && FindEnd(d, from).pos + 2 <= |d|
    decreases |d| - from
  {
    if from + 1 < |d| && !(d[from] == IAC && d[from + 1] == SE) {
      FindEndFits(d, from + 1);
    }
  }

  lemma NextFits(d: seq<Byte>)
    requires d != []
    ensures Next(d).Token? ==> Next(d).len <= |d|
  {
    FindEndFits(d, 2);
  }

  lemma {:induction false} FindEndStable(d: seq<Byte>, e: seq<Byte>, from: nat)
    ensures FindEnd(d, from).At? ==> FindEnd(d + e, from) == FindEnd(d, from)
    decreases |d| - from
  {
    if from + 1 < |d| {
      assert (d + e)[from] == d[from] && (d + e)[from + 1] == d[from + 1];
      FindEndStable(d, e, from + 1);
    }
  }

  ghost predicate PairAt(d: seq<Byte>, j: int) { 0 <= j && j + 1 < |d| && d[j] == 255 && d[j + 1] == 240 }

  /** The search finds the first 255 240 at or after `from`, and nothing only if there is none. */
  lemma {:induction false} EndIsFirstPair(d: seq<Byte>, from: nat)
    ensures FindEnd(d, from).Missing? <==> forall j :: from <= j ==> !PairAt(d, j)
    ensures forall j: nat :: FindEnd(d, from) == At(j) ==>
      from <= j && PairAt(d, j) && forall k :: from <= k < j ==> !PairAt(d, k)
    decreases |d| - from
  {
    if from + 1 < |d| && !PairAt(d, from) {
      EndIsFirstPair(d, from + 1);
    } else if from + 1 < |d| {
      assert PairAt(d, from);
    }
  }

  /** A complete token stays the same token whatever arrives after it. */
  lemma NextStable(d: seq<Byte>, e: seq<Byte>)
    requires d != []
    ensures Next(d).Token? ==> Next(d + e) == Next(d)
  {
    assert (d + e)[0] == d[0];
    if |d| > 1 {
      assert (d + e)[1] == d[1];
      FindEndStable(d, e, 2);
    }
  }

  // ---- Chunking does not matter

  lemma ThenAssociates(x: Decoded, y: Decoded, z: Decoded)
    ensures x.Then(y).Then(z) == x.Then(y.Then(z))
  {
    assert x.out + y.out + z.out == x.out + (y.out + z.out);
    assert x.reply + y.reply + z.reply == x.reply + (y.reply + z.reply);
  }

  /** A stream that starts with `head`, itself one token. */
  lemma DecodeToken(head: seq<Byte>, rest: seq<Byte>)
    requires head != [] && Next(head).Token? && Next(head).len == |head|
    ensures Decode(head + rest) == Decoded(Next(head).out, Next(head).reply, []).Then(Decode(rest))
  {
    NextStable(head, rest);
    assert (head + rest)[|head|..] == rest;
  }

  /** `head` is read off the front of any stream, giving `out` and the answer `reply`. */
  ghost predicate Reads(head: seq<Byte>, out: seq<Byte>, reply: seq<Byte>) {
    forall rest :: Decode(head + rest) == Decoded(out, reply, []).Then(Decode(rest))
  }

  lemma TokenReads(head: seq<Byte>, out: seq<Byte>, reply: seq<Byte>)
    requires head != [] && Next(head) == Token(|head|, out, reply)
    ensures Reads(head, out, reply)
  {
    forall rest ensures Decode(head + rest) == Decoded(out, reply, []).Then(Decode(rest)) {
      DecodeToken(head, rest);
    }
  }

  /** The sequences by their codes (RFC 854, "TELNET COMMAND STRUCTURE"): a byte below 255 stands for
      itself and 255 255 for 255; 253 is refused with 252 and 251 with 254, on the same option; 252 and
      254 get no answer; every other two-byte command is dropped. */
  lemma EveryCommand(a: Byte)
    ensures a != 255 ==> Reads([a], [a], [])
    ensures Reads([255, 255], [255], [])
    ensures Reads([255, 253, a], [], [255, 252, a]) && Reads([255, 251, a], [], [255, 254, a])
    ensures Reads([255, 252, a], [], []) && Reads([255, 254, a], [], [])
    ensures a < 250 ==> Reads([255, a], [], [])
  {
    hide Decode, Reads;
    if a != 255 {
      TokenReads([a], [a], []);
    }
    TokenReads([255, 255], [255], []);
    TokenReads([255, 253, a], [], [255, 252, a]);
    TokenReads([255, 251, a], [], [255, 254, a]);
    TokenReads([255, 252, a], [], []);
    TokenReads([255, 254, a], [], []);
    if a < 250 {
      TokenReads([255, a], [], []);
    }
  }

  /** What waits for more bytes: a lone 255, a request without its option, and 255 250 without a later
      255 240; with one, everything up to the first is dropped. */
  lemma Unfinished(d: seq<Byte>)
    requires d != [] && d[0] == 255
    ensures |d| == 1 || (|d| == 2 && d[1] in {251, 252, 253, 254}) ==> Decode(d) == Decoded([], [], d)
    ensures |d| > 1 && d[1] == 250 && (forall j :: 2 <= j ==> !PairAt(d, j)) ==> Decode(d) == Decoded([], [], d)
    ensures |d| > 1 && d[1] == 250 ==>
      forall j :: 2 <= j && PairAt(d, j) && (forall k :: 2 <= k < j ==> !PairAt(d, k)) ==>
        Decode(d) == Decode(d[j + 2..])
  {
    if |d| > 1 && d[1] == 250 {
      EndIsFirstPair(d, 2);
      forall j | 2 <= j && PairAt(d, j) && (forall k :: 2 <= k < j ==> !PairAt(d, k))
        ensures Decode(d) == Decode(d[j + 2..])
      {
        DropsTo(d, j);
      }
    }
  }

  lemma DropsTo(d: seq<Byte>, j: nat)
    requires |d| > 1 && d[0] == 255 && d[1] == 250
    requires 2 <= j && PairAt(d, j) && forall k :: 2 <= k < j ==> !PairAt(d, k)
    ensures Decode(d) == Decode(d[j + 2..])
  {
    EndIsFirstPair(d, 2);
    var i := FindEnd(d, 2).pos;
    assert !(j < i) && !(i < j);
    assert Next(d) == Token(j + 2, [], []);
    hide FindEnd, Next;
    var z := Decode(d[j + 2..]);
    assert [] + z.out == z.out && [] + z.reply == z.reply;
  }

  /** Decoding in two parts, with the unfinished tail carried over, is decoding at once. */
  lemma {:induction false} SplitInvariance(a: seq<Byte>, b: seq<Byte>)
    ensures Decode(a + b) == Decode(a).Then(Decode(Decode(a).pending + b))
    decreases |a|
  {
    if a == [] {
      assert a + b == b && [] + b == b;
    } else if Next(a).Token? {
      NextFits(a);
      var n := Next(a).len;
      NextStable(a, b);
      assert (a + b)[n..] == a[n..] + b;
      SplitInvariance(a[n..], b);
      ThenAssociates(Decoded(Next(a).out, Next(a).reply, []), Decode(a[n..]),
                     Decode(Decode(a[n..]).pending + b));
    }
  }

  function Concat(chunks: seq<seq<Byte>>): seq<Byte> {
    if chunks == [] then [] else Concat(chunks[..|chunks| - 1]) + chunks[|chunks| - 1]
  }

  /** What successive calls produce when each prepends the tail the previous one left. */
  function Feed(chunks: seq<seq<Byte>>): Decoded {
    if chunks == [] then Decoded([], [], [])
    else
      var before := Feed(chunks[..|chunks| - 1]);
      before.Then(Decode(before.pending + chunks[|chunks| - 1]))
  }

  /** For every stream and every way of cutting it, output, replies and pending bytes agree. */
  lemma {:induction false} ChunkingInvariance(chunks: seq<seq<Byte>>)
    ensures Feed(chunks) == Decode(Concat(chunks))
    decreases |chunks|
  {
    if chunks != [] {
      ChunkingInvariance(chunks[..|chunks| - 1]);
      SplitInvariance(Concat(chunks[..|chunks| - 1]), chunks[|chunks| - 1]);
    }
  }

  lemma {:induction false} FindEndClosed(p: seq<Byte>, from: nat)
    requires FindEnd(p, from) == Missing && from <= |p|
    ensures exists e :: FindEnd(p + e, from).At? && FindEnd(p + e, from).pos + 2 == |p + e|
    decreases |p| - from
  {
    if from + 1 < |p| {
      FindEndClosed(p, from + 1);
      var e :| FindEnd(p + e, from + 1).At? && FindEnd(p + e, from + 1).pos + 2 == |p + e|;
      assert (p + e)[from] == p[from] && (p + e)[from + 1] == p[from + 1];
      assert FindEnd(p + e, from) == FindEnd(p + e, from + 1);
    } else if from + 1 == |p| && p[from] == IAC {
      assert FindEnd(p + [SE], from) == At(from);
    } else {
      var e := [IAC, SE];
      assert FindEnd(p + e, |p|) == At(|p|);
      if from + 1 == |p| {
        assert (p + e)[from] == p[from];
        assert FindEnd(p + e, from) == FindEnd(p + e, |p|);
      }
    }
  }

  /** The carried tail is empty or a proper prefix of exactly one token: some bytes complete it to
      one token, and no shorter part of it is a token already. */
  lemma {:induction false} PendingIsPartOfOneToken(d: seq<Byte>)
    ensures var p := Decode(d).pending; p != [] ==>
      && Next(p) == Incomplete
      && (forall k :: 0 < k <= |p| ==> Next(p[..k]) == Incomplete)
      && exists e :: e != [] && Next(p + e).Token? && Next(p + e).len == |p + e|
    decreases |d|
  {
    var p := Decode(d).pending;
    if d != [] && Next(d).Token? {
      NextFits(d);
      PendingIsPartOfOneToken(d[Next(d).len..]);
    } else if p != [] {
      forall k | 0 < k <= |p| ensures Next(p[..k]) == Incomplete {
        assert p[..k] + p[k..] == p;
        NextStable(p[..k], p[k..]);
      }
      IncompleteCompletes(p);
    }
  }

  lemma IncompleteCompletes(p: seq<Byte>)
    requires p != [] && Next(p) == Incomplete
    ensures exists e :: e != [] && Next(p + e).Token? && Next(p + e).len == |p + e|
  {
    if |p| == 1 {
      assert Next(p + [IAC]) == Token(2, [IAC], []);
    } else if Negotiates(p[1]) {
      assert Next(p + [0]).Token? && Next(p + [0]).len == 3;
    } else {
      FindEndClosed(p, 2);
      var e :| FindEnd(p + e, 2).At? && FindEnd(p + e, 2).pos + 2 == |p + e|;
      assert (p + e)[0] == p[0] && (p + e)[1] == p[1];
      assert p + [] == p;
      assert Next(p + e) == Token(|p + e|, [], []);
    }
  }

  // ---- Round trip

  /** What a peer may put on the wire (RFC 854 "TELNET COMMAND STRUCTURE", RFC 855). */
  datatype Item =
    | Payload(b: Byte)
    | Option(cmd: Byte, opt: Byte)
    | Subnegotiation(what: Byte, body: seq<Byte>)
    | Command(code: Byte)
  {
    predicate WellFormed() {
      match this
      case Payload(_) => true
      case Option(c, _) => Negotiates(c)
      case Subnegotiation(_, _) => true
      case Command(c) => c != IAC && c != SB && !Negotiates(c)
    }
  }

  function Escape(s: seq<Byte>): seq<Byte> {
    if s == [] then [] else (if s[0] == IAC then [IAC, IAC] else [s[0]]) + Escape(s[1..])
  }

  function Wire(item: Item): seq<Byte> {
    match item
    case Payload(b) => Escape([b])
    case Option(c, o) => [IAC, c, o]
    case Subnegotiation(o, body) => [IAC, SB, o] + Escape(body) + [IAC, SE]
    case Command(c) => [IAC, c]
  }

  function WireAll(items: seq<Item>): seq<Byte> {
    if items == [] then [] else Wire(items[0]) + WireAll(items[1..])
  }

  /** IAC directly followed by SE somewhere in the option byte and the unescaped body. */
  predicate PairIn(prev: Byte, body: seq<Byte>)
    decreases |body|
  {
    body != [] && ((prev == IAC && body[0] == SE) || PairIn(body[0], body[1..]))
  }

  /** The bytes behind the first IAC SE pair inside a subnegotiation's option and body: the search
      takes that pair for the end, so these come out as payload. */
  function Leak(prev: Byte, body: seq<Byte>): seq<Byte>
    decreases |body|
  {
    if body == [] then []
    else if prev == IAC && body[0] == SE then body[1..]
    else Leak(body[0], body[1..])
  }

  function Delivered(item: Item): seq<Byte> {
    match item
    case Payload(b) => [b]
    case Subnegotiation(o, body) => Leak(o, body)
    case _ => []
  }

  function Answer(item: Item): seq<Byte> {
    if item.Option? then Refusal(item.cmd, item.opt) else []
  }

  function DeliveredAll(items: seq<Item>): seq<Byte> {
    if items == [] then [] else Delivered(items[0]) + DeliveredAll(items[1..])
  }

  function AnswerAll(items: seq<Item>): seq<Byte> {
    if items == [] then [] else Answer(items[0]) + AnswerAll(items[1..])
  }

  function PayloadOf(items: seq<Item>): seq<Byte> {
    if items == [] then []
    else (if items[0].Payload? then [items[0].b] else []) + PayloadOf(items[1..])
  }

  lemma {:induction false} EscapedPayload(s: seq<Byte>, rest: seq<Byte>)
    ensures Decode(Escape(s) + rest) == Decoded(s, [], []).Then(Decode(rest))
    decreases |s|
  {
    if s == [] {
      assert Escape(s) + rest == rest;
    } else {
      var head := if s[0] == IAC then [IAC, IAC] else [s[0]];
      assert Escape(s) + rest == head + (Escape(s[1..]) + rest);
      DecodeToken(head, Escape(s[1..]) + rest);
      EscapedPayload(s[1..], rest);
      ThenAssociates(Decoded([s[0]], [], []), Decoded(s[1..], [], []), Decode(rest));
      assert [s[0]] + s[1..] == s;
    }
  }

  /** The search from `i` ends just before `tail`. */
  predicate StopsBefore(d: seq<Byte>, i: nat, tail: seq<Byte>) {
    var hit := FindEnd(d, i);
    hit.At? && hit.pos + 2 <= |d| && d[hit.pos + 2..] == tail
  }

  lemma PairStops(d: seq<Byte>, i: nat)
    requires i + 1 < |d| && d[i] == IAC && d[i + 1] == SE
    ensures StopsBefore(d, i, d[i + 2..])
  {
  }

  /** Inside a subnegotiation the search stops at the first IAC SE pair of option and body, else at
      the real end, which `z` starts with; the byte at `i` is `prev`, the escaped body follows. */
  lemma {:induction false} SearchInBody(d: seq<Byte>, i: nat, prev: Byte, body: seq<Byte>, z: seq<Byte>)
    requires i < |d| && d[i] == prev && d[i + 1..] == Escape(body) + z && |z| >= 2 && z[0] == IAC && z[1] == SE
    ensures StopsBefore(d, i, if PairIn(prev, body) then Escape(Leak(prev, body)) + z else z[2..])
    decreases |body|
  {
    hide FindEnd, StopsBefore;
    var e := d[i + 1..];
    if body == [] {
      assert e == z;
      assert d[i + 1] == e[0] && d[i + 2] == e[1] && d[i + 3..] == z[2..];
      PairStops(d, i + 1);
      SearchMoves(d, i, i + 1, prev, IAC, z[2..]);
    } else {
      var b := body[0];
      var n := if b == IAC then 2 else 1;
      assert e[n..] == Escape(body[1..]) + z && d[i + 1 + n..] == e[n..];
      assert d[i + 1] == e[0] && e[0] == b && (b == IAC ==> d[i + 2] == e[1] && e[1] == IAC);
      if prev == IAC && b == SE {
        PairStops(d, i);
      } else {
        SearchInBody(d, i + n, b, body[1..], z);
        SearchMoves(d, i, i + n, prev, b, if PairIn(b, body[1..]) then Escape(Leak(b, body[1..])) + z else z[2..]);
      }
    }
  }

  /** The search steps over a byte of the body, doubled or not, that does not complete the pair. */
  lemma SearchMoves(d: seq<Byte>, i: nat, k: nat, prev: Byte, b: Byte, tail: seq<Byte>)
    requires i + 2 < |d| && d[i] == prev && d[i + 1] == b && !(prev == IAC && b == SE)
    requires k == i + 1 || (k == i + 2 && b == IAC && d[k] == IAC)
    requires StopsBefore(d, k, tail)
    ensures StopsBefore(d, i, tail)
  {
    assert FindEnd(d, i) == FindEnd(d, i + 1);
  }

  lemma WireItem(item: Item, rest: seq<Byte>)
    requires item.WellFormed()
    ensures Decode(Wire(item) + rest) == Decoded(Delivered(item), Answer(item), []).Then(Decode(rest))
  {
    match item {
      case Payload(b) =>
        EscapedPayload([b], rest);
      case Option(c, o) =>
        DecodeToken([IAC, c, o], rest);
      case Command(c) =>
        DecodeToken([IAC, c], rest);
      case Subnegotiation(o, body) =>
        WireSubnegotiation(o, body, rest);
    }
  }

  /** A subnegotiation is skipped to where the search stops. */
  lemma SkipsTo(d: seq<Byte>, tail: seq<Byte>)
    requires |d| > 2 && d[0] == IAC && d[1] == SB && StopsBefore(d, 2, tail)
    ensures Decode(d) == Decode(tail)
  {
    var n := FindEnd(d, 2).pos + 2;
    assert Next(d) == Token(n, [], []);
    var z := Decode(tail);
    assert [] + z.out == z.out && [] + z.reply == z.reply;
  }

  /** What is left of a subnegotiation when the search has stopped. */
  lemma RestOfSubnegotiation(o: Byte, body: seq<Byte>, rest: seq<Byte>)
    ensures Decode(if PairIn(o, body) then Escape(Leak(o, body)) + ([IAC, SE] + rest) else rest) ==
      Decoded(Leak(o, body), [], []).Then(Decode(rest))
  {
    hide Decode, Escape, PairIn, Leak;
    if PairIn(o, body) {
      EndOfLeak(Leak(o, body), rest);
      assert Escape(Leak(o, body)) + ([IAC, SE] + rest) == Escape(Leak(o, body)) + [IAC, SE] + rest;
    } else {
      NoPairNoLeak(o, body);
      assert [] + Decode(rest).out == Decode(rest).out && [] + Decode(rest).reply == Decode(rest).reply;
    }
  }

  lemma WireSubnegotiation(o: Byte, body: seq<Byte>, rest: seq<Byte>)
    ensures Decode(Wire(Subnegotiation(o, body)) + rest) == Decoded(Leak(o, body), [], []).Then(Decode(rest))
  {
    var z := [IAC, SE] + rest;
    var d := [IAC, SB, o] + (Escape(body) + z);
    assert Wire(Subnegotiation(o, body)) + rest == d;
    hide Decode, StopsBefore, Escape, PairIn, Leak, Wire;
    assert d[3..] == Escape(body) + z && z[2..] == rest;
    SearchInBody(d, 2, o, body, z);
    SkipsTo(d, if PairIn(o, body) then Escape(Leak(o, body)) + z else rest);
    RestOfSubnegotiation(o, body, rest);
  }

  lemma EndOfLeak(leak: seq<Byte>, rest: seq<Byte>)
    ensures Decode(Escape(leak) + [IAC, SE] + rest) == Decoded(leak, [], []).Then(Decode(rest))
  {
    assert Escape(leak) + [IAC, SE] + rest == Escape(leak) + ([IAC, SE] + rest);
    EscapedPayload(leak, [IAC, SE] + rest);
    DecodeToken([IAC, SE], rest);
    ThenAssociates(Decoded(leak, [], []), Decoded([], [], []), Decode(rest));
    assert leak + [] == leak;
  }

  lemma {:induction false} NoPairNoLeak(prev: Byte, body: seq<Byte>)
    requires !PairIn(prev, body)
    ensures Leak(prev, body) == []
    decreases |body|
  {
    if body != [] {
      NoPairNoLeak(body[0], body[1..]);
    }
  }

  /** Round trip, for every well-formed stream: payload comes back in order, every request gets
      exactly its refusal, nothing is left over, and a subnegotiation adds its leak. */
  lemma {:induction false} WireRoundTrip(items: seq<Item>)
    requires forall i :: 0 <= i < |items| ==> items[i].WellFormed()
    ensures Decode(WireAll(items)) == Decoded(DeliveredAll(items), AnswerAll(items), [])
  {
    if items != [] {
      WireRoundTrip(items[1..]);
      WireItem(items[0], WireAll(items[1..]));
    }
  }

  lemma {:induction false} DeliveredLength(items: seq<Item>)
    ensures |DeliveredAll(items)| >= |PayloadOf(items)|
    ensures DeliveredAll(items) == PayloadOf(items) <==>
            forall i :: 0 <= i < |items| && items[i].Subnegotiation? ==> Leak(items[i].what, items[i].body) == []
  {
    if items != [] {
      var rest := items[1..];
      DeliveredLength(rest);
      assert forall i :: 1 <= i < |items| ==> items[i] == rest[i - 1];
      if DeliveredAll(items) == PayloadOf(items) {
        var d, p := Delivered(items[0]), if items[0].Payload? then [items[0].b] else [];
        assert |d| >= |p|;
        assert d == p && DeliveredAll(rest) == PayloadOf(rest) by {
          assert d == (d + DeliveredAll(rest))[..|d|] && p == (p + PayloadOf(rest))[..|p|];
          assert DeliveredAll(rest) == (d + DeliveredAll(rest))[|d|..];
          assert PayloadOf(rest) == (p + PayloadOf(rest))[|p|..];
        }
        forall i | 0 <= i < |items| && items[i].Subnegotiation?
          ensures Leak(items[i].what, items[i].body) == []
        {
          if i > 0 { assert rest[i - 1] == items[i]; }
        }
      } else {
        assert Delivered(items[0]) != (if items[0].Payload? then [items[0].b] else [])
          || DeliveredAll(rest) != PayloadOf(rest);
      }
    }
  }

  /** The filter returns exactly the payload if and only if no subnegotiation holds IAC SE other
      than as its last two bytes: the doubling RFC 855 asks for does not hide the pair. */
  lemma PayloadExactlyWhenNothingLeaks(items: seq<Item>)
    requires forall i :: 0 <= i < |items| ==> items[i].WellFormed()
    ensures Decode(WireAll(items)).out == PayloadOf(items) <==>
            forall i :: 0 <= i < |items| && items[i].Subnegotiation? ==> Leak(items[i].what, items[i].body) == []
  {
    WireRoundTrip(items);
    DeliveredLength(items);
  }

  /** A subnegotiation that leaks: option 24, body IAC SE 65, delivers the 65 as text. */
  lemma LeakExample()
    ensures Decode(Wire(Subnegotiation(24, [IAC, SE, 65]))) == Decoded([65], [], [])
  {
    var item := Subnegotiation(24, [IAC, SE, 65]);
    WireItem(item, []);
    assert Wire(item) + [] == Wire(item);
    assert Leak(IAC, [SE, 65]) == [65];
    assert Leak(24, [IAC, SE, 65]) == Leak(IAC, [IAC, SE, 65][1..]);
    assert [IAC, SE, 65][1..] == [SE, 65];
  }

  /** Two peers that both filter fall silent: what one side sends as refusals carries no payload
      for the other, provokes no reply, and leaves nothing pending. */
  lemma {:induction false} RefusalsAreNotAnswered(d: seq<Byte>, rest: seq<Byte>)
    ensures Decode(Decode(d).reply + rest) == Decode(rest)
    decreases |d|
  {
    hide Decode;
    UnfoldReply(d);
    if d != [] && Next(d).Token? {
      var later := Decode(d[Next(d).len..]).reply;
      RefusalsAreNotAnswered(d[Next(d).len..], rest);
      assert Decode(d).reply + rest == Next(d).reply + (later + rest);
      OneRefusal(Next(d).reply, later + rest);
    } else {
      assert Decode(d).reply + rest == rest;
    }
  }

  lemma UnfoldReply(d: seq<Byte>)
    ensures d == [] || Next(d).Incomplete? ==> Decode(d).reply == []
    ensures d != [] && Next(d).Token? ==>
      && Next(d).len <= |d|
      && Decode(d).reply == Next(d).reply + Decode(d[Next(d).len..]).reply
      && (Next(d).reply == [] || exists opt :: Next(d).reply == [IAC, WONT, opt] || Next(d).reply == [IAC, DONT, opt])
  {
    if d != [] && Next(d).Token? {
      NextFits(d);
      if Next(d).reply != [] {
        assert Next(d).reply == Refusal(d[1], d[2]);
      }
    }
  }

  lemma OneRefusal(r: seq<Byte>, rest: seq<Byte>)
    requires r == [] || exists opt :: r == [IAC, WONT, opt] || r == [IAC, DONT, opt]
    ensures Decode(r + rest) == Decode(rest)
  {
    if r == [] {
      assert r + rest == rest;
    } else {
      DecodeToken(r, rest);
      var next := Decode(rest);
      assert [] + next.out == next.out && [] + next.reply == next.reply;
    }
  }

  // ---- The running filter

  predicate StandsAt(hay: seq<Byte>, needle: seq<Byte>, i: nat) {
    i + |needle| <= |hay| && hay[i..i + |needle|] == needle
  }

  predicate Contains(hay: seq<Byte>, needle: seq<Byte>) {
    exists i :: 0 <= i <= |hay| && StandsAt(hay, needle, i)
  }

  /** The needle stands somewhere in the bytes. */
  ghost predicate Occurs(hay: seq<Byte>, needle: seq<Byte>) { exists p, q :: hay == p + needle + q }

  lemma ContainsIsOccurs(hay: seq<Byte>, needle: seq<Byte>)
    ensures Contains(hay, needle) <==> Occurs(hay, needle)
  {
    if Contains(hay, needle) {
      var i :| 0 <= i <= |hay| && StandsAt(hay, needle, i);
      assert hay == hay[..i] + needle + hay[i + |needle|..];
    }
    if Occurs(hay, needle) {
      var p, q :| hay == p + needle + q;
      assert hay[|p|..|p| + |needle|] == needle;
      assert StandsAt(hay, needle, |p|);
    }
  }

  datatype Recv = Timeout | Received(bytes: seq<Byte>)

  /** The nonempty chunks of a prefix of socket events; an empty one is end of file. */
  function Arrived(events: seq<Recv>): seq<seq<Byte>> {
    if events == [] then []
    else
      var e := events[|events| - 1];
      Arrived(events[..|events| - 1]) + (if e.Received? && e.bytes != [] then [e.bytes] else [])
  }

  lemma {:induction false} FindEndFrom(d: seq<Byte>, i: nat, from: nat)
    requires i <= |d|
    ensures FindEnd(d[i..], from).Missing? <==> FindEnd(d, i + from).Missing?
    ensures FindEnd(d[i..], from).At? ==> FindEnd(d, i + from) == At(i + FindEnd(d[i..], from).pos)
    decreases |d| - from
  {
    if from + 1 < |d[i..]| {
      FindEndFrom(d, i, from + 1);
    }
  }

  /** The first `i` bytes of `data` are complete tokens with this output and these replies. */
  ghost predicate ReadTo(data: seq<Byte>, i: nat, out: seq<Byte>, reply: seq<Byte>) {
    i <= |data| && Decode(data) == Decoded(out, reply, []).Then(Decode(data[i..]))
  }

  /** Reading one more token at `i`, in terms of indices into the whole buffer. */
  lemma NextAt(data: seq<Byte>, i: nat, out: seq<Byte>, reply: seq<Byte>)
    requires i < |data| && ReadTo(data, i, out, reply)
    ensures data[i] != IAC ==> ReadTo(data, i + 1, out + [data[i]], reply)
    ensures data[i] == IAC ==>
      if i + 1 >= |data| then Next(data[i..]) == Incomplete
      else var cmd := data[i + 1];
        if cmd == IAC then ReadTo(data, i + 2, out + [IAC], reply)
        else if Negotiates(cmd) then
          if i + 2 >= |data| then Next(data[i..]) == Incomplete
          else
            && (cmd == DO ==> ReadTo(data, i + 3, out, reply + [IAC, WONT, data[i + 2]]))
            && (cmd == WILL ==> ReadTo(data, i + 3, out, reply + [IAC, DONT, data[i + 2]]))
            && (cmd != DO && cmd != WILL ==> ReadTo(data, i + 3, out, reply))
        else if cmd == SB then
          match FindEnd(data, i + 2)
          case Missing => Next(data[i..]) == Incomplete
          case At(j) => i + 2 <= j && ReadTo(data, j + 2, out, reply)
        else ReadTo(data, i + 2, out, reply)
  {
    hide ReadTo, Next, FindEnd;
    var s := Next(data[i..]);
    TokenAt(data, i);
    assert out + [] == out && reply + [] == reply;
    if s.Token? {
      Advance(data, i, out, reply, s);
    }
  }

  lemma TokenAt(data: seq<Byte>, i: nat)
    requires i < |data|
    ensures Next(data[i..]) ==
      if data[i] != IAC then Token(1, [data[i]], [])
      else if i + 1 >= |data| then Incomplete
      else if data[i + 1] == IAC then Token(2, [IAC], [])
      else if Negotiates(data[i + 1]) then
        if i + 2 >= |data| then Incomplete else Token(3, [], Refusal(data[i + 1], data[i + 2]))
      else if data[i + 1] == SB then
        match FindEnd(data, i + 2)
        case Missing => Incomplete
        case At(j) => if j < i then Incomplete else Token(j + 2 - i, [], [])
      else Token(2, [], [])
    ensures FindEnd(data, i + 2).At? ==> i + 2 <= FindEnd(data, i + 2).pos && FindEnd(data, i + 2).pos + 2 <= |data|
  {
    FindEndFrom(data, i, 2);
    FindEndFits(data, i + 2);
  }

  lemma Advance(data: seq<Byte>, i: nat, out: seq<Byte>, reply: seq<Byte>, s: Step)
    requires ReadTo(data, i, out, reply) && i < |data| && s == Next(data[i..]) && s.Token?
    ensures ReadTo(data, i + s.len, out + s.out, reply + s.reply)
  {
    NextFits(data[i..]);
    var d := data[i..];
    assert d[s.len..] == data[i + s.len..];
    ThenAssociates(Decoded(out, reply, []), Decoded(s.out, s.reply, []), Decode(d[s.len..]));
  }

  lemma Stop(data: seq<Byte>, i: nat, out: seq<Byte>, reply: seq<Byte>)
    requires ReadTo(data, i, out, reply) && (i < |data| ==> Next(data[i..]).Incomplete?)
    ensures Decode(data) == Decoded(out, reply, data[i..])
  {
    assert out + [] == out && reply + [] == reply;
  }

  class Filter {
    var pending: seq<Byte>

    constructor ()
      ensures pending == []
    {
      pending := [];
    }

    /** One receive: cleaned data, the negotiation answers to send, and end of file. */
    method Pump(recv: Recv) returns (out: seq<Byte>, reply: seq<Byte>, eof: bool)
      modifies this
      ensures eof <==> recv == Received([])
      ensures recv.Timeout? || eof ==> out == [] && reply == [] && pending == old(pending)
      ensures recv.Received? && !eof ==> Decoded(out, reply, pending) == Decode(old(pending) + recv.bytes)
    {
      hide Decode, FindEnd;
      out, reply, eof := [], [], false;
      if recv.Timeout? { return; }
      if recv.bytes == [] { return out, reply, true; }
      var data := pending + recv.bytes;
      pending := [];
      var i := 0;
      assert data[0..] == data && [] + Decode(data).out == Decode(data).out
        && [] + Decode(data).reply == Decode(data).reply;
      while i < |data|
        invariant 0 <= i <= |data|
        invariant pending == []
        invariant ReadTo(data, i, out, reply)
      {
        NextAt(data, i, out, reply);
        var b := data[i];
        if b != IAC {
          out := out + [b];
          i := i + 1;
          continue;
        }
        if i + 1 >= |data| {
          pending := data[i..];
          break;
        }
        var cmd := data[i + 1];
        if cmd == IAC {
          out := out + [IAC];
          i := i + 2;
          continue;
        }
        if Negotiates(cmd) {
          if i + 2 >= |data| {
            pending := data[i..];
            break;
          }
          var opt := data[i + 2];
          if cmd == DO {
            reply := reply + [IAC, WONT, opt];
          } else if cmd == WILL {
            reply := reply + [IAC, DONT, opt];
          }
          i := i + 3;
          continue;
        }
        if cmd == SB {
          var j := FindEnd(data, i + 2);
          if j.Missing? {
            pending := data[i..];
            break;
          }
          i := j.pos + 2;
          continue;
        }
        i := i + 2;
      }
      Stop(data, i, out, reply);
    }
  }

  ghost predicate Hit(buf: seq<Byte>, needles: seq<seq<Byte>>) {
    exists k :: 0 <= k < |needles| && Occurs(buf, needles[k])
  }

  method FirstHit(buf: seq<Byte>, needles: seq<seq<Byte>>) returns (hit: int)
    ensures hit == -1 || 0 <= hit < |needles|
    ensures hit >= 0 ==> Occurs(buf, needles[hit]) && forall k :: 0 <= k < hit ==> !Occurs(buf, needles[k])
    ensures hit < 0 ==> !Hit(buf, needles)
  {
    hide Contains, Occurs;
    for k := 0 to |needles|
      invariant forall j :: 0 <= j < k ==> !Occurs(buf, needles[j])
    {
      ContainsIsOccurs(buf, needles[k]);
      if Contains(buf, needles[k]) {
        return k;
      }
    }
    return -1;
  }

  /** The payload of everything received so far, as one stream. */
  function Heard(events: seq<Recv>): seq<Byte> {
    Decode(Concat(Arrived(events))).out
  }

  ghost predicate Carried(events: seq<Recv>, buf: seq<Byte>, pending: seq<Byte>) {
    Feed(Arrived(events)).out == buf && Feed(Arrived(events)).pending == pending
  }

  lemma CarriedStep(events: seq<Recv>, e: Recv, buf: seq<Byte>, pending: seq<Byte>,
                    data: seq<Byte>, reply: seq<Byte>, pending': seq<Byte>)
    requires Carried(events, buf, pending)
    requires e.Timeout? || e.bytes == [] ==> data == [] && pending' == pending
    requires e.Received? && e.bytes != [] ==> Decoded(data, reply, pending') == Decode(pending + e.bytes)
    ensures Carried(events + [e], buf + data, pending')
  {
    assert (events + [e])[..|events|] == events;
    ArrivedStep(events + [e]);
    assert buf + [] == buf;
  }

  lemma CarriedIsDecoded(events: seq<Recv>, buf: seq<Byte>, pending: seq<Byte>)
    requires Carried(events, buf, pending)
    ensures buf == Heard(events)
  {
    ChunkingInvariance(Arrived(events));
  }

  /** One receive, on the first `used` events. */
  lemma ReadStep(events: seq<Recv>, used: nat, buf: seq<Byte>, pending: seq<Byte>,
                 data: seq<Byte>, reply: seq<Byte>, pending': seq<Byte>)
    requires used < |events| && Carried(events[..used], buf, pending)
    requires events[used].Timeout? || events[used].bytes == [] ==> data == [] && pending' == pending
    requires events[used].Received? && events[used].bytes != [] ==>
      Decoded(data, reply, pending') == Decode(pending + events[used].bytes)
    ensures Carried(events[..used + 1], buf + data, pending') && buf + data == Heard(events[..used + 1])
  {
    hide Decode, Carried, Heard;
    CarriedStep(events[..used], events[used], buf, pending, data, reply, pending');
    assert events[..used + 1] == events[..used] + [events[used]];
    CarriedIsDecoded(events[..used + 1], buf + data, pending');
  }

  /** No earlier receive had completed a needle. */
  ghost predicate QuietBefore(events: seq<Recv>, used: nat, needles: seq<seq<Byte>>)
    requires used <= |events|
  {
    forall m :: 0 < m < used ==> !Hit(Heard(events[..m]), needles)
  }

  lemma QuietStep(events: seq<Recv>, used: nat, needles: seq<seq<Byte>>)
    requires used < |events| && QuietBefore(events, used, needles)
    requires used > 0 ==> !Hit(Heard(events[..used]), needles)
    ensures QuietBefore(events, used + 1, needles)
  {
  }

  lemma EndingIsHit(events: seq<Recv>, needles: seq<seq<Byte>>)
    ensures forall m, k, p :: 0 < m <= |events| && 0 <= k < |needles| && Heard(events[..m]) == p + needles[k] ==>
      Hit(Heard(events[..m]), needles)
    ensures forall used, m :: 0 < m < used <= |events| && QuietBefore(events, used, needles) ==>
      !Hit(Heard(events[..m]), needles)
  {
    forall m, k, p | 0 < m <= |events| && 0 <= k < |needles| && Heard(events[..m]) == p + needles[k]
      ensures Hit(Heard(events[..m]), needles)
    {
      assert p + needles[k] == p + needles[k] + [];
      assert Occurs(Heard(events[..m]), needles[k]);
    }
  }

  /** Reads until a needle shows up, end of file, or the events (the time allowed) run out. */
  method ReadUntil(events: seq<Recv>, needles: seq<seq<Byte>>) returns (buf: seq<Byte>, hit: int, used: nat)
    ensures used <= |events| && buf == Heard(events[..used])
    ensures hit == -1 || 0 <= hit < |needles|
    ensures hit >= 0 ==> Occurs(buf, needles[hit]) && forall k :: 0 <= k < hit ==> !Occurs(buf, needles[k])
    ensures hit < 0 ==> used == 0 || !Hit(buf, needles)
    ensures hit < 0 && used < |events| ==> used > 0 && events[used - 1] == Received([])
    ensures QuietBefore(events, used, needles)
    ensures forall m, k, p :: 0 < m <= |events| && 0 <= k < |needles| && Heard(events[..m]) == p + needles[k] ==>
      used <= m && (used == m ==> hit >= 0)
  {
    EndingIsHit(events, needles);
    assert Carried([], [], []) && Heard([]) == [] && events[..0] == [] && QuietBefore(events, 0, needles);
    hide Decode, Concat, Arrived, Feed, Carried, Heard, Hit, Occurs, QuietBefore;
    buf, hit, used := [], -1, 0;
    var f := new Filter();
    while used < |events|
      invariant used <= |events| && hit == -1
      invariant Carried(events[..used], buf, f.pending) && buf == Heard(events[..used])
      invariant used > 0 ==> !Hit(buf, needles)
      invariant QuietBefore(events, used, needles)
      invariant fresh(f)
    {
      ghost var before := f.pending;
      var data, reply, eof := f.Pump(events[used]);
      QuietStep(events, used, needles);
      ReadStep(events, used, buf, before, data, reply, f.pending);
      buf := buf + data;
      used := used + 1;
      hit := FirstHit(buf, needles);
      if hit >= 0 {
        return;
      }
      if eof {
        break;
      }
    }
  }

  lemma ArrivedStep(events: seq<Recv>)
    requires events != []
    ensures var e, before := events[|events| - 1], Arrived(events[..|events| - 1]);
      Feed(Arrived(events)) ==
        if e.Received? && e.bytes != [] then Feed(before).Then(Decode(Feed(before).pending + e.bytes))
        else Feed(before)
  {
    var e, before := events[|events| - 1], Arrived(events[..|events| - 1]);
    if e.Received? && e.bytes != [] {
      assert (before + [e.bytes])[..|before|] == before;
    } else {
      assert before + [] == before;
    }
  }

  lemma {:induction false} ConcatJoins(a: seq<seq<Byte>>, b: seq<seq<Byte>>)
    ensures Concat(a + b) == Concat(a) + Concat(b)
    decreases |b|
  {
    if b == [] {
      assert a + b == a && Concat(a) + [] == Concat(a);
    } else {
      var n := |b| - 1;
      assert (a + b)[..|a + b| - 1] == a + b[..n];
      ConcatJoins(a, b[..n]);
    }
  }

  lemma {:induction false} ArrivedJoins(a: seq<Recv>, b: seq<Recv>)
    ensures Arrived(a + b) == Arrived(a) + Arrived(b)
    decreases |b|
  {
    if b == [] {
      assert a + b == a && Arrived(a) + [] == Arrived(a);
    } else {
      var n := |b| - 1;
      assert (a + b)[..|a + b| - 1] == a + b[..n];
      ArrivedJoins(a, b[..n]);
    }
  }

  /** A plain byte after any unfinished tail is no output: it belongs to the tail. */
  lemma TailTakesByte(p: seq<Byte>, b: Byte)
    requires p != [] && Next(p) == Incomplete && b != IAC && !Negotiates(b) && b != SB && b != SE
    ensures Decode(p + [b]).out == []
  {
    var d := p + [b];
    assert d[0] == p[0];
    if |p| > 1 {
      assert d[1] == p[1];
    }
    if Next(d).Token? {
      NextFits(d);
      if |p| > 1 && p[1] == SB {
        NoEndByByte(p, b, 2);
      }
      assert Next(d).len == |d| && d[|d|..] == [];
    }
  }

  lemma {:induction false} NoEndByByte(p: seq<Byte>, b: Byte, from: nat)
    requires FindEnd(p, from).Missing? && b != SE
    ensures FindEnd(p + [b], from).Missing?
    decreases |p| - from
  {
    var d := p + [b];
    if from + 1 < |d| {
      assert d[from] == p[from];
      if from + 1 < |p| {
        assert d[from + 1] == p[from + 1];
      } else {
        assert d[from + 1] == b;
      }
      NoEndByByte(p, b, from + 1);
    }
  }

  /** What is heard of two streams of receives in a row: the second's bytes join the first's tail. */
  lemma HeardJoins(first: seq<Recv>, second: seq<Recv>)
    ensures Heard(first + second) ==
      Heard(first) + Decode(Decode(Concat(Arrived(first))).pending + Concat(Arrived(second))).out
  {
    hide Decode, Concat, Arrived;
    ArrivedJoins(first, second);
    ConcatJoins(Arrived(first), Arrived(second));
    SplitInvariance(Concat(Arrived(first)), Concat(Arrived(second)));
  }

  /** Each read starts with an empty tail.  So one read after another hears the stream, whatever the
      second receives, if and only if the first one ended between two tokens. */
  lemma TwoReadsHearTheStream(first: seq<Recv>)
    ensures (forall second :: Heard(first + second) == Heard(first) + Heard(second)) <==>
            Decode(Concat(Arrived(first))).pending == []
  {
    hide Decode, Concat, Arrived, Next;
    var p := Decode(Concat(Arrived(first))).pending;
    if p == [] {
      forall second ensures Heard(first + second) == Heard(first) + Heard(second) {
        HeardJoins(first, second);
        assert p + Concat(Arrived(second)) == Concat(Arrived(second));
      }
    } else {
      var second := [Received([65])];
      OneByteHeard();
      HeardJoins(first, second);
      PendingIsPartOfOneToken(Concat(Arrived(first)));
      TailTakesByte(p, 65);
      assert |Heard(first + second)| == |Heard(first)| && |Heard(first) + Heard(second)| == |Heard(first)| + 1;
    }
  }

  lemma OneByteHeard()
    ensures var e := [Received([65])]; Concat(Arrived(e)) == [65] && Heard(e) == [65]
  {
    var e := [Received([65])];
    assert e[..0] == [] && Arrived(e) == [[65]] && [[65]][..0] == [];
    assert Concat([[65]]) == [65];
    assert [65][1..] == [] && Decode([65]) == Decoded([65], [], []).Then(Decode([]));
  }

  /** Whether a prompt is ever seen does not depend on how the stream was cut: it is in the buffer
      after some receive exactly when it is in the payload of the whole stream. */
  lemma NeedleFoundHoweverCut(chunks: seq<seq<Byte>>, needles: seq<seq<Byte>>)
    ensures (exists m :: 0 <= m <= |chunks| && Hit(Feed(chunks[..m]).out, needles)) <==>
            Hit(Decode(Concat(chunks)).out, needles)
  {
    ChunkingInvariance(chunks);
    assert chunks[..|chunks|] == chunks;
    forall m | 0 <= m <= |chunks| && Hit(Feed(chunks[..m]).out, needles)
      ensures Hit(Feed(chunks).out, needles)
    {
      OutputGrows(chunks, m);
      HitStays(Feed(chunks[..m]).out, Feed(chunks).out, needles);
    }
  }

  lemma HitStays(a: seq<Byte>, b: seq<Byte>, needles: seq<seq<Byte>>)
    requires a <= b && Hit(a, needles)
    ensures Hit(b, needles)
  {
    var k :| 0 <= k < |needles| && Occurs(a, needles[k]);
    var p, q :| a == p + needles[k] + q;
    assert b == p + needles[k] + (q + b[|a|..]);
    assert Occurs(b, needles[k]);
  }

  lemma {:induction false} OutputGrows(chunks: seq<seq<Byte>>, m: nat)
    requires m <= |chunks|
    ensures Feed(chunks[..m]).out <= Feed(chunks).out
    decreases |chunks|
  {
    if m == |chunks| {
      assert chunks[..m] == chunks;
    } else {
      var before := chunks[..|chunks| - 1];
      assert before[..m] == chunks[..m];
      OutputGrows(before, m);
    }
  }
}
