/** The copy classifier: reads a destination in chunks, compares and sums it as it goes, and turns
    what happened into one exit code. */
module B2Verify {
  type Byte = x: int | 0 <= x < 256

  const EFAULT := 14
  const COMPLETE_MATCH := 0
  const TRANSIENT := 1
  const EFAULT_PERSISTENT := 2
  const EIO_PERSISTENT := 3
  const INODE_SHORT := 4
  const DATA_MISMATCH := 5
  const METADATA_INCONSISTENT := 6

  // ---- The checksum

  type Bit = x: int | 0 <= x < 2

  function Mix(crc: nat, b: Byte): nat { (crc / 2 + crc % 2 * 32768 + b) % 65536 }

  function Sum(crc: nat, s: seq<Byte>): nat {
    if s == [] then crc else Mix(Sum(crc, s[..|s| - 1]), s[|s| - 1])
  }

  method Sum16(buf: seq<Byte>, crc: nat) returns (r: nat)
    ensures r == Sum(crc, buf)
  {
    r := crc;
    assert buf[..0] == [] && buf[..|buf|] == buf;
    for i := 0 to |buf|
      invariant r == Sum(crc, buf[..i])
    {
      assert buf[..i + 1][..i] == buf[..i];
      r := Mix(r, buf[i]);
    }
  }

  function Concat(chunks: seq<seq<Byte>>): seq<Byte> {
    if chunks == [] then [] else Concat(chunks[..|chunks| - 1]) + chunks[|chunks| - 1]
  }

  /** Summing chunk after chunk is summing the whole. */
  lemma {:induction false} SumInParts(crc: nat, a: seq<Byte>, b: seq<Byte>)
    ensures Sum(crc, a + b) == Sum(Sum(crc, a), b)
    decreases |b|
  {
    if b == [] {
      assert a + b == a;
    } else {
      assert (a + b)[..|a + b| - 1] == a + b[..|b| - 1];
      SumInParts(crc, a, b[..|b| - 1]);
    }
  }

  lemma LastBit(h: nat, l: Bit)
    ensures (2 * h + l) / 2 == h && (2 * h + l) % 2 == l
  {
  }

  /** One byte: the sixteen bits of the sum, `h` above a last bit `l`, are rotated right by one, which
      puts `l` in front of `h`, and the byte is added modulo 2^16. */
  lemma OneByte(h: nat, l: Bit, b: Byte)
    requires h < 0x8000
    ensures Sum(2 * h + l, [b]) == (0x8000 * l + h + b) % 0x1_0000
  {
    assert [b][..0] == [];
    LastBit(h, l);
  }

  function Zeros(n: nat): seq<Byte> { seq(n, _ => 0) }

  /** The number whose bits are `w`, the last bit first. */
  function Value(w: seq<Bit>): nat {
    if w == [] then 0 else w[0] + 2 * Value(w[1..])
  }

  function Pow2(n: nat): nat { if n == 0 then 1 else 2 * Pow2(n - 1) }

  lemma {:induction false} ValueFits(w: seq<Bit>)
    ensures Value(w) < Pow2(|w|)
  {
    if w != [] {
      ValueFits(w[1..]);
    }
  }

  lemma {:induction false} BitInFront(w: seq<Bit>, b: Bit)
    ensures Value(w + [b]) == if b == 1 then Value(w) + Pow2(|w|) else Value(w)
  {
    if w == [] {
      assert (w + [b])[1..] == [] && (w + [b])[0] == b;
    } else {
      assert (w + [b])[1..] == w[1..] + [b];
      BitInFront(w[1..], b);
    }
  }

  lemma Fifteen()
    ensures Pow2(15) == 0x8000
  {
    assert Pow2(4) == 16;
    assert Pow2(8) == 256;
    assert Pow2(12) == 4096;
  }

  lemma RotateOne(w: seq<Bit>)
    requires |w| == 16
    ensures Mix(Value(w), 0) == Value(w[1..] + [w[0]])
  {
    var h, l := Value(w[1..]), w[0];
    assert Value(w) == 2 * h + l;
    ValueFits(w[1..]);
    BitInFront(w[1..], l);
    Fifteen();
    hide Value, Pow2;
    LastInFront(h, l);
  }

  lemma LastInFront(h: nat, l: Bit)
    requires h < 0x8000
    ensures Mix(2 * h + l, 0) == if l == 1 then h + 0x8000 else h
  {
    LastBit(h, l);
    if l == 1 {
      assert Mix(2 * h + l, 0) == (h + 0x8000) % 65536;
    } else {
      assert Mix(2 * h + l, 0) == h % 65536;
    }
  }

  lemma OneMoreZero(c: nat, n: nat)
    requires n > 0
    ensures Sum(c, Zeros(n)) == Mix(Sum(c, Zeros(n - 1)), 0)
  {
    assert Zeros(n)[..n - 1] == Zeros(n - 1);
  }

  /** `n` zero bytes rotate the sixteen bits by `n`: the last `n` come in front of the others. */
  lemma {:induction false} ZerosRotate(w: seq<Bit>, n: nat)
    requires |w| == 16 && n <= 16
    ensures Sum(Value(w), Zeros(n)) == Value(w[n..] + w[..n])
    decreases n
  {
    if n == 0 {
      assert w[0..] + w[..0] == w;
    } else {
      ZerosRotate(w, n - 1);
      OneMoreZero(Value(w), n);
      hide Value, Mix, Sum, Zeros;
      var v: seq<Bit> := w[n - 1..] + w[..n - 1];
      RotateOne(v);
      assert v[1..] + [v[0]] == w[n..] + w[..n];
    }
  }

  function BitsOf(c: nat, n: nat): (w: seq<Bit>)
    ensures |w| == n
  {
    if n == 0 then [] else [c % 2] + BitsOf(c / 2, n - 1)
  }

  lemma {:induction false} EverySumHasBits(c: nat, n: nat)
    requires c < Pow2(n)
    ensures Value(BitsOf(c, n)) == c
  {
    if n > 0 {
      EverySumHasBits(c / 2, n - 1);
      assert BitsOf(c, n)[1..] == BitsOf(c / 2, n - 1);
    }
  }

  /** Sixteen of them give every sum back. */
  lemma SixteenZeros(c: nat)
    requires c < 0x1_0000
    ensures Sum(c, Zeros(16)) == c
  {
    Fifteen();
    var w := BitsOf(c, 16);
    EverySumHasBits(c, 16);
    ZerosRotate(w, 16);
    assert w[16..] + w[..16] == w;
  }

  // ---- The first difference

  /** `m` is the least offset where `dst` differs from `src` or runs past it; -1 if there is none. */
  predicate IsFirstDifference(dst: seq<Byte>, src: seq<Byte>, m: int) {
    if m < 0 then m == -1 && dst <= src
    else m < |dst| && (m >= |src| || dst[m] != src[m]) && m <= |src| && dst[..m] == src[..m]
  }

  lemma FirstDifferenceUnique(dst: seq<Byte>, src: seq<Byte>, m: int, n: int)
    requires IsFirstDifference(dst, src, m) && IsFirstDifference(dst, src, n)
    ensures m == n
  {
    AgreesBefore(dst, src, m);
    AgreesBefore(dst, src, n);
  }

  lemma AgreesBefore(dst: seq<Byte>, src: seq<Byte>, m: int)
    requires IsFirstDifference(dst, src, m)
    ensures forall k :: 0 <= k < (if m < 0 then |dst| else m) ==> k < |src| && dst[k] == src[k]
  {
    forall k | 0 <= k < (if m < 0 then |dst| else m) ensures k < |src| && dst[k] == src[k] {
      if m >= 0 {
        assert dst[..m][k] == src[..m][k];
      }
    }
  }

  // ---- Reading

  datatype End = EndOfFile | Fails(errno: int)

  /** One attempt to read the failing offset again: the step that fails, or the bytes read. */
  datatype Retry = OpenFails(errno: int) | SeekFails(errno: int) | ReadGives(n: int, errno: int)

  predicate Succeeds(t: Retry) { t.ReadGives? && t.n > 0 }

  method RetryOffset(tries: seq<Retry>, first: int) returns (transient: bool, errno: int)
    ensures transient <==> exists t :: t in tries && Succeeds(t)
    ensures !transient ==> errno == if tries == [] then first else tries[|tries| - 1].errno
  {
    errno := first;
    for i := 0 to |tries|
      invariant forall t :: t in tries[..i] ==> !Succeeds(t)
      invariant errno == if i == 0 then first else tries[i - 1].errno
    {
      var t := tries[i];
      if Succeeds(t) {
        return true, errno;
      }
      errno := t.errno;
    }
    assert tries[..|tries|] == tries;
    return false, errno;
  }

  /** The exit code as a function of what the destination holds and how reading it ended. */
  function ExitCode(dst: seq<Byte>, src: seq<Byte>, size: int, end: End, transient: bool): int {
    if end.Fails? then
      if transient then TRANSIENT else if end.errno == EFAULT then EFAULT_PERSISTENT else EIO_PERSISTENT
    else if size < |src| then INODE_SHORT
    else if !(dst <= src) then DATA_MISMATCH
    else if |dst| != |src| then METADATA_INCONSISTENT
    else COMPLETE_MATCH
  }

  /** The read, compare and classify loop, for any sequence of read sizes. */
  method Classify(chunks: seq<seq<Byte>>, end: End, tries: seq<Retry>, src: seq<Byte>, size: int)
    returns (code: int, crc: nat, mismatch: int, total: nat)
    requires |tries| == 3
    ensures total == |Concat(chunks)| && crc == Sum(0, Concat(chunks))
    ensures IsFirstDifference(Concat(chunks), src, mismatch)
    ensures code == ExitCode(Concat(chunks), src, size, end, exists t :: t in tries && Succeeds(t))
  {
    crc, mismatch, total := 0, -1, 0;
    assert chunks[..0] == [] && chunks[..|chunks|] == chunks;
    for c := 0 to |chunks|
      invariant total == |Concat(chunks[..c])| && crc == Sum(0, Concat(chunks[..c]))
      invariant IsFirstDifference(Concat(chunks[..c]), src, mismatch)
    {
      ghost var before := Concat(chunks[..c]);
      var buf := chunks[c];
      assert chunks[..c + 1][..c] == chunks[..c];
      SumInParts(0, before, buf);
      crc := Sum16(buf, crc);
      if mismatch < 0 {
        mismatch := CompareChunk(before, buf, src, total);
      } else {
        assert (before + buf)[..mismatch] == before[..mismatch];
      }
      total := total + |buf|;
    }
    if end.Fails? {
      var transient, rerrno := RetryOffset(tries, end.errno);
      if transient {
        code := TRANSIENT;
      } else if end.errno == EFAULT {
        code := EFAULT_PERSISTENT;
      } else {
        code := EIO_PERSISTENT;
      }
      return;
    }
    MismatchMeansNotPrefix(Concat(chunks), src, mismatch);
    if size < |src| {
      code := INODE_SHORT;
    } else if mismatch >= 0 {
      code := DATA_MISMATCH;
    } else if total != |src| {
      code := METADATA_INCONSISTENT;
    } else {
      code := COMPLETE_MATCH;
    }
  }

  lemma MismatchMeansNotPrefix(dst: seq<Byte>, src: seq<Byte>, m: int)
    requires IsFirstDifference(dst, src, m)
    ensures m >= 0 <==> !(dst <= src)
  {
    assert dst <= src ==> forall k :: 0 <= k < |dst| ==> k < |src| && dst[k] == src[k];
  }

  /** The inner loop: the first byte of one chunk, at offset `off`, that differs from the source. */
  method CompareChunk(ghost before: seq<Byte>, buf: seq<Byte>, src: seq<Byte>, off: nat) returns (m: int)
    requires off == |before| && before <= src
    ensures IsFirstDifference(before + buf, src, m)
  {
    ghost var dst := before + buf;
    for i := 0 to |buf|
      invariant dst[..off + i] <= src
    {
      if off + i >= |src| || buf[i] != src[off + i] {
        assert dst[off + i] == buf[i];
        return off + i;
      }
      assert dst[..off + i + 1] == dst[..off + i] + [buf[i]];
    }
    assert dst[..off + |buf|] == dst;
    return -1;
  }

  /** Some attempt read something. */
  ghost predicate ReadAgain(tries: seq<Retry>) { exists n, errno :: n > 0 && ReadGives(n, errno) in tries }

  /** What `Succeeds` means for the classifier's three attempts. */
  lemma SuccessIsReading(tries: seq<Retry>)
    ensures (exists t :: t in tries && Succeeds(t)) <==> ReadAgain(tries)
  {
    if ReadAgain(tries) {
      var n, errno :| n > 0 && ReadGives(n, errno) in tries;
      assert Succeeds(ReadGives(n, errno));
    }
    forall t | t in tries && Succeeds(t) ensures ReadAgain(tries) {
      assert t == ReadGives(t.n, t.errno);
    }
  }

  /** After a failed read the code is 1 if the offset could be read again, else 2 for EFAULT and 3 for
      anything else; a file read to the end that is short by its inode is 4. */
  lemma FailuresMean(dst: seq<Byte>, src: seq<Byte>, size: int, errno: int, transient: bool)
    ensures ExitCode(dst, src, size, Fails(errno), transient) == if transient then 1 else if errno == 14 then 2 else 3
    ensures size < |src| ==> ExitCode(dst, src, size, EndOfFile, transient) == 4
  {
  }

  /** What the exit codes mean: 0 exactly for a complete identical copy of a file that is not short;
      6 for a proper prefix; and how the data was cut into reads never matters. */
  lemma CodesMean(dst: seq<Byte>, src: seq<Byte>, size: int, end: End, transient: bool)
    ensures var code := ExitCode(dst, src, size, end, transient);
      && (code == 0 <==> end.EndOfFile? && dst == src && size >= |src|)
      && (code == 6 <==> end.EndOfFile? && size >= |src| && dst < src)
      && (code == 5 <==>
            end.EndOfFile? && size >= |src| && exists m :: m >= 0 && IsFirstDifference(dst, src, m))
  {
    if !(dst <= src) {
      var m := Diff(dst, src);
      assert IsFirstDifference(dst, src, m) && m >= 0;
    } else {
      forall m | m >= 0 ensures !IsFirstDifference(dst, src, m) {
        if IsFirstDifference(dst, src, m) {
          MismatchMeansNotPrefix(dst, src, m);
        }
      }
    }
  }

  lemma {:induction false} Diff(dst: seq<Byte>, src: seq<Byte>) returns (m: int)
    requires !(dst <= src)
    ensures m >= 0 && IsFirstDifference(dst, src, m)
    decreases |dst|
  {
    var n := |dst| - 1;
    if dst[..n] <= src {
      assert dst == dst[..n] + [dst[n]];
      m := n;
    } else {
      m := Diff(dst[..n], src);
      assert dst[..n][..m] == dst[..m];
    }
  }
}
