/**
 * One virtual PCM engine (`VpcmAudioEngine`): the ring buffer shared between the audio system,
 * which plays mixed sound into it or records sound out of it once per period, and the client of
 * the engine's device node, which reads or writes the same bytes.
 *
 * The counter `avail` is what the client may transfer next: bytes to read for a playback engine,
 * bytes of free space to write for a record engine. It is -1 until the audio side has primed the
 * ring, and it can exceed the ring size when the client falls behind; the bytes beyond one ring
 * are then replaced by synthetic ones (zeros or noise) or dropped, as the overflow policy says.
 */
module Engine {
  import opened Common
  import opened FloatEmu
  import Ring
  import Properties

  /** Bits of the state word above the open flags. */
  const EOF: Flags := 0x1_0000
  const CLOSING: Flags := 0x2_0000
  const TERMINATING: Flags := 0x4_0000

  /** The open flags of the kernel's `FMASK`: read, write, append, async, sync, data sync, non-blocking. */
  const FMASK: Flags := 0x40_00CF

  /** The ioctl requests the node answers: `_IOW('f', 126, int)` and `_IOR('f', 127|119|118, int)`. */
  const FIONBIO: nat := 0x8004_667E
  const FIONREAD: nat := 0x4004_667F
  const FIONWRITE: nat := 0x4004_6677
  const FIONSPACE: nat := 0x4004_6676

  /** Size of the synthetic chunk `fill`: 256 words. */
  const FillBytes: nat := 1024

  /** The nanoseconds in a second. */
  const NanosPerSecond: nat := 1_000_000_000

  function Zeros(n: nat): (z: seq<Byte>)
    ensures |z| == n && forall i :: 0 <= i < n ==> z[i] == 0
  {
    seq(n, _ => 0)
  }

  // ---------------------------------------------------------------- the client's transfer

  /** A client transfer: a read of `len` bytes or a write of `data`. */
  datatype Request = ReadReq(len: nat) | WriteReq(data: seq<Byte>)

  /** The bytes the request still wants to move (`uio_resid`). */
  function Resid(r: Request): nat
  {
    match r
    case ReadReq(n) => n
    case WriteReq(d) => |d|
  }

  /** What the wait loop at the head of a transfer decides. */
  datatype Wait = Proceed | Stop(code: int) | Sleep

  /**
   * One turn of the wait loop, for a reader or a writer, with the counter `avail`, the state word,
   * the number of audio-side clients and `sleepErr`, the error a sleep would return.
   */
  function WaitOutcome(reading: bool, avail: int, state: Flags, posixPipe: bool, clients: nat, sleepErr: int): Wait
  {
    if avail >= 1 then Proceed
    else if posixPipe && clients < 1 then Stop(EPIPE)
    else if state & EOF != 0 then Stop(if reading then 0 else EPIPE)
    else if state & FNONBLOCK != 0 then Stop(EWOULDBLOCK)
    else if state & TERMINATING != 0 then Stop(EDEVERR)
    else if sleepErr != 0 then Stop(sleepErr)
    else Sleep
  }

  /**
   * The wait loop's rules: data lets the transfer proceed whatever the state; a pipe without a writer
   * side is broken; at end of file a reader gets end of file (0) and a writer a broken pipe; a
   * non-blocking client is told to retry; otherwise the client sleeps, unless the engine is going
   * away or the sleep is interrupted.
   */
  lemma WaitRules(reading: bool, avail: int, state: Flags, posixPipe: bool, clients: nat, sleepErr: int)
    ensures avail >= 1 <==> WaitOutcome(reading, avail, state, posixPipe, clients, sleepErr).Proceed?
    ensures avail < 1 && posixPipe && clients == 0 ==>
      WaitOutcome(reading, avail, state, posixPipe, clients, sleepErr) == Stop(EPIPE)
    ensures avail < 1 && !(posixPipe && clients == 0) && state & EOF != 0 ==>
      WaitOutcome(reading, avail, state, posixPipe, clients, sleepErr) == Stop(if reading then 0 else EPIPE)
    ensures avail < 1 && !(posixPipe && clients == 0) && state & EOF == 0 && state & FNONBLOCK != 0 ==>
      WaitOutcome(reading, avail, state, posixPipe, clients, sleepErr) == Stop(EWOULDBLOCK)
    ensures WaitOutcome(reading, avail, state, posixPipe, clients, sleepErr) == Sleep <==>
      avail < 1 && !(posixPipe && clients == 0) && state & (EOF | FNONBLOCK | TERMINATING) == 0 && sleepErr == 0
  {
    if avail < 1 && !(posixPipe && clients == 0) {
      SleepBits(state);
    }
  }

  lemma SleepBits(state: Flags)
    ensures state & (EOF | FNONBLOCK | TERMINATING) == 0 <==>
      state & EOF == 0 && state & FNONBLOCK == 0 && state & TERMINATING == 0
  {
    if state & (EOF | FNONBLOCK | TERMINATING) == 0 {
      NoBit(state, EOF, FNONBLOCK | TERMINATING);
      NoBit(state, FNONBLOCK, TERMINATING);
      assert FNONBLOCK | TERMINATING == TERMINATING | FNONBLOCK;
      NoBit(state, TERMINATING, FNONBLOCK);
    }
  }

  lemma NoBit(state: Flags, a: Flags, b: Flags)
    requires state & (a | b) == 0
    ensures state & a == 0 && state & b == 0
  {
  }

  /** The counter after the Discard policy has dropped the backlog beyond one ring. */
  function Clamped(avail: int, size: nat, overflow: Properties.OverflowPolicy): int
  {
    if avail > size && overflow == Properties.Discard then size else avail
  }

  /** The bytes of backlog beyond one ring that a transfer of `resid` bytes drains as synthetic bytes. */
  function Excess(a: int, size: nat, resid: nat): nat
  {
    if a > size then Min(a - size, resid) else 0
  }

  /** The ring bytes transferred once the synthetic ones are drained. */
  function RingBytes(a: int, size: nat, resid: nat): nat
    requires a >= 0
  {
    Min(a - Excess(a, size, resid), resid - Excess(a, size, resid))
  }

  /**
   * A transfer moves as much as both sides allow, never more than one ring of real bytes, and
   * reaches the ring only after the whole backlog beyond one ring has gone out.
   */
  lemma TransferAccounting(a: int, size: nat, resid: nat)
    requires a >= 0
    ensures Excess(a, size, resid) + RingBytes(a, size, resid) == Min(a, resid)
    ensures RingBytes(a, size, resid) <= size
    ensures RingBytes(a, size, resid) > 0 ==> Excess(a, size, resid) == Max(0, a - size)
    ensures a <= size ==> Excess(a, size, resid) == 0
  {
  }

  /**
   * Under Discard a backlog of more than one ring leaves exactly one ring: nothing synthetic is
   * delivered and a transfer takes up to a whole ring of real bytes.
   */
  lemma DiscardKeepsOneRing(avail: int, size: nat, resid: nat)
    requires avail > size
    ensures Clamped(avail, size, Properties.Discard) == size
    ensures var a := Clamped(avail, size, Properties.Discard);
      Excess(a, size, resid) == 0 && RingBytes(a, size, resid) == Min(size, resid)
  {
  }

  /**
   * Under Zeros and Noise the backlog beyond one ring is drained first: the first `Excess` bytes
   * moved are synthetic, zeros under Zeros, and under Noise only the given noise, never the ring.
   */
  lemma SyntheticContents(noise: seq<Byte>, avail: int, size: nat, resid: nat)
    requires avail > size && resid <= |noise|
    ensures Clamped(avail, size, Properties.Zeros) == avail && Clamped(avail, size, Properties.Noise) == avail
    ensures Excess(avail, size, resid) == Min(avail - size, resid)
    ensures forall i :: 0 <= i < Excess(avail, size, resid) ==> Synthetic(false, noise, Excess(avail, size, resid))[i] == 0
    ensures Synthetic(true, noise, Excess(avail, size, resid)) == noise[..Excess(avail, size, resid)]
  {
  }

  /** The synthetic bytes a read receives for `n` bytes of backlog: noise, or zeros. */
  function Synthetic(noisy: bool, noise: seq<Byte>, n: nat): (s: seq<Byte>)
    requires n <= |noise|
    ensures |s| == n
  {
    if noisy then noise[..n] else Zeros(n)
  }

  /** The end of a transfer: an error code (0 for success), the bytes moved and those read. */
  datatype IoResult = Returned(err: int, moved: nat, out: seq<Byte>) | Asleep

  /**
   * The drain of the backlog beyond one ring, in chunks of `fill`: a read receives synthetic bytes,
   * a write is copied into `fill` and dropped.
   */
  method Drain(a: int, size: nat, req: Request, noise: seq<Byte>, noisy: bool) returns (moved: nat, out: seq<Byte>)
    requires |noise| >= Resid(req)
    ensures moved == Excess(a, size, Resid(req))
    ensures out == if req.ReadReq? then Synthetic(noisy, noise, moved) else []
  {
    var avail, resid := a, Resid(req);
    moved, out := 0, [];
    while avail > size && resid > 0
      invariant avail == a - moved && resid == Resid(req) - moved && moved <= Resid(req)
      invariant a > size ==> avail >= size
      invariant a <= size ==> moved == 0
      invariant out == if req.ReadReq? then Synthetic(noisy, noise, moved) else []
      decreases resid
    {
      var chunk := Min(avail - size, FillBytes);
      var n := Min(chunk, resid);
      if req.ReadReq? {
        assert noise[..moved + n] == noise[..moved] + noise[moved..moved + n];
        assert Zeros(moved + n) == Zeros(moved) + Zeros(n);
        out := out + (if noisy then noise[moved..moved + n] else Zeros(n));
      }
      avail, resid, moved := avail - n, resid - n, moved + n;
    }
  }

  // ---------------------------------------------------------------- the audio side's counter

  /** The counter after the playback side has put `n` more bytes into the ring. */
  function CounterAfterOutput(avail: int, n: nat): (c: int)
    requires avail >= -1
    ensures c >= n && (avail >= 0 ==> c == avail + n)
  {
    (if avail < 0 then 0 else avail) + n
  }

  /**
   * Of `n` samples the record side is about to take from the ring, the leading ones the client has
   * not written yet: all of them before priming, otherwise those beyond the `(size - avail) / w`
   * samples written, and never more than `n`.
   */
  function Invalid(avail: int, n: nat, size: nat, w: nat): (inv: nat)
    requires w > 0
    ensures inv <= n
    ensures avail < 0 ==> inv == n
    ensures avail >= 0 && CDiv(size - avail, w) >= n ==> inv == 0
  {
    if avail < 0 then n else Min(n, Max(0, n - CDiv(size - avail, w)))
  }

  /** The same count as the record side computes it, without the bound by `n`. */
  function InvalidAsWritten(avail: int, n: nat, size: nat, w: nat): int
    requires w > 0
  {
    if avail < 0 then n else Max(0, n - CDiv(size - avail, w))
  }

  /**
   * The count as written exceeds the window exactly when the counter is at least one sample past a
   * full ring, whatever the window; otherwise the corrected count is the same number.
   */
  lemma InvalidOverrunsExactly(avail: int, n: nat, size: nat, w: nat)
    requires w > 0 && avail >= -1
    ensures InvalidAsWritten(avail, n, size, w) > n <==> avail >= size + w
    ensures InvalidAsWritten(avail, n, size, w) <= n ==> Invalid(avail, n, size, w) == InvalidAsWritten(avail, n, size, w)
  {
    if avail >= 0 {
      var q := CDiv(size - avail, w);
      if avail <= size {
        assert q >= 0;
      } else {
        QuotientSign(avail - size, w);
        assert q == -((avail - size) / w);
      }
    }
  }

  /** For a positive divisor the quotient is 0 below the divisor and at least 1 from it on. */
  lemma QuotientSign(a: nat, b: nat)
    requires b > 0
    ensures a < b <==> a / b == 0
    ensures a >= b <==> a / b >= 1
  {
    var q, r := a / b, a % b;
    assert a == b * q + r && 0 <= r < b;
    if q >= 1 {
      MulMonotone(b, 1, q);
    }
  }

  /** The counter after the record side has taken `consumed` bytes: primed to a full ring first. */
  function CounterAfterInput(avail: int, consumed: nat, size: nat): (c: int)
    requires avail >= -1
    ensures avail >= 0 ==> c == avail + consumed
    ensures avail < 0 ==> c == size + consumed
  {
    (if avail < 0 then size else avail) + consumed
  }

  /** Where the cursor lands after priming: the end of the window, wrapped to the start of the ring. */
  function InputCursor(end: nat, size: nat): nat
  {
    if end >= size then 0 else end
  }

  /**
   * An unmuted record period that starts within one ring stays within one ring: it takes only the
   * samples the client has written. (A muted period adds its whole window and may pass the ring.)
   */
  lemma RecordCounterBounded(avail: int, n: nat, size: nat, w: nat)
    requires w > 0 && 0 <= avail <= size
    ensures CounterAfterInput(avail, (n - Invalid(avail, n, size, w)) * w, size) <= size
  {
    var valid := (size - avail) / w;
    var taken := n - Invalid(avail, n, size, w);
    assert taken <= valid;
    MulMonotoneLeft(taken, valid, w);
    assert valid * w <= size - avail;
  }

  lemma MulMonotoneLeft(a: nat, b: nat, c: nat)
    requires a <= b
    ensures a * c <= b * c
  {
    MulMonotone(c, a, b);
  }

  /**
   * As written, the count is not bounded by `n`: once a muted record period has pushed the counter
   * past one ring, the next period zeroes more samples than its window holds and takes a negative count.
   */
  lemma InputOverrun()
    ensures InvalidAsWritten(16, 4, 8, 2) == 8 > 4
    ensures Invalid(16, 4, 8, 2) == 4
    ensures CounterAfterInput(8, 4 * 2, 8) == 16
  {
    assert CDiv(8 - 16, 2) == -4;
  }

  /** A sample decoded from 16-bit PCM can be scaled by any gain of the controls' range. */
  lemma Int16SamplesScalable(v: Int16, k: int)
    requires -15 <= k <= 0
    ensures ScaleDefined(Int16ToFloatWord(v), k)
  {
    Int16ToFloatExact(v);
  }

  // ---------------------------------------------------------------- ioctl, open

  /** The state word after `FIONBIO`: the non-blocking bit set or cleared. */
  function NonBlocking(state: Flags, on: bool): Flags
  {
    if on then state | FNONBLOCK else state & !FNONBLOCK
  }

  /** `FIONBIO` changes the non-blocking bit and no other. */
  lemma NonBlockingOnlyBit(state: Flags, on: bool)
    ensures NonBlocking(state, on) & FNONBLOCK != 0 <==> on
    ensures NonBlocking(state, on) & !FNONBLOCK == state & !FNONBLOCK
  {
    if on {
      SetBit(state, FNONBLOCK);
    } else {
      ClearBit(state, FNONBLOCK);
    }
  }

  lemma SetBit(state: Flags, b: Flags)
    ensures (state | b) & b == b && (state | b) & !b == state & !b
  {
  }

  lemma ClearBit(state: Flags, b: Flags)
    ensures (state & !b) & b == 0 && (state & !b) & !b == state & !b
  {
  }

  /** The answer to a query request, or nothing for a request the node does not know. */
  function Query(cmd: nat, avail: int, size: nat): Option<int>
  {
    if cmd == FIONREAD || cmd == FIONSPACE then Some(if avail < 0 then 0 else Min(avail, size))
    else if cmd == FIONWRITE then Some(if avail < 0 then 0 else size - Min(avail, size))
    else None
  }

  /**
   * The queries answer within one ring; once primed, the bytes ready to read and the room left
   * to write add up to the ring; before priming all of them are 0.
   */
  lemma QueryBounds(cmd: nat, avail: int, size: nat)
    ensures Query(cmd, avail, size).Some? <==> cmd in {FIONREAD, FIONWRITE, FIONSPACE}
    ensures Query(cmd, avail, size).Some? ==> 0 <= Query(cmd, avail, size).value <= size
    ensures avail >= 0 ==> Query(FIONREAD, avail, size).value + Query(FIONWRITE, avail, size).value == size
    ensures avail < 0 && Query(cmd, avail, size).Some? ==> Query(cmd, avail, size).value == 0
    ensures Query(FIONSPACE, avail, size) == Query(FIONREAD, avail, size)
  {
  }

  /** `devSelect`: the node is ready when the counter is positive. */
  predicate SelectReady(avail: int)
  {
    avail > 0
  }

  /** Select reports ready exactly when `FIONREAD` reports bytes, and data arriving makes it ready. */
  lemma SelectMatchesQuery(avail: int, size: nat, n: nat)
    requires size > 0 && avail >= -1
    ensures SelectReady(avail) <==> Query(FIONREAD, avail, size).value > 0
    ensures n > 0 ==> SelectReady(CounterAfterOutput(avail, n))
  {
  }

  /** The error an open with `flags` gets from an engine of mode `mode` in state `state`, or 0. */
  function OpenError(mode: Properties.Mode, flags: Flags, state: Flags): int
  {
    if mode == Properties.Playback && flags & FWRITE != 0 then ENOTSUP
    else if mode == Properties.Record && flags & FREAD != 0 then ENOTSUP
    else if flags & FREAD != 0 && flags & FWRITE != 0 then ENOTSUP
    else if state != 0 then EACCES
    else 0
  }

  /**
   * A playback engine is only read and a record engine only written, never both at once; a
   * direction that fits opens exactly when nobody has the node open.
   */
  lemma OpenRules(mode: Properties.Mode, flags: Flags, state: Flags)
    ensures OpenError(mode, flags, state) in {0, EACCES, ENOTSUP}
    ensures OpenError(mode, flags, state) == 0 ==>
      state == 0 && (mode == Properties.Playback ==> flags & FWRITE == 0) && (mode == Properties.Record ==> flags & FREAD == 0)
    ensures (mode == Properties.Playback ==> flags & FWRITE == 0) && (mode == Properties.Record ==> flags & FREAD == 0) ==>
      OpenError(mode, flags, state) == if state == 0 then 0 else EACCES
  {
  }

  // ---------------------------------------------------------------- samples in memory

  /** The four little-endian bytes of a word (the `memcpy` of a float). */
  function WordBytes(w: Word): (b: seq<Byte>)
    ensures |b| == 4
  {
    [w % 0x100, w / 0x100 % 0x100, w / 0x1_0000 % 0x100, w / 0x100_0000]
  }

  function LoadWord(b0: Byte, b1: Byte, b2: Byte, b3: Byte): Word
  {
    b0 + 0x100 * b1 + 0x1_0000 * b2 + 0x100_0000 * b3
  }

  /** Storing a word and loading it back gives the word, and the other way round. */
  lemma LoadStoreWord(w: Word, b0: Byte, b1: Byte, b2: Byte, b3: Byte)
    ensures var b := WordBytes(w); LoadWord(b[0], b[1], b[2], b[3]) == w
    ensures WordBytes(LoadWord(b0, b1, b2, b3)) == [b0, b1, b2, b3]
  {
    StoreOfLoad(b0, b1, b2, b3);
    DivDiv(w, 0x100, 0x100);
    DivDiv(w, 0x1_0000, 0x100);
    assert w == w % 0x100 + 0x100 * (w / 0x100);
    assert w / 0x100 == w / 0x100 % 0x100 + 0x100 * (w / 0x1_0000);
    assert w / 0x1_0000 == w / 0x1_0000 % 0x100 + 0x100 * (w / 0x100_0000);
  }

  /** The bytes of a loaded word are the bytes loaded. */
  lemma StoreOfLoad(b0: Byte, b1: Byte, b2: Byte, b3: Byte)
    ensures WordBytes(LoadWord(b0, b1, b2, b3)) == [b0, b1, b2, b3]
  {
    var x := LoadWord(b0, b1, b2, b3);
    DivUnique(x, 0x100, b1 + 0x100 * b2 + 0x1_0000 * b3, b0);
    DivUnique(x, 0x1_0000, b2 + 0x100 * b3, b0 + 0x100 * b1);
    DivUnique(x, 0x100_0000, b3, b0 + 0x100 * b1 + 0x1_0000 * b2);
    DivUnique(b1 + 0x100 * b2 + 0x1_0000 * b3, 0x100, b2 + 0x100 * b3, b1);
    DivUnique(b2 + 0x100 * b3, 0x100, b3, b2);
  }

  /** The mix after `clipOutputSamples`: samples `v` to `v + n` scaled and clipped when `adjust`, the rest as they were. */
  ghost predicate Mixed(m0: seq<Word>, m: seq<Word>, adjust: bool, volume: int, v: nat, n: nat)
    requires v + n <= |m0|
    requires adjust ==> forall i :: v <= i < v + n ==> ScaleDefined(m0[i], volume)
  {
    && |m| == |m0|
    && forall i :: 0 <= i < |m| ==> m[i] == if adjust && v <= i < v + n then ClipWord(ScaleWord(m0[i], volume)) else m0[i]
  }

  /**
   * The ring after `clipOutputSamples`: the bytes of samples `v` to `v + n` are zeros when muted and
   * otherwise hold the encoded mix; all other bytes are as they were.
   */
  ghost predicate Stored(b0: seq<Byte>, b: seq<Byte>, muted: bool, fmt: Properties.SampleFormat, mix: seq<Word>,
                         v: nat, n: nat, width: nat)
    requires v + n <= |mix|
  {
    && |b| == |b0| && v * width + n * width <= |b|
    && (muted ==> forall j :: v * width <= j < v * width + n * width ==> b[j] == 0)
    && (!muted ==> Encoded(b, fmt, mix, v, n))
    && (forall j :: 0 <= j < |b| && !(v * width <= j < v * width + n * width) ==> b[j] == b0[j])
  }

  /** The `i`-th sample of the ring, decoded to a float word (0 past the end of the ring). */
  function Sample(s: seq<Byte>, fmt: Properties.SampleFormat, i: nat): Word
  {
    match fmt
    case Int16Samples =>
      if 2 * i + 2 <= |s| then Int16ToFloatWord(LoadInt16(s[2 * i], s[2 * i + 1])) else 0
    case Float32Samples =>
      if 4 * i + 4 <= |s| then LoadWord(s[4 * i], s[4 * i + 1], s[4 * i + 2], s[4 * i + 3]) else 0
  }

  /** Ring samples `from` to `from + n` hold `mix[from..from + n]`, encoded in the format. */
  predicate Encoded(s: seq<Byte>, fmt: Properties.SampleFormat, mix: seq<Word>, from: nat, n: nat)
    requires from + n <= |mix|
  {
    match fmt
    case Int16Samples =>
      && 2 * (from + n) <= |s|
      && forall i :: from <= i < from + n ==>
        s[2 * i] == Int16Bytes(FloatToInt16Word(mix[i]))[0] && s[2 * i + 1] == Int16Bytes(FloatToInt16Word(mix[i]))[1]
    case Float32Samples =>
      && 4 * (from + n) <= |s|
      && forall i :: from <= i < from + n ==>
        s[4 * i] == WordBytes(mix[i])[0] && s[4 * i + 1] == WordBytes(mix[i])[1] &&
        s[4 * i + 2] == WordBytes(mix[i])[2] && s[4 * i + 3] == WordBytes(mix[i])[3]
  }

  /**
   * A window the playback side encoded decodes, on the record side, to the same samples: exactly
   * for floats, up to the 16-bit quantisation for PCM.
   */
  lemma EncodedDecodes(s: seq<Byte>, fmt: Properties.SampleFormat, mix: seq<Word>, from: nat, n: nat, i: nat)
    requires from + n <= |mix| && from <= i < from + n
    requires Encoded(s, fmt, mix, from, n)
    ensures fmt == Properties.Float32Samples ==> Sample(s, fmt, i) == mix[i]
    ensures fmt == Properties.Int16Samples ==> FloatToInt16Word(Sample(s, fmt, i)) == FloatToInt16Word(mix[i])
  {
    match fmt
    case Int16Samples =>
      var b := Int16Bytes(FloatToInt16Word(mix[i]));
      assert 2 * i + 2 <= |s| && s[2 * i] == b[0] && s[2 * i + 1] == b[1];
      Int16MemoryRoundTrip(FloatToInt16Word(mix[i]));
    case Float32Samples =>
      var b := WordBytes(mix[i]);
      assert 4 * i + 4 <= |s|;
      assert s[4 * i] == b[0] && s[4 * i + 1] == b[1] && s[4 * i + 2] == b[2] && s[4 * i + 3] == b[3];
      assert Sample(s, fmt, i) == LoadWord(b[0], b[1], b[2], b[3]);
      LoadStoreWord(mix[i], 0, 0, 0, 0);
  }

  /** A sample after the record side's processing: scaled by the gain and clipped, unless raw. */
  function Processed(w: Word, k: int, raw: bool): Word
    requires raw || ScaleDefined(w, k)
  {
    if raw then w else ClipWord(ScaleWord(w, k))
  }

  /**
   * `d` is `d0` with its first `n` samples converted from ring samples `v` on: zeros before `inv`,
   * processed samples from there.
   */
  predicate Converted(d: seq<Word>, d0: seq<Word>, ring: seq<Byte>, fmt: Properties.SampleFormat, k: int, raw: bool, v: nat, n: nat, inv: nat)
    requires inv <= n
    requires forall j :: v + inv <= j < v + n ==> raw || ScaleDefined(Sample(ring, fmt, j), k)
  {
    && |d| == |d0|
    && forall i :: 0 <= i < |d| ==>
      d[i] == if i < inv then 0 else if i < n then Processed(Sample(ring, fmt, v + i), k, raw) else d0[i]
  }

  // ---------------------------------------------------------------- memory primitives

  /** `bzero` / `memset` of `count` elements starting at `a[start]`. */
  method Fill<T>(a: array<T>, start: nat, count: nat, value: T)
    requires start + count <= a.Length
    modifies a
    ensures forall i :: start <= i < start + count ==> a[i] == value
    ensures forall i :: 0 <= i < a.Length && !(start <= i < start + count) ==> a[i] == old(a[i])
  {
    var i := start;
    while i < start + count
      invariant start <= i <= start + count
      invariant forall j :: start <= j < i ==> a[j] == value
      invariant forall j :: 0 <= j < a.Length && !(start <= j < i) ==> a[j] == old(a[j])
    {
      a[i] := value;
      i := i + 1;
    }
  }

  /** `memcpy` of `count` float words into bytes at `out[outStart]`. */
  method StoreWords(out: array<Byte>, outStart: nat, inp: array<Word>, inStart: nat, count: nat)
    requires outStart + 4 * count <= out.Length && inStart + count <= inp.Length
    modifies out
    ensures forall k :: 0 <= k < count ==>
      out[outStart + 4 * k] == WordBytes(inp[inStart + k])[0] && out[outStart + 4 * k + 1] == WordBytes(inp[inStart + k])[1] &&
      out[outStart + 4 * k + 2] == WordBytes(inp[inStart + k])[2] && out[outStart + 4 * k + 3] == WordBytes(inp[inStart + k])[3]
    ensures forall j :: 0 <= j < out.Length && !(outStart <= j < outStart + 4 * count) ==> out[j] == old(out[j])
  {
    ghost var src := inp[..];
    var k := 0;
    while k < count
      invariant inp[..] == src
      invariant 0 <= k <= count
      invariant forall i :: 0 <= i < k ==>
        out[outStart + 4 * i] == WordBytes(inp[inStart + i])[0] && out[outStart + 4 * i + 1] == WordBytes(inp[inStart + i])[1] &&
        out[outStart + 4 * i + 2] == WordBytes(inp[inStart + i])[2] && out[outStart + 4 * i + 3] == WordBytes(inp[inStart + i])[3]
      invariant forall j :: 0 <= j < out.Length && !(outStart <= j < outStart + 4 * k) ==> out[j] == old(out[j])
    {
      var b := WordBytes(inp[inStart + k]);
      out[outStart + 4 * k], out[outStart + 4 * k + 1], out[outStart + 4 * k + 2], out[outStart + 4 * k + 3] := b[0], b[1], b[2], b[3];
      k := k + 1;
    }
  }

  /** `memcpy` of `4 * count` bytes at `inp[inStart]` into float words. */
  method LoadWords(out: array<Word>, outStart: nat, inp: array<Byte>, inStart: nat, count: nat)
    requires outStart + count <= out.Length && inStart + 4 * count <= inp.Length
    modifies out
    ensures forall k :: 0 <= k < count ==>
      out[outStart + k] == LoadWord(inp[inStart + 4 * k], inp[inStart + 4 * k + 1], inp[inStart + 4 * k + 2], inp[inStart + 4 * k + 3])
    ensures forall j :: 0 <= j < out.Length && !(outStart <= j < outStart + count) ==> out[j] == old(out[j])
  {
    ghost var src := inp[..];
    var k := 0;
    while k < count
      invariant inp[..] == src
      invariant 0 <= k <= count
      invariant forall i :: 0 <= i < k ==>
        out[outStart + i] == LoadWord(src[inStart + 4 * i], src[inStart + 4 * i + 1], src[inStart + 4 * i + 2], src[inStart + 4 * i + 3])
      invariant forall j :: 0 <= j < out.Length && !(outStart <= j < outStart + k) ==> out[j] == old(out[j])
    {
      out[outStart + k] := LoadWord(inp[inStart + 4 * k], inp[inStart + 4 * k + 1], inp[inStart + 4 * k + 2], inp[inStart + 4 * k + 3]);
      k := k + 1;
    }
  }

  // ---------------------------------------------------------------- the timer

  /**
   * `onBufferTimer`'s loop: the deadline moves on by whole periods until it lies after `now`;
   * a deadline already in the future stays.
   */
  method NextDeadline(next: int, now: int, period: int) returns (t: int, ghost periods: nat)
    requires period > 0
    ensures t > now && t == next + periods * period
    ensures next > now ==> t == next
    ensures next <= now ==> t - period <= now
  {
    t, periods := next, 0;
    while t <= now
      invariant t == next + periods * period
      invariant next <= now ==> t - period <= now
      invariant next > now ==> t == next
      decreases now - t
    {
      t, periods := t + period, periods + 1;
    }
  }

  /**
   * `onBufferTimer`'s loop as written, run for at most `fuel` turns: `None` when it is still
   * looping after them.
   */
  function DeadlineLoop(next: int, now: int, period: int, fuel: nat): Option<int>
    decreases fuel
  {
    if next > now then Some(next)
    else if fuel == 0 then None
    else DeadlineLoop(next + period, now, period, fuel - 1)
  }

  /** With a duration of 0 and the deadline reached, the loop as written never ends. */
  lemma {:induction false} DeadlineSpins(next: int, now: int, fuel: nat)
    requires next <= now
    ensures DeadlineLoop(next, now, 0, fuel).None?
    decreases fuel
  {
    if fuel > 0 {
      DeadlineSpins(next, now, fuel - 1);
    }
  }

  /** With a positive duration the loop ends within now - next + 1 turns, after `now`. */
  lemma {:induction false} DeadlineEnds(next: int, now: int, period: int, fuel: nat)
    requires period > 0 && fuel > now - next
    ensures DeadlineLoop(next, now, period, fuel).Some? && DeadlineLoop(next, now, period, fuel).value > now
    decreases fuel
  {
    if next <= now {
      DeadlineEnds(next + period, now, period, fuel - 1);
    }
  }

  /**
   * The parser accepts a configuration whose ring lasts less than a nanosecond: two frames at the
   * largest `int` rate give a duration of 0, so the timer's loop spins once the engine starts.
   */
  lemma ZeroDurationAccepted(p: Properties.Props)
    requires p.name == Some("vpcm") && p.rate == 0x7fff_ffff && p.channels == 2 && p.bufferFrames == 2
    requires p.format == Properties.Float32Samples && p.byteWidth == 4 && p.latencyFrames == 0
    requires p.eofOnIdle && !p.posixPipe
    ensures Properties.ParseArgs(["vpcm"] + Properties.Words(p)) == Ok(p)
    ensures p.bufferFrames * NanosPerSecond / p.rate == 0
  {
    assert Properties.SplitOpt("vpcm").None? by {
      assert |"vpcm"| >= 2 && "vpcm"[0] == 'v';
    }
    assert Properties.Valid(p);
    Properties.ParsePrinted(p);
    assert CQuot(0, p.rate) == 0;
    assert Properties.LatencyMsec(p) == 0;
    assert Properties.LatencyFrames(0, p.rate) == 0;
  }

  /**
   * The ring duration as `initHardware` evidently intends it: the nanoseconds of `bufferFrames`
   * frames at the rate, rounded down, with creation failing (`None`) when that is 0 just as it
   * fails for a rate below 1; a started timer then always has a positive period.
   */
  function BufferDuration(p: Properties.Props): (r: Option<nat>)
    ensures r.Some? <==> p.rate >= 1 && p.bufferFrames * NanosPerSecond >= p.rate
    ensures r.Some? ==> r.value > 0 && r.value * p.rate <= p.bufferFrames * NanosPerSecond < (r.value + 1) * p.rate
  {
    if p.rate < 1 || p.bufferFrames * NanosPerSecond < p.rate then None
    else
      var d := p.bufferFrames * NanosPerSecond / p.rate;
      QuotientSign(p.bufferFrames * NanosPerSecond, p.rate);
      Some(d)
  }

  // ---------------------------------------------------------------- the engine

  class AudioEngine {
    const props: Properties.Props
    /** Samples per frame, bytes per sample and frames in the ring. */
    const channels: nat
    const width: nat
    const frames: nat
    /** The ring (`mBuffer`) and its size in bytes. */
    const bytes: nat
    const buf: array<Byte>
    /** One ring's worth of time (`mBufferDuration`). */
    const duration: int

    /** The client's cursor into the ring (`mDevIOPtr`), as an offset. */
    var ptr: nat
    /** The bytes the client may transfer next, -1 before priming (`mDevIOBytesAvail`). */
    var avail: int
    /** The open flags of the client and the EOF / CLOSING / TERMINATING bits (`mIOState`). */
    var ioState: Flags
    var writePosition: nat
    var nextTime: int
    /** The four controls: input gain, output volume (both in half steps of 3 dB), and the mutes. */
    var gain: int
    var volume: int
    var muteInput: int
    var muteOutput: int

    ghost predicate Valid()
      reads this
    {
      && Properties.Valid(props)
      && channels == props.channels && width == props.byteWidth && frames == props.bufferFrames
      && bytes == frames * channels * width && bytes > 0 && buf.Length == bytes
      && duration == props.bufferFrames * NanosPerSecond / props.rate
      && ptr < bytes && avail >= -1 && writePosition < frames
      && -15 <= gain <= 0 && -15 <= volume <= 0
    }

    /** `init` and the buffer part of `initHardware`: a zeroed ring, not primed, nobody attached. */
    constructor (p: Properties.Props)
      requires Properties.Valid(p)
      ensures Valid() && props == p && fresh(buf)
      ensures avail == -1 && ioState == 0 && writePosition == 0 && ptr == 0 && nextTime == 0
      ensures gain == 0 && volume == 0 && muteInput == 0 && muteOutput == 0
      ensures forall i :: 0 <= i < bytes ==> buf[i] == 0
    {
      props := p;
      channels, width, frames := p.channels, p.byteWidth, p.bufferFrames;
      MulAtLeast(p.bufferFrames, p.channels);
      MulAtLeast(p.bufferFrames * p.channels, p.byteWidth);
      bytes := p.bufferFrames * p.channels * p.byteWidth;
      buf := new Byte[p.bufferFrames * p.channels * p.byteWidth](_ => 0);
      duration := p.bufferFrames * NanosPerSecond / p.rate;
      ptr, avail, ioState, writePosition, nextTime := 0, -1, 0, 0, 0;
      gain, volume, muteInput, muteOutput := 0, 0, 0, 0;
    }

    // -------------------------------------------------------------- the client's side

    /**
     * `devRead` / `devWrite`: one transfer of `req` by the client. `noise` stands for the values of
     * `random()` a noisy backlog is filled with, `clients` for the number of audio-side clients and
     * `sleepErr` for the error an interrupted sleep returns; a transfer that would sleep ends
     * `Asleep` (it resumes when the audio side next moves the counter).
     */
    method DevReadWrite(req: Request, noise: seq<Byte>, clients: nat, sleepErr: int) returns (r: IoResult)
      requires Valid() && |noise| >= Resid(req)
      modifies this`avail, this`ptr, buf
      ensures Valid()
      ensures var w := WaitOutcome(req.ReadReq?, old(avail), ioState, props.posixPipe, clients, sleepErr);
        Resid(req) == 0 || !w.Proceed? ==>
          && r == (if Resid(req) == 0 then Returned(0, 0, []) else if w.Stop? then Returned(w.code, 0, []) else Asleep)
          && avail == old(avail) && ptr == old(ptr) && buf[..] == old(buf[..])
      ensures Resid(req) > 0 && WaitOutcome(req.ReadReq?, old(avail), ioState, props.posixPipe, clients, sleepErr).Proceed? ==>
        var a := Clamped(old(avail), bytes, props.overflow);
        var e := Excess(a, bytes, Resid(req));
        var n := RingBytes(a, bytes, Resid(req));
        && n <= bytes
        && r == Returned(0, e + n, if req.ReadReq? then Synthetic(props.overflow == Properties.Noise, noise, e) + Ring.Read(old(buf[..]), old(ptr), n) else [])
        && avail == a - (e + n)
        && ptr == Ring.Advance(old(ptr), n, bytes)
        && buf[..] == if req.ReadReq? then old(buf[..]) else Ring.Write(old(buf[..]), old(ptr), req.data[e..e + n])
    {
      var resid := Resid(req);
      if resid < 1 {
        return Returned(0, 0, []);
      }
      if avail < 1 {
        if props.posixPipe && clients < 1 {
          return Returned(EPIPE, 0, []);
        }
        if ioState & EOF != 0 {
          return Returned(if req.ReadReq? then 0 else EPIPE, 0, []);
        }
        if ioState & FNONBLOCK != 0 {
          return Returned(EWOULDBLOCK, 0, []);
        }
        if ioState & TERMINATING != 0 {
          return Returned(EDEVERR, 0, []);
        }
        if sleepErr != 0 {
          return Returned(sleepErr, 0, []);
        }
        return Asleep;
      }
      r := Transfer(req, noise);
    }

    /** The transfer once the counter is positive: the Discard clamp, the drain, then the ring. */
    method Transfer(req: Request, noise: seq<Byte>) returns (r: IoResult)
      requires Valid() && |noise| >= Resid(req) && avail >= 1
      modifies this`avail, this`ptr, buf
      ensures Valid()
      ensures var a := Clamped(old(avail), bytes, props.overflow);
        var e := Excess(a, bytes, Resid(req));
        var n := RingBytes(a, bytes, Resid(req));
        && n <= bytes
        && r == Returned(0, e + n, if req.ReadReq? then Synthetic(props.overflow == Properties.Noise, noise, e) + Ring.Read(old(buf[..]), old(ptr), n) else [])
        && avail == a - (e + n)
        && ptr == Ring.Advance(old(ptr), n, bytes)
        && buf[..] == if req.ReadReq? then old(buf[..]) else Ring.Write(old(buf[..]), old(ptr), req.data[e..e + n])
    {
      var resid := Resid(req);
      if avail > bytes && props.overflow == Properties.Discard {
        avail := bytes;
      }
      var a := avail;
      var drained, synthetic := Drain(a, bytes, req, noise, props.overflow == Properties.Noise);
      TransferAccounting(a, bytes, resid);
      var moved, out := TransferRing(req, drained, a - drained, resid - drained);
      avail := avail - (drained + moved);
      r := Returned(0, drained + moved, synthetic + out);
    }

    /**
     * The transfer out of the ring: chunks up to the end of the ring, the cursor wrapping to its
     * start, until `a` bytes or the request are used up.
     */
    method TransferRing(req: Request, from: nat, a: int, resid: nat) returns (moved: nat, out: seq<Byte>)
      requires Valid() && a >= 0 && from + resid == Resid(req) && Min(a, resid) <= bytes
      modifies this`ptr, buf
      ensures Valid()
      ensures moved == Min(a, resid)
      ensures ptr == Ring.Advance(old(ptr), moved, bytes)
      ensures req.ReadReq? ==> out == Ring.Read(old(buf[..]), old(ptr), moved) && buf[..] == old(buf[..])
      ensures req.WriteReq? ==> out == [] && buf[..] == Ring.Write(old(buf[..]), old(ptr), req.data[from..from + moved])
    {
      ghost var s0, p0 := buf[..], ptr;
      var left, rest := a, resid;
      moved, out := 0, [];
      while left > 0 && rest > 0
        invariant moved <= Min(a, resid) && left == a - moved && rest == resid - moved
        invariant ptr < bytes && ptr == Ring.Advance(p0, moved, bytes)
        invariant req.ReadReq? ==> out == Ring.Read(s0, p0, moved) && buf[..] == s0
        invariant req.WriteReq? ==> out == [] && buf[..] == Ring.Write(s0, p0, req.data[from..from + moved])
        decreases rest
      {
        var n := Min(Min(left, bytes - ptr), rest);
        var piece := RingChunk(req, from, moved, n, s0, p0);
        out := out + piece;
        moved, left, rest := moved + n, left - n, rest - n;
      }
    }

    /**
     * One `uiomove` of the ring loop: `n` bytes at the cursor, which then moves on and wraps to 0
     * at the end of the ring.
     */
    method RingChunk(req: Request, from: nat, moved: nat, n: nat, ghost s0: seq<Byte>, ghost p0: nat) returns (piece: seq<Byte>)
      requires Valid() && |s0| == bytes && p0 < bytes && moved + n <= bytes && from + moved + n <= Resid(req)
      requires ptr == Ring.Advance(p0, moved, bytes) && ptr + n <= bytes
      requires req.ReadReq? ==> buf[..] == s0
      requires req.WriteReq? ==> buf[..] == Ring.Write(s0, p0, req.data[from..from + moved])
      modifies this`ptr, buf
      ensures Valid() && ptr == Ring.Advance(p0, moved + n, bytes)
      ensures req.ReadReq? ==> buf[..] == s0 && Ring.Read(s0, p0, moved) + piece == Ring.Read(s0, p0, moved + n)
      ensures req.WriteReq? ==> piece == [] && buf[..] == Ring.Write(s0, p0, req.data[from..from + moved + n])
    {
      piece := [];
      if req.ReadReq? {
        Ring.ReadExtend(s0, p0, moved, n);
        piece := buf[ptr..ptr + n];
      } else {
        WriteChunk(req.data, from, moved, n, s0, p0);
      }
      // the source answers EDEVERR when the cursor passed the end of the ring, which cannot happen
      var p := ptr + n;
      if p == bytes {
        p := 0;
      }
      ptr := p;
    }

    /** One chunk of a write: `n` bytes of `data` from `from + moved` into the ring at the cursor. */
    method WriteChunk(data: seq<Byte>, from: nat, moved: nat, n: nat, ghost s0: seq<Byte>, ghost p0: nat)
      requires Valid() && |s0| == bytes && p0 < bytes && from + moved + n <= |data| && moved + n <= bytes
      requires ptr == Ring.Advance(p0, moved, bytes) && ptr + n <= bytes
      requires buf[..] == Ring.Write(s0, p0, data[from..from + moved])
      modifies buf
      ensures buf[..] == Ring.Write(s0, p0, data[from..from + moved + n])
    {
      ghost var cur := buf[..];
      ghost var x := data[from + moved..from + moved + n];
      forall j | ptr <= j < ptr + n {
        buf[j] := data[from + moved + (j - ptr)];
      }
      assert data[from..from + moved + n] == data[from..from + moved] + x;
      Ring.WriteExtend(s0, p0, data[from..from + moved], x, cur, buf[..]);
    }

    // -------------------------------------------------------------- the audio side

    /** The window of frames `offset` to `offset + count` lies in the ring. */
    lemma WindowFits(offset: nat, count: nat)
      requires Valid() && offset < frames && offset + count <= frames
      ensures channels * offset * width < bytes
      ensures channels * offset * width + channels * count * width == (channels * offset + channels * count) * width <= bytes
      ensures channels * offset + channels * count <= channels * frames
    {
      MulDistributes(channels, offset, count);
      MulMonotone(channels, offset + count, frames);
      MulMonotoneLeft(channels * (offset + count), channels * frames, width);
      MulDistributes(width, channels * offset, channels * count);
      MulMonotone(channels, offset + 1, frames);
      MulMonotoneLeft(channels * (offset + 1), channels * frames, width);
      MulDistributes(channels, offset, 1);
      MulDistributes(width, channels * offset, channels);
      MulAtLeast(width, channels);
      assert channels * frames * width == frames * channels * width;
    }

    /**
     * `clipOutputSamples`: the audio system's mix for frames `offset` to `offset + count` (held in
     * `mix` from sample `channels * offset` on) goes into the same place of the ring: zeros when the
     * output is muted, otherwise scaled by the volume and clipped (unless raw) and encoded in the
     * format. The first period after priming puts the client's cursor at the window.
     */
    method ClipOutputSamples(mix: array<Word>, offset: nat, count: nat)
      requires Valid() && offset < frames && offset + count <= frames
      requires channels * offset + channels * count <= mix.Length
      requires muteOutput == 0 && !props.raw ==>
        forall i :: channels * offset <= i < channels * offset + channels * count ==> ScaleDefined(mix[i], volume)
      modifies this`ptr, this`avail, this`writePosition, buf, mix
      ensures Valid()
      ensures Mixed(old(mix[..]), mix[..], old(muteOutput == 0 && !props.raw), old(volume), channels * offset, channels * count)
      ensures Stored(old(buf[..]), buf[..], muteOutput != 0, props.format, mix[..], channels * offset, channels * count, width)
      ensures ptr == (if old(avail) < 0 then channels * offset * width else old(ptr))
      ensures avail == CounterAfterOutput(old(avail), channels * count * width)
      ensures writePosition == (offset + count) % frames
    {
      var v, n := channels * offset, channels * count;
      WindowFits(offset, count);
      var start := v * width;
      StoreWindow(mix, v, n);
      if avail < 0 {
        ptr := start;
        avail := 0;
      }
      avail := avail + n * width;
      writePosition := (offset + count) % frames;
    }

    /** The samples of `clipOutputSamples`: zeros when muted, otherwise the adjusted mix encoded in the format. */
    method StoreWindow(mix: array<Word>, v: nat, n: nat)
      requires Valid() && v + n <= mix.Length && v * width + n * width <= bytes
      requires muteOutput == 0 && !props.raw ==> forall i :: v <= i < v + n ==> ScaleDefined(mix[i], volume)
      modifies buf, mix
      ensures Mixed(old(mix[..]), mix[..], old(muteOutput == 0 && !props.raw), old(volume), v, n)
      ensures Stored(old(buf[..]), buf[..], muteOutput != 0, props.format, mix[..], v, n, width)
    {
      if muteOutput != 0 {
        Fill(buf, v * width, n * width, 0);
      } else {
        if !props.raw {
          Scale(mix, v, n, volume);
          Clip(mix, v, n);
        }
        EncodeSamples(mix, v, n);
      }
    }

    /** The `switch` on the format of `clipOutputSamples`: mix samples `from` to `from + n` into the ring. */
    method EncodeSamples(mix: array<Word>, from: nat, n: nat)
      requires Valid() && from + n <= mix.Length && from * width + n * width <= bytes
      modifies buf
      ensures Encoded(buf[..], props.format, mix[..], from, n)
      ensures forall j :: 0 <= j < bytes && !(from * width <= j < from * width + n * width) ==> buf[j] == old(buf[j])
    {
      ghost var src := mix[..];
      match props.format
      case Int16Samples =>
        FloatToInt16Copy(buf, from * 2, mix, from, n);
        assert mix[..] == src;
        forall i | from <= i < from + n
          ensures buf[2 * i] == Int16Bytes(FloatToInt16Word(mix[i]))[0] && buf[2 * i + 1] == Int16Bytes(FloatToInt16Word(mix[i]))[1]
        {
          assert 2 * i == from * 2 + 2 * (i - from);
        }
      case Float32Samples =>
        StoreWords(buf, from * 4, mix, from, n);
        assert mix[..] == src;
        forall i | from <= i < from + n
          ensures buf[4 * i] == WordBytes(mix[i])[0] && buf[4 * i + 1] == WordBytes(mix[i])[1] &&
            buf[4 * i + 2] == WordBytes(mix[i])[2] && buf[4 * i + 3] == WordBytes(mix[i])[3]
        {
          assert 4 * i == from * 4 + 4 * (i - from);
        }
    }

    /**
     * `convertInputSamples`: the input for frames `offset` to `offset + count` comes out of the
     * same place of the ring into `dest`: zeros when the input is muted; otherwise the leading
     * samples the client has not written yet are zeros and the others are decoded from the format,
     * then scaled by the gain and clipped (unless raw). The samples taken become free space for the
     * client; the first period after priming puts the client's cursor after the window.
     */
    method ConvertInputSamples(dest: array<Word>, offset: nat, count: nat)
      requires Valid() && offset < frames && offset + count <= frames && channels * count <= dest.Length
      requires muteInput == 0 && !props.raw ==>
        forall i :: channels * offset + Invalid(avail, channels * count, bytes, width) <= i < channels * offset + channels * count ==>
          ScaleDefined(Sample(buf[..], props.format, i), gain)
      modifies this`ptr, this`avail, dest
      ensures Valid()
      ensures var n := channels * count;
        Converted(dest[..], old(dest[..]), buf[..], props.format, gain, props.raw, channels * offset, n,
          if muteInput != 0 then n else Invalid(old(avail), n, bytes, width))
      ensures var n := channels * count;
        var taken := if muteInput != 0 then n else n - Invalid(old(avail), n, bytes, width);
        avail == CounterAfterInput(old(avail), taken * width, bytes)
      ensures ptr == if old(avail) < 0 then InputCursor((channels * offset + channels * count) * width, bytes) else old(ptr)
    {
      var v, n := channels * offset, channels * count;
      WindowFits(offset, count);
      var src := v * width;
      var skipped, valueCount := ConvertWindow(dest, v, n);
      src := src + skipped * width;
      assert src + valueCount * width == (v + n) * width by {
        MulDistributes(width, skipped, valueCount);
      }
      PrimeInput(src, valueCount);
    }

    /**
     * The tail of `convertInputSamples`: with the source pointer at `src` and `valueCount` samples
     * taken, the first period after priming puts the client's cursor after them and the counter
     * at a full ring; the samples taken become free space.
     */
    method PrimeInput(src: nat, valueCount: nat)
      requires Valid() && src + valueCount * width <= bytes
      modifies this`ptr, this`avail
      ensures Valid()
      ensures avail == CounterAfterInput(old(avail), valueCount * width, bytes)
      ensures ptr == if old(avail) < 0 then InputCursor(src + valueCount * width, bytes) else old(ptr)
    {
      if avail < 0 {
        var p := src + valueCount * width;
        if p >= bytes {
          p := 0;
        }
        ptr := p;
        avail := bytes;
      }
      avail := avail + valueCount * width;
    }

    /**
     * The samples of `convertInputSamples`: all zeros when muted, otherwise `TakeSamples`. Answers
     * how many leading samples the source pointer skips and how many it takes.
     */
    method ConvertWindow(dest: array<Word>, v: nat, n: nat) returns (skipped: nat, valueCount: nat)
      requires Valid() && n <= dest.Length && v * width + n * width <= bytes
      requires muteInput == 0 && !props.raw ==>
        forall i :: v + Invalid(avail, n, bytes, width) <= i < v + n ==> ScaleDefined(Sample(buf[..], props.format, i), gain)
      modifies dest
      ensures skipped + valueCount == n
      ensures valueCount == if muteInput != 0 then n else n - Invalid(avail, n, bytes, width)
      ensures Converted(dest[..], old(dest[..]), buf[..], props.format, gain, props.raw, v, n,
        if muteInput != 0 then n else Invalid(avail, n, bytes, width))
    {
      if muteInput != 0 {
        Fill(dest, 0, n, 0);
        skipped, valueCount := 0, n;
      } else {
        skipped := TakeSamples(dest, v, n);
        valueCount := n - skipped;
      }
    }

    /**
     * The unmuted part of `convertInputSamples`: zeros for the samples the client has not written,
     * the others decoded and processed. Answers how many were zeroed.
     */
    method TakeSamples(dest: array<Word>, v: nat, n: nat) returns (invalid: nat)
      requires Valid() && n <= dest.Length && v * width + n * width <= bytes
      requires !props.raw ==>
        forall i :: v + Invalid(avail, n, bytes, width) <= i < v + n ==> ScaleDefined(Sample(buf[..], props.format, i), gain)
      modifies dest
      ensures invalid == Invalid(avail, n, bytes, width)
      ensures Converted(dest[..], old(dest[..]), buf[..], props.format, gain, props.raw, v, n, invalid)
    {
      if avail < 0 {
        invalid := n;
      } else {
        var valid := CDiv(bytes - avail, width);
        invalid := Min(n, Max(0, n - valid));
      }
      DecodeWindow(dest, v, n, invalid);
    }

    /** Zeros for the first `invalid` samples of the window, the rest decoded and processed. */
    method DecodeWindow(dest: array<Word>, v: nat, n: nat, invalid: nat)
      requires Valid() && invalid <= n <= dest.Length && v * width + n * width <= bytes
      requires !props.raw ==> forall i :: v + invalid <= i < v + n ==> ScaleDefined(Sample(buf[..], props.format, i), gain)
      modifies dest
      ensures Converted(dest[..], old(dest[..]), buf[..], props.format, gain, props.raw, v, n, invalid)
    {
      ghost var ring := buf[..];
      Fill(dest, 0, invalid, 0);
      var valueCount := n - invalid;
      MulDistributes(width, v, invalid);
      DecodeSamples(dest, invalid, v + invalid, valueCount);
      ghost var decoded := dest[..];
      if !props.raw {
        Scale(dest, invalid, valueCount, gain);
        Clip(dest, invalid, valueCount);
      }
      assert buf[..] == ring;
      forall i | 0 <= i < dest.Length
        ensures dest[i] == if i < invalid then 0 else if i < n then Processed(Sample(ring, props.format, v + i), gain, props.raw) else old(dest[i])
      {
        if invalid <= i < n {
          assert decoded[i] == Sample(ring, props.format, v + i);
        }
      }
    }

    /** The `switch` on the format of `convertInputSamples`: ring samples `from` on into `dest[at..]`. */
    method DecodeSamples(dest: array<Word>, at: nat, from: nat, count: nat)
      requires Valid() && at + count <= dest.Length && from * width + count * width <= bytes
      modifies dest
      ensures forall i :: at <= i < at + count ==> dest[i] == Sample(buf[..], props.format, from + i - at)
      ensures forall k :: 0 <= k < dest.Length && !(at <= k < at + count) ==> dest[k] == old(dest[k])
    {
      match props.format
      case Int16Samples => DecodeInt16(dest, at, from, count);
      case Float32Samples => DecodeFloat32(dest, at, from, count);
    }

    /** `Int16ToFloatCopy` from the ring. */
    method DecodeInt16(dest: array<Word>, at: nat, from: nat, count: nat)
      requires Valid() && props.format == Properties.Int16Samples
      requires at + count <= dest.Length && from * width + count * width <= bytes
      modifies dest
      ensures forall i :: at <= i < at + count ==> dest[i] == Sample(buf[..], props.format, from + i - at)
      ensures forall k :: 0 <= k < dest.Length && !(at <= k < at + count) ==> dest[k] == old(dest[k])
    {
      Int16ToFloatCopy(dest, at, buf, from * 2, count);
      assert buf[..] == old(buf[..]);
      assert width == 2 && from * width + count * width == 2 * (from + count);
      forall i | at <= i < at + count
        ensures dest[i] == Sample(buf[..], props.format, from + i - at)
      {
        var k := i - at;
        assert dest[at + k] == Int16ToFloatWord(LoadInt16(buf[from * 2 + 2 * k], buf[from * 2 + 2 * k + 1]));
        assert from * 2 + 2 * k == 2 * (from + k) && 2 * (from + k) + 2 <= buf.Length;
      }
    }

    /** The `memcpy` of float samples from the ring. */
    method DecodeFloat32(dest: array<Word>, at: nat, from: nat, count: nat)
      requires Valid() && props.format == Properties.Float32Samples
      requires at + count <= dest.Length && from * width + count * width <= bytes
      modifies dest
      ensures forall i :: at <= i < at + count ==> dest[i] == Sample(buf[..], props.format, from + i - at)
      ensures forall k :: 0 <= k < dest.Length && !(at <= k < at + count) ==> dest[k] == old(dest[k])
    {
      LoadWords(dest, at, buf, from * 4, count);
      assert buf[..] == old(buf[..]);
      assert width == 4 && from * width + count * width == 4 * (from + count);
      forall i | at <= i < at + count
        ensures dest[i] == Sample(buf[..], props.format, from + i - at)
      {
        var k := i - at;
        assert dest[at + k] == LoadWord(buf[from * 4 + 4 * k], buf[from * 4 + 4 * k + 1], buf[from * 4 + 4 * k + 2], buf[from * 4 + 4 * k + 3]);
        assert from * 4 + 4 * k == 4 * (from + k) && 4 * (from + k) + 4 <= buf.Length;
      }
    }

    // -------------------------------------------------------------- the node's other entry points

    /**
     * `devOpen`: a playback engine may only be read and a record engine only written, and one
     * client at a time; the state word goes from 0 to the open flags in one step, then the ring
     * is cleared and unprimed.
     */
    method DevOpen(flags: Flags) returns (err: int)
      requires Valid()
      modifies this`ioState, this`avail, buf
      ensures Valid()
      ensures err == OpenError(props.mode, flags, old(ioState))
      ensures err == 0 ==> ioState == flags && avail == -1 && forall i :: 0 <= i < bytes ==> buf[i] == 0
      ensures err != 0 ==> ioState == old(ioState) && avail == old(avail) && buf[..] == old(buf[..])
    {
      if props.mode == Properties.Playback && flags & FWRITE != 0 {
        err := ENOTSUP;
      } else if props.mode == Properties.Record && flags & FREAD != 0 {
        err := ENOTSUP;
      } else if flags & FREAD != 0 && flags & FWRITE != 0 {
        err := ENOTSUP;
      } else if ioState != 0 {
        err := EACCES;
      } else {
        ioState := flags;
        err := OnDevOpen();
      }
    }

    method OnDevOpen() returns (err: int)
      requires Valid()
      modifies this`avail, buf
      ensures Valid() && err == 0 && avail == -1
      ensures forall i :: 0 <= i < bytes ==> buf[i] == 0
    {
      avail := -1;
      Fill(buf, 0, bytes, 0);
      err := 0;
    }

    /** `devClose`: the state word passes through CLOSING and ends at 0, so the node can be opened again. */
    method DevClose() returns (err: int)
      modifies this`ioState
      ensures ioState == 0 && err == 0
    {
      ioState := CLOSING;
      err := OnDevClose();
    }

    method OnDevClose() returns (err: int)
      modifies this`ioState
      ensures ioState == old(ioState) & !CLOSING && err == 0
    {
      ioState := ioState & !CLOSING;
      err := 0;
    }

    /**
     * `devIoctl`: `FIONBIO` sets or clears the non-blocking bit and echoes its argument; the
     * queries answer from the counter and leave the state alone; anything else is `ENOTTY` and
     * leaves the argument as it was.
     */
    method DevIoctl(cmd: nat, arg: int) returns (err: int, data: int)
      requires Valid()
      modifies this`ioState
      ensures Valid()
      ensures cmd == FIONBIO ==> err == 0 && data == arg && ioState == NonBlocking(old(ioState), arg != 0)
      ensures cmd != FIONBIO ==> ioState == old(ioState)
      ensures cmd != FIONBIO && Query(cmd, avail, bytes).Some? ==> err == 0 && data == Query(cmd, avail, bytes).value
      ensures cmd != FIONBIO && Query(cmd, avail, bytes).None? ==> err == ENOTTY && data == arg
    {
      err, data := 0, arg;
      var result := 0;
      if cmd == FIONBIO {
        if arg != 0 {
          ioState := ioState | FNONBLOCK;
        } else {
          ioState := ioState & !FNONBLOCK;
        }
        result := arg;
      } else if cmd == FIONREAD || cmd == FIONSPACE {
        result := if avail < 0 then 0 else Min(avail, bytes);
      } else if cmd == FIONWRITE {
        result := if avail < 0 then 0 else bytes - Min(avail, bytes);
      } else {
        err := ENOTTY;
      }
      if err == 0 {
        data := result;
      }
    }

    /** `getIOFlags`: the open flags within the state word. */
    function IoFlags(): Flags
      reads this
    {
      ioState & FMASK
    }

    // -------------------------------------------------------------- the audio system's callbacks

    /**
     * `stopEngineAtPosition`: with `eofOnIdle`, the last audio-side client going away while the
     * node is open marks end of file.
     */
    method StopEngineAtPosition(clients: nat)
      modifies this`ioState
      ensures ioState == if props.eofOnIdle && old(ioState) != 0 && clients == 0 then old(ioState) | EOF else old(ioState)
    {
      if props.eofOnIdle && ioState != 0 && clients == 0 {
        ioState := ioState | EOF;
      }
    }

    /** `performAudioEngineStart`: the first deadline one ring from `now`; the ring is unprimed. */
    method PerformAudioEngineStart(now: int)
      requires Valid()
      modifies this`nextTime, this`avail, this`writePosition
      ensures Valid() && nextTime == now + duration && avail == -1 && writePosition == 0
    {
      nextTime := now + duration;
      avail := -1;
      writePosition := 0;
    }

    /** `stopAudioEngine` and `resetClipPosition`: the ring is unprimed. */
    method StopAudioEngine()
      requires Valid()
      modifies this`avail
      ensures Valid() && avail == -1
    {
      avail := -1;
    }

    method ResetClipPosition()
      requires Valid()
      modifies this`avail
      ensures Valid() && avail == -1
    {
      avail := -1;
    }

    /**
     * `onBufferTimer`: the next deadline after `now`, `periods` whole rings after the last one.
     */
    method OnBufferTimer(now: int) returns (ghost periods: nat)
      requires duration > 0
      modifies this`nextTime
      ensures nextTime == old(nextTime) + periods * duration
      ensures nextTime > now && (old(nextTime) > now ==> nextTime == old(nextTime))
      ensures old(nextTime) <= now ==> nextTime - duration <= now
    {
      var t;
      t, periods := NextDeadline(nextTime, now, duration);
      nextTime := t;
    }

    /** `getCurrentSampleFrame`: the frame after the last one played. */
    function CurrentSampleFrame(): nat
      reads this
    {
      writePosition
    }

    /**
     * `onControlChanged`: control 0 is the input gain, 1 the output volume, 2 and 3 the input and
     * output mutes; the level controls range over -15..0.
     */
    method OnControlChanged(id: nat, value: int)
      requires Valid() && id < 4 && (id < 2 ==> -15 <= value <= 0)
      modifies this`gain, this`volume, this`muteInput, this`muteOutput
      ensures Valid()
      ensures gain == (if id == 0 then value else old(gain)) && volume == (if id == 1 then value else old(volume))
      ensures muteInput == (if id == 2 then value else old(muteInput)) && muteOutput == (if id == 3 then value else old(muteOutput))
    {
      if id == 0 {
        gain := value;
      } else if id == 1 {
        volume := value;
      } else if id == 2 {
        muteInput := value;
      } else {
        muteOutput := value;
      }
    }
  }

  // ---------------------------------------------------------------- a session

  /**
   * A playback session on a stereo float engine of 1024 frames with the Discard policy: one period
   * of 1024 frames makes 8192 bytes readable; a read of 4096 bytes gets 4096 and leaves 4096; a
   * read of 8192 gets the remaining 4096; the next read waits.
   */
  method PlaybackSession() returns (openErr: int, first: IoResult, left: int, second: IoResult, third: IoResult)
    ensures openErr == 0
    ensures first.Returned? && first.err == 0 && first.moved == 4096 && |first.out| == 4096 && left == 4096
    ensures second.Returned? && second.err == 0 && second.moved == 4096 && |second.out| == 4096
    ensures third == Asleep
  {
    var p := Properties.Props(Some("pcm"), Properties.Playback, 44100, 2, Properties.Float32Samples, 4, false, 1024, 0,
      true, false, Properties.Discard);
    var e := new AudioEngine(p);
    openErr := e.DevOpen(FREAD);
    e.PerformAudioEngineStart(0);
    var mix := new Word[2048](_ => 0);
    e.ClipOutputSamples(mix, 0, 1024);
    first := e.DevReadWrite(ReadReq(4096), Zeros(4096), 1, 0);
    left := e.avail;
    second := e.DevReadWrite(ReadReq(8192), Zeros(8192), 1, 0);
    third := e.DevReadWrite(ReadReq(8192), Zeros(8192), 1, 0);
  }

  /**
   * An engine whose configuration has a corrected duration runs its timer on that duration, which
   * is positive, so `OnBufferTimer` applies to it.
   */
  lemma TimerPeriodPositive(e: AudioEngine)
    requires e.Valid() && BufferDuration(e.props).Some?
    ensures e.duration == BufferDuration(e.props).value && e.duration > 0
  {
    var x := e.props.bufferFrames * NanosPerSecond;
    var d := BufferDuration(e.props).value;
    assert d * e.props.rate <= x < (d + 1) * e.props.rate;
    assert x == (x / e.props.rate) * e.props.rate + x % e.props.rate;
    FloorUnique(x, e.props.rate, d, x / e.props.rate);
  }

  /** Two numbers whose multiples bracket `x` the same way are equal. */
  lemma FloorUnique(x: nat, b: nat, d: nat, q: nat)
    requires b > 0 && d * b <= x < (d + 1) * b && q * b <= x < (q + 1) * b
    ensures d == q
  {
    if d < q {
      MulMonotoneLeft(d + 1, q, b);
    } else if q < d {
      MulMonotoneLeft(q + 1, d, b);
    }
  }
}
