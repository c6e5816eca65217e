/** The reply half of adb_host_request: what the host reads back after it has
    released the line at the end of the stop bit.

    The line is replaced by a script: the durations, in microseconds, of the
    phases the line goes through, alternating between levels and starting
    with the high phase that follows the release. The waits of a transaction
    consume the phases in order:

      phase 0                      response wait (line high)
      phases 1 + 18k + 2j, +1      bit j of byte k: low, then high
      phase 1 + 18k + 16           stop-bit check (line low)
      phase 1 + 18k + 17           more-data check (line high)

    A phase beyond the end of the script never ends. */
module AdbReceive {
  import opened AdbTiming
  import opened AdbFrame

  type Reply = seq<nat>

  /** Size of the caller's buffer that a request clears and fills. */
  const MaxBytes: nat := 8

  /** Phases consumed per received byte: eight cells, stop, more-data. */
  const PhasesPerByte: nat := 18

  /** Index one past the more-data phase of the eighth byte. */
  const FrameEnd: nat := ByteBase(MaxBytes)

  /** How long phase `i` lasts as far as its wait can tell: a phase that
      never ends counts as one that outlasts the timeout. */
  function Duration(reply: Reply, i: nat): nat
  {
    if i < |reply| then reply[i] else Timeout + 1
  }

  /** The wait that consumes phase `i` times out. */
  predicate Expired(reply: Reply, i: nat)
  {
    TimesOut(Duration(reply, i))
  }

  /** Index of the first phase of byte `k`. */
  function ByteBase(k: nat): nat
  {
    1 + PhasesPerByte * k
  }

  /** The high phases of the first `n` bit cells of byte `k`. */
  function ByteHighs(reply: Reply, k: nat, n: nat): (highs: seq<nat>)
    requires n <= 8 && ByteBase(k) + 2 * n <= |reply|
    ensures |highs| == n
  {
    seq(n, j requires 0 <= j < n => reply[ByteBase(k) + 2 * j + 1])
  }

  /** Byte `k` of the reply as the receive rule decodes it. */
  function ByteAt(reply: Reply, k: nat): bv8
    requires ByteBase(k) + 16 <= |reply|
  {
    Accumulate(ByteHighs(reply, k, 8))
  }

  /** The device pulls the line low within the timeout after the release. */
  predicate Responds(reply: Reply)
  {
    !Expired(reply, 0)
  }

  /** No wait on the sixteen cell phases of byte `k` times out. */
  predicate BitsArrive(reply: Reply, k: nat)
  {
    forall i :: ByteBase(k) <= i < ByteBase(k) + 16 ==> !Expired(reply, i)
  }

  /** The stop-bit check after byte `k` sees the line rise in time. */
  predicate StopArrives(reply: Reply, k: nat)
  {
    !Expired(reply, ByteBase(k) + 16)
  }

  /** The more-data check after byte `k` sees the line fall in time. */
  predicate MoreFollows(reply: Reply, k: nat)
  {
    !Expired(reply, ByteBase(k) + 17)
  }

  /** The device answered and bytes 0 to k - 1 each went through all four
      kinds of wait, so the receive loop starts byte `k`. */
  predicate ReachesByte(reply: Reply, k: nat)
  {
    && Responds(reply)
    && forall j :: 0 <= j < k ==> BitsArrive(reply, j) && StopArrives(reply, j) && MoreFollows(reply, j)
  }

  /** The first phase in [lo, FrameEnd) whose wait times out, or FrameEnd. */
  function FirstExpired(reply: Reply, lo: nat): (e: nat)
    requires lo <= FrameEnd
    ensures lo <= e <= FrameEnd
    ensures forall i :: lo <= i < e ==> !Expired(reply, i)
    ensures e < FrameEnd ==> Expired(reply, e)
    decreases FrameEnd - lo
  {
    if lo == FrameEnd then FrameEnd
    else if Expired(reply, lo) then lo
    else FirstExpired(reply, lo + 1)
  }

  /** Every phase before the first timed-out wait is in the script. */
  lemma FirstExpiredInScript(reply: Reply)
    ensures FirstExpired(reply, 0) <= |reply|
  {
    assert Expired(reply, |reply|);
  }

  /** The first timed-out wait is the one on phase `p`. */
  lemma FirstExpiredIs(reply: Reply, p: nat)
    requires p <= FrameEnd
    requires forall i :: 0 <= i < p ==> !Expired(reply, i)
    requires p < FrameEnd ==> Expired(reply, p)
    ensures FirstExpired(reply, 0) == p
  {
  }

  /** How a request ends: the device never answered, or the request
      finished with a return value and a byte count. */
  datatype Verdict = NoResponse | Finished(ok: bool, count: nat)

  /** The verdict when the first timed-out wait after a response is the one
      on phase `e` (FrameEnd when none of the waits timed out). */
  function EndOf(e: nat): (v: Verdict)
    requires 1 <= e <= FrameEnd
    ensures v.Finished? && v.count <= MaxBytes
    ensures v.count > 0 ==> ByteBase(v.count - 1) + 16 <= e
  {
    if e == FrameEnd then Finished(true, MaxBytes)
    else
      var k := (e - 1) / PhasesPerByte;
      var phase := (e - 1) % PhasesPerByte;
      if phase < 16 then Finished(k > 0, k)
      else if phase == 16 then Finished(false, k + 1)
      else Finished(true, k + 1)
  }

  /** The reference verdict of a request, read off the first timed-out
      wait. Every byte it counts was fully received. */
  function VerdictOf(reply: Reply): (v: Verdict)
    ensures v.NoResponse? <==> !Responds(reply)
    ensures v.Finished? ==> v.count <= MaxBytes
    ensures v.Finished? && v.count > 0 ==> ByteBase(v.count - 1) + 16 <= |reply|
    ensures v.Finished? ==> forall i :: 0 <= i < v.count ==> BitsArrive(reply, i)
  {
    var e := FirstExpired(reply, 0);
    if e == 0 then NoResponse
    else
      FirstExpiredInScript(reply);
      var v := EndOf(e);
      assert forall i :: 0 <= i < v.count ==> ByteBase(i) + 16 <= e;
      v
  }

  /** Phase `phase` of byte `k` has index ByteBase(k) + phase. */
  lemma PhaseIndex(k: nat, phase: nat)
    requires phase < PhasesPerByte
    ensures (ByteBase(k) + phase - 1) / PhasesPerByte == k
    ensures (ByteBase(k) + phase - 1) % PhasesPerByte == phase
  {
  }

  /** Reaching byte `k` means no wait before its first phase timed out. */
  lemma ReachesByteClear(reply: Reply, k: nat)
    requires ReachesByte(reply, k)
    ensures forall i :: 0 <= i < ByteBase(k) ==> !Expired(reply, i)
  {
    forall i | 1 <= i < ByteBase(k)
      ensures !Expired(reply, i)
    {
      var j := (i - 1) / PhasesPerByte;
      var phase := (i - 1) % PhasesPerByte;
      assert i == ByteBase(j) + phase;
      assert j < k;
      if phase < 16 {
        assert BitsArrive(reply, j);
      } else if phase == 16 {
        assert StopArrives(reply, j);
      } else {
        assert MoreFollows(reply, j);
      }
    }
  }

  /** No response within the timeout: the request fails. */
  lemma NoResponseVerdict(reply: Reply)
    requires !Responds(reply)
    ensures VerdictOf(reply) == NoResponse
  {
  }

  /** An edge wait inside byte `k` times out: the request fails if no byte
      was complete and otherwise succeeds with the `k` complete bytes. */
  lemma EdgeTimeoutVerdict(reply: Reply, k: nat)
    requires k < MaxBytes
    requires ReachesByte(reply, k) && !BitsArrive(reply, k)
    ensures VerdictOf(reply) == Finished(k > 0, k)
  {
    ReachesByteClear(reply, k);
    var j :| ByteBase(k) <= j < ByteBase(k) + 16 && Expired(reply, j);
    var e := FirstExpired(reply, 0);
    assert ByteBase(k) <= e <= j;
    PhaseIndex(k, e - ByteBase(k));
  }

  /** Byte `k` is complete but its stop bit never rises: the request fails,
      yet counts the byte. */
  lemma MissingStopVerdict(reply: Reply, k: nat)
    requires k < MaxBytes
    requires ReachesByte(reply, k) && BitsArrive(reply, k) && !StopArrives(reply, k)
    ensures VerdictOf(reply) == Finished(false, k + 1)
  {
    ReachesByteClear(reply, k);
    FirstExpiredIs(reply, ByteBase(k) + 16);
    PhaseIndex(k, 16);
  }

  /** Byte `k` and its stop bit are complete and the line then stays high:
      the request succeeds with `k + 1` bytes. */
  lemma NoMoreDataVerdict(reply: Reply, k: nat)
    requires k < MaxBytes
    requires ReachesByte(reply, k) && BitsArrive(reply, k) && StopArrives(reply, k) && !MoreFollows(reply, k)
    ensures VerdictOf(reply) == Finished(true, k + 1)
  {
    ReachesByteClear(reply, k);
    FirstExpiredIs(reply, ByteBase(k) + 17);
    PhaseIndex(k, 17);
  }

  /** Eight bytes and none of the waits timed out: success with count 8. */
  lemma FullFrameVerdict(reply: Reply)
    requires ReachesByte(reply, MaxBytes)
    ensures VerdictOf(reply) == Finished(true, MaxBytes)
  {
    ReachesByteClear(reply, MaxBytes);
    FirstExpiredIs(reply, FrameEnd);
  }

  /** A request that returns true has counted at least one byte: a
      timeout inside the first byte is the only way to finish without a
      byte, and it returns false. */
  lemma SuccessCountsByte(reply: Reply)
    ensures VerdictOf(reply).Finished? && VerdictOf(reply).ok ==> VerdictOf(reply).count > 0
  {
  }

  /** The caller's buffer after the clear and `count` stored bytes: the
      decoded bytes, zeros up to MaxBytes, and the rest untouched. */
  function Filled(reply: Reply, count: nat, buf: seq<bv8>): (r: seq<bv8>)
    requires count <= MaxBytes <= |buf|
    requires count > 0 ==> ByteBase(count - 1) + 16 <= |reply|
  {
    seq(|buf|, i requires 0 <= i < |buf| =>
      if i < count then ByteAt(reply, i) else if i < MaxBytes then 0 else buf[i])
  }

  /** A byte count of at most 8 survives the conversion to `uint8_t`. */
  lemma CountFits(n: nat)
    requires n <= MaxBytes
    ensures (n as bv8) as int == n
  {
    assert n in {0, 1, 2, 3, 4, 5, 6, 7, 8};
  }

  /** The contents of a filled buffer, position by position. */
  lemma FilledShape(reply: Reply, count: nat, buf: seq<bv8>)
    requires count <= MaxBytes <= |buf|
    requires count > 0 ==> ByteBase(count - 1) + 16 <= |reply|
    ensures var r := Filled(reply, count, buf);
      && |r| == |buf|
      && (forall i :: count <= i < MaxBytes ==> r[i] == 0)
      && (forall i :: MaxBytes <= i < |buf| ==> r[i] == buf[i])
      && (forall i :: 0 <= i < count ==> ByteBase(i) + 16 <= |reply| && r[i] == ByteAt(reply, i))
  {
  }

  /** Storing byte `count` extends the filled prefix by one. */
  lemma FilledNext(reply: Reply, count: nat, buf: seq<bv8>)
    requires count < MaxBytes <= |buf|
    requires ByteBase(count) + 16 <= |reply|
    ensures Filled(reply, count, buf)[count := ByteAt(reply, count)] == Filled(reply, count + 1, buf)
  {
  }

  /** The bytes a finished request counts, as the decoder reads them. */
  function ReceivedBytes(reply: Reply): (bytes: seq<bv8>)
    requires VerdictOf(reply).Finished?
    ensures |bytes| == VerdictOf(reply).count
    ensures forall i :: 0 <= i < |bytes| ==> ByteBase(i) + 16 <= |reply| && bytes[i] == ByteAt(reply, i)
  {
    var n := VerdictOf(reply).count;
    seq(n, i requires 0 <= i < n => ByteAt(reply, i))
  }

  /** Result of a request: the return value, `*bufsize` and the buffer. */
  datatype Outcome = Outcome(ok: bool, bufsize: bv8, buf: seq<bv8>)

  /** The reference outcome of a request on a buffer of at least 8 bytes. */
  function Expected(reply: Reply, buf: seq<bv8>, bufsize: bv8): Outcome
    requires MaxBytes <= |buf|
  {
    match VerdictOf(reply)
    case NoResponse => Outcome(false, bufsize, buf)
    case Finished(ok, count) => Outcome(ok, count as bv8, Filled(reply, count, buf))
  }

  /** The verdict when the first timed-out wait is the one on phase `p`
      of byte `k`. */
  lemma VerdictAt(reply: Reply, k: nat, phase: nat)
    requires k < MaxBytes && phase < PhasesPerByte
    requires forall i :: 0 <= i < ByteBase(k) + phase ==> !Expired(reply, i)
    requires Expired(reply, ByteBase(k) + phase)
    ensures VerdictOf(reply) ==
              if phase < 16 then Finished(k > 0, k)
              else if phase == 16 then Finished(false, k + 1)
              else Finished(true, k + 1)
  {
    FirstExpiredIs(reply, ByteBase(k) + phase);
    PhaseIndex(k, phase);
  }

  /** The reference outcome of a finished request. */
  lemma ExpectedFinished(reply: Reply, buf: seq<bv8>, bufsize: bv8, ok: bool, count: nat)
    requires MaxBytes <= |buf|
    requires VerdictOf(reply) == Finished(ok, count)
    ensures count <= MaxBytes && (count > 0 ==> ByteBase(count - 1) + 16 <= |reply|)
    ensures Expected(reply, buf, bufsize) == Outcome(ok, count as bv8, Filled(reply, count, buf))
  {
  }

  /** A request succeeds with at least one byte exactly when the verdict
      says so, and then the front of the buffer holds the bytes received. */
  lemma ExpectedReport(reply: Reply, buf: seq<bv8>, bufsize: bv8)
    requires MaxBytes <= |buf|
    ensures var res := Expected(reply, buf, bufsize);
      var v := VerdictOf(reply);
      && (res.ok && res.bufsize != 0 <==> v.Finished? && v.ok && v.count > 0)
      && (res.ok && res.bufsize != 0 ==>
            res.bufsize as int <= |res.buf| && res.buf[..res.bufsize] == ReceivedBytes(reply))
  {
    var v := VerdictOf(reply);
    if v.Finished? {
      ExpectedFinished(reply, buf, bufsize, v.ok, v.count);
      FilledShape(reply, v.count, buf);
      CountFits(v.count);
      var r := Filled(reply, v.count, buf);
      assert r[..v.count] == ReceivedBytes(reply);
    }
  }

  /** The outcome of a request that succeeds with the bytes `bytes`. */
  lemma SucceedsWith(reply: Reply, buf: seq<bv8>, bufsize: bv8, bytes: seq<bv8>)
    requires MaxBytes <= |buf|
    requires VerdictOf(reply) == Finished(true, |bytes|) && ReceivedBytes(reply) == bytes
    ensures var res := Expected(reply, buf, bufsize);
      && res.ok
      && res.bufsize as int == |bytes|
      && |res.buf| == |buf|
      && res.buf[..|bytes|] == bytes
      && (forall i :: |bytes| <= i < MaxBytes ==> res.buf[i] == 0)
      && res.buf[MaxBytes..] == buf[MaxBytes..]
  {
    var n := |bytes|;
    ExpectedFinished(reply, buf, bufsize, true, n);
    FilledShape(reply, n, buf);
    CountFits(n);
    var r := Filled(reply, n, buf);
    assert r[..n] == bytes;
  }

  /** The eight bit cells of byte `k`: per cell, wait for the rising edge,
      then for the falling edge, and shift in the bit the measured high time
      stands for. `failedAt` is the phase whose wait timed out when the byte
      is not complete. */
  method ReceiveBits(reply: Reply, k: nat, start: U32)
    returns (complete: bool, data: bv8, failedAt: nat, now: U32)
    ensures complete ==>
              ByteBase(k) + 16 <= |reply| && data == ByteAt(reply, k) && BitsArrive(reply, k)
    ensures !complete ==>
              ByteBase(k) <= failedAt < ByteBase(k) + 16 && Expired(reply, failedAt) &&
              forall i :: ByteBase(k) <= i < failedAt ==> !Expired(reply, i)
  {
    var pos := ByteBase(k);
    var timedOut: bool;
    now := start;
    data := 0;
    failedAt := 0;
    var bit: nat := 0;
    while bit < 8
      invariant bit <= 8
      invariant pos == ByteBase(k) + 2 * bit
      invariant bit > 0 ==> pos <= |reply|
      invariant forall i :: ByteBase(k) <= i < pos ==> !Expired(reply, i)
      invariant bit > 0 ==> data == Accumulate(ByteHighs(reply, k, bit))
      invariant bit == 0 ==> data == 0
    {
      // wait for the rising edge that ends the low part of the cell
      timedOut, now := BusyWait(now, Duration(reply, pos));
      if timedOut {
        return false, data, pos, now;
      }
      var bitStart := now;
      // wait for the falling edge that ends the high part
      timedOut, now := BusyWait(now, Duration(reply, pos + 1));
      if timedOut {
        return false, data, pos + 1, now;
      }
      var highTime := Elapsed(bitStart, now);
      assert ByteHighs(reply, k, bit + 1)[..bit] == ByteHighs(reply, k, bit);
      data := data << 1;
      if highTime < HighThreshold {
        data := data | 1;
      }
      pos := pos + 2;
      bit := bit + 1;
    }
    return true, data, 0, now;
  }

  /** The receive loop of adb_host_request, wait by wait. The clock reads
      `t0` when the response wait starts. */
  method ReceiveLoop(reply: Reply, t0: U32, buf: seq<bv8>, bufsize: bv8) returns (res: Outcome)
    requires MaxBytes <= |buf|
    ensures res == Expected(reply, buf, bufsize)
  {
    var timedOut, now := BusyWait(t0, Duration(reply, 0));
    if timedOut {
      return Outcome(false, bufsize, buf);
    }
    var out := Filled(reply, 0, buf);
    var byte: nat := 0;
    var pos: nat := 1;
    while byte < MaxBytes
      invariant byte <= MaxBytes
      invariant pos == ByteBase(byte) && pos <= |reply|
      invariant forall i :: 0 <= i < pos ==> !Expired(reply, i)
      invariant out == Filled(reply, byte, buf)
    {
      var complete, data, failedAt;
      complete, data, failedAt, now := ReceiveBits(reply, byte, now);
      if !complete {
        VerdictAt(reply, byte, failedAt - pos);
        ExpectedFinished(reply, buf, bufsize, byte > 0, byte);
        return Outcome(byte > 0, byte as bv8, out);
      }
      FilledNext(reply, byte, buf);
      out := out[byte := data];
      // stop bit: wait for the line to rise again
      timedOut, now := BusyWait(now, Duration(reply, pos + 16));
      if timedOut {
        VerdictAt(reply, byte, 16);
        ExpectedFinished(reply, buf, bufsize, false, byte + 1);
        return Outcome(false, (byte + 1) as bv8, out);
      }
      // more data: wait for the line to fall for the next byte
      timedOut, now := BusyWait(now, Duration(reply, pos + 17));
      if timedOut {
        VerdictAt(reply, byte, 17);
        ExpectedFinished(reply, buf, bufsize, true, byte + 1);
        return Outcome(true, (byte + 1) as bv8, out);
      }
      pos := pos + PhasesPerByte;
      byte := byte + 1;
    }
    FirstExpiredIs(reply, FrameEnd);
    ExpectedFinished(reply, buf, bufsize, true, MaxBytes);
    return Outcome(true, MaxBytes as bv8, out);
  }

  /** Whether or not the device responds, the reference outcome keeps the
      caller's count and buffer when it does not, and otherwise counts at
      most 8 bytes, stores exactly the bytes it counts, each fully received,
      clears the rest of the first 8 bytes and leaves the rest untouched. */
  predicate ShapeOf(reply: Reply, buf: seq<bv8>, bufsize: bv8, res: Outcome)
    requires MaxBytes <= |buf|
  {
    && (!Responds(reply) ==> res == Outcome(false, bufsize, buf))
    && (Responds(reply) ==>
          && res.ok == VerdictOf(reply).ok
          && res.bufsize as int == VerdictOf(reply).count <= MaxBytes
          && |res.buf| == |buf|
          && (forall i :: res.bufsize as int <= i < MaxBytes ==> res.buf[i] == 0)
          && (forall i :: MaxBytes <= i < |buf| ==> res.buf[i] == buf[i])
          && (forall i :: 0 <= i < res.bufsize as int ==>
                BitsArrive(reply, i) && ByteBase(i) + 16 <= |reply| && res.buf[i] == ByteAt(reply, i)))
  }

  /** The reference outcome has the shape described by ShapeOf. */
  lemma ExpectedShape(reply: Reply, buf: seq<bv8>, bufsize: bv8)
    requires MaxBytes <= |buf|
    ensures ShapeOf(reply, buf, bufsize, Expected(reply, buf, bufsize))
  {
    var v := VerdictOf(reply);
    if v.Finished? {
      FilledShape(reply, v.count, buf);
      CountFits(v.count);
    }
  }

  /** The reply decoder of adb_host_request: its outcome is the reference
      one, and so has the shape described by ShapeOf. */
  method Receive(reply: Reply, t0: U32, buf: seq<bv8>, bufsize: bv8) returns (res: Outcome)
    requires MaxBytes <= |buf|
    ensures res == Expected(reply, buf, bufsize)
    ensures ShapeOf(reply, buf, bufsize, res)
  {
    res := ReceiveLoop(reply, t0, buf, bufsize);
    ExpectedShape(reply, buf, bufsize);
  }
}
