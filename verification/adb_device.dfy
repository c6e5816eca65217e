/** The device side of a TALK transaction, as the host's receive loop sees
    it: after the release the device answers within its response time, then
    sends each data byte as eight cells with the same 65/35 encoding the host
    uses, each byte followed by a low stop bit. Between two bytes the line
    idles high for `gap` microseconds; after the last byte it stays high. */
module AdbDevice {
  import opened AdbTiming
  import opened AdbFrame
  import opened AdbReceive

  /** Duration of phase `phase` of a byte `b` as the device sends it. */
  function DevicePhase(b: bv8, phase: nat, gap: nat): nat
    requires phase < PhasesPerByte
  {
    if phase < 16 then
      if phase % 2 == 0 then CellLowUs(BitOf(b, phase / 2)) else CellHighUs(BitOf(b, phase / 2))
    else if phase == 16 then StopLowUs
    else gap
  }

  /** The reply script of a device that answers after `respond`
      microseconds with `bytes`. Without bytes the device does not answer,
      and the script is empty. */
  function DeviceReply(bytes: seq<bv8>, respond: nat, gap: nat): (r: Reply)
    ensures |r| == PhasesPerByte * |bytes|
  {
    seq(PhasesPerByte * |bytes|, i requires 0 <= i < PhasesPerByte * |bytes| =>
      if i == 0 then respond
      else DevicePhase(bytes[(i - 1) / PhasesPerByte], (i - 1) % PhasesPerByte, gap))
  }

  /** Phase `phase` of byte `k` of a device reply. */
  lemma DeviceReplyAt(bytes: seq<bv8>, respond: nat, gap: nat, k: nat, phase: nat)
    requires k < |bytes| && phase < PhasesPerByte
    requires ByteBase(k) + phase < PhasesPerByte * |bytes|
    ensures DeviceReply(bytes, respond, gap)[ByteBase(k) + phase] == DevicePhase(bytes[k], phase, gap)
  {
    PhaseIndex(k, phase);
  }

  /** Every byte of a device reply goes through its cells and its stop bit
      in time, and every byte but the last is followed by more data. */
  lemma DeviceReplyReaches(bytes: seq<bv8>, respond: nat, gap: nat)
    requires 1 <= |bytes| <= MaxBytes
    requires respond <= Timeout && gap <= Timeout
    ensures var reply := DeviceReply(bytes, respond, gap);
      && ReachesByte(reply, |bytes| - 1)
      && BitsArrive(reply, |bytes| - 1)
      && StopArrives(reply, |bytes| - 1)
      && !MoreFollows(reply, |bytes| - 1)
  {
    var reply := DeviceReply(bytes, respond, gap);
    assert reply[0] == respond;
    forall k | 0 <= k < |bytes|
      ensures BitsArrive(reply, k) && StopArrives(reply, k)
    {
      forall i | ByteBase(k) <= i < ByteBase(k) + 16
        ensures !Expired(reply, i)
      {
        DeviceReplyAt(bytes, respond, gap, k, i - ByteBase(k));
      }
      DeviceReplyAt(bytes, respond, gap, k, 16);
    }
    forall k | 0 <= k < |bytes| - 1
      ensures MoreFollows(reply, k)
    {
      DeviceReplyAt(bytes, respond, gap, k, 17);
    }
    assert ByteBase(|bytes| - 1) + 17 == |reply|;
  }

  /** A device reply ends the request with success after its last byte. */
  lemma DeviceVerdict(bytes: seq<bv8>, respond: nat, gap: nat)
    requires 1 <= |bytes| <= MaxBytes
    requires respond <= Timeout && gap <= Timeout
    ensures VerdictOf(DeviceReply(bytes, respond, gap)) == Finished(true, |bytes|)
  {
    DeviceReplyReaches(bytes, respond, gap);
    NoMoreDataVerdict(DeviceReply(bytes, respond, gap), |bytes| - 1);
  }

  /** The decoder reads back each byte of a device reply. */
  lemma DeviceByteAt(bytes: seq<bv8>, respond: nat, gap: nat, k: nat)
    requires k < |bytes|
    ensures ByteBase(k) + 16 <= PhasesPerByte * |bytes|
    ensures ByteAt(DeviceReply(bytes, respond, gap), k) == bytes[k]
  {
    var reply := DeviceReply(bytes, respond, gap);
    var highs := ByteHighs(reply, k, 8);
    forall j | 0 <= j < 8
      ensures highs[j] == CellHighUs(BitOf(bytes[k], j))
    {
      DeviceReplyAt(bytes, respond, gap, k, 2 * j + 1);
      assert (2 * j + 1) % 2 == 1 && (2 * j + 1) / 2 == j;
    }
    CellsDecode(bytes[k], highs);
  }

  /** The bytes the decoder counts in a device reply are the device's. */
  lemma DeviceReceived(bytes: seq<bv8>, respond: nat, gap: nat)
    requires 1 <= |bytes| <= MaxBytes
    requires respond <= Timeout && gap <= Timeout
    ensures VerdictOf(DeviceReply(bytes, respond, gap)) == Finished(true, |bytes|)
    ensures ReceivedBytes(DeviceReply(bytes, respond, gap)) == bytes
  {
    DeviceVerdict(bytes, respond, gap);
    var got := ReceivedBytes(DeviceReply(bytes, respond, gap));
    forall k | 0 <= k < |bytes|
      ensures got[k] == bytes[k]
    {
      DeviceByteAt(bytes, respond, gap, k);
    }
  }

  /** Round trip of the receive side: a device that answers within the
      timeout with one to eight bytes, pausing no longer than the timeout
      between them, makes the request succeed with exactly those bytes at
      the front of the buffer, zeros after them up to 8, and the rest of the
      caller's buffer untouched. */
  lemma DecodesDeviceReply(bytes: seq<bv8>, respond: nat, gap: nat, buf: seq<bv8>, bufsize: bv8)
    requires 1 <= |bytes| <= MaxBytes <= |buf|
    requires respond <= Timeout && gap <= Timeout
    ensures var res := Expected(DeviceReply(bytes, respond, gap), buf, bufsize);
      && res.ok
      && res.bufsize as int == |bytes|
      && |res.buf| == |buf|
      && res.buf[..|bytes|] == bytes
      && (forall i :: |bytes| <= i < MaxBytes ==> res.buf[i] == 0)
      && res.buf[MaxBytes..] == buf[MaxBytes..]
  {
    DeviceReceived(bytes, respond, gap);
    SucceedsWith(DeviceReply(bytes, respond, gap), buf, bufsize, bytes);
  }

  /** A device that does not answer within the timeout leaves the request
      failed with the caller's count and buffer untouched, whatever it would
      have sent. */
  lemma LateDeviceIgnored(bytes: seq<bv8>, respond: nat, gap: nat, buf: seq<bv8>, bufsize: bv8)
    requires MaxBytes <= |buf|
    requires respond > Timeout
    ensures Expected(DeviceReply(bytes, respond, gap), buf, bufsize) == Outcome(false, bufsize, buf)
  {
    var reply := DeviceReply(bytes, respond, gap);
    assert |bytes| > 0 ==> reply[0] == respond;
    NoResponseVerdict(reply);
  }
}
