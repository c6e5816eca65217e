/** adb_host_request and its three callers: a request is the waveform the
    host drives for its command byte, followed by the reply decoder. */
module AdbHost {
  import opened AdbTiming
  import opened AdbFrame
  import opened AdbReceive

  /** One ADB transaction. The line is released at the end of `wave`, and
      the clock reads `t0` when the host starts waiting for the device. The
      routine clears eight bytes of the caller's buffer, so the buffer must
      hold at least that many. */
  method HostRequest(addr: bv8, cmd: bv8, reply: Reply, t0: U32, buf: seq<bv8>, bufsize: bv8)
    returns (wave: seq<Pulse>, res: Outcome)
    requires MaxBytes <= |buf|
    ensures |wave| == 20 && wave[19] == Release
    ensures CarriesCommand(wave) && CommandOf(wave) == RequestByte(addr, cmd)
    ensures wave == Waveform(RequestByte(addr, cmd))
    ensures res == Expected(reply, buf, bufsize)
    ensures ShapeOf(reply, buf, bufsize, res)
  {
    var request := RequestByte(addr, cmd);
    wave := Waveform(request);
    CommandRoundTrip(request);
    res := Receive(reply, t0, buf, bufsize);
  }

  /** adb_host_kbd_recv: TALK to the keyboard, whose command byte is 0x23. */
  method KbdRecv(reply: Reply, t0: U32, buf: seq<bv8>, bufsize: bv8)
    returns (wave: seq<Pulse>, res: Outcome)
    requires MaxBytes <= |buf|
    ensures CarriesCommand(wave) && CommandOf(wave) == 0x23
    ensures wave == Waveform(0x23)
    ensures res == Expected(reply, buf, bufsize)
    ensures ShapeOf(reply, buf, bufsize, res)
  {
    KnownRequests();
    wave, res := HostRequest(AddrKeyboard, CmdTalk, reply, t0, buf, bufsize);
  }

  /** adb_host_mouse_recv: TALK to the mouse, whose command byte is 0x33. */
  method MouseRecv(reply: Reply, t0: U32, buf: seq<bv8>, bufsize: bv8)
    returns (wave: seq<Pulse>, res: Outcome)
    requires MaxBytes <= |buf|
    ensures CarriesCommand(wave) && CommandOf(wave) == 0x33
    ensures wave == Waveform(0x33)
    ensures res == Expected(reply, buf, bufsize)
    ensures ShapeOf(reply, buf, bufsize, res)
  {
    KnownRequests();
    wave, res := HostRequest(AddrMouse, CmdTalk, reply, t0, buf, bufsize);
  }

  /** How many bytes of the caller's buffer adb_host_request writes: none
      when the device does not answer, eight (the clear) when it does. */
  function BytesWritten(reply: Reply): (n: nat)
    ensures n <= MaxBytes
    ensures n > 0 <==> Responds(reply)
  {
    if Responds(reply) then MaxBytes else 0
  }

  /** The request writes exactly the first BytesWritten(reply) bytes of the
      memory it is handed: from there on the memory is left as it was, and
      the bytes before it are overwritten, so that their old contents never
      show in the result. */
  lemma BytesWrittenByRequest(reply: Reply, mem: seq<bv8>, other: seq<bv8>, bufsize: bv8)
    requires MaxBytes <= |mem| && |other| == |mem|
    ensures var n := BytesWritten(reply);
      var res := Expected(reply, mem, bufsize).buf;
      && |res| == |mem|
      && res[n..] == mem[n..]
      && (other[n..] == mem[n..] ==> Expected(reply, other, bufsize).buf == res)
  {
  }

  /** The buffer adb_host_kbd_led hands to adb_host_request: one byte,
      holding the LED mask. */
  function KbdLedBufferAsWritten(led: bv8): (buf: seq<bv8>)
    ensures |buf| == 1 && buf[0] == led
  {
    [led]
  }

  /** As written, adb_host_kbd_led breaks adb_host_request's demand for an
      eight-byte buffer. The request then works on the LED byte and the
      memory `beyond` that follows it, and whenever the keyboard answers the
      seven bytes after the LED byte are overwritten: whatever they held,
      the memory after the request is the same. */
  lemma KbdLedAsWrittenOverflows(led: bv8, reply: Reply, beyond: seq<bv8>, other: seq<bv8>)
    requires Responds(reply)
    requires MaxBytes - 1 <= |beyond| && |other| == |beyond|
    requires other[MaxBytes - 1..] == beyond[MaxBytes - 1..]
    ensures |KbdLedBufferAsWritten(led)| < MaxBytes
    ensures |KbdLedBufferAsWritten(led)| < BytesWritten(reply)
    ensures Expected(reply, KbdLedBufferAsWritten(led) + other, 1).buf
         == Expected(reply, KbdLedBufferAsWritten(led) + beyond, 1).buf
  {
    var mem := KbdLedBufferAsWritten(led) + beyond;
    var mem' := KbdLedBufferAsWritten(led) + other;
    assert mem'[MaxBytes..] == other[MaxBytes - 1..];
    assert mem[MaxBytes..] == beyond[MaxBytes - 1..];
    BytesWrittenByRequest(reply, mem, mem', 1);
  }

  /** A keyboard that pulls the line low 10 microseconds after the release
      and then sends nothing is enough: the request fails, and zeroes the
      seven bytes after the LED byte, so any memory there that was not
      zero is clobbered. */
  lemma KbdLedOverflowWitness(led: bv8, beyond: seq<bv8>)
    requires MaxBytes - 1 <= |beyond|
    ensures BytesWritten([10]) - |KbdLedBufferAsWritten(led)| == 7
    ensures var res := Expected([10], KbdLedBufferAsWritten(led) + beyond, 1);
      && !res.ok && res.bufsize == 0
      && res.buf[1..MaxBytes] == [0, 0, 0, 0, 0, 0, 0]
      && res.buf[MaxBytes..] == beyond[MaxBytes - 1..]
      && (beyond[..MaxBytes - 1] != [0, 0, 0, 0, 0, 0, 0] ==> res.buf[1..] != beyond)
  {
    var reply: Reply := [10];
    assert Responds(reply) && Expired(reply, 1);
    assert ReachesByte(reply, 0) && !BitsArrive(reply, 0);
    EdgeTimeoutVerdict(reply, 0);
    var mem := KbdLedBufferAsWritten(led) + beyond;
    FilledShape(reply, 0, mem);
    var res := Expected(reply, mem, 1);
    assert res.buf[MaxBytes..] == beyond[MaxBytes - 1..];
    if beyond[..MaxBytes - 1] != [0, 0, 0, 0, 0, 0, 0] {
      assert res.buf[1..][..MaxBytes - 1] == [0, 0, 0, 0, 0, 0, 0];
    }
  }

  /** The buffer of the corrected adb_host_kbd_led: the LED mask followed by
      seven bytes of scratch space, so the clear stays inside it. */
  function KbdLedBuffer(led: bv8): (buf: seq<bv8>)
    ensures |buf| == MaxBytes && buf[0] == led
    ensures forall r: Reply :: BytesWritten(r) <= |buf|
  {
    [led, 0, 0, 0, 0, 0, 0, 0]
  }

  /** adb_host_kbd_led with a buffer large enough for the clear. It issues a
      keyboard LISTEN (0x22) whose waveform does not depend on `led`: the
      LED mask is never put on the line. The result is that of the reply
      decoder. */
  method KbdLed(led: bv8, reply: Reply, t0: U32) returns (wave: seq<Pulse>, ok: bool)
    ensures CarriesCommand(wave) && CommandOf(wave) == 0x22
    ensures wave == Waveform(0x22)
    ensures ok <==> Responds(reply) && VerdictOf(reply).ok
  {
    KnownRequests();
    CommandRoundTrip(0x22);
    var buf := KbdLedBuffer(led);
    var bufsize: bv8 := 1;
    var res;
    wave, res := HostRequest(AddrKeyboard, CmdListen, reply, t0, buf, bufsize);
    ok := res.ok;
  }
}
