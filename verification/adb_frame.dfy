/** The bit-level framing of an ADB host request: the command byte, the bit
    cell encoding the host transmits, the waveform of the attention, command
    and stop phases, and the receive rule that turns measured high phases back
    into a byte. */
module AdbFrame {
  import opened AdbTiming

  /** ADB commands and default addresses (adb.h). */
  const CmdListen: bv8 := 2
  const CmdTalk: bv8 := 3
  const AddrKeyboard: bv8 := 2
  const AddrMouse: bv8 := 3

  /** Durations of the fixed parts of the host waveform. */
  const AttentionLowUs: nat := 800
  const AttentionHighUs: nat := 150
  const StopLowUs: nat := 65

  /** The level of the open-drain line as the host leaves it: `Low` when it
      pulls the line down (adb_low), `High` when it lets go and the pull-up
      raises it (adb_high). The host never drives the line high. */
  datatype Level = Low | High

  /** One step of the host waveform: leave the line at a level for `us`
      microseconds, or let go of it for good at the end of the command. */
  datatype Pulse = Hold(level: Level, us: nat) | Release

  /** The request byte `(addr << 4) | cmd`, truncated to eight bits. The low
      nibble is the command alone: no register number is folded in. */
  function RequestByte(addr: bv8, cmd: bv8): (r: bv8)
    ensures r & 0x0F == cmd & 0x0F
    ensures r >> 4 == (addr & 0x0F) | (cmd >> 4)
    ensures addr < 16 && cmd < 16 ==> r as int == addr as int * 16 + cmd as int
  {
    (addr << 4) | cmd
  }

  /** Bit `i` of `b` counting from the most significant, the order in which
      both sides put bits on the wire. */
  predicate BitOf(b: bv8, i: nat)
    requires i < 8
  {
    (b >> (7 - i)) & 1 == 1
  }

  /** Low and high parts of the cell for one bit: a 1 is a long low and a
      short high, a 0 the reverse. */
  function CellLowUs(bit: bool): nat
  {
    if bit then 65 else 35
  }

  function CellHighUs(bit: bool): nat
  {
    if bit then 35 else 65
  }

  /** The receive rule: a high phase shorter than HighThreshold is a 1. */
  function BitValue(high: nat): bv8
  {
    if high < HighThreshold then 1 else 0
  }

  /** Shift the decoded bits of `highs` in MSB-first, starting from 0, as the
      receive loop does with `data <<= 1; data |= bit`. */
  function Accumulate(highs: seq<nat>): bv8
  {
    if |highs| == 0 then 0
    else (Accumulate(highs[..|highs| - 1]) << 1) | BitValue(highs[|highs| - 1])
  }

  /** The eight command cells of `request`, most significant bit first: a
      low then a high pulse per bit. */
  function Cells(request: bv8): (c: seq<Pulse>)
    ensures |c| == 16
    ensures forall k :: 0 <= k < 16 ==> c[k].Hold?
    ensures forall j :: 0 <= j < 8 ==>
              c[2 * j] == Hold(Low, CellLowUs(BitOf(request, j))) &&
              c[2 * j + 1] == Hold(High, CellHighUs(BitOf(request, j)))
  {
    var c := seq(16, k requires 0 <= k < 16 =>
      if k % 2 == 0 then Hold(Low, CellLowUs(BitOf(request, k / 2)))
      else Hold(High, CellHighUs(BitOf(request, k / 2))));
    assert forall j :: 0 <= j < 8 ==>
             (2 * j) / 2 == j && (2 * j + 1) / 2 == j && (2 * j) % 2 == 0 && (2 * j + 1) % 2 == 1;
    c
  }

  /** Everything the host puts on the line for one request: attention, eight
      command cells, and the stop bit, after which the line is released. */
  function Waveform(request: bv8): (w: seq<Pulse>)
    ensures |w| == 20
    ensures w[0] == Hold(Low, 800) && w[1] == Hold(High, 150)
    ensures forall j :: 0 <= j < 8 ==>
              w[2 + 2 * j] == Hold(Low, CellLowUs(BitOf(request, j))) &&
              w[3 + 2 * j] == Hold(High, CellHighUs(BitOf(request, j)))
    ensures w[18] == Hold(Low, 65) && w[19] == Release
  {
    var c := Cells(request);
    var w := [Hold(Low, AttentionLowUs), Hold(High, AttentionHighUs)] + c + [Hold(Low, StopLowUs), Release];
    assert forall k :: 0 <= k < 16 ==> w[2 + k] == c[k];
    w
  }

  /** The fixed shape of the host waveform: every command cell is a low
      then a high pulse summing to one bit time, 65/35 for a 1 and 35/65 for
      a 0, in the order of the request's bits from the most significant. */
  lemma WaveformShape(request: bv8)
    ensures var w := Waveform(request);
      forall j :: 0 <= j < 8 ==>
        w[2 + 2 * j].Hold? && w[2 + 2 * j].level == Low &&
        w[3 + 2 * j].Hold? && w[3 + 2 * j].level == High &&
        w[2 + 2 * j].us + w[3 + 2 * j].us == BitTime &&
        (BitOf(request, j) ==> w[2 + 2 * j].us == 65 && w[3 + 2 * j].us == 35) &&
        (!BitOf(request, j) ==> w[2 + 2 * j].us == 35 && w[3 + 2 * j].us == 65)
  {
    var w := Waveform(request);
    forall j | 0 <= j < 8
      ensures w[2 + 2 * j].Hold? && w[2 + 2 * j].level == Low &&
        w[3 + 2 * j].Hold? && w[3 + 2 * j].level == High &&
        w[2 + 2 * j].us + w[3 + 2 * j].us == BitTime &&
        (BitOf(request, j) ==> w[2 + 2 * j].us == 65 && w[3 + 2 * j].us == 35) &&
        (!BitOf(request, j) ==> w[2 + 2 * j].us == 35 && w[3 + 2 * j].us == 65)
    {
      var bit := BitOf(request, j);
      assert w[2 + 2 * j] == Hold(Low, CellLowUs(bit));
    }
  }

  /** A waveform whose steps 2 to 17 drive the line, so that they can be
      read as eight command cells. */
  predicate CarriesCommand(w: seq<Pulse>)
  {
    |w| >= 18 && forall k :: 2 <= k < 18 ==> w[k].Hold?
  }

  /** The high durations of the eight command cells of a waveform. */
  function CommandHighs(w: seq<Pulse>): (highs: seq<nat>)
    requires CarriesCommand(w)
    ensures |highs| == 8
  {
    seq(8, j requires 0 <= j < 8 => w[3 + 2 * j].us)
  }

  /** The command byte a receiver using the host's own bit rule reads from a
      waveform. */
  function CommandOf(w: seq<Pulse>): bv8
    requires CarriesCommand(w)
  {
    Accumulate(CommandHighs(w))
  }

  /** The first `n` bits of `b`, most significant first, packed into the
      low bits of a byte. */
  function MsbPrefix(b: bv8, n: nat): bv8
    requires n <= 8
  {
    if n == 0 then 0 else (MsbPrefix(b, n - 1) << 1) | (if BitOf(b, n - 1) then 1 else 0)
  }

  /** All eight bits of `b`, shifted in most significant first, are `b`. */
  lemma MsbPrefixAll(b: bv8)
    ensures MsbPrefix(b, 8) == b
  {
    assert MsbPrefix(b, 1) == b >> 7;
    assert MsbPrefix(b, 2) == b >> 6;
    assert MsbPrefix(b, 3) == b >> 5;
    assert MsbPrefix(b, 4) == b >> 4;
    assert MsbPrefix(b, 5) == b >> 3;
    assert MsbPrefix(b, 6) == b >> 2;
    assert MsbPrefix(b, 7) == b >> 1;
  }

  /** The receive rule inverts the cell encoding: accumulating the high
      phases of the cells for the first `|highs|` bits of `b` yields those
      bits. */
  lemma {:induction false} AccumulateCells(b: bv8, highs: seq<nat>)
    requires |highs| <= 8
    requires forall j :: 0 <= j < |highs| ==> highs[j] == CellHighUs(BitOf(b, j))
    ensures Accumulate(highs) == MsbPrefix(b, |highs|)
  {
    if |highs| > 0 {
      AccumulateCells(b, highs[..|highs| - 1]);
    }
  }

  /** A byte sent as eight cells and read back with the receive rule is the
      byte itself. */
  lemma CellsDecode(b: bv8, highs: seq<nat>)
    requires |highs| == 8
    requires forall j :: 0 <= j < 8 ==> highs[j] == CellHighUs(BitOf(b, j))
    ensures Accumulate(highs) == b
  {
    AccumulateCells(b, highs);
    MsbPrefixAll(b);
  }

  /** Round trip of the transmit side against the receive rule: decoding the
      high phases of the transmitted cells recovers the request byte. */
  lemma CommandRoundTrip(request: bv8)
    ensures CarriesCommand(Waveform(request))
    ensures CommandOf(Waveform(request)) == request
  {
    var w := Waveform(request);
    forall k | 2 <= k < 18
      ensures w[k].Hold?
    {
      var j := (k - 2) / 2;
      assert k == 2 + 2 * j || k == 3 + 2 * j;
    }
    var highs := CommandHighs(w);
    forall j | 0 <= j < 8
      ensures highs[j] == CellHighUs(BitOf(request, j))
    {
      assert highs[j] == w[3 + 2 * j].us;
    }
    CellsDecode(request, highs);
  }

  /** The requests the converter issues: keyboard TALK, keyboard LISTEN and
      mouse TALK. */
  lemma KnownRequests()
    ensures RequestByte(AddrKeyboard, CmdTalk) == 0x23
    ensures RequestByte(AddrKeyboard, CmdListen) == 0x22
    ensures RequestByte(AddrMouse, CmdTalk) == 0x33
  {
  }
}
