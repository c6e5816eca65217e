/** The keyboard side of the converter: ADB key-transition bytes are applied
    to a live 16 x 8 key matrix, the live matrix is committed to the
    debounced one that the keyboard framework reads, and the USB lock state
    is turned into the ADB LED mask. */
module Matrix {
  import opened AdbTiming
  import opened AdbFrame
  import opened AdbReceive
  import opened AdbHost

  /** MATRIX_ROWS and MATRIX_COLS. */
  const Rows: nat := 16
  const Cols: nat := 8

  /** ADB LED bits of the keyboard's register 2. */
  const CapsLock: bv8 := 0x02
  const NumLock: bv8 := 0x01
  const ScrollLock: bv8 := 0x04

  /** The module state of matrix.c: the live and the debounced matrix (one
      byte per row, bit `col` set while the key is down), the modified flag,
      the time of the last change and the LED mask last computed. */
  datatype State = State(
    live: seq<bv8>,
    debounced: seq<bv8>,
    modified: bool,
    lastModified: bv16,
    ledStates: bv8)

  predicate Valid(s: State)
  {
    |s.live| == Rows && |s.debounced| == Rows
  }

  /** The state matrix_init leaves behind: no key down, nothing modified. */
  function Init(): (s: State)
    ensures Valid(s)
    ensures forall row :: 0 <= row < Rows ==> s.live[row] == 0 && s.debounced[row] == 0
    ensures !s.modified
  {
    var zeros := seq(Rows, _ => 0);
    State(zeros, zeros, false, 0, 0)
  }

  /** What one byte of a keyboard report means: nothing (the 0xFF padding
      and the 0x7F code), or a key going down or up at a matrix position. */
  datatype Key = Filler | Transition(row: nat, col: bv8, pressed: bool)

  /** The 7-bit key code of a report byte. */
  function KeyCode(b: bv8): bv8
  {
    b & 0x7F
  }

  /** Split a report byte into its matrix position and direction: the code
      is row:4 col:3, and bit 7 set means the key was released. */
  function DecodeKey(b: bv8): (k: Key)
    ensures k.Filler? <==> KeyCode(b) == 0x7F
    ensures k.Transition? ==>
              && k.row < Rows && k.col < 8
              && k.row * 8 + k.col as int == KeyCode(b) as int
              && (k.pressed <==> b & 0x80 == 0)
  {
    if b == 0xFF then Filler
    else
      var code := KeyCode(b);
      if code >= 0x7F then Filler
      else Transition(((code >> 3) & 0x0F) as nat, code & 0x07, b & 0x80 == 0)
  }

  /** Bit `col` of a row is set. */
  predicate IsSet(r: bv8, col: bv8)
    requires col < 8
  {
    r & (1 << col) != 0
  }

  /** A row with bit `col` set (a press) or cleared (a release). */
  function SetCell(r: bv8, col: bv8, pressed: bool): (r': bv8)
    requires col < 8
    ensures IsSet(r', col) == pressed
    ensures forall c: bv8 :: c < 8 && c != col ==> IsSet(r', c) == IsSet(r, c)
  {
    if pressed then r | (1 << col) else r & !(1 << col)
  }

  /** Key (row, col) of a matrix is down. */
  predicate Cell(m: seq<bv8>, row: nat, col: bv8)
    requires row < |m| && col < 8
  {
    IsSet(m[row], col)
  }

  /** The report byte decodes to a transition of key (row, col). */
  predicate Touches(k: Key, row: nat, col: bv8)
  {
    k.Transition? && k.row == row && k.col == col
  }

  /** Apply one decoded byte to the live matrix: a transition sets or
      clears exactly its own cell, a filler changes nothing. */
  function Apply(live: seq<bv8>, k: Key): (r: seq<bv8>)
    requires |live| == Rows
    requires k.Transition? ==> k.row < Rows && k.col < 8
    ensures |r| == Rows
    ensures k.Filler? ==> r == live
    ensures k.Transition? ==> Cell(r, k.row, k.col) == k.pressed
    ensures forall row, col :: 0 <= row < Rows && col < 8 && !Touches(k, row, col) ==>
              Cell(r, row, col) == Cell(live, row, col)
  {
    match k
    case Filler => live
    case Transition(row, col, pressed) => live[row := SetCell(live[row], col, pressed)]
  }

  /** The live matrix and key count after the bytes of a report. */
  datatype Scanned = Scanned(live: seq<bv8>, keyCount: nat)

  /** One byte of the parse loop: a transition is applied and counted, a
      filler skipped. */
  function Step(sc: Scanned, b: bv8): (r: Scanned)
    requires |sc.live| == Rows
    ensures |r.live| == Rows
    ensures r.keyCount == sc.keyCount + if DecodeKey(b).Filler? then 0 else 1
  {
    var k := DecodeKey(b);
    if k.Filler? then sc else Scanned(Apply(sc.live, k), sc.keyCount + 1)
  }

  /** Apply the bytes of a report in order, counting the transitions. */
  function Ingest(live: seq<bv8>, bytes: seq<bv8>): (r: Scanned)
    requires |live| == Rows
    ensures |r.live| == Rows
    ensures r.keyCount <= |bytes|
    ensures r.keyCount == 0 <==> forall i :: 0 <= i < |bytes| ==> DecodeKey(bytes[i]).Filler?
    ensures r.keyCount == |bytes| <==> forall i :: 0 <= i < |bytes| ==> DecodeKey(bytes[i]).Transition?
    decreases |bytes|
  {
    if |bytes| == 0 then Scanned(live, 0)
    else
      var front := bytes[..|bytes| - 1];
      assert forall i :: 0 <= i < |front| ==> front[i] == bytes[i];
      Step(Ingest(live, front), bytes[|bytes| - 1])
  }

  /** After one byte a key is in the state the byte sets if the byte
      touches it, and in its old state otherwise. */
  lemma StepCell(sc: Scanned, b: bv8, row: nat, col: bv8)
    requires |sc.live| == Rows && row < Rows && col < 8
    ensures var k := DecodeKey(b);
      Cell(Step(sc, b).live, row, col) == if Touches(k, row, col) then k.pressed else Cell(sc.live, row, col)
  {
  }

  /** The number of key transitions in a report, counted from the front:
      every byte that is not a filler is one. */
  function Transitions(bytes: seq<bv8>): (n: nat)
    ensures n <= |bytes|
  {
    if |bytes| == 0 then 0
    else (if DecodeKey(bytes[0]).Filler? then 0 else 1) + Transitions(bytes[1..])
  }

  /** Counting a report is counting all but its last byte, then the last. */
  lemma {:induction false} TransitionsLast(bytes: seq<bv8>)
    requires |bytes| > 0
    ensures var last := |bytes| - 1;
      Transitions(bytes) == Transitions(bytes[..last]) + if DecodeKey(bytes[last]).Filler? then 0 else 1
    decreases |bytes|
  {
    var last := |bytes| - 1;
    if last > 0 {
      var rest := bytes[1..];
      assert rest[..last - 1] == bytes[..last][1..];
      assert rest[last - 1] == bytes[last];
      TransitionsLast(rest);
    }
  }

  /** The parse loop counts exactly the key transitions of the report. */
  lemma {:induction false} IngestCounts(live: seq<bv8>, bytes: seq<bv8>)
    requires |live| == Rows
    ensures Ingest(live, bytes).keyCount == Transitions(bytes)
    decreases |bytes|
  {
    if |bytes| > 0 {
      var last := |bytes| - 1;
      var front := bytes[..last];
      assert Ingest(live, bytes) == Step(Ingest(live, front), bytes[last]);
      IngestCounts(live, front);
      TransitionsLast(bytes);
    }
  }

  /** A key that no byte of the report touches keeps its state. */
  lemma {:induction false} UntouchedCellKeeps(live: seq<bv8>, bytes: seq<bv8>, row: nat, col: bv8)
    requires |live| == Rows && row < Rows && col < 8
    requires forall i :: 0 <= i < |bytes| ==> !Touches(DecodeKey(bytes[i]), row, col)
    ensures Cell(Ingest(live, bytes).live, row, col) == Cell(live, row, col)
    decreases |bytes|
  {
    if |bytes| > 0 {
      var front := bytes[..|bytes| - 1];
      assert forall i :: 0 <= i < |front| ==> front[i] == bytes[i];
      UntouchedCellKeeps(live, front, row, col);
    }
  }

  /** Bytes are applied in order: the last byte of the report that touches
      a key, here byte `i` with transition `k`, decides whether it is down. */
  lemma {:induction false} LastByteDecides(live: seq<bv8>, bytes: seq<bv8>, i: nat, k: Key)
    requires |live| == Rows && i < |bytes|
    requires DecodeKey(bytes[i]) == k && k.Transition?
    requires forall j :: i < j < |bytes| ==> !Touches(DecodeKey(bytes[j]), k.row, k.col)
    ensures Cell(Ingest(live, bytes).live, k.row, k.col) == k.pressed
    decreases |bytes|
  {
    var last := |bytes| - 1;
    var front := bytes[..last];
    var before := Ingest(live, front);
    assert Ingest(live, bytes) == Step(before, bytes[last]);
    StepCell(before, bytes[last], k.row, k.col);
    if i < last {
      assert front[i] == bytes[i];
      forall j | i < j < |front|
        ensures !Touches(DecodeKey(front[j]), k.row, k.col)
      {
        assert front[j] == bytes[j];
      }
      LastByteDecides(live, front, i, k);
    }
  }

  /** Setting or clearing a bit twice is doing it once. */
  lemma SetCellIdempotent(r: bv8, col: bv8, pressed: bool)
    requires col < 8
    ensures SetCell(SetCell(r, col, pressed), col, pressed) == SetCell(r, col, pressed)
  {
    var m: bv8 := 1 << col;
    assert (r | m) | m == r | m;
    assert (r & !m) & !m == r & !m;
  }

  /** Clearing a bit undoes setting it. */
  lemma SetCellPressRelease(r: bv8, col: bv8)
    requires col < 8
    ensures SetCell(SetCell(r, col, true), col, false) == SetCell(r, col, false)
  {
    var m: bv8 := 1 << col;
    assert (r | m) & !m == r & !m;
  }

  /** Applying the same byte twice is applying it once. */
  lemma ApplyIdempotent(live: seq<bv8>, k: Key)
    requires |live| == Rows
    requires k.Transition? ==> k.row < Rows && k.col < 8
    ensures Apply(Apply(live, k), k) == Apply(live, k)
  {
    if k.Transition? {
      SetCellIdempotent(live[k.row], k.col, k.pressed);
    }
  }

  /** A press followed by the release of the same key leaves the key up,
      as if only the release had been seen. */
  lemma PressThenRelease(live: seq<bv8>, row: nat, col: bv8)
    requires |live| == Rows && row < Rows && col < 8
    ensures var r := Apply(Apply(live, Transition(row, col, true)), Transition(row, col, false));
      !Cell(r, row, col) && r == Apply(live, Transition(row, col, false))
  {
    SetCellPressRelease(live[row], col);
  }

  /** The debounced matrix after a commit of `live`, and whether any row
      differed. The loop copies each row that changed. */
  method CommitRows(live: seq<bv8>, debounced: seq<bv8>) returns (d: seq<bv8>, changed: bool)
    requires |live| == Rows && |debounced| == Rows
    ensures d == live
    ensures changed <==> debounced != live
  {
    d := debounced;
    changed := false;
    var i := 0;
    while i < Rows
      invariant i <= Rows && |d| == Rows
      invariant forall j :: 0 <= j < i ==> d[j] == live[j]
      invariant forall j :: i <= j < Rows ==> d[j] == debounced[j]
      invariant changed <==> exists j :: 0 <= j < i && debounced[j] != live[j]
    {
      if d[i] != live[i] {
        d := d[i := live[i]];
        changed := true;
      }
      i := i + 1;
    }
    if !changed {
      assert forall j :: 0 <= j < Rows ==> debounced[j] == live[j];
    }
  }

  /** The state after the live matrix is committed at time `now`: the
      debounced matrix follows the live one, and a change sets the flag and
      stamps the time. */
  function Committed(s: State, now: bv16): (s': State)
    requires Valid(s)
    ensures Valid(s') && s'.debounced == s'.live == s.live
    ensures s'.ledStates == s.ledStates
    ensures s.debounced != s.live ==> s'.modified && s'.lastModified == now
    ensures s.debounced == s.live ==> s' == s
  {
    if s.debounced != s.live then s.(debounced := s.live, modified := true, lastModified := now)
    else s
  }

  /** Committing twice with no new key data changes nothing. */
  lemma CommitIdempotent(s: State, now: bv16, later: bv16)
    requires Valid(s)
    ensures Committed(Committed(s, now), later) == Committed(s, now)
  {
  }

  /** One more byte of the report is one more Step. */
  lemma IngestStep(live: seq<bv8>, report: seq<bv8>, i: nat)
    requires |live| == Rows && i < |report|
    ensures Ingest(live, report[..i + 1]) == Step(Ingest(live, report[..i]), report[i])
  {
    assert report[..i + 1][..i] == report[..i];
  }

  /** A keyboard report of key code 0x21 going down, padded with 0xFF,
      sets row 4 column 1 and counts one key; the matching release (0xA1)
      clears it again. */
  lemma ReportScenario()
    ensures Ingest(Init().live, [0x21, 0xFF]) == Scanned(Init().live[4 := 0x02], 1)
    ensures Ingest(Init().live[4 := 0x02], [0xA1, 0xFF]) == Scanned(Init().live, 1)
  {
    var zeros := Init().live;
    assert [0x21, 0xFF][..1] == [0x21];
    assert [0x21][..0] == [];
    assert [0xA1, 0xFF][..1] == [0xA1];
    assert [0xA1][..0] == [];
    assert zeros[4 := 0x02][4 := 0x00] == zeros;
  }

  /** Two presses around a filler count as two keys. */
  lemma MixedReportCount(live: seq<bv8>)
    requires |live| == Rows
    ensures Ingest(live, [0x21, 0xFF, 0x22]).keyCount == 2
  {
    IngestCounts(live, [0x21, 0xFF, 0x22]);
    assert [0x21, 0xFF, 0x22][1..] == [0xFF, 0x22];
    assert [0xFF, 0x22][1..] == [0x22];
    assert [0x22][1..] == [];
  }

  /** The parse loop of matrix_scan: apply the bytes of a report to the
      live matrix in order, counting the transitions. */
  method ApplyReport(live: seq<bv8>, report: seq<bv8>) returns (live': seq<bv8>, keyCount: nat)
    requires |live| == Rows
    ensures Scanned(live', keyCount) == Ingest(live, report)
  {
    live' := live;
    keyCount := 0;
    var i := 0;
    while i < |report|
      invariant i <= |report|
      invariant Ingest(live, report[..i]) == Scanned(live', keyCount)
    {
      IngestStep(live, report, i);
      var k := DecodeKey(report[i]);
      if !k.Filler? {
        live' := Apply(live', k);
        keyCount := keyCount + 1;
      }
      assert Scanned(live', keyCount) == Step(Ingest(live, report[..i]), report[i]);
      i := i + 1;
    }
    assert report[..i] == report;
  }

  /** matrix_scan: ask the keyboard for a report over ADB and apply it. The
      keyboard's reply is `reply`; the microsecond clock reads `t0` when the
      host starts waiting for it and the millisecond timer reads `now`. The
      scan changes nothing unless the request succeeds with at least one
      byte; then the live matrix is the received report applied to the old
      one, the debounced matrix equals it, and the count is the number of
      key transitions in the report. */
  method Scan(s: State, reply: Reply, t0: U32, now: bv16) returns (s': State, keyCount: nat)
    requires Valid(s)
    ensures Valid(s')
    ensures !(VerdictOf(reply).Finished? && VerdictOf(reply).ok && VerdictOf(reply).count > 0) ==>
              s' == s && keyCount == 0
    ensures VerdictOf(reply).Finished? && VerdictOf(reply).ok && VerdictOf(reply).count > 0 ==>
              var sc := Ingest(s.live, ReceivedBytes(reply));
              && keyCount == sc.keyCount == Transitions(ReceivedBytes(reply)) <= VerdictOf(reply).count
              && s'.live == s'.debounced == sc.live
              && s' == Committed(s.(live := sc.live), now)
  {
    var buf: seq<bv8> := [0, 0, 0, 0, 0, 0, 0, 0];
    var wave, recv := KbdRecv(reply, t0, buf, 8);
    ExpectedReport(reply, buf, 8);
    if !recv.ok {
      return s, 0;
    }
    if recv.bufsize == 0 {
      return s, 0;
    }
    var live;
    live, keyCount := ApplyReport(s.live, recv.buf[..recv.bufsize]);
    IngestCounts(s.live, recv.buf[..recv.bufsize]);
    var d, changed := CommitRows(live, s.debounced);
    s' := s.(live := live);
    if changed {
      s' := s'.(debounced := d, modified := true, lastModified := now);
    }
  }

  /** matrix_is_modified_debounce, with `elapsed` the milliseconds since
      the last change: report the flag, and clear it once more than
      `debounce` milliseconds have passed. */
  function IsModifiedDebounce(s: State, debounce: bv16, elapsed: bv16): (r: (bool, State))
    ensures r.0 == s.modified
    ensures r.1.modified <==> s.modified && elapsed <= debounce
    ensures r.1 == s.(modified := r.1.modified)
  {
    var isModified := s.modified;
    if s.modified && elapsed > debounce then (isModified, s.(modified := false)) else (isModified, s)
  }

  /** Once the window has passed, the flag is reported one last time and
      every later query reports no change. */
  lemma DebounceSettles(s: State, debounce: bv16, elapsed: bv16, later: bv16)
    requires elapsed > debounce
    ensures var (first, s1) := IsModifiedDebounce(s, debounce, elapsed);
      first == s.modified && !IsModifiedDebounce(s1, debounce, later).0
  {
  }

  /** Within the window the flag stays set however often it is queried. */
  lemma DebounceHolds(s: State, debounce: bv16, elapsed: bv16)
    requires s.modified && elapsed <= debounce
    ensures IsModifiedDebounce(s, debounce, elapsed) == (true, s)
  {
  }

  /** matrix_get_row: a row of the debounced matrix. */
  function GetRow(s: State, row: nat): (r: bv8)
    requires Valid(s) && row < Rows
    ensures forall col: bv8 :: col < 8 ==> (IsSet(r, col) <==> Cell(s.debounced, row, col))
  {
    s.debounced[row]
  }

  /** matrix_is_on: `matrix_debounced[row] & (1 << col)` with the shift done
      on a 32-bit int, so any column from 8 to 31 reads as off. */
  function IsOn(s: State, row: nat, col: bv8): (on: bool)
    requires Valid(s) && row < Rows && col < 32
    ensures on <==> col < 8 && Cell(s.debounced, row, col)
  {
    (s.debounced[row] as bv32) & ((1 as bv32) << col) != 0
  }

  /** A key read through matrix_get_row or matrix_is_on depends on the
      debounced matrix alone: live changes not yet committed are invisible. */
  lemma ReadsDebouncedOnly(s: State, t: State, row: nat, col: bv8)
    requires Valid(s) && Valid(t) && row < Rows && col < 32
    requires s.debounced == t.debounced
    ensures GetRow(s, row) == GetRow(t, row) && IsOn(s, row, col) == IsOn(t, row, col)
  {
  }

  /** `usb_led & (1 << pos)`, the shift done on a 32-bit int. */
  predicate LockOn(usb: bv8, pos: bv8)
    requires pos < 32
  {
    (usb as bv32) & ((1 as bv32) << pos) != 0
  }

  /** The ADB LED mask of led_set: computed afresh from the USB lock state,
      Caps Lock to 0x02, Num Lock to 0x01, Scroll Lock to 0x04. The USB bit
      positions of the three locks are parameters. */
  function LedMask(usb: bv8, capsPos: bv8, numPos: bv8, scrollPos: bv8): (m: bv8)
    requires capsPos < 32 && numPos < 32 && scrollPos < 32
    ensures m & !0x07 == 0
    ensures m & CapsLock != 0 <==> LockOn(usb, capsPos)
    ensures m & NumLock != 0 <==> LockOn(usb, numPos)
    ensures m & ScrollLock != 0 <==> LockOn(usb, scrollPos)
  {
    var cleared: bv8 := 0;
    var withCaps := if LockOn(usb, capsPos) then cleared | CapsLock else cleared;
    var withNum := if LockOn(usb, numPos) then withCaps | NumLock else withCaps;
    if LockOn(usb, scrollPos) then withNum | ScrollLock else withNum
  }

  /** With the lock positions of the USB HID keyboard LED report (Num Lock
      0, Caps Lock 1, Scroll Lock 2) the mapping swaps the two low bits. */
  lemma StandardLedMask()
    ensures LedMask(0x00, 1, 0, 2) == 0x00
    ensures LedMask(0x01, 1, 0, 2) == NumLock
    ensures LedMask(0x02, 1, 0, 2) == CapsLock
    ensures LedMask(0x04, 1, 0, 2) == ScrollLock
    ensures LedMask(0xFF, 1, 0, 2) == 0x07
  {
  }

  /** led_set: record the LED mask and hand it to adb_host_kbd_led (the
      corrected one; see KbdLed). The keyboard's reply is `reply`. Nothing
      but the recorded mask changes, and the transaction on the line is a
      keyboard LISTEN that does not carry the mask. */
  method LedSet(s: State, usb: bv8, capsPos: bv8, numPos: bv8, scrollPos: bv8, reply: Reply, t0: U32)
    returns (s': State, wave: seq<Pulse>)
    requires capsPos < 32 && numPos < 32 && scrollPos < 32
    ensures s' == s.(ledStates := LedMask(usb, capsPos, numPos, scrollPos))
    ensures s'.ledStates & !0x07 == 0
    ensures wave == Waveform(0x22)
  {
    var states := LedMask(usb, capsPos, numPos, scrollPos);
    s' := s.(ledStates := states);
    var ok;
    wave, ok := KbdLed(states, reply, t0);
  }
}
