/**
 The CoreMIDI receive callback of the MT-32 Audio Unit (`MT32Synth::CoreMidiRX`):
 a three-phase machine that turns a batch of raw packets into engine calls.
 Short packets become `playMsg` words, System Exclusive fragments are collected
 into a fixed 2048-byte buffer and handed to `playSysex` once a packet ends with
 0xF7, and a "timbre query" sysex additionally triggers a timbre dump reply.

 The callback keeps its phase, buffer and length in statics that live across
 calls; here they are an explicit `State` passed in and returned.
 */
module Reassembler {
  import opened MidiBytes

  /** Size of the static sysex buffer `cmSysexData`. */
  const Capacity: nat := 2048

  /** `e_CMSysexState`. */
  datatype Phase = WaitForF0 | WaitForF7 | SendToMt32

  /** The three statics of the callback. `data` is the whole buffer, stale bytes
      included: the source reads past the live prefix. */
  datatype State = State(phase: Phase, data: seq<byte>, len: nat) {

    /** Shape of the statics: a full buffer and a length that fits it. */
    predicate Valid() {
      |data| == Capacity && len <= Capacity
    }

    /** What holds between packets for every state reachable from `Initial`:
        the transient phase is never left behind, and while a sysex is being
        collected the buffer starts with 0xF0 and does not yet end with 0xF7. */
    predicate Consistent() {
      && Valid()
      && phase != SendToMt32
      && (phase == WaitForF7 ==> 5 <= len && data[0] == SysexStart && data[len - 1] != SysexEnd)
    }
  }

  /** The statics as the program starts: zero-initialised buffer and length. */
  const Initial: State := State(WaitForF0, Zeros(Capacity), 0)

  /** A raw CoreMIDI packet's payload (`packet->data[0 .. packet->length)`);
      the timestamp is never read. */
  type Packet = seq<byte>

  /** What the callback asks of its collaborators, in order. */
  datatype Event =
    | PlayMsg(word: nat)                  // synth->playMsg(msg)
    | PlaySysex(msg: seq<byte>)           // synth->playSysex(cmSysexData, cmSysexLen)
    | TimbreTX(addrH: byte, addrL: byte)  // this->CoreMidiTimbreTX(addrH, addrL)

  /** The fixed 6-byte prefix of a "timbre query": a Roland MT-32 request (0x11)
      for the timbre area at base address 0x04. */
  const QueryPrefix: seq<byte> := [0xF0, 0x41, 0x10, 0x16, 0x11, 0x04]

  /** The test made after every dispatch, on the whole buffer and the length. */
  predicate IsTimbreQuery(data: seq<byte>, len: nat)
    requires |data| == Capacity
  {
    data[..6] == QueryPrefix && len >= 7
  }

  /** The 32-bit message word built from a 1..4 byte packet: byte k lands in
      bits 8k .. 8k+7 and absent bytes contribute 0. The source ORs shifted
      bytes; since the shifted bytes do not overlap, OR is the sum here. */
  function Pack(p: Packet): (w: nat)
    requires 1 <= |p| <= 4
    ensures w < 0x1_0000_0000
    ensures forall i :: 0 <= i < 4 ==> ByteOf(w, i) == if i < |p| then p[i] else 0
  {
    var b1: nat := if |p| >= 2 then p[1] else 0;
    var b2: nat := if |p| >= 3 then p[2] else 0;
    var b3: nat := if |p| == 4 then p[3] else 0;
    var w := p[0] + b1 * 0x100 + b2 * 0x1_0000 + b3 * 0x100_0000;
    PackDigits(p[0], b1, b2, b3);
    w
  }

  /** Byte `i` (least significant first) of a word. */
  function ByteOf(w: nat, i: nat): byte
  {
    if i == 0 then w % 0x100 else ByteOf(w / 0x100, i - 1)
  }

  lemma DivModByte(b: byte, rest: nat)
    ensures (b + 0x100 * rest) % 0x100 == b
    ensures (b + 0x100 * rest) / 0x100 == rest
  {
  }

  /** The four bytes of a word written in base 256. */
  lemma PackDigits(b0: byte, b1: byte, b2: byte, b3: byte)
    ensures var w := b0 + b1 * 0x100 + b2 * 0x1_0000 + b3 * 0x100_0000;
      && w < 0x1_0000_0000
      && ByteOf(w, 0) == b0 && ByteOf(w, 1) == b1 && ByteOf(w, 2) == b2 && ByteOf(w, 3) == b3
  {
    var w3: nat := b3;
    var w2: nat := b2 + 0x100 * w3;
    var w1: nat := b1 + 0x100 * w2;
    var w0: nat := b0 + 0x100 * w1;
    assert b0 + b1 * 0x100 + b2 * 0x1_0000 + b3 * 0x100_0000 == w0;
    DivModByte(b0, w1);
    DivModByte(b1, w2);
    DivModByte(b2, w3);
    DivModByte(b3, 0);
    assert ByteOf(w0, 1) == ByteOf(w1, 0);
    assert ByteOf(w0, 2) == ByteOf(w1, 1) == ByteOf(w2, 0);
    assert ByteOf(w0, 3) == ByteOf(w1, 2) == ByteOf(w2, 1) == ByteOf(w3, 0);
  }

  /** Everything a well-formed event list promises: each sysex handed to the
      engine is framed by 0xF0 .. 0xF7 and fits the buffer, and each timbre
      reply directly follows a dispatched timbre query whose address it carries. */
  predicate WellFormed(events: seq<Event>) {
    && (forall i :: 0 <= i < |events| && events[i].PlaySysex? ==>
          var m := events[i].msg;
          5 <= |m| <= Capacity && m[0] == SysexStart && Last(m) == SysexEnd)
    && (forall i :: 0 <= i < |events| && events[i].TimbreTX? ==>
          && 0 < i
          && events[i - 1].PlaySysex?
          && |events[i - 1].msg| >= 7
          && events[i - 1].msg[..6] == QueryPrefix
          && events[i].addrH == events[i - 1].msg[6]
          && (|events[i - 1].msg| >= 8 ==> events[i].addrL == events[i - 1].msg[7]))
  }

  lemma WellFormedAppend(a: seq<Event>, b: seq<Event>)
    requires WellFormed(a) && WellFormed(b)
    ensures WellFormed(a + b)
  {
    var c := a + b;
    forall i | 0 <= i < |c| && c[i].TimbreTX?
      ensures 0 < i && c[i - 1].PlaySysex? && |c[i - 1].msg| >= 7 && c[i - 1].msg[..6] == QueryPrefix
      ensures c[i].addrH == c[i - 1].msg[6] && (|c[i - 1].msg| >= 8 ==> c[i].addrL == c[i - 1].msg[7])
    {
      if i >= |a| {
        assert c[i] == b[i - |a|];
        assert c[i - 1] == b[i - |a| - 1];
      } else {
        assert c[i] == a[i];
      }
    }
  }

  /** Outcome of one packet: the next statics and the calls made, or the early
      `return` of the overflow guard, which leaves the statics as they were. */
  datatype StepResult = Advance(next: State, events: seq<Event>) | Abort

  /** The `SEND_TO_MT32` block: hand the live prefix to the engine, go back to
      waiting for 0xF0 (the length is NOT reset), and answer a timbre query.
      The query's low address byte is read at index 7 even when only 7 bytes
      are live. */
  function Dispatch(data: seq<byte>, len: nat): (o: StepResult)
    requires |data| == Capacity && len <= Capacity
    ensures o.Advance? && o.next.Valid() && o.next.phase == WaitForF0 && o.next.len == len
    ensures o.next.data == data
    ensures 1 <= |o.events| <= 2 && o.events[0] == PlaySysex(data[..len])
    ensures |o.events| == 2 <==> data[..6] == QueryPrefix && len >= 7
    ensures |o.events| == 2 ==> o.events[1] == TimbreTX(data[6], data[7])
  {
    var reply := if IsTimbreQuery(data, len) then [TimbreTX(data[6], data[7])] else [];
    Advance(State(WaitForF0, data, len), [PlaySysex(data[..len])] + reply)
  }

  /** One pass of the callback's loop body, with the source's fall-through:
      a packet that completes a sysex is dispatched in the same pass. */
  function Step(st: State, p: Packet): (o: StepResult)
    requires st.Valid()
    ensures o.Advance? ==> o.next.Valid()
  {
    match st.phase
    case WaitForF0 =>
      if 1 <= |p| <= 4 then
        Advance(st, [PlayMsg(Pack(p))])
      else if |p| >= 1 && p[0] == SysexStart then
        // the guard adds the length left over from the previous message
        if st.len + |p| > Capacity then Abort
        else
          var data := Overwrite(st.data, 0, p);
          if Last(p) == SysexEnd then Dispatch(data, |p|)
          else Advance(State(WaitForF7, data, |p|), [])
      else
        Advance(st, [])
    case WaitForF7 =>
      if |p| >= 1 then
        if st.len + |p| > Capacity then Abort
        else
          var data := Overwrite(st.data, st.len, p);
          var len := st.len + |p|;
          if Last(p) == SysexEnd then Dispatch(data, len)
          else Advance(State(WaitForF7, data, len), [])
      else
        Advance(st, [])
    case SendToMt32 =>
      Dispatch(st.data, st.len)
  }

  /** Each packet keeps the between-packets invariant and makes only
      well-formed calls. */
  lemma StepConsistent(st: State, p: Packet)
    requires st.Consistent()
    ensures Step(st, p).Advance? ==> Step(st, p).next.Consistent() && WellFormed(Step(st, p).events)
  {
    var o := Step(st, p);
    if o.Advance? {
      if st.phase == WaitForF0 && |p| >= 5 && p[0] == SysexStart {
        var data := Overwrite(st.data, 0, p);
        assert data[|p| - 1] == Last(p);
        if Last(p) == SysexEnd {
          DispatchWellFormed(data, |p|);
        }
      } else if st.phase == WaitForF7 && |p| >= 1 {
        var data := Overwrite(st.data, st.len, p);
        var len := st.len + |p|;
        assert data[len - 1] == Last(p);
        assert data[0] == st.data[0];
        if Last(p) == SysexEnd {
          DispatchWellFormed(data, len);
        }
      }
    }
  }

  /** A dispatched buffer that is framed by 0xF0 .. 0xF7 gives well-formed calls. */
  lemma DispatchWellFormed(data: seq<byte>, len: nat)
    requires |data| == Capacity && 5 <= len <= Capacity
    requires data[0] == SysexStart && data[len - 1] == SysexEnd
    ensures Dispatch(data, len).next.Consistent()
    ensures WellFormed(Dispatch(data, len).events)
  {
    var m := data[..len];
    assert m[0] == SysexStart && Last(m) == SysexEnd;
    if IsTimbreQuery(data, len) {
      assert m[..6] == data[..6];
    }
  }

  /** The result of one callback: the statics it leaves behind, the calls it made,
      and whether it ended early at an overflow guard. */
  datatype Reception = Reception(st: State, events: seq<Event>, aborted: bool)

  /** One call of `CoreMidiRX` on a packet list: the packets in arrival order until
      the list ends or an overflow guard returns from the whole call. */
  function Intake(st: State, packets: seq<Packet>): (r: Reception)
    requires st.Valid()
    ensures r.st.Valid()
    ensures r.aborted ==> |packets| > 0
    decreases |packets|
  {
    if packets == [] then Reception(st, [], false)
    else
      match Step(st, packets[0])
      case Abort => Reception(st, [], true)
      case Advance(next, events) =>
        var rest := Intake(next, packets[1..]);
        Reception(rest.st, events + rest.events, rest.aborted)
  }

  /** From a consistent state every call leaves a consistent state behind and
      makes only well-formed calls: the buffer length never exceeds 2048, and
      every sysex handed to the engine runs from 0xF0 to 0xF7. */
  lemma {:induction false} IntakeConsistent(st: State, packets: seq<Packet>)
    requires st.Consistent()
    ensures Intake(st, packets).st.Consistent()
    ensures WellFormed(Intake(st, packets).events)
    decreases |packets|
  {
    if packets != [] {
      StepConsistent(st, packets[0]);
      match Step(st, packets[0])
      case Abort =>
      case Advance(next, events) =>
        IntakeConsistent(next, packets[1..]);
        WellFormedAppend(events, Intake(next, packets[1..]).events);
    }
  }

  /** The body of the callback's packet loop as the source writes it: mutable
      statics, fall-through from one phase block into the next, `continue`
      (here: return with `abort` false) after a short message or an unfinished
      fragment, and the overflow guard's `return` from the whole call (here:
      `abort` true, statics untouched). It does what `Step` describes. */
  method ReceivePacket(st: State, p: Packet) returns (phase: Phase, data: seq<byte>, len: nat, events: seq<Event>, abort: bool)
    requires st.Valid()
    ensures abort <==> Step(st, p).Abort?
    ensures !abort ==> Step(st, p) == Advance(State(phase, data, len), events)
  {
    phase, data, len, events, abort := st.phase, st.data, st.len, [], false;
    if phase == WaitForF0 {
      if 1 <= |p| <= 4 {
        var msg: nat := 0;
        if |p| >= 1 { msg := msg + p[0]; }
        if |p| >= 2 { msg := msg + (p[1] as int) * 0x100; }
        if |p| >= 3 { msg := msg + (p[2] as int) * 0x1_0000; }
        if |p| == 4 { msg := msg + (p[3] as int) * 0x100_0000; }
        events := [PlayMsg(msg)];
        assert msg == Pack(p);
        return;
      }
      if |p| >= 1 && p[0] == SysexStart {
        if len + |p| > Capacity {
          abort := true;
          return;
        }
        data := Overwrite(data, 0, p);
        len := |p|;
        assert data[len - 1] == Last(p);
        if data[len - 1] == SysexEnd {
          phase := SendToMt32;
        } else {
          phase := WaitForF7;
          return;
        }
      }
    }
    if phase == WaitForF7 {
      if |p| >= 1 {
        if len + |p| > Capacity {
          abort := true;
          return;
        }
        data := Overwrite(data, len, p);
        len := len + |p|;
        assert data[len - 1] == Last(p);
        if data[len - 1] == SysexEnd {
          phase := SendToMt32;
        } else {
          phase := WaitForF7;
          return;
        }
      }
    }
    if phase == SendToMt32 {
      events := SendToSynth(data, len);
      phase := WaitForF0;
    }
  }

  /** The `SEND_TO_MT32` block: hand the live prefix to the engine, then test
      the buffer for a timbre query. */
  method SendToSynth(data: seq<byte>, len: nat) returns (events: seq<Event>)
    requires |data| == Capacity && len <= Capacity
    ensures events == Dispatch(data, len).events
  {
    events := [PlaySysex(data[..len])];
    if data[0] == 0xF0 && data[1] == 0x41 && data[2] == 0x10 && data[3] == 0x16
      && data[4] == 0x11 && data[5] == 0x04 && len >= 7
    {
      assert data[..6] == QueryPrefix;
      events := events + [TimbreTX(data[6], data[7])];
    } else {
      assert !IsTimbreQuery(data, len);
    }
  }

  /** One call of the callback: the packet loop over `ReceivePacket`, leaving
      the statics and the calls made exactly as `Intake` describes. */
  method CoreMidiRX(st0: State, packets: seq<Packet>) returns (st: State, events: seq<Event>)
    requires st0.Valid()
    ensures st == Intake(st0, packets).st
    ensures events == Intake(st0, packets).events
  {
    st, events := st0, [];
    var pkt := 0;
    while pkt < |packets|
      invariant 0 <= pkt <= |packets|
      invariant st.Valid()
      invariant Intake(st, packets[pkt..]).st == Intake(st0, packets).st
      invariant events + Intake(st, packets[pkt..]).events == Intake(st0, packets).events
    {
      assert packets[pkt..][1..] == packets[pkt + 1..];
      var phase, data, len, evs, abort := ReceivePacket(st, packets[pkt]);
      if abort {
        assert events == Intake(st0, packets).events;
        return;
      }
      assert events + evs + Intake(State(phase, data, len), packets[pkt + 1..]).events == Intake(st0, packets).events;
      st, events := State(phase, data, len), events + evs;
      pkt := pkt + 1;
    }
  }
}
