/**
 Properties of the CoreMIDI receive machine: what one short packet does, how
 fragments of a System Exclusive message are put back together, when the
 overflow guard ends a call, which packets are ignored, how two calls compose,
 and the consequences of the statics that the source never resets.
 */
module ReassemblerLemmas {
  import opened MidiBytes
  import opened Reassembler

  // ---------------------------------------------------------------------------
  // Short messages
  // ---------------------------------------------------------------------------

  /** A 1..4 byte packet seen while waiting for 0xF0 is played as one 32-bit word
      holding its bytes little-endian, zero padded, and leaves the statics alone.
      Only the length is tested: an 0xF0-led packet of up to 4 bytes is played too. */
  lemma ShortPacketIsPlayed(st: State, p: Packet)
    requires st.Valid() && st.phase == WaitForF0
    requires 1 <= |p| <= 4
    ensures var r := Intake(st, [p]);
      && r.st == st
      && !r.aborted
      && |r.events| == 1
      && r.events[0].PlayMsg?
      && r.events[0].word < 0x1_0000_0000
      && forall i :: 0 <= i < 4 ==> ByteOf(r.events[0].word, i) == if i < |p| then p[i] else 0
  {
    assert [p][1..] == [];
  }

  // ---------------------------------------------------------------------------
  // Ignored packets and the overflow guard
  // ---------------------------------------------------------------------------

  /** The packets that do nothing at all: an empty packet in either phase, and
      while waiting for 0xF0 a packet longer than 4 bytes that does not start with
      0xF0. Every other packet emits a call, changes the statics or ends the call. */
  lemma IgnoredPacketIff(st: State, p: Packet)
    requires st.Consistent()
    ensures Step(st, p) == Advance(st, []) <==>
      (|p| == 0 || (st.phase == WaitForF0 && |p| > 4 && p[0] != SysexStart))
  {
    if st.phase == WaitForF7 && |p| >= 1 && st.len + |p| <= Capacity {
      var o := Step(st, p);
      assert o.Advance? && (o.events != [] || o.next.len != st.len);
    }
  }

  /** The overflow guard: a packet ends the whole call exactly when it would start
      (0xF0-led, more than 4 bytes) or extend a sysex past the 2048-byte buffer,
      counting, while waiting for 0xF0, the stale length of the previous message. */
  predicate Overflows(st: State, p: Packet) {
    || (st.phase == WaitForF0 && |p| > 4 && p[0] == SysexStart && st.len + |p| > Capacity)
    || (st.phase == WaitForF7 && |p| >= 1 && st.len + |p| > Capacity)
  }

  lemma AbortIff(st: State, p: Packet)
    requires st.Valid()
    ensures Step(st, p).Abort? <==> Overflows(st, p)
  {
  }

  /** On overflow nothing is appended, no call is made for that packet or any later
      packet of the batch, and phase, buffer and length stay as they were. */
  lemma OverflowDropsRestOfBatch(st: State, p: Packet, rest: seq<Packet>)
    requires st.Valid() && Overflows(st, p)
    ensures Intake(st, [p] + rest) == Reception(st, [], true)
  {
    AbortIff(st, p);
    assert ([p] + rest)[0] == p;
  }

  // ---------------------------------------------------------------------------
  // Composition of calls
  // ---------------------------------------------------------------------------

  /** Feeding `more` in a second call after a first call's result. */
  function Then(r: Reception, more: seq<Packet>): Reception
    requires r.st.Valid()
  {
    if r.aborted then r
    else
      var r2 := Intake(r.st, more);
      Reception(r2.st, r.events + r2.events, r2.aborted)
  }

  /** One call on `ps + qs` is the call on `ps` followed by a call on `qs` from the
      statics it left, unless the first part hit the overflow guard, in which case
      the rest of the batch is never seen. */
  lemma {:induction false} IntakeAppend(st: State, ps: seq<Packet>, qs: seq<Packet>)
    requires st.Valid()
    ensures Intake(st, ps + qs) == Then(Intake(st, ps), qs)
    decreases |ps|
  {
    if ps == [] {
      assert ps + qs == qs;
    } else {
      assert (ps + qs)[0] == ps[0];
      if Step(st, ps[0]).Advance? {
        IntakeAppend(Step(st, ps[0]).next, ps[1..], qs);
        AppendAfterAdvance(st, ps, qs);
      }
    }
  }

  /** The inductive step of `IntakeAppend`: a first packet that does not abort
      contributes its calls in front of both sides. */
  lemma AppendAfterAdvance(st: State, ps: seq<Packet>, qs: seq<Packet>)
    requires st.Valid() && ps != [] && Step(st, ps[0]).Advance?
    requires var next := Step(st, ps[0]).next;
      Intake(next, ps[1..] + qs) == Then(Intake(next, ps[1..]), qs)
    ensures Intake(st, ps + qs) == Then(Intake(st, ps), qs)
  {
    var o := Step(st, ps[0]);
    var next, events := o.next, o.events;
    assert (ps + qs)[0] == ps[0];
    assert (ps + qs)[1..] == ps[1..] + qs;
    var a := Intake(next, ps[1..]);
    assert Intake(st, ps) == Reception(a.st, events + a.events, a.aborted);
    var whole := Intake(next, ps[1..] + qs);
    assert Intake(st, ps + qs) == Reception(whole.st, events + whole.events, whole.aborted);
    if !a.aborted {
      var b := Intake(a.st, qs);
      assert events + (a.events + b.events) == (events + a.events) + b.events;
    }
  }

  // ---------------------------------------------------------------------------
  // Reassembly of fragmented System Exclusive messages
  // ---------------------------------------------------------------------------

  /** Packet boundaries of a fragmented message: every fragment is non-empty,
      and only the final one ends with 0xF7. */
  predicate Fragmented(parts: seq<Packet>) {
    && |parts| > 0
    && (forall i :: 0 <= i < |parts| ==> |parts[i]| > 0)
    && (forall i :: 0 <= i < |parts| - 1 ==> Last(parts[i]) != SysexEnd)
    && Last(parts[|parts| - 1]) == SysexEnd
  }

  lemma FragmentedTail(parts: seq<Packet>)
    requires Fragmented(parts) && |parts| > 1
    ensures Fragmented(parts[1..])
  {
    var t := parts[1..];
    assert forall i :: 0 <= i < |t| ==> t[i] == parts[i + 1];
  }

  /** One step of `Concat`: the first packet's bytes, then the rest's. */
  lemma ConcatCons(ps: seq<seq<byte>>)
    requires |ps| > 0
    ensures Concat(ps) == ps[0] + Concat(ps[1..])
    ensures |Concat(ps)| >= |ps[0]|
  {
  }

  /** Two adjacent copies are one copy of the joined bytes. */
  lemma OverwriteTwice(buf: seq<byte>, at: nat, a: seq<byte>, b: seq<byte>)
    requires at + |a| + |b| <= |buf|
    ensures Overwrite(Overwrite(buf, at, a), at + |a|, b) == Overwrite(buf, at, a + b)
  {
    var l := Overwrite(Overwrite(buf, at, a), at + |a|, b);
    var r := Overwrite(buf, at, a + b);
    forall i | 0 <= i < |buf|
      ensures l[i] == r[i]
    {
    }
  }

  /** A packet that is silently collected: appended, no call, still collecting. */
  lemma CollectOne(st: State, f: Packet, rest: seq<Packet>)
    requires st.Valid() && st.phase == WaitForF7
    requires |f| > 0 && Last(f) != SysexEnd && st.len + |f| <= Capacity
    ensures var st1 := State(WaitForF7, Overwrite(st.data, st.len, f), st.len + |f|);
      Step(st, f) == Advance(st1, []) && Intake(st, [f] + rest) == Intake(st1, rest)
  {
    var data1 := Overwrite(st.data, st.len, f);
    assert data1[st.len + |f| - 1] == Last(f);
    var st1 := State(WaitForF7, data1, st.len + |f|);
    assert Step(st, f) == Advance(st1, []);
    assert ([f] + rest)[0] == f && ([f] + rest)[1..] == rest;
    var r := Intake(st1, rest);
    assert [] + r.events == r.events;
  }

  /** While collecting, the remaining fragments are appended after the live prefix;
      the packet carrying the final 0xF7 dispatches the whole buffer. */
  lemma {:induction false} Accumulate(st: State, frags: seq<Packet>)
    requires st.Valid() && st.phase == WaitForF7
    requires Fragmented(frags)
    requires st.len + |Concat(frags)| <= Capacity
    ensures var n := st.len + |Concat(frags)|;
      var data := Overwrite(st.data, st.len, Concat(frags));
      Intake(st, frags) == Reception(Dispatch(data, n).next, Dispatch(data, n).events, false)
    decreases |frags|
  {
    var f := frags[0];
    var rest := frags[1..];
    ConcatCons(frags);
    if |frags| == 1 {
      assert Concat(frags) == f;
      var data1 := Overwrite(st.data, st.len, f);
      assert data1[st.len + |f| - 1] == Last(f);
      assert Step(st, f) == Dispatch(data1, st.len + |f|);
      assert rest == [];
    } else {
      FragmentedTail(frags);
      CollectOne(st, f, rest);
      assert frags == [f] + rest;
      var st1 := State(WaitForF7, Overwrite(st.data, st.len, f), st.len + |f|);
      Accumulate(st1, rest);
      OverwriteTwice(st.data, st.len, f, Concat(rest));
    }
  }

  /** A first packet that starts a sysex without finishing it: copied to the
      front of the buffer, no call, now collecting. */
  lemma StartOne(st: State, f: Packet, rest: seq<Packet>)
    requires st.Valid() && st.phase == WaitForF0
    requires |f| >= 5 && f[0] == SysexStart && Last(f) != SysexEnd && st.len + |f| <= Capacity
    ensures var st1 := State(WaitForF7, Overwrite(st.data, 0, f), |f|);
      Step(st, f) == Advance(st1, []) && Intake(st, [f] + rest) == Intake(st1, rest)
  {
    var data1 := Overwrite(st.data, 0, f);
    assert data1[|f| - 1] == Last(f);
    var st1 := State(WaitForF7, data1, |f|);
    assert Step(st, f) == Advance(st1, []);
    assert ([f] + rest)[0] == f && ([f] + rest)[1..] == rest;
    var r := Intake(st1, rest);
    assert [] + r.events == r.events;
  }

  /** The fragments of a message end in one dispatch of the buffer holding it. */
  lemma ReassembleToDispatch(st: State, parts: seq<Packet>)
    requires st.Valid() && st.phase == WaitForF0
    requires Fragmented(parts)
    requires |parts[0]| >= 5 && parts[0][0] == SysexStart
    requires |Concat(parts)| <= Capacity
    requires st.len + |parts[0]| <= Capacity
    ensures var m := Concat(parts);
      var data := Overwrite(st.data, 0, m);
      Intake(st, parts) == Reception(Dispatch(data, |m|).next, Dispatch(data, |m|).events, false)
  {
    if |parts| == 1 {
      WholeSysexInOnePacket(st, parts[0]);
      assert parts == [parts[0]];
      assert Concat(parts) == parts[0] by { ConcatCons(parts); }
    } else {
      var first := parts[0];
      ConcatCons(parts);
      FragmentedTail(parts);
      StartOne(st, first, parts[1..]);
      assert parts == [first] + parts[1..];
      var st1 := State(WaitForF7, Overwrite(st.data, 0, first), |first|);
      Accumulate(st1, parts[1..]);
      OverwriteTwice(st.data, 0, first, Concat(parts[1..]));
    }
  }

  lemma WholeSysexInOnePacket(st: State, p: Packet)
    requires st.Valid() && st.phase == WaitForF0
    requires |p| >= 5 && p[0] == SysexStart && Last(p) == SysexEnd && st.len + |p| <= Capacity
    ensures var data := Overwrite(st.data, 0, p);
      Intake(st, [p]) == Reception(Dispatch(data, |p|).next, Dispatch(data, |p|).events, false)
  {
    var data := Overwrite(st.data, 0, p);
    assert data[|p| - 1] == Last(p);
    assert Step(st, p) == Dispatch(data, |p|);
    assert [p][1..] == [];
  }

  /** A System Exclusive message split into an 0xF0-led first packet of at least
      5 bytes and non-empty fragments, of which only the last ends with 0xF7, is
      handed to the engine exactly once, byte for byte, as soon as the 0xF7 arrives;
      the machine is then back to waiting for 0xF0 with the message's length kept.
      A timbre dump is requested right after it exactly when the message starts with
      the query prefix and has at least 7 bytes. */
  lemma SysexReassembly(st: State, parts: seq<Packet>)
    requires st.Consistent() && st.phase == WaitForF0
    requires Fragmented(parts)
    requires |parts[0]| >= 5 && parts[0][0] == SysexStart
    requires |Concat(parts)| <= Capacity
    requires st.len + |parts[0]| <= Capacity  // the guard's stale length
    ensures var m := Concat(parts);
      var r := Intake(st, parts);
      && !r.aborted
      && r.st.phase == WaitForF0
      && r.st.len == |m|
      && r.st.data[..|m|] == m
      && r.st.data[|m|..] == st.data[|m|..]
      && |r.events| >= 1
      && r.events[0] == PlaySysex(m)
      && (|r.events| == 2 <==> |m| >= 7 && m[..6] == QueryPrefix)
      && |r.events| <= 2
      && (|r.events| == 2 ==> r.events[1] == TimbreTX(m[6], r.st.data[7]))
  {
    var m := Concat(parts);
    ConcatCons(parts);
    ReassembleToDispatch(st, parts);
    var data := Overwrite(st.data, 0, m);
    assert data[..|m|] == m;
    if |m| >= 7 {
      assert data[..6] == m[..6];
      assert data[6] == m[6];
    }
  }

  /** Two calls with the same packets as one call agree with it: the machine only
      carries its statics across calls. */
  lemma SysexAcrossCalls(st: State, parts: seq<Packet>, k: nat)
    requires st.Consistent() && st.phase == WaitForF0
    requires Fragmented(parts)
    requires |parts[0]| >= 5 && parts[0][0] == SysexStart
    requires |Concat(parts)| <= Capacity
    requires st.len + |parts[0]| <= Capacity
    requires 0 < k < |parts|
    ensures var first := Intake(st, parts[..k]);
      !first.aborted && first.events == [] && Then(first, parts[k..]) == Intake(st, parts)
  {
    IntakeAppend(st, parts[..k], parts[k..]);
    assert parts[..k] + parts[k..] == parts;
    NoCallsBeforeEnd(st, parts, k);
  }

  /** Before the fragment carrying 0xF7 nothing is handed to the engine. */
  lemma NoCallsBeforeEnd(st: State, parts: seq<Packet>, k: nat)
    requires st.Consistent() && st.phase == WaitForF0
    requires Fragmented(parts)
    requires |parts[0]| >= 5 && parts[0][0] == SysexStart
    requires |Concat(parts)| <= Capacity
    requires st.len + |parts[0]| <= Capacity
    requires 0 < k < |parts|
    ensures !Intake(st, parts[..k]).aborted && Intake(st, parts[..k]).events == []
  {
    var first := parts[0];
    ConcatCons(parts);
    var data1 := Overwrite(st.data, 0, first);
    assert data1[|first| - 1] == Last(first);
    var st1 := State(WaitForF7, data1, |first|);
    assert Step(st, first) == Advance(st1, []);
    assert parts[..k][1..] == parts[1..k];
    CollectingIsSilent(st1, parts[1..], k - 1);
    assert parts[1..][..k - 1] == parts[1..k];
  }

  lemma {:induction false} CollectingIsSilent(st: State, frags: seq<Packet>, k: nat)
    requires st.Valid() && st.phase == WaitForF7
    requires k < |frags| || (k == 0 && frags == [])
    requires forall i :: 0 <= i < |frags| ==> |frags[i]| > 0
    requires forall i :: 0 <= i < |frags| - 1 ==> Last(frags[i]) != SysexEnd
    requires st.len + |Concat(frags)| <= Capacity
    ensures !Intake(st, frags[..k]).aborted && Intake(st, frags[..k]).events == []
    ensures Intake(st, frags[..k]).st.phase == WaitForF7
    decreases k
  {
    if k > 0 {
      var f := frags[0];
      ConcatCons(frags);
      var n1 := st.len + |f|;
      var data1 := Overwrite(st.data, st.len, f);
      assert data1[n1 - 1] == Last(f);
      var st1 := State(WaitForF7, data1, n1);
      assert Step(st, f) == Advance(st1, []);
      var t := frags[1..];
      assert forall i :: 0 <= i < |t| ==> t[i] == frags[i + 1];
      CollectingIsSilent(st1, t, k - 1);
      assert frags[..k][1..] == t[..k - 1];
    }
  }

  // ---------------------------------------------------------------------------
  // Timbre queries
  // ---------------------------------------------------------------------------

  /** A complete timbre query in one packet, seen while waiting for 0xF0, is handed
      to the engine and answered with a dump of the address it names. */
  lemma QueryIsAnswered(st: State, addrH: byte, addrL: byte)
    requires st.Consistent() && st.phase == WaitForF0 && st.len <= Capacity - 9
    ensures var q: seq<byte> := QueryPrefix + [addrH, addrL, SysexEnd];
      Intake(st, [q]) == Reception(State(WaitForF0, Overwrite(st.data, 0, q), 9), [PlaySysex(q), TimbreTX(addrH, addrL)], false)
  {
    var q: seq<byte> := QueryPrefix + [addrH, addrL, SysexEnd];
    var data := Overwrite(st.data, 0, q);
    assert data[..9] == q;
    assert data[..6] == QueryPrefix;
    assert [q][1..] == [];
  }

  /** The single-packet query `F0 41 10 16 11 04 00 00 F7` at start-up. */
  lemma QueryAtStartUp()
    ensures var q: seq<byte> := [0xF0, 0x41, 0x10, 0x16, 0x11, 0x04, 0x00, 0x00, 0xF7];
      Intake(Initial, [q]).events == [PlaySysex(q), TimbreTX(0, 0)]
  {
    QueryIsAnswered(Initial, 0, 0);
    assert QueryPrefix + [0, 0, SysexEnd] == [0xF0, 0x41, 0x10, 0x16, 0x11, 0x04, 0x00, 0x00, 0xF7];
  }

  /** The same query split as `F0 41 10` then `16 11 04 00 00 F7` in two calls is
      not reassembled: the 3-byte head is played as the short word 0x1041F0, and the
      6-byte tail, not 0xF0-led, is ignored. */
  lemma SplitQueryIsNotReassembled()
    ensures var head: seq<byte> := [0xF0, 0x41, 0x10];
      var tail: seq<byte> := [0x16, 0x11, 0x04, 0x00, 0x00, 0xF7];
      && Intake(Initial, [head]) == Reception(Initial, [PlayMsg(0x1041F0)], false)
      && Intake(Initial, [tail]) == Reception(Initial, [], false)
  {
    var tail: seq<byte> := [0x16, 0x11, 0x04, 0x00, 0x00, 0xF7];
    assert [tail][1..] == [];
  }

  /** A 7-byte query `F0 41 10 16 11 04 F7` takes its low address byte from index 7,
      beyond the message: whatever an earlier message left there. */
  lemma ShortQueryReadsStaleByte(st: State)
    requires st.Consistent() && st.phase == WaitForF0 && st.len <= Capacity - 7
    ensures var q: seq<byte> := QueryPrefix + [SysexEnd];
      Intake(st, [q]).events == [PlaySysex(q), TimbreTX(SysexEnd, st.data[7])]
  {
    var q: seq<byte> := QueryPrefix + [SysexEnd];
    var data := Overwrite(st.data, 0, q);
    assert data[..7] == q;
    assert data[..6] == QueryPrefix;
    assert [q][1..] == [];
  }

  // ---------------------------------------------------------------------------
  // Statics that are never reset
  // ---------------------------------------------------------------------------

  /** The length is not reset after dispatch, so once a message of 2044 bytes or
      more has been played, every later sysex packet (0xF0-led, 5 bytes or more)
      hits the overflow guard: from then on the statics never change again and
      only short messages get through. */
  lemma {:induction false} LongSysexBlocksLaterSysex(st: State, ps: seq<Packet>)
    requires st.Consistent() && st.phase == WaitForF0 && st.len >= Capacity - 4
    ensures Intake(st, ps).st == st
    ensures forall i :: 0 <= i < |Intake(st, ps).events| ==> Intake(st, ps).events[i].PlayMsg?
    decreases |ps|
  {
    if ps != [] {
      var o := Step(st, ps[0]);
      if o.Advance? {
        assert o.next == st;
        LongSysexBlocksLaterSysex(st, ps[1..]);
      }
    }
  }

  /** While collecting, a full buffer that does not end with 0xF7 is never left:
      the overflow guard returns without resetting the phase, so every later call
      ends at its first non-empty packet and nothing reaches the engine again. */
  lemma {:induction false} FullBufferWedgesReceiver(st: State, ps: seq<Packet>)
    requires st.Consistent() && st.phase == WaitForF7 && st.len == Capacity
    ensures Intake(st, ps).st == st
    ensures Intake(st, ps).events == []
    decreases |ps|
  {
    if ps != [] {
      var o := Step(st, ps[0]);
      if o.Advance? {
        assert o == Advance(st, []);
        FullBufferWedgesReceiver(st, ps[1..]);
      }
    }
  }

  /** The wedged state is reachable from start-up by one 2048-byte packet that
      starts with 0xF0 and does not end with 0xF7. */
  lemma FullBufferIsReachable(p: Packet)
    requires |p| == Capacity && p[0] == SysexStart && Last(p) != SysexEnd
    ensures Intake(Initial, [p]).st == State(WaitForF7, p, Capacity)
  {
    assert Overwrite(Initial.data, 0, p) == p;
    assert [p][1..] == [];
  }
}
