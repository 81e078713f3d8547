/**
 The timbre dump responder of the MT-32 Audio Unit: `getSysexTimbre` frames a
 Roland "data set" (command 0x12) System Exclusive message carrying one timbre
 record read from the engine's memory, and `CoreMidiTimbreTX` sends it on the
 virtual MIDI output port.

 The engine is not part of this model: the size of a timbre record, the address
 conversion `MT32EMU_MEMADDR`, the memory that `readMemory` copies from and the
 checksum `calcSysexChecksum` are the fields of an `Engine` value, left
 uninterpreted.
 */
module TimbreDump {
  import opened MidiBytes
  import Reassembler
  import ReassemblerLemmas

  /** An unsigned 16-bit value (`uint16_t`). */
  type uint16 = x: int | 0 <= x < 0x1_0000

  /** What the responder uses of the synthesis engine. */
  datatype Engine = Engine(
    timbreSize: uint16,                 // sizeof(MT32Emu::TimbreParam), held in a uint16_t
    memAddr: nat -> nat,                // MT32EMU_MEMADDR
    memory: nat -> byte,                // the engine memory that readMemory copies from
    checksum: (seq<byte>, byte) -> byte // Synth::calcSysexChecksum(data, len, seed)
  )

  /** Roland, device 0x10, MT-32, "data set". */
  const ReplyHeader: seq<byte> := [0xF0, 0x41, 0x10, 0x16, 0x12]

  /** High byte of the timbre area's sysex address, 0x04xxxx. */
  const TimbreBase: byte := 0x04

  /** `(0x04 << 16) | (addrH << 8) | addrL`. The three parts do not overlap, so
      the ORs are a sum. */
  function SysexAddress(addrH: byte, addrL: byte): nat
  {
    TimbreBase * 0x1_0000 + addrH * 0x100 + addrL
  }

  /** `readMemory(addr, len, out)`: `len` consecutive bytes of engine memory. */
  function ReadMemory(e: Engine, addr: nat, len: nat): (r: seq<byte>)
    ensures |r| == len
    ensures forall i :: 0 <= i < len ==> r[i] == e.memory(addr + i)
    decreases len
  {
    if len == 0 then [] else [e.memory(addr)] + ReadMemory(e, addr + 1, len - 1)
  }

  /** The timbre record at a sysex address. */
  function Record(e: Engine, addrH: byte, addrL: byte): (r: seq<byte>)
    ensures |r| == e.timbreSize
  {
    ReadMemory(e, e.memAddr(SysexAddress(addrH, addrL)), e.timbreSize)
  }

  /** `getSysexTimbre(addrH, addrL, buffer)` on a caller buffer: the buffer after
      the call and the returned length. With T the record size it writes the
      header, base and address at 0..7, the record at 8 .. 8+T, the checksum at
      8+T and 0xF7 at 9+T, and returns T+10 as a uint16_t. The checksum is taken
      over T+8 bytes from index 5: the base, the address, the record and five more
      bytes that are still the caller's, since it is computed before the checksum
      and 0xF7 are stored. The caller must supply room for those five bytes. */
  function GetSysexTimbre(e: Engine, addrH: byte, addrL: byte, buffer: seq<byte>): (r: (seq<byte>, uint16))
    requires e.timbreSize + 13 <= |buffer|
    ensures var (out, len) := r; var t := e.timbreSize;
      && |out| == |buffer|
      && out[..8] == ReplyHeader + [TimbreBase, addrH, addrL]
      && out[8..8 + t] == Record(e, addrH, addrL)
      && out[8 + t] == e.checksum(out[5..8 + t] + buffer[8 + t..13 + t], 0)
      && out[9 + t] == SysexEnd
      && out[10 + t..] == buffer[10 + t..]
      && len == (t + 10) % 0x1_0000
  {
    var t := e.timbreSize;
    var framed := Overwrite(buffer, 0, ReplyHeader + [TimbreBase, addrH, addrL]);
    var filled := Overwrite(framed, 8, Record(e, addrH, addrL));
    var sum := e.checksum(filled[5..t + 13], 0);
    var out := filled[t + 8 := sum][t + 9 := SysexEnd];
    assert out[5..8 + t] == filled[5..8 + t];
    assert filled[5..t + 13] == filled[5..8 + t] + buffer[8 + t..13 + t];
    (out, ((t + 10) % 0x1_0000) as uint16)
  }

  /** Size of the zeroed buffer both callers frame a dump in (`tx.data[512]`,
      `timbreSyx[512]`). */
  const DumpBufferSize: nat := 512

  /** The bytes a caller takes from `getSysexTimbre` on a zeroed 512-byte buffer:
      what `CoreMidiTimbreTX` sends as one packet and what `SaveState` stores. */
  function Dump(e: Engine, addrH: byte, addrL: byte): (msg: seq<byte>)
    requires e.timbreSize + 13 <= DumpBufferSize
    ensures |msg| == e.timbreSize + 10
    ensures msg[0] == SysexStart && Last(msg) == SysexEnd
    ensures msg[..8] == ReplyHeader + [TimbreBase, addrH, addrL]
    ensures msg[8..8 + e.timbreSize] == Record(e, addrH, addrL)
    ensures msg[8 + e.timbreSize] == e.checksum(msg[5..8 + e.timbreSize] + Zeros(5), 0)
  {
    var (buf, len) := GetSysexTimbre(e, addrH, addrL, Zeros(DumpBufferSize));
    var t := e.timbreSize;
    assert Zeros(DumpBufferSize)[8 + t..13 + t] == Zeros(5);
    assert buf[..len][5..8 + t] == buf[5..8 + t];
    assert buf[..len][..8] == buf[..8];
    assert buf[..len][8..8 + t] == buf[8..8 + t];
    buf[..len]
  }

  /** `CoreMidiTimbreTX(addrH, addrL)`: the single packet sent on the output port. */
  function CoreMidiTimbreTX(e: Engine, addrH: byte, addrL: byte): (packet: seq<byte>)
    requires e.timbreSize + 13 <= DumpBufferSize
    ensures |packet| == e.timbreSize + 10
    ensures DecodeReply(packet, e.timbreSize) == Some(Reply(addrH, addrL, Record(e, addrH, addrL), packet[8 + e.timbreSize]))
    ensures packet[8 + e.timbreSize] == e.checksum([TimbreBase, addrH, addrL] + Record(e, addrH, addrL) + Zeros(5), 0)
  {
    DumpIsReply(e, addrH, addrL);
    Dump(e, addrH, addrL)
  }

  // ---------------------------------------------------------------------------
  // The reply message as data
  // ---------------------------------------------------------------------------

  /** The fields of a timbre "data set" reply. */
  datatype Reply = Reply(addrH: byte, addrL: byte, record: seq<byte>, checksum: byte)

  /** The wire form: header, base, address, record, checksum, 0xF7. */
  function EncodeReply(r: Reply): (msg: seq<byte>)
    ensures |msg| == |r.record| + 10
  {
    ReplyHeader + [TimbreBase, r.addrH, r.addrL] + r.record + [r.checksum, SysexEnd]
  }

  /** Reads a reply of record size `t` back, refusing anything of the wrong length
      or with the wrong framing. */
  function DecodeReply(msg: seq<byte>, t: nat): Option<Reply>
  {
    if |msg| == t + 10 && msg[..6] == ReplyHeader + [TimbreBase] && msg[t + 9] == SysexEnd then
      Some(Reply(msg[6], msg[7], msg[8..8 + t], msg[8 + t]))
    else
      None
  }

  lemma DecodeEncode(r: Reply)
    ensures DecodeReply(EncodeReply(r), |r.record|) == Some(r)
  {
    var msg := EncodeReply(r);
    var t := |r.record|;
    assert msg[..6] == ReplyHeader + [TimbreBase];
    assert msg[8..8 + t] == r.record;
  }

  lemma EncodeDecode(msg: seq<byte>, t: nat)
    requires DecodeReply(msg, t).Some?
    ensures EncodeReply(DecodeReply(msg, t).value) == msg
  {
    var r := DecodeReply(msg, t).value;
    assert EncodeReply(r) == msg[..6] + msg[6..8] + msg[8..8 + t] + msg[8 + t..];
  }

  /** A dump is the reply for its address, carrying the record read from engine
      memory and the checksum of base, address, record and five zero bytes. */
  lemma DumpIsReply(e: Engine, addrH: byte, addrL: byte)
    requires e.timbreSize + 13 <= DumpBufferSize
    ensures var msg := Dump(e, addrH, addrL); var t := e.timbreSize;
      var sum := e.checksum([TimbreBase, addrH, addrL] + Record(e, addrH, addrL) + Zeros(5), 0);
      && msg == EncodeReply(Reply(addrH, addrL, Record(e, addrH, addrL), sum))
      && DecodeReply(msg, t) == Some(Reply(addrH, addrL, Record(e, addrH, addrL), sum))
  {
    var msg := Dump(e, addrH, addrL);
    var t := e.timbreSize;
    DumpFields(e, addrH, addrL);
    var sum := e.checksum([TimbreBase, addrH, addrL] + Record(e, addrH, addrL) + Zeros(5), 0);
    var r := Reply(addrH, addrL, Record(e, addrH, addrL), sum);
    assert msg == msg[..8] + msg[8..8 + t] + msg[8 + t..];
    assert msg[8 + t..] == [sum, SysexEnd];
    DecodeEncode(r);
  }

  /** The pieces of a dump, field by field. */
  lemma DumpFields(e: Engine, addrH: byte, addrL: byte)
    requires e.timbreSize + 13 <= DumpBufferSize
    ensures var msg := Dump(e, addrH, addrL); var t := e.timbreSize;
      && msg[..8] == ReplyHeader + [TimbreBase, addrH, addrL]
      && msg[8..8 + t] == Record(e, addrH, addrL)
      && msg[5..8 + t] == [TimbreBase, addrH, addrL] + Record(e, addrH, addrL)
  {
    var msg := Dump(e, addrH, addrL);
    var t := e.timbreSize;
    var (buf, len) := GetSysexTimbre(e, addrH, addrL, Zeros(DumpBufferSize));
    assert msg == buf[..t + 10];
    assert msg[..8] == buf[..8];
    assert msg[8..8 + t] == buf[8..8 + t];
    assert msg[5..8 + t] == msg[5..8] + msg[8..8 + t];
  }

  /** A timbre query received as one packet is answered by a reply for the very
      address it names, with the record stored there. */
  lemma QueryGetsMatchingReply(e: Engine, st: Reassembler.State, addrH: byte, addrL: byte)
    requires e.timbreSize + 13 <= DumpBufferSize
    requires st.Consistent() && st.phase == Reassembler.WaitForF0 && st.len <= Reassembler.Capacity - 9
    ensures var q: seq<byte> := Reassembler.QueryPrefix + [addrH, addrL, SysexEnd];
      var events := Reassembler.Intake(st, [q]).events;
      && |events| == 2
      && events[1] == Reassembler.TimbreTX(addrH, addrL)
      && var reply := DecodeReply(CoreMidiTimbreTX(e, events[1].addrH, events[1].addrL), e.timbreSize);
         reply.Some? && reply.value.addrH == q[6] && reply.value.addrL == q[7]
         && reply.value.record == Record(e, addrH, addrL)
  {
    ReassemblerLemmas.QueryIsAnswered(st, addrH, addrL);
  }
}
