# MT-32 Audio Unit MIDI glue, modelled in Dafny

This project models the MIDI and state glue of the MT-32 emulator's Audio Unit
plugin (`MT32Synth` in `MT32EmuAU.cpp`). It has three parts.

- **The CoreMIDI receive callback** (`CoreMidiRX`). This is a three-phase machine
  (`WAIT_FOR_0XF0`, `WAIT_FOR_0XF7`, `SEND_TO_MT32`). Its phase, its 2048-byte
  sysex buffer and its length are statics that survive across calls. Short packets
  become `playMsg` words. System Exclusive fragments are collected into the buffer
  and handed to `playSysex` once a packet ends with 0xF7. A "timbre query"
  (`F0 41 10 16 11 04 ...`) also triggers a timbre dump reply. In the model the
  statics are an explicit `State`. One packet is the pure function `Reassembler.Step`.
  One call over a packet list is `Reassembler.Intake`, which returns the next state,
  the engine calls made in order (`Event`s), and whether the overflow guard's
  `return` ended the call early. `Reassembler.CoreMidiRX` is the loop as written,
  with fall-through between the phase blocks, and is proved equal to `Intake`.
- **The timbre dump responder** (`getSysexTimbre`, `CoreMidiTimbreTX`). It frames a
  Roland "data set" message: header `F0 41 10 16 12`, then address `04 addrH addrL`,
  the timbre record read from engine memory, a checksum, and `F7`. The engine is a
  value of the datatype `TimbreDump.Engine`, whose fields are the record size, the
  address conversion, the memory image and the checksum function. All of these are
  left uninterpreted.
- **The saved state** (`SaveState`, `RestoreState`, `RestoreStateAsSysex`). This
  stores the dumps of the five part timbres under the keys `timbre1.syx` …
  `timbre5.syx` of the host's property list. On restore it plays each stored blob
  into the engine, but only if the blob's length, narrowed to a 32-bit `int`, is 256.

Modules: `MidiBytes` (bytes, `memcpy` as `Overwrite`), `Reassembler` (the machine),
`ReassemblerLemmas` (its properties), `TimbreDump` (the responder and the reply
format) and `Snapshot` (save and restore).

### Behaviour kept as written

A plain reading of the protocol suggests a cleaner machine than the code
implements. The model follows the code in each of these points, and a lemma states
the consequence.

- **Short-message test.** It looks at the length only. An 0xF0-led packet of 1 to 4
  bytes is played as a short word. So a query split as `F0 41 10` + `16 11 04 00 00 F7`
  is not reassembled: the head becomes the word 0x1041F0, and the tail is ignored
  because it is not 0xF0-led (`SplitQueryIsNotReassembled`).
- **Overflow.** The guard `return`s from the whole callback. The rest of the batch is
  dropped and the phase is not reset (`OverflowDropsRestOfBatch`). A full buffer that
  does not end with 0xF7 wedges the receiver for good (`FullBufferWedgesReceiver`,
  `FullBufferIsReachable`).
- **Stale length in the guard.** When a new sysex starts, the guard adds the length
  left over from the previous message, and that length is never reset after
  dispatch. After a message of 2044 bytes or more, no later sysex gets through
  (`LongSysexBlocksLaterSysex`).
- **Stale address byte.** A 7-byte timbre query takes its low address byte from
  index 7. That byte lies past the live message and holds whatever an earlier
  message left there (`ShortQueryReadsStaleByte`).
- **Checksum span.** The checksum covers T+8 bytes from index 5, where T is the
  record size. That span runs five bytes past the record into caller memory, which
  the callers zero first (`GetSysexTimbre`, `Dump`).
- **Narrowed blob length.** The restore test reads the blob length through an
  `(int)` cast of the 64-bit `CFIndex`. A blob of 2^32 + 256 bytes passes the test,
  and only its first 256 bytes are played (`RestoreOversizedBlob`). For a blob shorter
  than 2^31 bytes the test is exact (`RestoreOrdinaryBlob`).
- **Restore size.** The check for exactly 256 bytes accepts a saved dump only when
  the record is 246 bytes long (`SavedSlotRestoredIff`, `SnapshotRoundTrip`).

## Model

| member | source | states |
|---|---|---|
| `MidiBytes.Overwrite` | mt32emu_au/muntAU/muntAU/MT32EmuAU.cpp:184-185 | `memcpy` into the buffer: bytes in the target range come from the source packet, every other byte is kept, and the length is unchanged |
| `Reassembler.Dispatch` | mt32emu_au/muntAU/muntAU/MT32EmuAU.cpp:218-244 | after a dispatch the machine waits for 0xF0 again, keeps the buffer byte for byte (the block never writes it) and keeps the old length (it is not reset to 0). The first call is `playSysex` of the live prefix. A timbre reply for bytes 6 and 7 follows if and only if the buffer starts with the query prefix and the length is at least 7 |
| `Reassembler.Step` | mt32emu_au/muntAU/muntAU/MT32EmuAU.cpp:160-248 | one packet either ends the call or leaves statics of the right shape: a 2048-byte buffer with a length of at most 2048 |
| `Reassembler.Intake` | mt32emu_au/muntAU/muntAU/MT32EmuAU.cpp:132-250 | one call leaves statics of the right shape, and it can end early only if there was a packet to cause it |
| `Reassembler.StepConsistent` | mt32emu_au/muntAU/muntAU/MT32EmuAU.cpp:160-248 | each packet preserves the between-packets invariant: never left in `SEND_TO_MT32`, and while collecting the buffer starts with 0xF0, does not end with 0xF7 and holds at least 5 bytes. Every call it makes is well formed |
| `Reassembler.IntakeConsistent` | mt32emu_au/muntAU/muntAU/MT32EmuAU.cpp:132-250 | from a consistent state a whole call keeps the invariant. Every sysex passed to `playSysex` runs from 0xF0 to 0xF7 and fits 2048 bytes. Every timbre reply directly follows a dispatched query and carries its address bytes |
| `Reassembler.ReceivePacket` | mt32emu_au/muntAU/muntAU/MT32EmuAU.cpp:160-248 | the loop body as written (fall-through between blocks, `continue`, the guard's `return`) aborts exactly when `Step` does, and otherwise produces the same statics and calls |
| `Reassembler.SendToSynth` | mt32emu_au/muntAU/muntAU/MT32EmuAU.cpp:218-244 | the byte-by-byte query test on the buffer makes exactly the calls of `Dispatch` |
| `Reassembler.CoreMidiRX` | mt32emu_au/muntAU/muntAU/MT32EmuAU.cpp:132-250 | the packet loop with its early return leaves exactly the statics and calls that `Intake` describes |
| `Reassembler.Pack` | mt32emu_au/muntAU/muntAU/MT32EmuAU.cpp:166-170 | the word built from a 1..4 byte packet fits 32 bits, and its four bytes, least significant first, are the packet's bytes followed by zeros |
| `Reassembler.PackDigits` | mt32emu_au/muntAU/muntAU/MT32EmuAU.cpp:167-170 | four bytes placed at shifts 0, 8, 16 and 24 give a word below 2^32 whose bytes, least significant first, are those four bytes |
| `ReassemblerLemmas.ShortPacketIsPlayed` | mt32emu_au/muntAU/muntAU/MT32EmuAU.cpp:164-176 | a 1..4 byte packet seen while waiting for 0xF0 is played as one little-endian, zero-padded word, and the statics are left alone, whatever its first byte |
| `ReassemblerLemmas.IgnoredPacketIff` | mt32emu_au/muntAU/muntAU/MT32EmuAU.cpp:162-217 | a packet has no effect at all if and only if it is empty, or it is longer than 4 bytes, not 0xF0-led, and arrives while waiting for 0xF0 |
| `ReassemblerLemmas.AbortIff` | mt32emu_au/muntAU/muntAU/MT32EmuAU.cpp:178-201 | a packet ends the call if and only if it would start or extend a sysex past 2048 bytes. When starting, the stale previous length is counted |
| `ReassemblerLemmas.OverflowDropsRestOfBatch` | mt32emu_au/muntAU/muntAU/MT32EmuAU.cpp:178-216 | on overflow nothing is appended and no call is made for that packet or any later one in the batch. Phase, buffer and length are unchanged |
| `ReassemblerLemmas.IntakeAppend` | mt32emu_au/muntAU/muntAU/MT32EmuAU.cpp:138-141 | one call on `ps + qs` equals a call on `ps` followed by a call on `qs` from the statics it left, unless the first part hit the overflow guard |
| `ReassemblerLemmas.AppendAfterAdvance` | mt32emu_au/muntAU/muntAU/MT32EmuAU.cpp:138-141 | the inductive step of `IntakeAppend`: a first packet that does not abort puts its calls in front of both the one-call and the two-call result |
| `ReassemblerLemmas.Accumulate` | mt32emu_au/muntAU/muntAU/MT32EmuAU.cpp:197-216 | while collecting, the remaining fragments are appended after the live prefix, and the fragment carrying 0xF7 dispatches the whole buffer |
| `ReassemblerLemmas.ReassembleToDispatch` | mt32emu_au/muntAU/muntAU/MT32EmuAU.cpp:178-244 | the fragments of a message end in one dispatch of the buffer with the joined message copied to its front |
| `ReassemblerLemmas.SysexReassembly` | mt32emu_au/muntAU/muntAU/MT32EmuAU.cpp:178-244 | a sysex split into an 0xF0-led first packet (at least 5 bytes) and non-empty fragments is played exactly once, byte for byte. The machine then waits for 0xF0 with the message length kept and the rest of the buffer unchanged. A timbre reply follows if and only if the message has the query prefix and at least 7 bytes |
| `ReassemblerLemmas.NoCallsBeforeEnd` | mt32emu_au/muntAU/muntAU/MT32EmuAU.cpp:178-216 | before the fragment carrying 0xF7, nothing reaches the engine and the call does not end early |
| `ReassemblerLemmas.CollectingIsSilent` | mt32emu_au/muntAU/muntAU/MT32EmuAU.cpp:197-216 | fragments that do not end with 0xF7 and fit the buffer are collected without any call, and the machine keeps collecting |
| `ReassemblerLemmas.SysexAcrossCalls` | mt32emu_au/muntAU/muntAU/MT32EmuAU.cpp:138-141 | the same fragments delivered over two calls give the same result as one call, and the first call makes no engine call |
| `ReassemblerLemmas.QueryIsAnswered` | mt32emu_au/muntAU/muntAU/MT32EmuAU.cpp:232-244 | a 9-byte timbre query in one packet is played and then answered with a dump request for the address bytes it names |
| `ReassemblerLemmas.QueryAtStartUp` | mt32emu_au/muntAU/muntAU/MT32EmuAU.cpp:232-244 | at start-up `F0 41 10 16 11 04 00 00 F7` gives exactly `playSysex` of those 9 bytes, then a timbre reply for address (0x00, 0x00) |
| `ReassemblerLemmas.SplitQueryIsNotReassembled` | mt32emu_au/muntAU/muntAU/MT32EmuAU.cpp:164-195 | the query split as `F0 41 10` + `16 11 04 00 00 F7` is played as the short word 0x1041F0, and the tail is ignored |
| `ReassemblerLemmas.ShortQueryReadsStaleByte` | mt32emu_au/muntAU/muntAU/MT32EmuAU.cpp:233-242 | a 7-byte query takes its low address byte from buffer index 7, which is left over from earlier messages |
| `ReassemblerLemmas.LongSysexBlocksLaterSysex` | mt32emu_au/muntAU/muntAU/MT32EmuAU.cpp:178-185 | once the kept length is 2044 or more, the statics never change again and only short messages reach the engine |
| `ReassemblerLemmas.FullBufferWedgesReceiver` | mt32emu_au/muntAU/muntAU/MT32EmuAU.cpp:197-216 | while collecting with a full buffer, the statics never change and nothing reaches the engine again |
| `ReassemblerLemmas.FullBufferIsReachable` | mt32emu_au/muntAU/muntAU/MT32EmuAU.cpp:178-195 | one 2048-byte packet that is 0xF0-led and does not end with 0xF7 leads from start-up to that wedged state |
| `TimbreDump.ReadMemory` | mt32emu_au/muntAU/muntAU/MT32EmuAU.cpp:275 | `readMemory` yields `len` bytes, byte `i` being engine memory at `addr + i` |
| `TimbreDump.GetSysexTimbre` | mt32emu_au/muntAU/muntAU/MT32EmuAU.cpp:255-292 | the buffer afterwards holds header and address at 0..7, the record at 8..8+T, the checksum at 8+T and 0xF7 at 9+T. The checksum is over T+8 bytes from index 5, including five caller bytes. Later bytes are untouched, and the returned length is T+10 as a `uint16_t` |
| `TimbreDump.Dump` | mt32emu_au/muntAU/muntAU/MT32EmuAU.cpp:446-449 | the bytes taken from a zeroed 512-byte buffer: T+10 bytes from 0xF0 to 0xF7, starting with the reply header, base 0x04 and the address, then the T-byte record read from engine memory at that address, then the checksum over base, address, record and five zero bytes |
| `TimbreDump.CoreMidiTimbreTX` | mt32emu_au/muntAU/muntAU/MT32EmuAU.cpp:294-311 | the packet sent is T+10 bytes and decodes as the reply for the requested address, carrying the record stored there. Its checksum byte is `calcSysexChecksum` of base, address, record and five zero bytes |
| `TimbreDump.DecodeEncode` | mt32emu_au/muntAU/muntAU/MT32EmuAU.cpp:264-281 | decoding an encoded reply gives back its address, record and checksum |
| `TimbreDump.EncodeDecode` | mt32emu_au/muntAU/muntAU/MT32EmuAU.cpp:264-281 | a message that decodes is exactly the encoding of what it decodes to |
| `TimbreDump.DumpFields` | mt32emu_au/muntAU/muntAU/MT32EmuAU.cpp:264-275 | a dump's header and address bytes, its record bytes, and the checksummed span from index 5 |
| `TimbreDump.DumpIsReply` | mt32emu_au/muntAU/muntAU/MT32EmuAU.cpp:255-292 | a dump is exactly the encoded reply for its address, with the memory record and the checksum of base, address, record and five zeros |
| `TimbreDump.QueryGetsMatchingReply` | mt32emu_au/muntAU/muntAU/MT32EmuAU.cpp:232-244 | a timbre query received as one packet is answered by a packet that decodes as the reply for the address the query names |
| `Snapshot.ExportSlots` | mt32emu_au/muntAU/muntAU/MT32EmuAU.cpp:444-452 | after the export loop each table key holds the dump of its address, other keys are unchanged, and the key set grows by exactly the table keys |
| `Snapshot.SaveState` | mt32emu_au/muntAU/muntAU/MT32EmuAU.cpp:411-455 | a failed host save is returned unchanged. Otherwise the five timbre dumps are stored under their keys on top of what the host saved, and nothing else is changed |
| `Snapshot.NarrowToInt` | mt32emu_au/muntAU/muntAU/MT32EmuAU.cpp:461 | the `(int)` cast of the length is a 32-bit two's-complement value congruent to the length modulo 2^32, and equal to it below 2^31 |
| `Snapshot.NarrowedIs256` | mt32emu_au/muntAU/muntAU/MT32EmuAU.cpp:461-462 | the narrowed length is 256 if and only if the length is 256 modulo 2^32 |
| `Snapshot.RestoreStateAsSysex` | mt32emu_au/muntAU/muntAU/MT32EmuAU.cpp:457-468 | at most one blob is played. One is played if and only if the data is present and its length is 256 modulo 2^32, and what is played is its first 256 bytes |
| `Snapshot.RestoreOrdinaryBlob` | mt32emu_au/muntAU/muntAU/MT32EmuAU.cpp:457-468 | a blob shorter than 2^31 bytes is played whole if it is exactly 256 bytes long, and nothing is played otherwise |
| `Snapshot.RestoreOversizedBlob` | mt32emu_au/muntAU/muntAU/MT32EmuAU.cpp:461-467 | a blob of 2^32 + 256 bytes passes the narrowed test, and only its first 256 bytes are played |
| `Snapshot.ImportSlots` | mt32emu_au/muntAU/muntAU/MT32EmuAU.cpp:479-492 | at most as many blobs as slots are played. Each is 256 bytes, and each is the first 256 bytes of the value stored under one of the slot keys |
| `Snapshot.ImportSlotsOne` | mt32emu_au/muntAU/muntAU/MT32EmuAU.cpp:479-480 | importing one slot plays exactly what the length test makes of that key's lookup: nothing for a missing key |
| `Snapshot.ImportSlotsAppend` | mt32emu_au/muntAU/muntAU/MT32EmuAU.cpp:479-492 | importing a list of slots plays, in order, what importing each part plays, for every dictionary |
| `Snapshot.ImportFour` | mt32emu_au/muntAU/muntAU/MT32EmuAU.cpp:479-486 | importing a four-slot table plays the four single-key results one after the other, in table order |
| `Snapshot.ImportFive` | mt32emu_au/muntAU/muntAU/MT32EmuAU.cpp:479-492 | importing a five-slot table plays the five single-key results one after the other, in table order |
| `Snapshot.RestoreState` | mt32emu_au/muntAU/muntAU/MT32EmuAU.cpp:470-495 | for every dictionary, the blobs played are the length-tested results of looking up `timbre1.syx`, `timbre2.syx`, `timbre3.syx`, `timbre4.syx` and `timbre5.syx`, joined in that order. So each present key that passes the test is played once, in table order. At most five blobs are played, each of them 256 bytes |
| `Snapshot.SlotsAreConsecutiveRecords` | mt32emu_au/muntAU/muntAU/MT32EmuAU.cpp:436-442 | the five table addresses are 7-bit sysex addresses spaced one record apart if and only if a record is 246 bytes |
| `Snapshot.SavedSlotRestoredIff` | mt32emu_au/muntAU/muntAU/MT32EmuAU.cpp:457-468 | a saved slot is accepted again on restore if and only if the record is 246 bytes, which makes the dump 256 bytes |
| `Snapshot.SnapshotRoundTrip` | mt32emu_au/muntAU/muntAU/MT32EmuAU.cpp:411-495 | restoring a saved state plays the five saved dumps in table order when the record is 246 bytes, and plays nothing otherwise |
| `Snapshot.ExportThenImport` | mt32emu_au/muntAU/muntAU/MT32EmuAU.cpp:444-492 | the same round trip for any table with distinct keys |
| `Snapshot.ImportSaved` | mt32emu_au/muntAU/muntAU/MT32EmuAU.cpp:479-492 | importing slots whose keys hold their dumps plays exactly those dumps in order when dumps are 256 bytes, and plays nothing otherwise |

## Left out

- CoreMIDI client, port and endpoint setup and teardown (`CoreMidiPortSetup`), and
  `MIDIPacketNext`. These are I/O. A packet list is a sequence of byte sequences,
  and the packet timestamp is never read.
- Sending the reply packet (`MIDIPacketListInit`, `MIDIPacketListAdd`,
  `MIDIReceived`). This is I/O. `CoreMidiTimbreTX` stops at the packet's bytes.
- The engine's own behaviour. `playMsg`, `playSysex` and the timbre reply request
  are recorded as `Event`s. `sizeof(TimbreParam)`, `MT32EMU_MEMADDR`, engine memory
  and `calcSysexChecksum` are fields of `Engine` and are not interpreted.
- `Initialize`, ROM loading, `Render`, the sample-format conversion callback, the
  parameter and property stubs, and the multi-engine plugin variant. These are the
  audio and host-integration side, not the MIDI glue.
- `MusicDeviceBase::SaveState` and `MusicDeviceBase::RestoreState`. These are host
  framework code. Saving receives their result as a `Saved` value, and restoring
  receives the dictionary. The dictionary holds only data values, so the cast of
  each value to `CFDataRef` is taken as given.
- Concurrency between the MIDI callback and the audio thread. The model is
  sequential.
- Debug `fprintf` output, which is commented out in the source.
- `Reassembler.Step`: its contract states only the shape of the statics. What one
  packet does is stated by `ReceivePacket`, `StepConsistent`, `AbortIff`,
  `IgnoredPacketIff` and the other `ReassemblerLemmas`.
- `Reassembler.Intake`: its contract states only the shape of the statics. Its
  behaviour is stated by the lemmas that cite it.
- `Reassembler.Pack`: `data[3] << 24` shifts a promoted `int`, which for
  a byte of 0x80 or more is formally signed overflow in C. The model takes the
  intended unsigned result.
- `Snapshot.ImportSlots`: its contract bounds the number, size and origin of the
  blobs only. Order and completeness over any dictionary are stated by
  `ImportSlotsOne` and `ImportSlotsAppend`.
