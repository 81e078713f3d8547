/**
 Bytes and byte sequences as the MIDI glue of the MT-32 Audio Unit sees them:
 the `Byte` of CoreMIDI packets, the sysex framing bytes and a few sequence helpers.
 */
module MidiBytes {

  /** An unsigned 8-bit value (CoreMIDI's `Byte`). */
  type byte = x: int | 0 <= x < 0x100

  /** An optional value. */
  datatype Option<T> = None | Some(value: T)

  /** Start and end of a MIDI System Exclusive message. */
  const SysexStart: byte := 0xF0
  const SysexEnd: byte := 0xF7

  /** The final byte of a non-empty sequence. */
  function Last(s: seq<byte>): byte
    requires |s| > 0
  {
    s[|s| - 1]
  }

  /** `n` zero bytes, the content of a buffer after `memset(buf, 0, n)`. */
  function Zeros(n: nat): (z: seq<byte>)
    ensures |z| == n
    ensures forall i :: 0 <= i < n ==> z[i] == 0
  {
    seq(n, _ => 0)
  }

  /** The bytes of a list of packets, one after the other. */
  function Concat(ps: seq<seq<byte>>): seq<byte>
  {
    if ps == [] then [] else ps[0] + Concat(ps[1..])
  }

  /** `memcpy(buf + at, src, |src|)`: the bytes of `src` replace `buf[at .. at + |src|)`,
      every other byte of `buf` is kept. */
  function Overwrite(buf: seq<byte>, at: nat, src: seq<byte>): (r: seq<byte>)
    requires at + |src| <= |buf|
    ensures |r| == |buf|
    ensures forall i :: 0 <= i < |buf| ==> r[i] == if at <= i < at + |src| then src[i - at] else buf[i]
  {
    buf[..at] + src + buf[at + |src|..]
  }
}
