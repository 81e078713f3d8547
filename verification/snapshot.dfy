/**
 The Audio Unit's saved state for the five "temporary" timbres. `SaveState`
 stores the timbre dump of each of the five part timbres under a fixed key of
 the host's property list; `RestoreState` looks the keys up in a fixed order
 and `RestoreStateAsSysex` hands each stored blob straight to the engine's
 sysex intake, provided it is exactly 256 bytes long.

 The property list is a map from key to bytes; the host's own part of saving
 and restoring (`MusicDeviceBase`) is outside this model and appears only as
 the dictionary and status it hands over.
 */
module Snapshot {
  import opened MidiBytes
  import opened TimbreDump

  /** The host's property-list dictionary, reduced to its CFData entries. */
  type Container = map<string, seq<byte>>

  /** One row of the `lookup` table: a dictionary key and a timbre address. */
  datatype Slot = Slot(key: string, addrH: byte, addrL: byte)

  /** The five part timbres, in table (and restore) order. */
  const Slots: seq<Slot> := [
    Slot("timbre1.syx", 0x00, 0x00),
    Slot("timbre2.syx", 0x01, 0x76),
    Slot("timbre3.syx", 0x03, 0x6C),
    Slot("timbre4.syx", 0x05, 0x62),
    Slot("timbre5.syx", 0x07, 0x58)
  ]

  /** The only blob size `RestoreStateAsSysex` accepts. */
  const RestoreSize: nat := 256

  predicate DistinctKeys(slots: seq<Slot>) {
    forall i, j :: 0 <= i < j < |slots| ==> slots[i].key != slots[j].key
  }

  function Keys(slots: seq<Slot>): set<string>
  {
    set s | s in slots :: s.key
  }

  /** The result of saving: the dictionary, or the host's failure status. */
  datatype Saved = Saved(dict: Container) | SaveFailed(status: int)

  /** The export loop: each slot's dump stored under its key, one after another. */
  function ExportSlots(e: Engine, dict: Container, slots: seq<Slot>): (r: Container)
    requires e.timbreSize + 13 <= DumpBufferSize
    requires DistinctKeys(slots)
    ensures r.Keys == dict.Keys + Keys(slots)
    ensures forall k :: k in dict && k !in Keys(slots) ==> r[k] == dict[k]
    ensures forall i :: 0 <= i < |slots| ==> r[slots[i].key] == Dump(e, slots[i].addrH, slots[i].addrL)
    decreases |slots|
  {
    if slots == [] then dict
    else
      var s := slots[0];
      var rest := ExportSlots(e, dict[s.key := Dump(e, s.addrH, s.addrL)], slots[1..]);
      ExportStep(e, dict, slots, rest);
      rest
  }

  lemma ExportStep(e: Engine, dict: Container, slots: seq<Slot>, rest: Container)
    requires e.timbreSize + 13 <= DumpBufferSize
    requires DistinctKeys(slots) && slots != []
    requires var s := slots[0]; var d := dict[s.key := Dump(e, s.addrH, s.addrL)];
      && rest.Keys == d.Keys + Keys(slots[1..])
      && (forall k :: k in d && k !in Keys(slots[1..]) ==> rest[k] == d[k])
      && (forall i :: 0 <= i < |slots| - 1 ==> rest[slots[1..][i].key] == Dump(e, slots[1..][i].addrH, slots[1..][i].addrL))
    ensures rest.Keys == dict.Keys + Keys(slots)
    ensures forall k :: k in dict && k !in Keys(slots) ==> rest[k] == dict[k]
    ensures forall i :: 0 <= i < |slots| ==> rest[slots[i].key] == Dump(e, slots[i].addrH, slots[i].addrL)
  {
    var s := slots[0];
    var t := slots[1..];
    KeysCons(slots);
    forall i | 0 <= i < |slots|
      ensures rest[slots[i].key] == Dump(e, slots[i].addrH, slots[i].addrL)
    {
      if i > 0 {
        assert slots[i] == t[i - 1];
      }
    }
  }

  /** The keys of a table are its head's key and, apart from it, its tail's keys. */
  lemma KeysCons(slots: seq<Slot>)
    requires DistinctKeys(slots) && slots != []
    ensures Keys(slots) == {slots[0].key} + Keys(slots[1..])
    ensures slots[0].key !in Keys(slots[1..])
  {
    var s := slots[0];
    var t := slots[1..];
    assert slots == [s] + t;
    forall x | x in t ensures x.key != s.key {
      var j :| 0 <= j < |t| && t[j] == x;
      assert slots[j + 1] == x;
    }
  }

  /** `SaveState`: on top of what the host saved, the five timbre dumps under their
      keys; a failed host save is passed through untouched. */
  function SaveState(e: Engine, base: Saved): (r: Saved)
    requires e.timbreSize + 13 <= DumpBufferSize
    ensures base.SaveFailed? ==> r == base
    ensures base.Saved? ==> r.Saved? && r.dict.Keys == base.dict.Keys + Keys(Slots)
    ensures base.Saved? ==> forall k :: k in base.dict && k !in Keys(Slots) ==> r.dict[k] == base.dict[k]
    ensures base.Saved? ==> forall i :: 0 <= i < |Slots| ==>
      r.dict[Slots[i].key] == Dump(e, Slots[i].addrH, Slots[i].addrL)
  {
    match base
    case SaveFailed(_) => base
    case Saved(dict) => Saved(ExportSlots(e, dict, Slots))
  }

  /** `(int) CFDataGetLength(data)`: the 64-bit `CFIndex` narrowed to a 32-bit
      `int`, which keeps the low 32 bits as a two's-complement value. */
  function NarrowToInt(n: nat): (r: int)
    ensures -0x8000_0000 <= r < 0x8000_0000
    ensures (n - r) % 0x1_0000_0000 == 0
    ensures n < 0x8000_0000 ==> r == n
  {
    var w := n % 0x1_0000_0000;
    if w >= 0x8000_0000 then w - 0x1_0000_0000 else w
  }

  /** `RestoreStateAsSysex`: the blobs handed to `playSysex`, at most one. Nothing
      is played for a missing blob or one whose length, narrowed to an `int`, is
      not 256; otherwise its first 256 bytes are played. */
  function RestoreStateAsSysex(data: Option<seq<byte>>): (played: seq<seq<byte>>)
    ensures |played| <= 1
    ensures played != [] <==> data.Some? && |data.value| % 0x1_0000_0000 == RestoreSize
    ensures played != [] ==> played[0] == data.value[..RestoreSize]
  {
    match data
    case None => []
    case Some(bytes) =>
      var numBytes := NarrowToInt(|bytes|);
      NarrowedIs256(|bytes|);
      if numBytes != RestoreSize as int then [] else [bytes[..numBytes]]
  }

  /** The narrowed length is 256 exactly when the length is 256 modulo 2^32. */
  lemma NarrowedIs256(n: nat)
    ensures NarrowToInt(n) == 256 <==> n % 0x1_0000_0000 == 256
  {
  }

  /** For a blob shorter than 2^31 bytes the length test is exact: the blob is
      played whole exactly when it is 256 bytes long. */
  lemma RestoreOrdinaryBlob(bytes: seq<byte>)
    requires |bytes| < 0x8000_0000
    ensures RestoreStateAsSysex(Some(bytes)) == if |bytes| == RestoreSize then [bytes] else []
  {
    if |bytes| == RestoreSize {
      assert bytes[..RestoreSize] == bytes;
    }
  }

  /** A blob of 2^32 + 256 bytes passes the narrowed length test, and only its
      first 256 bytes are played. */
  lemma RestoreOversizedBlob(bytes: seq<byte>)
    requires |bytes| == 0x1_0000_0000 + RestoreSize
    ensures RestoreStateAsSysex(Some(bytes)) == [bytes[..RestoreSize]]
  {
  }

  /** `CFDictionaryGetValueIfPresent`. */
  function Lookup(dict: Container, key: string): (r: Option<seq<byte>>)
    ensures r.Some? <==> key in dict
    ensures r.Some? ==> r.value == dict[key]
  {
    if key in dict then Some(dict[key]) else None
  }

  /** The import sequence over a list of slots, in list order: each key that is
      present is handed to `RestoreStateAsSysex`. */
  function ImportSlots(dict: Container, slots: seq<Slot>): (played: seq<seq<byte>>)
    ensures |played| <= |slots|
    ensures forall j :: 0 <= j < |played| ==> |played[j]| == RestoreSize
    ensures forall b :: b in played ==> exists s ::
      s in slots && s.key in dict && |dict[s.key]| >= RestoreSize && dict[s.key][..RestoreSize] == b
    decreases |slots|
  {
    if slots == [] then []
    else
      var data := Lookup(dict, slots[0].key);
      var here := if data.Some? then RestoreStateAsSysex(data) else [];
      var rest := ImportSlots(dict, slots[1..]);
      assert forall s :: s in slots[1..] ==> s in slots;
      assert forall b :: b in here ==>
        && slots[0] in slots && slots[0].key in dict
        && |dict[slots[0].key]| >= RestoreSize && dict[slots[0].key][..RestoreSize] == b;
      here + rest
  }

  /** One slot on its own: its key's blob goes through the length test. */
  lemma ImportSlotsOne(dict: Container, s: Slot)
    ensures ImportSlots(dict, [s]) == RestoreStateAsSysex(Lookup(dict, s.key))
  {
  }

  /** Importing a list of slots imports its parts one after the other. */
  lemma {:induction false} ImportSlotsAppend(dict: Container, a: seq<Slot>, b: seq<Slot>)
    ensures ImportSlots(dict, a + b) == ImportSlots(dict, a) + ImportSlots(dict, b)
    decreases |a|
  {
    if a == [] {
      assert a + b == b;
    } else {
      assert (a + b)[0] == a[0];
      assert (a + b)[1..] == a[1..] + b;
      ImportSlotsAppend(dict, a[1..], b);
    }
  }

  /** `RestoreState`: the blobs played into the engine, one lookup per table key
      in the fixed order timbre1 .. timbre5. */
  function RestoreState(dict: Container): (played: seq<seq<byte>>)
    ensures |played| <= |Slots|
    ensures forall j :: 0 <= j < |played| ==> |played[j]| == RestoreSize
    ensures played ==
      RestoreStateAsSysex(Lookup(dict, Slots[0].key)) + RestoreStateAsSysex(Lookup(dict, Slots[1].key))
      + RestoreStateAsSysex(Lookup(dict, Slots[2].key)) + RestoreStateAsSysex(Lookup(dict, Slots[3].key))
      + RestoreStateAsSysex(Lookup(dict, Slots[4].key))
  {
    ImportFive(dict, Slots);
    ImportSlots(dict, Slots)
  }

  /** A five-slot table, imported slot by slot. */
  lemma ImportFive(dict: Container, slots: seq<Slot>)
    requires |slots| == 5
    ensures ImportSlots(dict, slots) ==
      RestoreStateAsSysex(Lookup(dict, slots[0].key)) + RestoreStateAsSysex(Lookup(dict, slots[1].key))
      + RestoreStateAsSysex(Lookup(dict, slots[2].key)) + RestoreStateAsSysex(Lookup(dict, slots[3].key))
      + RestoreStateAsSysex(Lookup(dict, slots[4].key))
  {
    assert slots == slots[..4] + [slots[4]];
    ImportSlotsAppend(dict, slots[..4], [slots[4]]);
    ImportFour(dict, slots[..4]);
    ImportSlotsOne(dict, slots[4]);
  }

  lemma ImportFour(dict: Container, slots: seq<Slot>)
    requires |slots| == 4
    ensures ImportSlots(dict, slots) ==
      RestoreStateAsSysex(Lookup(dict, slots[0].key)) + RestoreStateAsSysex(Lookup(dict, slots[1].key))
      + RestoreStateAsSysex(Lookup(dict, slots[2].key)) + RestoreStateAsSysex(Lookup(dict, slots[3].key))
  {
    var s0, s1, s2, s3 := slots[0], slots[1], slots[2], slots[3];
    assert slots == [s0] + ([s1] + ([s2] + [s3]));
    ImportSlotsAppend(dict, [s2], [s3]);
    ImportSlotsAppend(dict, [s1], [s2] + [s3]);
    ImportSlotsAppend(dict, [s0], [s1] + ([s2] + [s3]));
    ImportSlotsOne(dict, s0);
    ImportSlotsOne(dict, s1);
    ImportSlotsOne(dict, s2);
    ImportSlotsOne(dict, s3);
  }

  // ---------------------------------------------------------------------------
  // Properties
  // ---------------------------------------------------------------------------

  /** The five addresses lie at steps of 246 bytes in the engine's 7-bit sysex
      address space (addrH counts units of 128): consecutive timbre records
      exactly when a record is 246 bytes long. */
  lemma SlotsAreConsecutiveRecords(e: Engine)
    ensures forall i :: 0 <= i < |Slots| ==> Slots[i].addrL < 0x80
    ensures (forall i :: 0 <= i < |Slots| ==> Slots[i].addrH * 0x80 + Slots[i].addrL == i * e.timbreSize)
        <==> e.timbreSize == 246
  {
    if forall i :: 0 <= i < |Slots| ==> Slots[i].addrH * 0x80 + Slots[i].addrL == i * e.timbreSize {
      assert Slots[1].addrH * 0x80 + Slots[1].addrL == 1 * e.timbreSize;
    }
  }

  /** A saved slot is re-accepted on restore exactly when a dump is 256 bytes,
      that is when a timbre record is 246 bytes. */
  lemma SavedSlotRestoredIff(e: Engine, base: Container, i: nat)
    requires e.timbreSize + 13 <= DumpBufferSize
    requires i < |Slots|
    ensures var saved := SaveState(e, Saved(base)).dict;
      RestoreStateAsSysex(Lookup(saved, Slots[i].key)) != [] <==> e.timbreSize == 246
  {
    var saved := SaveState(e, Saved(base)).dict;
    assert saved[Slots[i].key] == Dump(e, Slots[i].addrH, Slots[i].addrL);
    RestoreOrdinaryBlob(saved[Slots[i].key]);
  }

  lemma SlotsDistinct()
    ensures DistinctKeys(Slots)
  {
  }

  /** The dumps of a list of slots, in list order. */
  function Dumps(e: Engine, slots: seq<Slot>): (r: seq<seq<byte>>)
    requires e.timbreSize + 13 <= DumpBufferSize
    ensures |r| == |slots|
    ensures forall i :: 0 <= i < |slots| ==> r[i] == Dump(e, slots[i].addrH, slots[i].addrL)
  {
    if slots == [] then [] else [Dump(e, slots[0].addrH, slots[0].addrL)] + Dumps(e, slots[1..])
  }

  /** Restoring a saved state plays the five dumps in table order when a timbre
      record is 246 bytes, and nothing at all otherwise. */
  lemma SnapshotRoundTrip(e: Engine, base: Container)
    requires e.timbreSize + 13 <= DumpBufferSize
    ensures var played := RestoreState(SaveState(e, Saved(base)).dict);
      && (e.timbreSize == 246 ==> played == Dumps(e, Slots))
      && (e.timbreSize != 246 ==> played == [])
  {
    SlotsDistinct();
    ExportThenImport(e, base, Slots);
  }

  lemma ExportThenImport(e: Engine, base: Container, slots: seq<Slot>)
    requires e.timbreSize + 13 <= DumpBufferSize
    requires DistinctKeys(slots)
    ensures var played := ImportSlots(ExportSlots(e, base, slots), slots);
      && (e.timbreSize == 246 ==> played == Dumps(e, slots))
      && (e.timbreSize != 246 ==> played == [])
  {
    var saved := ExportSlots(e, base, slots);
    ImportSaved(e, saved, slots);
  }

  lemma {:induction false} ImportSaved(e: Engine, saved: Container, slots: seq<Slot>)
    requires e.timbreSize + 13 <= DumpBufferSize
    requires forall i :: 0 <= i < |slots| ==> slots[i].key in saved && saved[slots[i].key] == Dump(e, slots[i].addrH, slots[i].addrL)
    ensures e.timbreSize == 246 ==> ImportSlots(saved, slots) == Dumps(e, slots)
    ensures e.timbreSize != 246 ==> ImportSlots(saved, slots) == []
    decreases |slots|
  {
    if slots != [] {
      var s := slots[0];
      var t := slots[1..];
      assert forall i :: 0 <= i < |t| ==> t[i] == slots[i + 1];
      ImportSaved(e, saved, t);
      var blob := Dump(e, s.addrH, s.addrL);
      assert Lookup(saved, s.key) == Some(blob);
      var here := RestoreStateAsSysex(Some(blob));
      RestoreOrdinaryBlob(blob);
      assert ImportSlots(saved, slots) == here + ImportSlots(saved, t);
      assert Dumps(e, slots) == [blob] + Dumps(e, t);
      assert here == if e.timbreSize == 246 then [blob] else [];
    }
  }
}
