/** Writing AWDL action frames, from the 802.11 body on. */
module FrameTx {
  import opened Machine
  import opened Wrappers
  import opened Wire
  import opened Sync
  import opened Schedule
  import opened FrameFormat
  import Election

  // ---- Layout ----

  /** What the writers read of a node's state; `enc` is the number of the channel encoding. */
  datatype Sender = Sender(
    self: Addr, name: Name, version: U8, devclass: U8, psfInterval: U16, sui: U16,
    enc: U8, sequence: Sequence, current: Chan, master: Chan, election: Election.State, sync: Clock)

  function ChanBytes(c: Chan, enc: U8): (b: Bytes)
    ensures |b| <= 2
  {
    match EncodingOf(enc)
    case Simple => [c.b0]
    case Legacy => [c.b0, c.b1]
    case OpClass => [c.b0, c.b1]
    case Unknown => []
  }

  function SequenceBytes(s: seq<Chan>, enc: U8): (b: Bytes)
    ensures |b| <= 2 * |s|
    decreases |s|
  {
    if s == [] then [] else SequenceBytes(s[..|s| - 1], enc) + ChanBytes(s[|s| - 1], enc)
  }

  /** The sequence runs through all 16 channels in steps of 4 windows, and repeats the current channel to fill. */
  function Chanseq(s: Sender): (b: Bytes)
    ensures |b| <= 38
  {
    [15, s.enc, 0, 3, 0xff, 0xff] + SequenceBytes(s.sequence, s.enc)
  }

  /** What is left of the common part of the window, in time units. */
  function Remaining(s: Sender, now: U64): U16 {
    var passed := 16 * 4 - s.sync.NextAwTu(now);
    if 16 < passed then 0 else Wrap16(16 - passed)
  }

  function SyncTiming(s: Sender, now: U64): (b: Bytes)
    ensures |b| == 17
  {
    [ChanNum(s.current, EncodingOf(s.enc))] + Le(s.sync.NextAwTu(now), 2)
    + [ChanNum(s.master, EncodingOf(s.enc)), 0] + Le(16, 2) + Le(s.psfInterval, 2) + Le(0x1800, 2)
    + Le(16, 2) + Le(16, 2)
    + Le(Remaining(s, now), 2)
  }

  function SyncParams(s: Sender, now: U64): (b: Bytes)
    ensures |b| <= 73
  {
    SyncTiming(s, now) + [3, 3, 3, 3] + Be(s.election.masterAddr, 6) + [4, 0]
    + Le(s.sync.CurrentAw(now), 2) + Le(s.sync.CurrentAw(now), 2) + Chanseq(s) + [0, 0]
  }

  function ChanseqPadded(s: Sender): (b: Bytes)
    ensures |b| <= 41
  {
    Chanseq(s) + [0, 0, 0]
  }

  /** Version 1 has one byte for the height. */
  function ElectionParams(s: Sender): (b: Bytes)
    ensures |b| == 21
  {
    [0] + Le(0, 2) + [s.election.height % 256, 0] + Be(s.election.masterAddr, 6)
    + Le(s.election.masterMetric, 4) + Le(s.election.selfMetric, 4) + [0, 0]
  }

  function ElectionParamsV2(s: Sender): (b: Bytes)
    ensures |b| == 40
  {
    Be(s.election.masterAddr, 6) + Be(s.election.syncAddr, 6) + Le(s.election.masterCounter, 4)
    + Le(s.election.height, 4) + Le(s.election.masterMetric, 4) + Le(s.election.selfMetric, 4)
    + Le(0, 4) + Le(0, 4) + Le(s.election.selfCounter, 4)
  }

  function ServiceParams(s: Sender): (b: Bytes)
    ensures |b| == 9
  {
    [0, 0, 0] + Le(s.sui, 2) + Le(0, 4)
  }

  function HtCapabilities(): (b: Bytes)
    ensures |b| == 8
  {
    Le(0, 2) + Le(0x11ce, 2) + [0x1b, 0xff] + Le(0, 2)
  }

  function Arpa(s: Sender): (b: Bytes)
    ensures |b| == |s.name| + 4
  {
    [3, |s.name|] + s.name + Be(0xc00c, 2)
  }

  /** The social channel the master channel stands for. */
  function SocialBit(s: Sender): U16 {
    var n := ChanNum(s.master, OpClass);
    if n == 6 then 1 else if n == 44 then 2 else 4
  }

  function DataPathState(s: Sender): (b: Bytes)
    ensures |b| == 15
  {
    Le(0x8f24, 2) + [0x58, 0x30, 0] + Le(SocialBit(s), 2) + Be(s.self, 6) + Le(0, 2)
  }

  /** The elements that every action frame starts with. */
  function Leading(s: Sender, now: U64): seq<Tlv> {
    [ Tlv(SYNC_PARAMS, SyncParams(s, now)), Tlv(ELECTION, ElectionParams(s)), Tlv(CHAN_SEQ, ChanseqPadded(s)),
      Tlv(ELECTION_V2, ElectionParamsV2(s)), Tlv(SERVICE_PARAMS, ServiceParams(s)) ]
  }

  /** The elements that follow; only a MIF has the capabilities and the name. */
  function Trailing(s: Sender, mif: bool): seq<Tlv> {
    (if mif then [Tlv(HT_CAPABILITIES, HtCapabilities()), Tlv(ARPA, Arpa(s))] else [])
    + [Tlv(DATA_PATH_STATE, DataPathState(s)), Tlv(VERSION, [s.version, s.devclass])]
  }

  function Elements(s: Sender, now: U64, mif: bool): seq<Tlv> { Leading(s, now) + Trailing(s, mif) }

  /** The fixed header of vendor-specific action frames: category, OUI, type 8, version 1.0 and subtype. */
  function ActionHeader(mif: bool, steady: U32): (b: Bytes)
    ensures |b| == 16
  {
    [127, 0x00, 0x17, 0xf2, 8, 0x10, if mif then 3 else 0, 0] + Le(steady, 4) + Le(steady, 4)
  }

  function ActionFrame(s: Sender, steady: U32, now: U64, mif: bool): Bytes {
    ActionHeader(mif, steady) + Serialize(Elements(s, now, mif))
  }

  // ---- The writers ----

  /** Writing two bytes after position `i` leaves what is before it and what follows them. */
  lemma LengthSet(a: Bytes, b: Bytes, i: nat, n: nat, two: Bytes)
    requires 3 <= n && i + n <= |a| && |two| == 2 && |a| == |b|
    requires b[i + 1] == two[0] && b[i + 2] == two[1]
    requires forall j | 0 <= j < |a| && j != i + 1 && j != i + 2 :: a[j] == b[j]
    ensures b[..i] == a[..i] && b[i + 3..i + n] == a[i + 3..i + n] && b[i..i + 3] == [a[i..i + 3][0]] + two
  {
  }

  /** A frame under construction: complete up to `ptr`, where the element being written starts. */
  class Frame {
    const data: array<U8>
    var ptr: nat
    var len: nat

    ghost predicate Valid()
      reads this
    {
      ptr + len <= data.Length
    }

    ghost function Room(): nat
      requires Valid()
      reads this
    {
      data.Length - ptr - len
    }

    ghost function Before(): Bytes
      requires Valid()
      reads this, data
    {
      data[..ptr]
    }

    /** The type and length of the element being written. */
    ghost function Header(): Bytes
      requires Valid()
      reads this, data
    {
      if len < 3 then [] else data[ptr..ptr + 3]
    }

    ghost function Value(): Bytes
      requires Valid()
      reads this, data
    {
      if len < 3 then data[ptr..ptr + len] else data[ptr + 3..ptr + len]
    }

    constructor (size: nat)
      ensures Valid() && fresh(data) && Before() == [] && len == 0 && Room() == size
    {
      data := new U8[size];
      ptr, len := 0, 0;
    }

    method Put(bytes: Bytes)
      requires Valid() && len >= 3 && Room() >= |bytes|
      modifies this`len, data
      ensures Valid() && len >= 3 && Room() == old(Room()) - |bytes|
      ensures Before() == old(Before()) && Header() == old(Header()) && Value() == old(Value()) + bytes
    {
      forall i | 0 <= i < |bytes| {
        data[ptr + len + i] := bytes[i];
      }
      len := len + |bytes|;
    }

    /** Starts an element whose length is known, or is still to be set. */
    method Open(typ: U8, n: U16)
      requires Valid() && len == 0 && Room() >= 3
      modifies this`len, data
      ensures Valid() && len == 3 && Room() == old(Room()) - 3
      ensures Before() == old(Before()) && Header() == [typ] + Le(n, 2) && Value() == []
    {
      var bytes := [typ] + Le(n, 2);
      data[ptr], data[ptr + 1], data[ptr + 2] := bytes[0], bytes[1], bytes[2];
      len := 3;
      assert data[ptr..ptr + 3] == bytes;
    }

    /** Sets the length of the element from what has been written. */
    method SetLength()
      requires Valid() && len >= 3 && |Value()| < 0x1_0000
      modifies data
      ensures Before() == old(Before()) && Value() == old(Value())
      ensures Header() == [old(Header())[0]] + Le(|Value()|, 2)
    {
      hide Le;
      var bytes := Le(len - 3, 2);
      ghost var all := data[..];
      data[ptr + 1], data[ptr + 2] := bytes[0], bytes[1];
      LengthSet(all, data[..], ptr, len, bytes);
    }

    /** Moves past the finished element. */
    method Close()
      requires Valid() && len >= 3
      modifies this`ptr, this`len
      ensures Valid() && len == 0 && Room() == old(Room())
      ensures Before() == old(Before()) + (old(Header()) + old(Value()))
    {
      ghost var element := Header() + Value();
      assert data[..ptr + len] == Before() + element;
      ptr := ptr + len;
      len := 0;
    }

    /** `awdl_init_chanseq`. */
    method PutChanseq(s: Sender)
      requires Valid() && len >= 3 && Room() >= 38
      modifies this`len, data
      ensures Valid() && len >= 3 && Room() >= old(Room()) - 38
      ensures Before() == old(Before()) && Header() == old(Header()) && Value() == old(Value()) + Chanseq(s)
    {
      hide Frame.Before, Frame.Header, Frame.Value, Le, ChanBytes;
      ghost var v := Value();
      var head := [15, s.enc, 0, 3, 0xff, 0xff];
      Put(head);
      var i := 0;
      while i < 16
        invariant 0 <= i <= 16 && Valid() && len >= 3 && Room() >= old(Room()) - 6 - 2 * i
        invariant Before() == old(Before()) && Header() == old(Header())
        invariant Value() == v + head + SequenceBytes(s.sequence[..i], s.enc)
      {
        var c := ChanBytes(s.sequence[i], s.enc);
        ghost var done := s.sequence[..i + 1];
        assert done[..i] == s.sequence[..i];
        Put(c);
        i := i + 1;
      }
      assert s.sequence[..16] == s.sequence;
      assert v + head + SequenceBytes(s.sequence, s.enc) == v + (head + SequenceBytes(s.sequence, s.enc));
    }

    method PutSyncTiming(s: Sender, now: U64)
      requires Valid() && len == 3 && Value() == [] && Room() >= 17
      modifies this`len, data
      ensures Valid() && len >= 3 && Room() == old(Room()) - 17
      ensures Before() == old(Before()) && Header() == old(Header()) && Value() == SyncTiming(s, now)
    {
      hide Frame.Before, Frame.Header, Frame.Value, Le, ChanNum, EncodingOf, Remaining, Clock.NextAwTu;
      var first := [ChanNum(s.current, EncodingOf(s.enc))];
      Put(first);
      assert Value() == first;
      Put(Le(s.sync.NextAwTu(now), 2));
      Put([ChanNum(s.master, EncodingOf(s.enc)), 0]);
      Put(Le(16, 2));
      Put(Le(s.psfInterval, 2));
      Put(Le(0x1800, 2));
      Put(Le(16, 2));
      Put(Le(16, 2));
      Put(Le(Remaining(s, now), 2));
    }

    method InitSyncParams(s: Sender, now: U64)
      requires Valid() && len == 0 && Room() >= 76
      modifies this, data
      ensures Valid() && len == 0 && Room() >= old(Room()) - 76
      ensures Before() == old(Before()) + Encode(Tlv(SYNC_PARAMS, SyncParams(s, now)))
    {
      hide Frame.Before, Frame.Header, Frame.Value, Le, Be, SyncTiming, Chanseq, Clock.CurrentAw;
      Open(SYNC_PARAMS, 0);
      PutSyncTiming(s, now);
      Put([3, 3, 3, 3]);
      Put(Be(s.election.masterAddr, 6));
      Put([4, 0]);
      Put(Le(s.sync.CurrentAw(now), 2));
      Put(Le(s.sync.CurrentAw(now), 2));
      PutChanseq(s);
      Put([0, 0]);
      SetLength();
      Close();
    }

    method InitChanseq(s: Sender)
      requires Valid() && len == 0 && Room() >= 44
      modifies this, data
      ensures Valid() && len == 0 && Room() >= old(Room()) - 44
      ensures Before() == old(Before()) + Encode(Tlv(CHAN_SEQ, ChanseqPadded(s)))
    {
      hide Frame.Before, Frame.Header, Frame.Value, Le, Chanseq;
      Open(CHAN_SEQ, 0);
      PutChanseq(s);
      Put([0, 0, 0]);
      assert Value() == ChanseqPadded(s);
      SetLength();
      Close();
    }

    method InitElectionParams(s: Sender)
      requires Valid() && len == 0 && Room() >= 24
      modifies this, data
      ensures Valid() && len == 0 && Room() == old(Room()) - 24
      ensures Before() == old(Before()) + Encode(Tlv(ELECTION, ElectionParams(s)))
    {
      hide Frame.Before, Frame.Header, Frame.Value, Le, Be;
      Open(ELECTION, 21);
      Put([0]);
      assert Value() == [0];
      Put(Le(0, 2));
      Put([s.election.height % 256, 0]);
      Put(Be(s.election.masterAddr, 6));
      Put(Le(s.election.masterMetric, 4));
      Put(Le(s.election.selfMetric, 4));
      Put([0, 0]);
      Close();
    }

    method InitElectionParamsV2(s: Sender)
      requires Valid() && len == 0 && Room() >= 43
      modifies this, data
      ensures Valid() && len == 0 && Room() == old(Room()) - 43
      ensures Before() == old(Before()) + Encode(Tlv(ELECTION_V2, ElectionParamsV2(s)))
    {
      hide Frame.Before, Frame.Header, Frame.Value, Le, Be;
      Open(ELECTION_V2, 40);
      Put(Be(s.election.masterAddr, 6));
      assert Value() == Be(s.election.masterAddr, 6);
      Put(Be(s.election.syncAddr, 6));
      Put(Le(s.election.masterCounter, 4));
      Put(Le(s.election.height, 4));
      Put(Le(s.election.masterMetric, 4));
      Put(Le(s.election.selfMetric, 4));
      Put(Le(0, 4));
      Put(Le(0, 4));
      Put(Le(s.election.selfCounter, 4));
      Close();
    }

    method InitServiceParams(s: Sender)
      requires Valid() && len == 0 && Room() >= 12
      modifies this, data
      ensures Valid() && len == 0 && Room() == old(Room()) - 12
      ensures Before() == old(Before()) + Encode(Tlv(SERVICE_PARAMS, ServiceParams(s)))
    {
      hide Frame.Before, Frame.Header, Frame.Value, Le;
      Open(SERVICE_PARAMS, 9);
      Put([0, 0, 0]);
      Put(Le(s.sui, 2));
      Put(Le(0, 4));
      assert Value() == ServiceParams(s);
      Close();
    }

    method InitHtCapabilities()
      requires Valid() && len == 0 && Room() >= 11
      modifies this, data
      ensures Valid() && len == 0 && Room() == old(Room()) - 11
      ensures Before() == old(Before()) + Encode(Tlv(HT_CAPABILITIES, HtCapabilities()))
    {
      hide Frame.Before, Frame.Header, Frame.Value, Le;
      Open(HT_CAPABILITIES, 8);
      Put(Le(0, 2));
      Put(Le(0x11ce, 2));
      Put([0x1b, 0xff]);
      Put(Le(0, 2));
      assert Value() == HtCapabilities();
      Close();
    }

    method InitArpa(s: Sender)
      requires Valid() && len == 0 && Room() >= 71
      modifies this, data
      ensures Valid() && len == 0 && Room() >= old(Room()) - 71
      ensures Before() == old(Before()) + Encode(Tlv(ARPA, Arpa(s)))
    {
      hide Frame.Before, Frame.Header, Frame.Value, Le, Be;
      Open(ARPA, |s.name| + 4);
      Put([3, |s.name|]);
      Put(s.name);
      Put(Be(0xc00c, 2));
      assert Value() == Arpa(s);
      Close();
    }

    method InitDataPathState(s: Sender)
      requires Valid() && len == 0 && Room() >= 18
      modifies this, data
      ensures Valid() && len == 0 && Room() == old(Room()) - 18
      ensures Before() == old(Before()) + Encode(Tlv(DATA_PATH_STATE, DataPathState(s)))
    {
      hide Frame.Before, Frame.Header, Frame.Value, Le, Be, SocialBit;
      Open(DATA_PATH_STATE, 15);
      Put(Le(0x8f24, 2));
      Put([0x58, 0x30, 0]);
      Put(Le(SocialBit(s), 2));
      Put(Be(s.self, 6));
      Put(Le(0, 2));
      assert Value() == DataPathState(s);
      Close();
    }

    method InitVersion(s: Sender)
      requires Valid() && len == 0 && Room() >= 5
      modifies this, data
      ensures Valid() && len == 0 && Room() == old(Room()) - 5
      ensures Before() == old(Before()) + Encode(Tlv(VERSION, [s.version, s.devclass]))
    {
      hide Frame.Before, Frame.Header, Frame.Value, Le;
      Open(VERSION, 2);
      Put([s.version]);
      Put([s.devclass]);
      assert Value() == [s.version, s.devclass];
      Close();
    }

    method InitAction(mif: bool, steady: U32)
      requires Valid() && len == 0 && Room() >= 16
      modifies this`ptr, data
      ensures Valid() && len == 0 && Room() >= old(Room()) - 16
      ensures Before() == old(Before()) + ActionHeader(mif, steady)
    {
      var bytes := ActionHeader(mif, steady);
      forall i | 0 <= i < 16 {
        data[ptr + i] := bytes[i];
      }
      ptr := ptr + 16;
    }

    method InitLeading(s: Sender, now: U64)
      requires Valid() && len == 0 && Room() >= 199
      modifies this, data
      ensures Valid() && len == 0 && Room() >= old(Room()) - 199
      ensures Before() == old(Before()) + Serialize(Leading(s, now))
    {
      hide Frame.Before, Frame.Header, Frame.Value, Encode, Serialize, SyncParams, ElectionParams, ChanseqPadded;
      hide ElectionParamsV2, ServiceParams, HtCapabilities, Arpa, DataPathState;
      ghost var b, ts: seq<Tlv> := Before(), [];
      NothingWritten(b);
      InitSyncParams(s, now);
      ts := Extend(b, ts, Tlv(SYNC_PARAMS, SyncParams(s, now)));
      InitElectionParams(s);
      ts := Extend(b, ts, Tlv(ELECTION, ElectionParams(s)));
      InitChanseq(s);
      ts := Extend(b, ts, Tlv(CHAN_SEQ, ChanseqPadded(s)));
      InitElectionParamsV2(s);
      ts := Extend(b, ts, Tlv(ELECTION_V2, ElectionParamsV2(s)));
      InitServiceParams(s);
      ts := Extend(b, ts, Tlv(SERVICE_PARAMS, ServiceParams(s)));
      assert ts == Leading(s, now);
    }

    method InitTrailing(s: Sender, mif: bool)
      requires Valid() && len == 0 && Room() >= 105
      modifies this, data
      ensures Valid() && len == 0
      ensures Before() == old(Before()) + Serialize(Trailing(s, mif))
    {
      hide Frame.Before, Frame.Header, Frame.Value, Encode, Serialize, SyncParams, ElectionParams, ChanseqPadded;
      hide ElectionParamsV2, ServiceParams, HtCapabilities, Arpa, DataPathState;
      ghost var b, ts: seq<Tlv> := Before(), [];
      NothingWritten(b);
      if mif {
        InitHtCapabilities();
        ts := Extend(b, ts, Tlv(HT_CAPABILITIES, HtCapabilities()));
        InitArpa(s);
        ts := Extend(b, ts, Tlv(ARPA, Arpa(s)));
      }
      InitDataPathState(s);
      ts := Extend(b, ts, Tlv(DATA_PATH_STATE, DataPathState(s)));
      InitVersion(s);
      ts := Extend(b, ts, Tlv(VERSION, [s.version, s.devclass]));
      assert ts == Trailing(s, mif);
    }

    /** `awdl_init_full_action_frame`, into a buffer with room to spare. */
    method InitFullActionFrame(s: Sender, steady: U32, now: U64, mif: bool)
      requires Valid() && len == 0 && Room() >= 320
      modifies this, data
      ensures Valid() && len == 0
      ensures Before() == old(Before()) + ActionFrame(s, steady, now, mif)
    {
      hide Frame.Before, Serialize, ActionHeader, Leading, Trailing;
      ghost var before := Before();
      InitAction(mif, steady);
      InitLeading(s, now);
      InitTrailing(s, mif);
      SerializeAppend(Leading(s, now), Trailing(s, mif));
      assert Before() ==
             before + (ActionHeader(mif, steady) + (Serialize(Leading(s, now)) + Serialize(Trailing(s, mif))));
    }
  }

  lemma NothingWritten(b: Bytes)
    ensures b == b + Serialize([])
  {
  }

  lemma Extend(b: Bytes, ts: seq<Tlv>, t: Tlv) returns (longer: seq<Tlv>)
    ensures longer == ts + [t] && b + Serialize(ts) + Encode(t) == b + Serialize(longer)
  {
    longer := ts + [t];
    SerializeMore(b, ts, t);
  }
}
