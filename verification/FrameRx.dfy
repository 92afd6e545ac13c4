/** Reading AWDL action frames: the loop over the elements, and the handlers that store into the peer's record. */
module FrameRx {
  import opened Machine
  import opened Wrappers
  import opened Wire
  import opened Sync
  import opened Schedule
  import opened FrameFormat
  import Election

  /** Both the unexpected value and the short element have the number -3 in the code. */
  datatype Rx = Ok | Ignore | IgnoreRssi | UnexpectedFormat | UnexpectedValue | TooShort {
    predicate Failed() { !Ok? && !Ignore? }
  }

  /** What the elements of its frames tell about a peer; the infrastructure address is not set at first. */
  datatype PeerInfo = PeerInfo(
    election: Election.State, sequence: Sequence, name: Bytes, country: Bytes, infra: Option<Addr>,
    version: U8, devclass: U8, supportsV2: bool, sentMif: bool)

  /** What they change in the receiver: its clock, if the peer is its sync parent. */
  datatype Station = Station(syncAddr: Addr, clock: Clock, measErr: U64, measTotal: U64)

  datatype World = World(src: Addr, peer: PeerInfo, station: Station)

  // ---- What each element means ----

  function Or<T>(o: Option<T>, otherwise: T): T { if o.Some? then o.value else otherwise }

  function Complete(enough: bool): Rx { if enough then Ok else TooShort }

  function HearSyncParams(st: Station, src: Addr, now: U64, b: Bytes): (Station, Rx) {
    if st.syncAddr != src then (st, Ignore)
    else match (Le16At(b, 1), Le16At(b, 29))
         case (Some(timeToNext), Some(counter)) =>
           var err := st.clock.ErrorTu(now, timeToNext, counter);
           (Station(st.syncAddr, st.clock.UpdateLast(now, timeToNext, counter),
                    if err > 3 || err < -3 then Wrap64(st.measErr + 1) else st.measErr, Wrap64(st.measTotal + 1)), Ok)
         case _ => (st, TooShort)
  }

  function ChanSize(e: Encoding): int {
    match e
    case Simple => 1
    case Legacy => 2
    case OpClass => 2
    case Unknown => -1
  }

  /** A channel of one or two bytes, read over whatever was there before. */
  function ChanRead(b: Bytes, offset: nat, size: nat, before: Chan): Chan
    requires 1 <= size <= 2 && offset + size <= |b|
  {
    Chan(b[offset], if size == 1 then before.b1 else b[offset + 1])
  }

  /** Where channel `i` of a list of one- or two-byte channels is. */
  function ChanOffset(i: nat, size: nat): nat { if size == 1 then 6 + i else 6 + 2 * i }

  function ChansRead(b: Bytes, size: nat, before: Sequence): (s: Sequence)
    requires 1 <= size <= 2 && 6 + 16 * size <= |b|
  {
    seq(16, i requires 0 <= i < 16 => ChanRead(b, ChanOffset(i, size), size, before[i]))
  }

  /** A sequence is taken over whole or not at all. `stack` is what the local list holds before it is filled. */
  function HearChanseq(p: PeerInfo, stack: Sequence, b: Bytes): (PeerInfo, Rx) {
    if |b| < 1 then (p, TooShort)
    else if b[0] != 15 then (p, UnexpectedValue)
    else if |b| < 3 then (p, TooShort)
    else if b[2] != 0 then (p, UnexpectedValue)
    else if |b| < 4 then (p, TooShort)
    else if b[3] != 3 then (p, UnexpectedValue)
    else if |b| < 6 then (p, TooShort)
    else if b[4..6] != [0xff, 0xff] then (p, UnexpectedValue)
    else
      var size := ChanSize(EncodingOf(b[1]));
      if size < 1 then (p, UnexpectedValue)
      else if |b| < 6 + 16 * size then (p, TooShort)
      else (p.(sequence := ChansRead(b, size, stack)), Ok)
  }

  /** Ignored once the peer is known to support version 2; otherwise every field that is there counts. */
  function HearElectionParams(p: PeerInfo, b: Bytes): (PeerInfo, Rx) {
    if p.supportsV2 then (p, Ok)
    else
      var e := p.election;
      (p.(election := e.(
            height := if |b| >= 4 then b[3] else e.height, masterAddr := Or(AddrAt(b, 5), e.masterAddr),
            masterMetric := Or(Le32At(b, 11), e.masterMetric), selfMetric := Or(Le32At(b, 15), e.selfMetric))),
       Complete(|b| >= 19))
  }

  /** Nothing counts before the height is there. */
  function HearElectionParamsV2(p: PeerInfo, b: Bytes): (PeerInfo, Rx) {
    if |b| < 20 then (p, TooShort)
    else
      var e := p.election;
      (p.(election := e.(
            height := Le32At(b, 16).value, masterAddr := AddrAt(b, 0).value, syncAddr := AddrAt(b, 6).value,
            masterCounter := Le32At(b, 12).value, masterMetric := Or(Le32At(b, 20), e.masterMetric),
            selfMetric := Or(Le32At(b, 24), e.selfMetric), selfCounter := Or(Le32At(b, 36), e.selfCounter)),
          supportsV2 := p.supportsV2 || |b| >= 40),
       Complete(|b| >= 40))
  }

  /** A C string ends at its first zero. */
  function UpToNul(b: Bytes): Bytes {
    if b == [] || b[0] == 0 then [] else [b[0]] + UpToNul(b[1..])
  }

  function HearArpa(p: PeerInfo, b: Bytes): (PeerInfo, Rx) {
    match IntStringAt(b, 1, 64)
    case None => (p, TooShort)
    case Some(name) => (p.(name := UpToNul(name)), Ok)
  }

  predicate Bit(flags: U16, mask: nat)
    requires mask > 0
  {
    (flags / mask) % 2 == 1
  }

  /** The flags say which fields follow one another. */
  function HearDataPathState(p: PeerInfo, b: Bytes): (PeerInfo, Rx) {
    match Le16At(b, 0)
    case None => (p, TooShort)
    case Some(flags) =>
      var afterCountry := if Bit(flags, 0x100) then 5 else 2;
      var infra := afterCountry + (if Bit(flags, 0x200) then 2 else 0) + (if Bit(flags, 0x1) then 8 else 0);
      var end := infra + (if Bit(flags, 0x2) then 6 else 0) + (if Bit(flags, 0x4) then 6 else 0);
      (p.(country := if Bit(flags, 0x100) then Or(BytesAt(b, 2, 3), p.country) else p.country,
          infra := if Bit(flags, 0x2) && |b| >= infra + 6 then AddrAt(b, infra) else p.infra),
       Complete(|b| >= end))
  }

  function HearVersion(p: PeerInfo, b: Bytes): (PeerInfo, Rx) {
    if |b| < 2 then (p, TooShort) else (p.(version := b[0], devclass := b[1]), Ok)
  }

  // ---- Whole frames ----

  function OnPeer(w: World, heard: (PeerInfo, Rx)): (World, Rx) { (w.(peer := heard.0), heard.1) }

  function OnStation(w: World, heard: (Station, Rx)): (World, Rx) { (w.(station := heard.0), heard.1) }

  function Hear(w: World, now: U64, stack: Sequence, t: Tlv): (World, Rx) {
    if t.typ == SYNC_PARAMS then OnStation(w, HearSyncParams(w.station, w.src, now, t.value))
    else if t.typ == CHAN_SEQ then OnPeer(w, HearChanseq(w.peer, stack, t.value))
    else if t.typ == ELECTION then OnPeer(w, HearElectionParams(w.peer, t.value))
    else if t.typ == ELECTION_V2 then OnPeer(w, HearElectionParamsV2(w.peer, t.value))
    else if t.typ == ARPA then OnPeer(w, HearArpa(w.peer, t.value))
    else if t.typ == DATA_PATH_STATE then OnPeer(w, HearDataPathState(w.peer, t.value))
    else if t.typ == VERSION then OnPeer(w, HearVersion(w.peer, t.value))
    else (w, Ignore)
  }

  /** The elements in order, up to the first that cannot be parsed. */
  function Listen(w: World, now: U64, stack: Sequence, b: Bytes): (World, Rx)
    decreases |b|
  {
    match TlvAt(b, 0)
    case None => (w, if b == [] then Ok else UnexpectedFormat)
    case Some(t) =>
      var (w', r) := Hear(w, now, stack, t);
      if r.Failed() then (w', UnexpectedFormat) else Listen(w', now, stack, b[3 + |t.value|..])
  }

  /** Whether a frame is a MIF, if it is an action frame of either kind. */
  function ParseActionHeader(b: Bytes): (mif: Option<bool>)
    ensures mif.Some? ==> |b| >= 16
  {
    if |b| >= 16 && b[..6] == [127, 0x00, 0x17, 0xf2, 8, 0x10] && (b[6] == 0 || b[6] == 3)
    then Some(b[6] == 3) else None
  }

  /** What follows the header; a MIF counts as sent if all of it could be parsed. */
  function HearBody(w: World, now: U64, stack: Sequence, mif: bool, b: Bytes): (World, Rx) {
    var (w', r) := Listen(w, now, stack, b);
    if r == Ok && mif then (w'.(peer := w'.peer.(sentMif := true)), Ok) else (w', r)
  }

  /** No element marks a MIF as sent, and parsing the elements ends well or with a format error. */
  lemma {:induction false} ListenKeepsMif(w: World, now: U64, stack: Sequence, b: Bytes)
    ensures var (w', r) := Listen(w, now, stack, b);
            w'.peer.sentMif == w.peer.sentMif && w'.src == w.src && r in {Ok, UnexpectedFormat}
    decreases |b|
  {
    if TlvAt(b, 0).Some? {
      var t := TlvAt(b, 0).value;
      ListenStep(w, now, stack, b, t);
      var (w', r) := Hear(w, now, stack, t);
      assert w'.peer.sentMif == w.peer.sentMif && w'.src == w.src;
      hide Hear, Listen, TlvAt;
      if !r.Failed() { ListenKeepsMif(w', now, stack, b[3 + |t.value|..]); }
    } else {
      ListenEnd(w, now, stack, b);
    }
  }

  function HearAction(w: World, now: U64, stack: Sequence, b: Bytes): (World, Rx) {
    match ParseActionHeader(b)
    case None => (w, Ignore)
    case Some(mif) => HearBody(w, now, stack, mif, b[16..])
  }

  /** A peer not heard of before: its own master, on no channel, without a name, country "NA". */
  function NewInfo(addr: Addr): PeerInfo {
    PeerInfo(Election.State(addr, addr, addr, 0, 60, 60, 0, 0), seq(16, _ => Chan(0, 0)), [], [0x4e, 0x41, 0], None,
             0, 0, false, false)
  }

  // ---- The reader ----

  class Peer {
    const addr: Addr
    var election: Election.State
    var sequence: Sequence
    var name: Bytes
    var country: Bytes
    var infra: Option<Addr>
    var version: U8
    var devclass: U8
    var supportsV2: bool
    var sentMif: bool
    var lastUpdate: U64
    var isValid: bool      // set once and for all when the peer has become a usable neighbour

    function Info(): PeerInfo
      reads this
    {
      PeerInfo(election, sequence, name, country, infra, version, devclass, supportsV2, sentMif)
    }

    constructor (addr: Addr)
      ensures this.addr == addr && Info() == NewInfo(addr) && lastUpdate == 0 && !isValid
    {
      this.addr := addr;
      election := NewInfo(addr).election;
      sequence := seq(16, _ => Chan(0, 0));
      name, country, infra := [], [0x4e, 0x41, 0], None;
      version, devclass, supportsV2, sentMif := 0, 0, false, false;
      lastUpdate, isValid := 0, false;
    }

    method HandleChanseq(val: Buf, stack: Sequence) returns (r: Rx)
      requires val.Valid()
      modifies this`sequence
      ensures (Info(), r) == HearChanseq(old(Info()), stack, val.Contents())
    {
      hide Le16At, ChansRead;
      var count := val.ReadU8(0);
      if count.None? { return TooShort; }
      if count.value + 1 != 16 { return UnexpectedValue; }
      var duplicates := val.ReadU8(2);
      if duplicates.None? { return TooShort; }
      if duplicates.value > 0 { return UnexpectedValue; }
      var steps := val.ReadU8(3);
      if steps.None? { return TooShort; }
      if steps.value + 1 != 4 { return UnexpectedValue; }
      var fill := val.ReadLe16(4);
      if fill.None? { return TooShort; }
      FillIs(val.Contents());
      if fill.value != 0xffff { return UnexpectedValue; }
      var enc := val.ReadU8(1);
      var size := ChanSize(EncodingOf(enc.value));
      if size < 1 { return UnexpectedValue; }
      var list := ReadChannels(val, size, stack);
      if list.None? { return TooShort; }
      if sequence != list.value {
        sequence := list.value;
      }
      return Ok;
    }

    /** Fills the local list of channels. */
    method ReadChannels(val: Buf, size: nat, stack: Sequence) returns (r: Option<Sequence>)
      requires val.Valid() && 1 <= size <= 2
      ensures r.None? <==> |val.Contents()| < 6 + 16 * size
      ensures r.Some? ==> r.value == ChansRead(val.Contents(), size, stack)
    {
      hide Buf.Contents;
      ghost var b := val.Contents();
      var list := stack;
      var i, offset := 0, 6;
      while i < 16
        invariant 0 <= i <= 16 && offset == ChanOffset(i, size) && (i > 0 ==> offset <= |b|)
        invariant forall j | 0 <= j < i :: list[j] == ChanRead(b, ChanOffset(j, size), size, stack[j])
        invariant forall j | i <= j < 16 :: list[j] == stack[j]
      {
        var bytes := val.ReadBytes(offset, size);
        if bytes.None? { return None; }
        list := list[i := Chan(bytes.value[0], if size == 1 then list[i].b1 else bytes.value[1])];
        i, offset := i + 1, offset + size;
      }
      assert list == ChansRead(b, size, stack);
      return Some(list);
    }

    method HandleElectionParams(val: Buf) returns (r: Rx)
      requires val.Valid()
      modifies this`election
      ensures (Info(), r) == HearElectionParams(old(Info()), val.Contents())
    {
      hide Le32At, AddrAt, Buf.Contents;
      if supportsV2 { return Ok; }
      var height := val.ReadU8(3);
      if height.None? { return TooShort; }
      election := election.(height := height.value);
      var master := val.ReadAddr(5);
      if master.None? { return TooShort; }
      election := election.(masterAddr := master.value);
      var masterMetric := val.ReadLe32(11);
      if masterMetric.None? { return TooShort; }
      election := election.(masterMetric := masterMetric.value);
      var selfMetric := val.ReadLe32(15);
      if selfMetric.None? { return TooShort; }
      election := election.(selfMetric := selfMetric.value);
      return Ok;
    }

    method HandleElectionParamsV2(val: Buf) returns (r: Rx)
      requires val.Valid()
      modifies this`election, this`supportsV2
      ensures (Info(), r) == HearElectionParamsV2(old(Info()), val.Contents())
    {
      hide Le32At, AddrAt, Buf.Contents;
      var height := val.ReadLe32(16);
      if height.None? { return TooShort; }
      election := election.(height := height.value);
      var master := val.ReadAddr(0);
      if master.None? { return TooShort; }
      election := election.(masterAddr := master.value);
      var parent := val.ReadAddr(6);
      if parent.None? { return TooShort; }
      election := election.(syncAddr := parent.value);
      var masterCounter := val.ReadLe32(12);
      if masterCounter.None? { return TooShort; }
      election := election.(masterCounter := masterCounter.value);
      r := HandleMetricsV2(val);
    }

    /** The rest of the version 2 parameters. */
    method HandleMetricsV2(val: Buf) returns (r: Rx)
      requires val.Valid()
      modifies this`election, this`supportsV2
      ensures var b, e := val.Contents(), old(election);
              election == e.(masterMetric := Or(Le32At(b, 20), e.masterMetric),
                             selfMetric := Or(Le32At(b, 24), e.selfMetric),
                             selfCounter := Or(Le32At(b, 36), e.selfCounter))
      ensures supportsV2 == (old(supportsV2) || |val.Contents()| >= 40) && r == Complete(|val.Contents()| >= 40)
    {
      hide Le32At, Buf.Contents;
      var masterMetric := val.ReadLe32(20);
      if masterMetric.None? { return TooShort; }
      election := election.(masterMetric := masterMetric.value);
      var selfMetric := val.ReadLe32(24);
      if selfMetric.None? { return TooShort; }
      election := election.(selfMetric := selfMetric.value);
      var selfCounter := val.ReadLe32(36);
      if selfCounter.None? { return TooShort; }
      election := election.(selfCounter := selfCounter.value);
      supportsV2 := true;
      return Ok;
    }

    method HandleArpa(val: Buf) returns (r: Rx)
      requires val.Valid()
      modifies this`name
      ensures (Info(), r) == HearArpa(old(Info()), val.Contents())
    {
      var text := val.ReadIntString(1, 64);
      if text.None? { return TooShort; }
      name := UpToNul(text.value);
      return Ok;
    }

    method HandleDataPathState(val: Buf) returns (r: Rx)
      requires val.Valid()
      modifies this`country, this`infra
      ensures (Info(), r) == HearDataPathState(old(Info()), val.Contents())
    {
      hide Le16At, AddrAt, BytesAt, Bit, Buf.Contents;
      var flags := val.ReadLe16(0);
      if flags.None? { return TooShort; }
      var offset := 2;
      if Bit(flags.value, 0x100) {
        var code := val.ReadBytes(offset, 3);
        if code.None? { return TooShort; }
        country := code.value;
        offset := offset + 3;
      }
      var next := SkipChannels(val, flags.value, offset);
      if next.None? { return TooShort; }
      var end := ReadAddresses(val, flags.value, next.value);
      return if end.None? then TooShort else Ok;
    }

    /** The infrastructure address is taken over, the AWDL address is read past. */
    method ReadAddresses(val: Buf, flags: U16, offset: nat) returns (end: Option<nat>)
      requires val.Valid() && offset <= |val.Contents()|
      modifies this`infra
      ensures infra == if Bit(flags, 0x2) && |val.Contents()| >= offset + 6 then AddrAt(val.Contents(), offset)
                       else old(infra)
      ensures var n := offset + (if Bit(flags, 0x2) then 6 else 0) + (if Bit(flags, 0x4) then 6 else 0);
              end == if |val.Contents()| >= n then Some(n) else None
    {
      hide AddrAt, Bit, Buf.Contents;
      var at := offset;
      if Bit(flags, 0x2) {
        var addr := val.ReadAddr(at);
        if addr.None? { return None; }
        infra := addr;
        at := at + 6;
      }
      if Bit(flags, 0x4) {
        var addr := val.ReadAddr(at);
        if addr.None? { return None; }
        at := at + 6;
      }
      return Some(at);
    }

    /** The social channels and the infrastructure network are read past. */
    method SkipChannels(val: Buf, flags: U16, offset: nat) returns (next: Option<nat>)
      requires val.Valid() && offset <= |val.Contents()|
      ensures var end := offset + (if Bit(flags, 0x200) then 2 else 0) + (if Bit(flags, 0x1) then 8 else 0);
              next == if |val.Contents()| >= end then Some(end) else None
    {
      hide Le16At, AddrAt, Bit, Buf.Contents;
      var at := offset;
      if Bit(flags, 0x200) {
        var social := val.ReadLe16(at);
        if social.None? { return None; }
        at := at + 2;
      }
      if Bit(flags, 0x1) {
        var bssid := val.ReadAddr(at);
        if bssid.None? { return None; }
        var channel := val.ReadLe16(at + 6);
        if channel.None? { return None; }
        at := at + 8;
      }
      return Some(at);
    }

    method HandleVersion(val: Buf) returns (r: Rx)
      requires val.Valid()
      modifies this`version, this`devclass
      ensures (Info(), r) == HearVersion(old(Info()), val.Contents())
    {
      var v := val.ReadU8(0);
      if v.None? { return TooShort; }
      var d := val.ReadU8(1);
      if d.None? { return TooShort; }
      version, devclass := v.value, d.value;
      return Ok;
    }
  }

  lemma FillIs(b: Bytes)
    requires |b| >= 6
    ensures Le16At(b, 4) == Some(0xffff) <==> b[4..6] == [0xff, 0xff]
  {
    FromLe2(b[4..6]);
    assert b[4..6] == [b[4], b[5]];
  }

  class Receiver {
    const sync: SyncState
    var syncAddr: Addr

    function Value(): Station
      reads this, sync
    {
      Station(syncAddr, sync.Value(), sync.measErr, sync.measTotal)
    }

    constructor (addr: Addr, now: U64)
      ensures fresh(sync) && Value() == Station(addr, Clock(0, now), 0, 0)
    {
      sync := new SyncState(now);
      syncAddr := addr;
    }

    method HandleSyncParams(src: Peer, val: Buf, now: U64) returns (r: Rx)
      requires val.Valid()
      modifies sync
      ensures (Value(), r) == HearSyncParams(old(Value()), src.addr, now, val.Contents())
    {
      hide Le16At, Clock.ErrorTu, Clock.UpdateLast;
      if syncAddr != src.addr { return Ignore; }
      var timeToNext := val.ReadLe16(1);
      if timeToNext.None? { return TooShort; }
      var counter := val.ReadLe16(29);
      if counter.None? { return TooShort; }
      sync.measTotal := Wrap64(sync.measTotal + 1);
      var err := sync.Value().ErrorTu(now, timeToNext.value, counter.value);
      if err > 3 || err < -3 {
        sync.measErr := Wrap64(sync.measErr + 1);
      }
      sync.UpdateLast(now, timeToNext.value, counter.value);
      return Ok;
    }

    ghost function With(src: Peer): World
      reads this, sync, src
    {
      World(src.addr, src.Info(), Value())
    }

    method HandleTlv(src: Peer, typ: U8, val: Buf, now: U64, stack: Sequence) returns (r: Rx)
      requires val.Valid()
      modifies src`election, src`sequence, src`name, src`country, src`infra, src`version, src`devclass,
               src`supportsV2, sync
      ensures (With(src), r) == Hear(old(With(src)), now, stack, Tlv(typ, val.Contents()))
    {
      hide HearSyncParams, HearChanseq, HearElectionParams, HearElectionParamsV2, HearArpa, HearDataPathState,
           HearVersion;
      if typ == SYNC_PARAMS { r := HandleSyncParams(src, val, now); }
      else if typ == CHAN_SEQ { r := src.HandleChanseq(val, stack); }
      else if typ == ELECTION { r := src.HandleElectionParams(val); }
      else if typ == ELECTION_V2 { r := src.HandleElectionParamsV2(val); }
      else if typ == ARPA { r := src.HandleArpa(val); }
      else if typ == DATA_PATH_STATE { r := src.HandleDataPathState(val); }
      else if typ == VERSION { r := src.HandleVersion(val); }
      else { r := Ignore; }
    }

    method ParseHeader(frame: Buf) returns (mif: Option<bool>)
      requires frame.Valid()
      ensures mif == ParseActionHeader(frame.Contents())
    {
      var header := frame.ReadBytes(0, 16);
      if header.None? { return None; }
      var h := header.value;
      assert h[..6] == frame.Contents()[..6];
      if h[..6] == [127, 0x00, 0x17, 0xf2, 8, 0x10] && (h[6] == 0 || h[6] == 3) {
        return Some(h[6] == 3);
      }
      return None;
    }

    /** The loop over the elements of a frame. */
    method ParseElements(frame: Buf, src: Peer, now: U64, stack: Sequence) returns (r: Rx)
      requires frame.Valid()
      modifies frame, src`election, src`sequence, src`name, src`country, src`infra, src`version, src`devclass,
               src`supportsV2, sync
      ensures (With(src), r) == Listen(old(With(src)), now, stack, old(frame.Contents()))
    {
      hide Hear, TlvAt, Listen, Buf.Contents, With;
      ghost var w, b := With(src), frame.Contents();
      var t := frame.ReadTlv(0);
      while t.Some?
        invariant frame.Valid()
        invariant t.None? <==> TlvAt(frame.Contents(), 0).None?
        invariant t.Some? ==> && t.value.1 != frame && t.value.1.Valid() && t.value.1.data == frame.data
                              && TlvAt(frame.Contents(), 0) == Some(Tlv(t.value.0, t.value.1.Contents()))
        invariant Listen(w, now, stack, b) == Listen(With(src), now, stack, frame.Contents())
        decreases frame.len
      {
        ListenStep(With(src), now, stack, frame.Contents(), Tlv(t.value.0, t.value.1.Contents()));
        var result := HandleTlv(src, t.value.0, t.value.1, now, stack);
        if result.Failed() { return UnexpectedFormat; }
        var ok := frame.Strip(3 + t.value.1.len);
        t := frame.ReadTlv(0);
      }
      ListenEnd(With(src), now, stack, frame.Contents());
      return if frame.len > 0 then UnexpectedFormat else Ok;
    }

    /** What follows the header of an action frame, from a peer that is in the table, whatever the bytes are. */
    method TakeIn(frame: Buf, src: Peer, mif: bool, now: U64, stack: Sequence) returns (r: Rx)
      requires frame.Valid()
      modifies frame, src`election, src`sequence, src`name, src`country, src`infra, src`version, src`devclass,
               src`supportsV2, src`sentMif, sync
      ensures (With(src), r) == HearBody(old(With(src)), now, stack, mif, old(frame.Contents()))
    {
      hide Listen;
      r := ParseElements(frame, src, now, stack);
      if r == Ok && mif {
        src.sentMif := true;
      }
    }
  }

  lemma ListenStep(w: World, now: U64, stack: Sequence, b: Bytes, t: Tlv)
    requires TlvAt(b, 0) == Some(t)
    ensures 3 + |t.value| <= |b|
    ensures var (w', r) := Hear(w, now, stack, t);
            Listen(w, now, stack, b) ==
              if r.Failed() then (w', UnexpectedFormat) else Listen(w', now, stack, b[3 + |t.value|..])
  {
  }

  lemma ListenEnd(w: World, now: U64, stack: Sequence, b: Bytes)
    requires TlvAt(b, 0) == None
    ensures Listen(w, now, stack, b) == (w, if b == [] then Ok else UnexpectedFormat)
  {
  }
}
