/** The AWDL peer table over the hash map, the neighbour callbacks that mirror it, and the reception of action frames
    into it. */
module Peers {
  import opened Machine
  import opened Wrappers
  import opened Wire
  import opened Schedule
  import opened FrameRx
  import HashMap

  datatype Status = Updated | Added | Missing | Internal

  // ---- The table as a book of records ----

  datatype Record = Record(info: PeerInfo, lastUpdate: U64, isValid: bool)

  type Book = map<Addr, Record>

  /** A peer that has sent a MIF, a device class and a version can be used. */
  predicate Usable(i: PeerInfo) { i.sentMif && i.devclass != 0 && i.version != 0 }

  /** A peer that can be used becomes valid, and stays so. */
  function Announced(r: Record): Record { r.(isValid := r.isValid || Usable(r.info)) }

  /** `awdl_peer_add`: the record is refreshed, or made. */
  function Touched(b: Book, addr: Addr, now: U64): (touched: Book)
    ensures addr in touched
  {
    var r := if addr in b then b[addr] else Record(NewInfo(addr), 0, false);
    b[addr := Announced(r.(lastUpdate := now))]
  }

  /** The signal strength a frame must have, less for peers already known. */
  datatype Filter = Filter(on: bool, threshold: int, grace: int) {
    predicate Admits(rssi: int, known: bool) {
      !on || rssi >= threshold + (if known then grace else 0)
    }
  }

  /** What follows the header of a frame is parsed into the record as far as it goes. */
  function Filled(b: Book, st: Station, addr: Addr, mif: bool, now: U64, stack: Sequence, body: Bytes)
      : (filled: (Book, Station, Rx))
    requires addr in b
    ensures addr in filled.0
  {
    var (w, r) := HearBody(World(addr, b[addr].info, st), now, stack, mif, body);
    (b[addr := b[addr].(info := w.peer)], w.station, r)
  }

  /** A frame that is admitted makes or refreshes the record, fills it, and if it could be parsed whole refreshes it
      again. */
  function HearAdmitted(b: Book, st: Station, addr: Addr, mif: bool, now: U64, stack: Sequence, body: Bytes)
      : (Book, Station, Rx)
  {
    var (filled, st', r) := Filled(Touched(b, addr, now), st, addr, mif, now, stack, body);
    (if r == Ok then Touched(filled, addr, now) else filled, st', r)
  }

  /** What the reception of a frame makes of the book and of the receiver's clock. */
  function HearFrom(b: Book, st: Station, f: Filter, rssi: int, addr: Addr, now: U64, stack: Sequence, frame: Bytes)
      : (Book, Station, Rx)
  {
    match ParseActionHeader(frame)
    case None => (b, st, Ignore)
    case Some(mif) =>
      if !f.Admits(rssi, addr in b) then (b, st, IgnoreRssi)
      else HearAdmitted(b, st, addr, mif, now, stack, frame[16..])
  }

  // ---- Neighbour callbacks ----

  /** A call of the neighbour-add or neighbour-remove callback. */
  datatype Event = NeighbourAdd(addr: Addr) | NeighbourRemove(addr: Addr)

  /** The neighbours left after these calls. */
  ghost function Neighbours(log: seq<Event>): set<Addr> {
    if log == [] then {}
    else
      var before := Neighbours(log[..|log| - 1]);
      match log[|log| - 1]
      case NeighbourAdd(a) => before + {a}
      case NeighbourRemove(a) => before - {a}
  }

  /** For every address the calls alternate, starting with an add. */
  ghost predicate Alternates(log: seq<Event>) {
    forall i | 0 <= i < |log| ::
      match log[i]
      case NeighbourAdd(a) => a !in Neighbours(log[..i])
      case NeighbourRemove(a) => a in Neighbours(log[..i])
  }

  lemma LogAppend(log: seq<Event>, e: Event)
    requires Alternates(log)
    requires e.NeighbourAdd? <==> e.addr !in Neighbours(log)
    ensures Alternates(log + [e])
    ensures Neighbours(log + [e]) == if e.NeighbourAdd? then Neighbours(log) + {e.addr} else Neighbours(log) - {e.addr}
  {
    var longer := log + [e];
    assert longer[..|log|] == log;
    forall i | 0 <= i < |log|
      ensures longer[..i] == log[..i] && longer[i] == log[i]
    {
    }
  }

  /** The neighbours announced and not withdrawn are exactly the peers marked valid. */
  ghost predicate Mirrors(log: seq<Event>, b: Book) {
    Alternates(log) && forall a :: a in Neighbours(log) <==> a in b && b[a].isValid
  }

  lemma MirrorsAdd(log: seq<Event>, b: Book, a: Addr, r: Record)
    requires Mirrors(log, b) && a in b && !b[a].isValid && r.isValid
    ensures Mirrors(log + [NeighbourAdd(a)], b[a := r])
  {
    hide Neighbours, Alternates;
    LogAppend(log, NeighbourAdd(a));
  }

  lemma MirrorsKeep(log: seq<Event>, b: Book, a: Addr, r: Record)
    requires Mirrors(log, b) && r.isValid == (a in b && b[a].isValid)
    ensures Mirrors(log, b[a := r])
  {
    hide Neighbours, Alternates;
  }

  lemma MirrorsRemove(log: seq<Event>, b: Book, a: Addr)
    requires Mirrors(log, b) && a in b
    ensures Mirrors(if b[a].isValid then log + [NeighbourRemove(a)] else log, b - {a})
  {
    hide Neighbours, Alternates;
    if b[a].isValid { LogAppend(log, NeighbourRemove(a)); }
  }

  ghost predicate Live(b: Book, a: Addr) { a in b && b[a].isValid }

  /** The call for a record that was touched: one add if it has turned valid. */
  ghost function Turned(before: Book, after: Book, a: Addr): seq<Event> {
    if Live(after, a) && !Live(before, a) then [NeighbourAdd(a)] else []
  }

  /** The call for a record that is removed. */
  ghost function Withdrawn(b: Book, a: Addr): seq<Event> { if Live(b, a) then [NeighbourRemove(a)] else [] }

  /** One call for each neighbour gained or lost, in some order, and no other. */
  ghost predicate Tells(calls: seq<Event>, before: Book, after: Book) {
    && (forall i, j | 0 <= i < j < |calls| :: calls[i] != calls[j])
    && (forall a :: NeighbourAdd(a) in calls <==> Live(after, a) && !Live(before, a))
    && (forall a :: NeighbourRemove(a) in calls <==> Live(before, a) && !Live(after, a))
  }

  lemma TouchedTells(before: Book, after: Book, a: Addr)
    requires Live(before, a) ==> Live(after, a)
    requires forall x :: x != a ==> (Live(before, x) <==> Live(after, x))
    ensures Tells(Turned(before, after, a), before, after)
  {
  }

  lemma RemovalTells(b: Book, a: Addr)
    ensures Tells(Withdrawn(b, a), b, b - {a})
  {
  }

  /** The two refreshments of a reception announce the sender once between them, if it has turned valid. */
  lemma AdmittedCalls(b: Book, st: Station, a: Addr, mif: bool, now: U64, stack: Sequence, body: Bytes)
    ensures var b1 := Touched(b, a, now);
            var (b2, st', r) := Filled(b1, st, a, mif, now, stack, body);
            var b3 := Touched(b2, a, now);
            && a in b1 && a in b2
            && HearAdmitted(b, st, a, mif, now, stack, body) == (if r == Ok then b3 else b2, st', r)
            && Turned(b, b1, a) == Turned(b, b2, a) && Turned(b, b1, a) + Turned(b2, b3, a) == Turned(b, b3, a)
  {
    hide HearBody;
  }

  lemma Unchanged(b: Book, a: Addr)
    ensures Turned(b, b, a) == []
  {
  }

  lemma HearFromIs(b: Book, st: Station, f: Filter, rssi: int, a: Addr, now: U64, stack: Sequence, frame: Bytes)
    ensures HearFrom(b, st, f, rssi, a, now, stack, frame) ==
            match ParseActionHeader(frame)
            case None => (b, st, Ignore)
            case Some(mif) =>
              if !f.Admits(rssi, a in b) then (b, st, IgnoreRssi)
              else HearAdmitted(b, st, a, mif, now, stack, frame[16..])
  {
  }

  /** A reception touches no other record, and never makes a valid one invalid. */
  lemma HeardTells(b: Book, st: Station, f: Filter, rssi: int, a: Addr, now: U64, stack: Sequence, frame: Bytes)
    ensures var after := HearFrom(b, st, f, rssi, a, now, stack, frame).0; Tells(Turned(b, after, a), b, after)
  {
    hide HearBody, ParseActionHeader, Tells;
    TouchedTells(b, HearFrom(b, st, f, rssi, a, now, stack, frame).0, a);
  }

  // ---- The table ----

  type Table = HashMap.Map<Addr, Peer>

  function RecordOf(p: Peer): Record
    reads p
  {
    Record(p.Info(), p.lastUpdate, p.isValid)
  }

  method NewPeer(addr: Addr, now: U64) returns (p: Peer)
    ensures fresh(p) && p.addr == addr && !p.isValid && RecordOf(p) == Record(NewInfo(addr), now, false)
  {
    p := new Peer(addr);
    p.lastUpdate := now;
  }

  lemma TouchedKnown(b: Book, addr: Addr, now: U64)
    requires addr in b
    ensures var r := b[addr].(lastUpdate := now);
            Touched(b, addr, now) == b[addr := r][addr := Announced(r)] && (Live(b, addr) <==> Live(b[addr := r], addr))
  {
  }

  lemma TouchedNew(b: Book, addr: Addr, now: U64)
    requires addr !in b
    ensures Touched(b, addr, now) == b[addr := Record(NewInfo(addr), now, false)]
    ensures Turned(b, Touched(b, addr, now), addr) == []
  {
  }

  ghost function BookOf(entries: map<Addr, Peer>): (b: Book)
    reads entries.Values
    ensures b.Keys == entries.Keys
  {
    map a | a in entries :: RecordOf(entries[a])
  }

  lemma BookAt(entries: map<Addr, Peer>, addr: Addr)
    requires addr in entries
    ensures BookOf(entries)[addr] == RecordOf(entries[addr]) && BookOf(entries)[addr].isValid == entries[addr].isValid
  {
  }

  lemma BookInsert(entries: map<Addr, Peer>, addr: Addr, p: Peer)
    ensures BookOf(entries[addr := p]) == BookOf(entries)[addr := RecordOf(p)]
  {
  }

  lemma BookWithout(entries: map<Addr, Peer>, gone: set<Addr>)
    ensures BookOf(entries - gone) == BookOf(entries) - gone
  {
  }

  /** What is left of a book when the records stamped before the cutoff go. */
  ghost function Recent(b: Book, cutoff: U64): Book { map a | a in b && b[a].lastUpdate >= cutoff :: b[a] }

  ghost function StaleIn(b: Book, cutoff: U64): set<Addr> { set a | a in b && b[a].lastUpdate < cutoff }

  lemma StaleAt(entries: map<Addr, Peer>, cutoff: U64, a: Addr)
    requires a in entries
    ensures a in StaleIn(BookOf(entries), cutoff) <==> entries[a].lastUpdate < cutoff
  {
  }

  lemma KeptBook(entries: map<Addr, Peer>, cutoff: U64)
    ensures BookOf(entries - StaleIn(BookOf(entries), cutoff)) == Recent(BookOf(entries), cutoff)
  {
    BookWithout(entries, StaleIn(BookOf(entries), cutoff));
  }

  /** All records but one are as they were. */
  lemma OneChanged(entries: map<Addr, Peer>, before: Book, addr: Addr)
    requires addr in entries && before.Keys == entries.Keys
    requires forall a :: a in entries && a != addr ==> RecordOf(entries[a]) == before[a]
    ensures BookOf(entries) == before[addr := RecordOf(entries[addr])]
  {
  }

  class PeerTable {
    const table: Table
    var log: seq<Event>
    ghost var objs: set<Peer>

    /** Each peer is filed under its own address. */
    ghost predicate FiledIn(entries: map<Addr, Peer>, known: set<Peer>) {
      forall a :: a in entries ==> entries[a] in known && entries[a].addr == a
    }

    ghost predicate Filed()
      reads this, table
    {
      FiledIn(table.entries, objs)
    }

    ghost function Book(): (b: Book)
      reads this, table, table.entries.Values
      ensures b.Keys == table.entries.Keys
    {
      BookOf(table.entries)
    }

    /** The neighbours announced and not withdrawn are exactly the peers marked valid. */
    ghost predicate Mirrored()
      reads this, table, table.entries.Values
    {
      Filed() && Mirrors(log, Book())
    }

    ghost predicate Valid()
      reads this, table, table.data, table.entries.Values
    {
      table.Valid() && Mirrored()
    }

    constructor (hash: Addr -> nat, budget: nat)
      ensures Valid() && Book() == map[] && log == [] && fresh(table) && fresh(table.data) && objs == {}
      ensures table.data.Length == 256 && table.hash == hash && table.budget == budget
    {
      table := new HashMap.Map<Addr, Peer>(hash, budget);
      log := [];
      objs := {};
    }

    /** The tail of `awdl_peer_add`: a peer that has become usable is announced, once. */
    method Announce(peer: Peer)
      requires Mirrored() && peer.addr in table.entries && table.entries[peer.addr] == peer
      modifies this`log, peer`isValid
      ensures Mirrored() && Book() == old(Book())[peer.addr := Announced(old(Book())[peer.addr])]
      ensures log == old(log) + Turned(old(Book()), Book(), peer.addr)
    {
      hide Mirrors;
      ghost var before := Book();
      if !peer.isValid && peer.sentMif && peer.devclass != 0 && peer.version != 0 {
        MirrorsAdd(log, before, peer.addr, Announced(before[peer.addr]));
        peer.isValid := true;
        log := log + [NeighbourAdd(peer.addr)];
        OneChanged(table.entries, before, peer.addr);
      } else {
        assert before == before[peer.addr := Announced(before[peer.addr])];
      }
    }

    method Stamp(peer: Peer, now: U64)
      requires Mirrored() && peer.addr in table.entries && table.entries[peer.addr] == peer
      modifies peer`lastUpdate
      ensures Mirrored() && Book() == old(Book())[peer.addr := old(Book())[peer.addr].(lastUpdate := now)]
    {
      hide Mirrors;
      ghost var before := Book();
      ghost var r := before[peer.addr].(lastUpdate := now);
      peer.lastUpdate := now;
      OneChanged(table.entries, before, peer.addr);
      MirrorsKeep(log, before, peer.addr, r);
    }

    /** Stamps a known peer, and announces it if it can be used now. */
    method Refresh(peer: Peer, now: U64)
      requires Mirrored() && peer.addr in table.entries && table.entries[peer.addr] == peer
      modifies this`log, peer`lastUpdate, peer`isValid
      ensures Mirrored() && Book() == Touched(old(Book()), peer.addr, now)
      ensures log == old(log) + Turned(old(Book()), Book(), peer.addr)
    {
      hide Mirrors, Book, Announced, Usable, Live;
      TouchedKnown(Book(), peer.addr, now);
      Stamp(peer, now);
      Announce(peer);
    }

    /** Puts a peer that is not in the table. */
    method File(peer: Peer) returns (ok: bool)
      requires table.Valid() && peer.addr !in table.entries
      modifies table, table.data
      ensures table.data == old(table.data) || fresh(table.data)
      ensures ok ==> table.Valid() && table.entries == old(table.entries)[peer.addr := peer]
      ensures !ok ==> 2 * table.data.Length > table.budget
      ensures Roomy(old(table.data.Length), old(table.entries).Keys + {peer.addr}, table.data.Length, ok)
    {
      hide HashMap.Map.Valid, HashMap.Map.Sound, HashMap.Fits, HashMap.Doubles, HashMap.Good, HashMap.Contents,
           HashMap.Count, HashMap.First;
      var put, slots := table.Put(peer.addr, peer);
      ok := put == HashMap.Ok;
    }

    /** Files a peer that is not valid. */
    method Enter(peer: Peer) returns (ok: bool)
      requires Valid() && peer.addr !in table.entries && !peer.isValid
      modifies this`objs, table, table.data
      ensures objs == old(objs) + {peer} && (table.data == old(table.data) || fresh(table.data))
      ensures ok ==> Valid() && Book() == old(Book())[peer.addr := RecordOf(peer)]
      ensures !ok ==> 2 * table.data.Length > table.budget
      ensures Roomy(old(table.data.Length), old(Book()).Keys + {peer.addr}, table.data.Length, ok)
    {
      hide HashMap.Map.Valid, HashMap.Map.Sound, Roomy, Mirrors;
      ghost var entries, known := table.entries, objs;
      BookInsert(entries, peer.addr, peer);
      MirrorsKeep(log, BookOf(entries), peer.addr, RecordOf(peer));
      hide BookOf, RecordOf, Filed;
      ok := File(peer);
      objs := objs + {peer};
      if ok { FiledToo(entries, known, peer); }
    }

    lemma FiledToo(entries: map<Addr, Peer>, known: set<Peer>, peer: Peer)
      requires FiledIn(entries, known) && table.entries == entries[peer.addr := peer] && objs == known + {peer}
      ensures Filed()
    {
    }

    /** `awdl_peer_add`: refreshes a known peer or files a new one. Out of memory, the table may lose entries. */
    method Add(addr: Addr, now: U64) returns (status: Status)
      requires Valid()
      modifies this`log, this`objs, table, table.data, objs
      ensures status != Missing && objs >= old(objs) && fresh(objs - old(objs))
      ensures table.data == old(table.data) || fresh(table.data)
      ensures status == Updated <==> addr in old(Book())
      ensures status == Updated ==> table.data == old(table.data)
      ensures status != Internal ==> Valid() && Book() == Touched(old(Book()), addr, now)
      ensures status != Internal ==> log == old(log) + Turned(old(Book()), Book(), addr)
      ensures status == Internal ==> 2 * table.data.Length > table.budget
      ensures Roomy(old(table.data.Length), old(Book()).Keys + {addr}, table.data.Length, status != Internal)
    {
      hide HashMap.Map.Valid, HashMap.Map.Sound, HashMap.Fits, HashMap.Doubles, Mirrors, Touched, Announced, Book,
           RecordOf, Turned;
      var got, found := table.Get(addr, false);
      if got == HashMap.Ok {
        Refresh(found.value, now);
        HashMap.FitsBudget<Addr>(table.data.Length, old(Book()).Keys + {addr}, table.hash, table.budget);
        return Updated;
      }
      TouchedNew(Book(), addr, now);
      var peer := NewPeer(addr, now);
      var ok := Enter(peer);
      return if ok then Added else Internal;
    }

    /** Parses what follows the header of a frame into a peer's record. */
    method TakeInto(frame: Buf, peer: Peer, receiver: Receiver, mif: bool, now: U64, stack: Sequence) returns (r: Rx)
      requires Mirrored() && peer.addr in table.entries && table.entries[peer.addr] == peer && frame.Valid()
      modifies frame, peer, receiver.sync
      ensures Mirrored()
      ensures var a, b := peer.addr, old(Book());
              var heard := HearBody(World(a, b[a].info, old(receiver.Value())), now, stack, mif, old(frame.Contents()));
              && Book() == b[a := b[a].(info := heard.0.peer)] && receiver.Value() == heard.0.station && r == heard.1
    {
      hide Mirrors, HearBody, Buf.Contents;
      ghost var before, a := Book(), peer.addr;
      r := receiver.TakeIn(frame, peer, mif, now, stack);
      OneChanged(table.entries, before, a);
      MirrorsKeep(log, before, a, RecordOf(peer));
    }

    /** Looks the sender up and parses what follows the header of its frame into its record. */
    method Fill(frame: Buf, addr: Addr, receiver: Receiver, mif: bool, now: U64, stack: Sequence) returns (r: Rx)
      requires Valid() && addr in Book() && frame.Valid()
      modifies frame, receiver.sync, objs, table`size, table`entries, table.data
      ensures Valid()
      ensures (Book(), receiver.Value(), r) ==
              Filled(old(Book()), old(receiver.Value()), addr, mif, now, stack, old(frame.Contents()))
    {
      hide HashMap.Map.Valid, HashMap.Map.Sound, Mirrored, Mirrors, Book, HearBody, Buf.Contents, Receiver.Value;
      var got, found := table.Get(addr, false);
      FiledUnder(addr);
      r := TakeInto(frame, found.value, receiver, mif, now, stack);
    }

    /** Makes or refreshes the record of the sender, and parses the frame into it. */
    method Admit(frame: Buf, addr: Addr, mif: bool, now: U64, receiver: Receiver, stack: Sequence)
        returns (r: Rx, lasted: bool)
      requires Valid() && frame.Valid()
      modifies frame, receiver.sync, this`log, this`objs, table, table.data, objs
      ensures objs >= old(objs) && fresh(objs - old(objs)) && (table.data == old(table.data) || fresh(table.data))
      ensures lasted ==> Valid() && addr in Book() && log == old(log) + Turned(old(Book()), Book(), addr)
      ensures lasted ==> (Book(), receiver.Value(), r) ==
                         Filled(Touched(old(Book()), addr, now), old(receiver.Value()), addr, mif, now, stack,
                                old(frame.Contents()))
      ensures !lasted ==> 2 * table.data.Length > table.budget
      ensures Roomy(old(table.data.Length), old(Book()).Keys + {addr}, table.data.Length, lasted)
    {
      hide *;
      AdmittedCalls(Book(), receiver.Value(), addr, mif, now, stack, frame.Contents());
      var status := Add(addr, now);
      if status == Internal { return Ignore, false; }
      r := Fill(frame, addr, receiver, mif, now, stack);
      return r, true;
    }

    /** The part of `awdl_rx_action` after the signal strength filter. */
    method Accept(frame: Buf, addr: Addr, mif: bool, now: U64, receiver: Receiver, stack: Sequence)
        returns (r: Rx, lasted: bool)
      requires Valid() && frame.Valid()
      modifies frame, receiver.sync, this`log, this`objs, table, table.data, objs
      ensures objs >= old(objs) && fresh(objs - old(objs)) && (table.data == old(table.data) || fresh(table.data))
      ensures lasted ==> && Valid()
                         && (Book(), receiver.Value(), r) ==
                            HearAdmitted(old(Book()), old(receiver.Value()), addr, mif, now, stack,
                                         old(frame.Contents()))
                         && log == old(log) + Turned(old(Book()), Book(), addr)
      ensures !lasted ==> 2 * table.data.Length > table.budget
      ensures Roomy(old(table.data.Length), old(Book()).Keys + {addr}, table.data.Length, lasted)
    {
      hide *;
      AdmittedCalls(Book(), receiver.Value(), addr, mif, now, stack, frame.Contents());
      r, lasted := Admit(frame, addr, mif, now, receiver, stack);
      if lasted && r == Ok {
        var again := Add(addr, now);
      }
    }

    /** The signal strength filter. */
    method Blocks(f: Filter, rssi: int, addr: Addr) returns (blocked: bool)
      requires Valid()
      modifies table`size, table`entries, table.data
      ensures Valid() && unchanged(table) && unchanged(table.data)
      ensures blocked == !f.Admits(rssi, addr in Book())
    {
      hide HashMap.Map.Valid, HashMap.Map.Sound, Mirrored;
      if !f.on { return false; }
      var got, found := table.Get(addr, false);
      return (got == HashMap.Ok && rssi < f.threshold + f.grace) || (got == HashMap.Missing && rssi < f.threshold);
    }

    /** `awdl_rx_action`, for any bytes. */
    method Receive(frame: Buf, rssi: int, f: Filter, addr: Addr, now: U64, receiver: Receiver, stack: Sequence)
        returns (r: Rx, lasted: bool)
      requires Valid() && frame.Valid()
      modifies frame, receiver.sync, this`log, this`objs, table, table.data, objs
      ensures objs >= old(objs) && fresh(objs - old(objs)) && (table.data == old(table.data) || fresh(table.data))
      ensures lasted ==> && Valid()
                         && (Book(), receiver.Value(), r) ==
                            HearFrom(old(Book()), old(receiver.Value()), f, rssi, addr, now, stack,
                                     old(frame.Contents()))
                         && log == old(log) + Turned(old(Book()), Book(), addr)
      ensures !lasted ==> 2 * table.data.Length > table.budget
      ensures Roomy(old(table.data.Length), old(Book()).Keys + {addr}, table.data.Length, lasted)
    {
      hide *;
      Unchanged(Book(), addr);
      HearFromIs(Book(), receiver.Value(), f, rssi, addr, now, stack, frame.Contents());
      SameRoom(table.data.Length, Book().Keys + {addr});
      var mif := receiver.ParseHeader(frame);
      if mif.None? { return Ignore, true; }
      var stripped := frame.Strip(16);
      var blocked := Blocks(f, rssi, addr);
      if blocked { return IgnoreRssi, true; }
      r, lasted := Accept(frame, addr, mif.value, now, receiver, stack);
    }

    lemma SameRoom(n: nat, keys: set<Addr>)
      ensures Roomy(n, keys, n, true)
    {
      HashMap.FitsBudget(n, keys, table.hash, table.budget);
    }

    /** Removes one peer, and its neighbour if it was one. */
    method Remove(addr: Addr) returns (status: Status)
      requires Valid()
      modifies this`log, table`size, table`entries, table.data
      ensures Valid() && table.data == old(table.data)
      ensures status == (if addr in old(Book()) then Updated else Missing) && Book() == old(Book()) - {addr}
      ensures log == old(log) + Withdrawn(old(Book()), addr)
    {
      hide HashMap.Map.Valid, HashMap.Map.Sound, Mirrors, BookOf, RecordOf;
      BookWithout(table.entries, {addr});
      if addr in table.entries {
        BookAt(table.entries, addr);
        MirrorsRemove(log, Book(), addr);
      }
      var got, found := table.Get(addr, true);
      if got == HashMap.Missing {
        assert table.entries == old(table.entries);
        return Missing;
      }
      if found.value.isValid {
        log := log + [NeighbourRemove(addr)];
      }
      return Updated;
    }

    /** Removes the peer the iterator stands on if it is stale, and its neighbour if it was one. */
    method Examine(it: HashMap.Iterator<Addr, Peer>, peer: Peer, cutoff: U64)
      requires it.table == table && it.Valid() && Valid()
      requires 0 <= it.i < table.data.Length && table.data[it.i] == HashMap.Used(peer.addr, peer)
      requires peer.addr in table.entries && table.entries[peer.addr] == peer
      modifies this`log, table`size, table`entries, table.data
      ensures it.Valid() && Valid() && table.data == old(table.data) && it.Rest() == old(it.Rest())
      ensures table.entries == old(table.entries) - (if peer.lastUpdate < cutoff then {peer.addr} else {})
      ensures log == old(log) + (if peer.lastUpdate < cutoff && peer.isValid then [NeighbourRemove(peer.addr)] else [])
    {
      hide HashMap.Map.Valid, HashMap.Map.Sound, HashMap.EntriesFrom, HashMap.Iterator.Rest, Mirrors, BookOf, RecordOf;
      if peer.lastUpdate < cutoff {
        BookAt(table.entries, peer.addr);
        MirrorsRemove(log, Book(), peer.addr);
        BookWithout(table.entries, {peer.addr});
        if peer.isValid {
          log := log + [NeighbourRemove(peer.addr)];
        }
        var removed := it.Remove();
      }
    }

    lemma FiledUnder(a: Addr)
      requires Mirrored() && a in table.entries
      ensures table.entries[a].addr == a && table.entries[a] in objs
    {
    }

    /** One round of the expiry. */
    method ExpireNext(it: HashMap.Iterator<Addr, Peer>, peer: Peer, cutoff: U64, ghost all: map<Addr, Peer>,
                      ghost b: Book, ghost stale: set<Addr>, ghost es: seq<(Addr, Peer)>, ghost k: nat)
        returns (got: HashMap.Status, entry: Option<(Addr, Peer)>)
      requires Valid() && k < |es| && HashMap.Yields(it, table, es, k, HashMap.Ok, Some((es[k].0, peer)))
      requires table.entries == HashMap.Survivors(all, stale, es, k) && HashMap.Lists(es, all) && es[k].0 in all
      requires peer == es[k].1 && (es[k].0 in stale <==> peer.lastUpdate < cutoff)
      requires Live(b, es[k].0) <==> peer.isValid
      modifies this`log, table`size, table`entries, table.data, it
      ensures Valid() && table.data == old(table.data) && HashMap.Yields(it, table, es, k + 1, got, entry)
      ensures table.entries == HashMap.Survivors(all, stale, es, k + 1)
      ensures log == old(log) + Due(b, stale, es[k].0)
    {
      hide HashMap.Map.Valid, HashMap.Map.Sound, HashMap.EntriesFrom, HashMap.Iterator.Rest, HashMap.Lists, Mirrored,
           Live;
      HashMap.StillListed(all, stale, es, k);
      FiledUnder(es[k].0);
      Examine(it, peer, cutoff);
      hide HashMap.Survivors;
      got, entry := it.Next();
    }

    /** Removes exactly the peers last updated before the cutoff, while iterating over them, and withdraws
        exactly the neighbours among them. */
    method Expire(cutoff: U64) returns (ghost calls: seq<Event>)
      requires Valid()
      modifies this`log, table`size, table`entries, table.data
      ensures Valid() && table.data == old(table.data) && Book() == Recent(old(Book()), cutoff)
      ensures log == old(log) + calls && Tells(calls, old(Book()), Book())
    {
      hide *;
      ghost var all, b, es := table.entries, Book(), HashMap.EntriesFrom(table.data[..], 0);
      ghost var stale := StaleIn(b, cutoff);
      BookIs();
      IsTable();
      HashMap.AllListed(table);
      HashMap.SurvivorsStart(all, stale, es);
      NothingDue(b, stale, es);
      ghost var k := 0;
      var it, got, entry := HashMap.Start(table, es);
      while got == HashMap.Ok
        invariant Valid() && table.data == old(table.data) && fresh(it)
        invariant k <= |es| && HashMap.Yields(it, table, es, k, got, entry)
        invariant table.entries == HashMap.Survivors(all, stale, es, k) && BookOf(all) == b
        invariant log == old(log) + AllDue(b, stale, es, k)
        decreases |es| - k
      {
        HashMap.YieldsListed(it, table, es, k, entry, all);
        StaleAt(all, cutoff, es[k].0);
        BookAt(all, es[k].0);
        DueNext(b, stale, es, k);
        got, entry := ExpireNext(it, entry.value.1, cutoff, all, b, stale, es, k);
        k := k + 1;
      }
      HashMap.YieldsEnd(it, table, es, k, got, entry);
      StaleOnly(b, cutoff);
      HashMap.SurvivorsAreFresh(all, stale, es);
      KeptBook(all, cutoff);
      calls := AllDue(b, stale, es, k);
      ExpiryTells(all, b, cutoff, es);
      BookIs();
    }

    lemma IsMirrored()
      requires Valid()
      ensures Mirrors(log, Book())
    {
      hide HashMap.Map.Valid, HashMap.Map.Sound, Mirrors;
    }

    lemma BookIs()
      ensures Book() == BookOf(table.entries)
    {
    }

    lemma IsTable()
      requires Valid()
      ensures table.Valid()
    {
    }

    /** Memory for a table in which no window of the keys overflows is enough. */
    ghost predicate Roomy(from: nat, keys: set<Addr>, to: nat, enough: bool) {
      forall n: nat | HashMap.Fits(from, n, keys, table.hash, table.budget) :: enough && HashMap.Doubles(to, n)
    }
  }

  lemma StaleOnly(b: Book, cutoff: U64)
    ensures StaleIn(b, cutoff) <= b.Keys
  {
  }

  /** The call for one listed record in a clean-up. */
  ghost function Due(b: Book, stale: set<Addr>, a: Addr): seq<Event> { if a in stale then Withdrawn(b, a) else [] }

  /** The calls for the first `k` listed records. */
  ghost function AllDue(b: Book, stale: set<Addr>, es: seq<(Addr, Peer)>, k: nat): seq<Event>
    requires k <= |es|
  {
    if k == 0 then [] else AllDue(b, stale, es, k - 1) + Due(b, stale, es[k - 1].0)
  }

  lemma NothingDue(b: Book, stale: set<Addr>, es: seq<(Addr, Peer)>)
    ensures AllDue(b, stale, es, 0) == []
  {
  }

  lemma DueNext(b: Book, stale: set<Addr>, es: seq<(Addr, Peer)>, k: nat)
    requires k < |es|
    ensures AllDue(b, stale, es, k + 1) == AllDue(b, stale, es, k) + Due(b, stale, es[k].0)
    ensures es[k].0 in b ==> (Live(b, es[k].0) <==> b[es[k].0].isValid)
  {
  }

  ghost predicate ListedBefore(es: seq<(Addr, Peer)>, k: nat, a: Addr) {
    exists i | 0 <= i < k && i < |es| :: es[i].0 == a
  }

  lemma {:induction false} DueHas(b: Book, stale: set<Addr>, es: seq<(Addr, Peer)>, k: nat, e: Event)
    requires k <= |es|
    ensures e in AllDue(b, stale, es, k) <==>
            e.NeighbourRemove? && e.addr in stale && Live(b, e.addr) && ListedBefore(es, k, e.addr)
  {
    if k > 0 {
      DueHas(b, stale, es, k - 1, e);
      assert ListedBefore(es, k, e.addr) <==> ListedBefore(es, k - 1, e.addr) || es[k - 1].0 == e.addr;
    }
  }

  lemma {:induction false} DueOnce(b: Book, stale: set<Addr>, es: seq<(Addr, Peer)>, k: nat)
    requires k <= |es| && forall i, j | 0 <= i < j < |es| :: es[i].0 != es[j].0
    ensures var calls := AllDue(b, stale, es, k); forall i, j | 0 <= i < j < |calls| :: calls[i] != calls[j]
  {
    hide Live;
    if k > 0 {
      DueOnce(b, stale, es, k - 1);
      DueHas(b, stale, es, k - 1, NeighbourRemove(es[k - 1].0));
    }
  }

  lemma RecentLive(b: Book, cutoff: U64, a: Addr)
    ensures Live(Recent(b, cutoff), a) <==> Live(b, a) && a !in StaleIn(b, cutoff)
  {
  }

  lemma {:induction false} ExpiryTells(all: map<Addr, Peer>, b: Book, cutoff: U64, es: seq<(Addr, Peer)>)
    requires HashMap.Lists(es, all) && all.Keys == b.Keys
    ensures Tells(AllDue(b, StaleIn(b, cutoff), es, |es|), b, Recent(b, cutoff))
  {
    var calls := AllDue(b, StaleIn(b, cutoff), es, |es|);
    DueOnce(b, StaleIn(b, cutoff), es, |es|);
    forall a: Addr
      ensures NeighbourAdd(a) in calls <==> Live(Recent(b, cutoff), a) && !Live(b, a)
      ensures NeighbourRemove(a) in calls <==> Live(b, a) && !Live(Recent(b, cutoff), a)
    {
      hide AllDue, Recent, StaleIn;
      DueHas(b, StaleIn(b, cutoff), es, |es|, NeighbourAdd(a));
      DueHas(b, StaleIn(b, cutoff), es, |es|, NeighbourRemove(a));
      RecentLive(b, cutoff, a);
      assert a in b ==> a in all;
    }
  }

  // ---- Any run ----

  /** What happens to the table: a frame of any bytes is received, the clean-up timer fires, or a peer is removed. */
  datatype Happening =
    | Received(frame: Bytes, rssi: int, addr: Addr, now: U64, stack: Sequence)
    | CleanUp(cutoff: U64)
    | Removal(addr: Addr)

  /** The book and the receiver's clock after a run, and what the receptions returned. */
  datatype Outcome = Outcome(book: Book, station: Station, results: seq<Rx>)

  ghost function Happened(o: Outcome, f: Filter, h: Happening): Outcome {
    match h
    case Received(frame, rssi, addr, now, stack) =>
      var (b, st, r) := HearFrom(o.book, o.station, f, rssi, addr, now, stack, frame);
      Outcome(b, st, o.results + [r])
    case CleanUp(cutoff) => o.(book := Recent(o.book, cutoff))
    case Removal(addr) => o.(book := o.book - {addr})
  }

  ghost function AfterRun(st: Station, f: Filter, run: seq<Happening>): Outcome {
    if run == [] then Outcome(map[], st, [])
    else Happened(AfterRun(st, f, run[..|run| - 1]), f, run[|run| - 1])
  }

  /** Everyone a frame is received from. */
  ghost function Senders(run: seq<Happening>): set<Addr> { set h | h in run && h.Received? :: h.addr }

  /** The callbacks made over a run: at each happening, one for each neighbour it gained or lost. */
  ghost predicate LogOf(st: Station, f: Filter, run: seq<Happening>, log: seq<Event>) {
    if run == [] then log == []
    else
      var before := run[..|run| - 1];
      exists k | 0 <= k <= |log| :: LogOf(st, f, before, log[..k])
                                 && Tells(log[k..], AfterRun(st, f, before).book, AfterRun(st, f, run).book)
  }

  lemma LogOfNext(st: Station, f: Filter, run: seq<Happening>, i: nat, log: seq<Event>, calls: seq<Event>)
    requires i < |run| && LogOf(st, f, run[..i], log)
    requires Tells(calls, AfterRun(st, f, run[..i]).book, AfterRun(st, f, run[..i + 1]).book)
    ensures LogOf(st, f, run[..i + 1], log + calls)
  {
    hide Tells, AfterRun;
    var longer := log + calls;
    assert run[..i + 1][..i] == run[..i] && longer[..|log|] == log && longer[|log|..] == calls;
  }

  /** What has happened adds its results to those before. */
  lemma HappenedFrom(o: Outcome, f: Filter, h: Happening)
    ensures var o' := Happened(o.(results := []), f, h);
            Happened(o, f, h) == o'.(results := o.results + o'.results)
  {
    hide HearFrom, Recent;
  }

  /** One happening. */
  method Undergo(peers: PeerTable, receiver: Receiver, f: Filter, h: Happening)
      returns (results: seq<Rx>, lasted: bool, ghost calls: seq<Event>)
    requires peers.Valid()
    modifies receiver.sync, peers`log, peers`objs, peers.table, peers.table.data, peers.objs
    ensures peers.objs >= old(peers.objs) && fresh(peers.objs - old(peers.objs))
    ensures peers.table.data == old(peers.table.data) || fresh(peers.table.data)
    ensures lasted ==> && peers.Valid() && peers.log == old(peers.log) + calls
                       && Outcome(peers.Book(), receiver.Value(), results) ==
                          Happened(Outcome(old(peers.Book()), old(receiver.Value()), []), f, h)
                       && Tells(calls, old(peers.Book()), peers.Book())
    ensures !lasted ==> 2 * peers.table.data.Length > peers.table.budget
    ensures peers.Roomy(old(peers.table.data.Length), old(peers.Book()).Keys + Senders([h]),
                        peers.table.data.Length, lasted)
  {
    hide HashMap.Map.Valid, HashMap.Map.Sound, Mirrors, HearFrom, Recent, Tells, PeerTable.Book, PeerTable.Valid;
    hide Receiver.Value, Senders, HashMap.Fits, PeerTable.Roomy, Turned, Withdrawn;
    peers.SameRoom(peers.table.data.Length, peers.Book().Keys + Senders([h]));
    results, lasted := [], true;
    match h {
      case Received(bytes, rssi, addr, now, stack) =>
        OneSender(h);
        HeardTells(peers.Book(), receiver.Value(), f, rssi, addr, now, stack, bytes);
        calls := [];
        var frame := BufOf(bytes);
        ghost var before := peers.Book();
        var r, ok := peers.Receive(frame, rssi, f, addr, now, receiver, stack);
        calls := Turned(before, peers.Book(), addr);
        results, lasted := [r], ok;
      case CleanUp(cutoff) =>
        calls := peers.Expire(cutoff);
      case Removal(addr) =>
        RemovalTells(peers.Book(), addr);
        calls := Withdrawn(peers.Book(), addr);
        var status := peers.Remove(addr);
    }
  }

  lemma OneSender(h: Happening)
    requires h.Received?
    ensures Senders([h]) == {h.addr}
  {
    assert h in [h];
  }

  /** Over any run, unless memory runs out: the table holds exactly the records that the run makes, refreshes, fills
      and removes, the receiver's clock is the one the run sets, each happening calls back once for each neighbour it
      gains or loses and not otherwise, so that for every address the calls alternate, starting with an add, and the
      neighbours added and not removed are exactly the peers marked valid. Memory does not run out if there is enough
      for a table in which no window of the senders overflows. */
  method DrivePeers(hash: Addr -> nat, budget: nat, receiver: Receiver, f: Filter, run: seq<Happening>)
      returns (peers: PeerTable, results: seq<Rx>, lasted: bool)
    modifies receiver.sync
    ensures fresh(peers)
    ensures lasted ==> && Outcome(peers.Book(), receiver.Value(), results) == AfterRun(old(receiver.Value()), f, run)
                       && LogOf(old(receiver.Value()), f, run, peers.log) && Mirrors(peers.log, peers.Book())
    ensures !lasted ==> 2 * peers.table.data.Length > budget
    ensures (exists n: nat :: HashMap.Fits(256, n, Senders(run), hash, budget)) ==> lasted
  {
    hide *;
    peers := new PeerTable(hash, budget);
    results, lasted := [], true;
    ghost var st, keys := receiver.Value(), Senders(run);
    NoRun(st, f, run);
    HashMap.FitsBudget(256, keys, hash, budget);
    var i := 0;
    while i < |run|
      invariant 0 <= i <= |run| && fresh(peers) && peers.Valid()
      invariant fresh(peers.table) && fresh(peers.table.data) && fresh(peers.objs)
      invariant peers.table.hash == hash && peers.table.budget == budget
      invariant Outcome(peers.Book(), receiver.Value(), results) == AfterRun(st, f, run[..i])
      invariant LogOf(st, f, run[..i], peers.log)
      invariant forall n: nat | HashMap.Fits(256, n, keys, hash, budget) :: HashMap.Doubles(peers.table.data.Length, n)
    {
      OneMore(st, f, run, i);
      HappenedFrom(AfterRun(st, f, run[..i]), f, run[i]);
      ghost var n, known := peers.table.data.Length, peers.Book().Keys + Senders([run[i]]);
      HashMap.FitsFewer(256, keys, n, known, hash, budget);
      ghost var log := peers.log;
      var more, ok, calls := Undergo(peers, receiver, f, run[i]);
      RoomyMeans(peers, n, known, peers.table.data.Length, ok);
      if !ok { return peers, results, false; }
      results := results + more;
      LogOfNext(st, f, run, i, log, calls);
      i := i + 1;
    }
    assert run[..i] == run;
    peers.IsMirrored();
  }

  lemma RoomyMeans(peers: PeerTable, from: nat, keys: set<Addr>, to: nat, enough: bool)
    requires peers.Roomy(from, keys, to, enough)
    ensures forall n: nat | HashMap.Fits(from, n, keys, peers.table.hash, peers.table.budget) ::
              enough && HashMap.Doubles(to, n)
  {
  }

  method BufOf(bytes: Bytes) returns (b: Buf)
    ensures fresh(b) && fresh(b.data) && b.Valid() && b.Contents() == bytes
  {
    var data := new U8[|bytes|](i requires 0 <= i < |bytes| => bytes[i]);
    b := new Buf(data, 0, |bytes|);
    assert data[0..|bytes|] == bytes;
  }

  lemma NoRun(st: Station, f: Filter, run: seq<Happening>)
    ensures AfterRun(st, f, run[..0]) == Outcome(map[], st, []) && LogOf(st, f, run[..0], [])
  {
  }

  lemma HeardKeys(b: Book, st: Station, f: Filter, rssi: int, addr: Addr, now: U64, stack: Sequence, frame: Bytes)
    ensures HearFrom(b, st, f, rssi, addr, now, stack, frame).0.Keys <= b.Keys + {addr}
  {
  }

  lemma {:induction false} OneMore(st: Station, f: Filter, run: seq<Happening>, i: nat)
    requires i < |run|
    ensures AfterRun(st, f, run[..i + 1]) == Happened(AfterRun(st, f, run[..i]), f, run[i])
    ensures AfterRun(st, f, run[..i]).book.Keys + Senders([run[i]]) <= Senders(run)
  {
    hide HearFrom;
    assert run[..i + 1][..i] == run[..i] && run[i] in run;
    if i > 0 {
      OneMore(st, f, run, i - 1);
      var o, h := AfterRun(st, f, run[..i - 1]), run[i - 1];
      if h.Received? { HeardKeys(o.book, o.station, f, h.rssi, h.addr, h.now, h.stack, h.frame); }
    }
  }

  // ---- What runs mean for one peer ----

  /** What the book knew of an address before a frame: the record, or what a new one starts with. */
  function Known(b: Book, a: Addr): PeerInfo { if a in b then b[a].info else NewInfo(a) }

  /** A frame that gets past its header and the signal strength filter. */
  predicate Heard(b: Book, f: Filter, rssi: int, a: Addr, frame: Bytes) {
    ParseActionHeader(frame).Some? && !(f.on && rssi < f.threshold + (if a in b then f.grace else 0))
  }

  /** A frame is too weak if and only if the filter is on and its strength is below the threshold, to which the grace is
      added for a peer that is in the table; it then changes nothing. */
  lemma WeakFramesIgnored(b: Book, st: Station, f: Filter, rssi: int, a: Addr, now: U64, stack: Sequence, frame: Bytes)
    ensures var (b', st', r) := HearFrom(b, st, f, rssi, a, now, stack, frame);
            && (r == Ignore <==> ParseActionHeader(frame) == None)
            && (r == IgnoreRssi <==> && ParseActionHeader(frame) != None && f.on
                                     && (a in b ==> rssi < f.threshold + f.grace)
                                     && (a !in b ==> rssi < f.threshold))
            && (r in {Ignore, IgnoreRssi} ==> b' == b && st' == st)
            && (Heard(b, f, rssi, a, frame) <==> r !in {Ignore, IgnoreRssi})
  {
    var mif := ParseActionHeader(frame);
    if mif.Some? {
      var known := Touched(b, a, now);
      ListenKeepsMif(World(a, known[a].info, st), now, stack, frame[16..]);
    }
    hide Listen, ParseActionHeader;
  }

  /** After a frame that is heard, its sender is valid if and only if it was, or had sent a MIF, a device class and a
      version before, or has by now, and the frame could be parsed whole. A MIF counts as sent if it was before, or if
      this frame is one that could be parsed whole. */
  lemma ValidExactly(b: Book, st: Station, f: Filter, rssi: int, a: Addr, now: U64, stack: Sequence, frame: Bytes)
    requires Heard(b, f, rssi, a, frame)
    ensures var (b', st', r) := HearFrom(b, st, f, rssi, a, now, stack, frame);
            var i, mif := Known(b, a), ParseActionHeader(frame) == Some(true);
            && a in b' && b'[a].lastUpdate == now && (forall x :: x != a ==> (x in b <==> x in b'))
            && (forall x :: x != a && x in b ==> b'[x] == b[x])
            && (var j := b'[a].info;
                && (j.sentMif <==> i.sentMif || (mif && r == Ok))
                && (b'[a].isValid <==>
                    || (a in b && b[a].isValid)
                    || (i.sentMif && i.devclass != 0 && i.version != 0)
                    || (r == Ok && j.sentMif && j.devclass != 0 && j.version != 0)))
  {
    var known := Touched(b, a, now);
    ListenKeepsMif(World(a, known[a].info, st), now, stack, frame[16..]);
    hide Listen, ParseActionHeader;
  }

  /** A MIF is received from `a`. */
  predicate MifFrom(h: Happening, a: Addr) { h.Received? && h.addr == a && ParseActionHeader(h.frame) == Some(true) }

  /** Whoever has sent no MIF is no neighbour, whatever else it sends. */
  lemma {:induction false} NoMifNoNeighbour(st: Station, f: Filter, run: seq<Happening>, a: Addr)
    requires forall h <- run :: !MifFrom(h, a)
    ensures var b := AfterRun(st, f, run).book; a in b ==> !b[a].isValid && !b[a].info.sentMif
  {
    if run != [] {
      var n := |run| - 1;
      assert forall h <- run[..n] :: h in run;
      NoMifNoNeighbour(st, f, run[..n], a);
      var o, h := AfterRun(st, f, run[..n]), run[n];
      assert !MifFrom(h, a);
      if h.Received? {
        WeakFramesIgnored(o.book, o.station, f, h.rssi, h.addr, h.now, h.stack, h.frame);
        if Heard(o.book, f, h.rssi, h.addr, h.frame) {
          ValidExactly(o.book, o.station, f, h.rssi, h.addr, h.now, h.stack, h.frame);
        }
      }
      hide HearFrom, Heard, ParseActionHeader;
    }
  }

  /** And is never announced as one. */
  lemma {:induction false} NoMifNoCall(st: Station, f: Filter, run: seq<Happening>, log: seq<Event>, a: Addr)
    requires LogOf(st, f, run, log) && forall h <- run :: !MifFrom(h, a)
    ensures NeighbourAdd(a) !in log
  {
    if run != [] {
      var n := |run| - 1;
      var k :| 0 <= k <= |log| && LogOf(st, f, run[..n], log[..k])
               && Tells(log[k..], AfterRun(st, f, run[..n]).book, AfterRun(st, f, run).book);
      assert forall h <- run[..n] :: h in run;
      NoMifNoCall(st, f, run[..n], log[..k], a);
      NoMifNoNeighbour(st, f, run, a);
      hide AfterRun, LogOf;
      assert log == log[..k] + log[k..];
    }
  }

  // ---- Who is in the book ----

  /** A frame from `a` is heard at this point of a run. */
  ghost predicate HeardIn(o: Outcome, f: Filter, h: Happening, a: Addr) {
    h.Received? && h.addr == a && Heard(o.book, f, h.rssi, a, h.frame)
  }

  /** One happening and one address: a frame that is heard files the record, stamped with its time, and else the record
      stays as it is, or goes: by a removal, or by a clean-up whose cutoff its stamp is before. */
  lemma OneRecord(o: Outcome, f: Filter, h: Happening, a: Addr)
    ensures var b, b' := o.book, Happened(o, f, h).book;
            if HeardIn(o, f, h, a) then a in b' && b'[a].lastUpdate == h.now
            else && (a in b' <==> a in b && h != Removal(a) && !(h.CleanUp? && b[a].lastUpdate < h.cutoff))
                 && (a in b' ==> b'[a] == b[a])
  {
    if h.Received? {
      WeakFramesIgnored(o.book, o.station, f, h.rssi, h.addr, h.now, h.stack, h.frame);
      if Heard(o.book, f, h.rssi, h.addr, h.frame) {
        ValidExactly(o.book, o.station, f, h.rssi, h.addr, h.now, h.stack, h.frame);
      }
    }
    hide HearFrom, Heard;
  }

  /** A peer stays in the table as long as no clean-up has a cutoff after it was last heard, and it is not removed. */
  lemma {:induction false} StaysWhileHeard(st: Station, f: Filter, run: seq<Happening>, i: nat, a: Addr)
    requires i < |run| && HeardIn(AfterRun(st, f, run[..i]), f, run[i], a)
    requires forall j | i < j < |run| ::
               && run[j] != Removal(a) && (run[j].CleanUp? ==> run[j].cutoff <= run[i].now)
               && (run[j].Received? && run[j].addr == a ==> run[j].now >= run[i].now)
    ensures var b := AfterRun(st, f, run).book; a in b && b[a].lastUpdate >= run[i].now
    decreases |run|
  {
    hide HearFrom, Heard, Recent;
    var n := |run| - 1;
    OneRecord(AfterRun(st, f, run[..n]), f, run[n], a);
    if i < n {
      assert run[..n][..i] == run[..i];
      StaysWhileHeard(st, f, run[..n], i, a);
    }
  }

  /** And is gone after a clean-up whose cutoff is after everything it was heard at. */
  lemma GoneWhenSilent(st: Station, f: Filter, run: seq<Happening>, cutoff: U64, a: Addr)
    requires forall h <- run :: h.Received? && h.addr == a ==> h.now < cutoff
    ensures a !in AfterRun(st, f, run + [CleanUp(cutoff)]).book
  {
    StampedBefore(st, f, run, cutoff, a);
    assert (run + [CleanUp(cutoff)])[..|run|] == run;
    OneRecord(AfterRun(st, f, run), f, CleanUp(cutoff), a);
    hide Recent, HearFrom;
  }

  lemma {:induction false} StampedBefore(st: Station, f: Filter, run: seq<Happening>, cutoff: U64, a: Addr)
    requires forall h <- run :: h.Received? && h.addr == a ==> h.now < cutoff
    ensures var b := AfterRun(st, f, run).book; a in b ==> b[a].lastUpdate < cutoff
  {
    if run != [] {
      hide HearFrom, Heard, Recent;
      var n := |run| - 1;
      assert forall h <- run[..n] :: h in run;
      StampedBefore(st, f, run[..n], cutoff, a);
      OneRecord(AfterRun(st, f, run[..n]), f, run[n], a);
      assert run[n] in run;
    }
  }
}
