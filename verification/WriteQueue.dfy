/** SSLWrite and SSLRead over a transport that may block at any point: the write queue, the once-per-entry
    latch, and the OpenSSL write contract between them. */
module WriteQueue {
  import opened Machine
  import opened Wrappers

  const IO_RUN_MAX: nat := 65536

  // ---- The environment ----

  /** What the caller's write callback answers: its status, and how many bytes it took. */
  datatype Os = NoErr | WouldBlock | OtherError

  datatype Ask = Ask(os: Os, n: nat)

  /** How one OpenSSL call goes: the answers its BIO writes would get, in order, its outcome, and, for a read that
      yields something, how many bytes beyond the first. */
  datatype SslCall = SslCall(asks: seq<Ask>, outcome: SslOutcome, more: nat)

  datatype SslOutcome = Took | WantIo | Closed | Fatal

  /** The next call on the tape of outcomes; past its end, OpenSSL blocks. */
  function NextCall(tape: seq<SslCall>): SslCall {
    if tape == [] then SslCall([], WantIo, 0) else tape[0]
  }

  function Later(tape: seq<SslCall>): seq<SslCall> {
    if tape == [] then [] else tape[1..]
  }

  /** What is left of the tape once the queue, if there is one, has been offered. */
  function PastFlush(queued: bool, tape: seq<SslCall>): seq<SslCall> { if queued then Later(tape) else tape }

  /** Offering the queue ends in a fatal error. */
  predicate FlushFails(queued: bool, tape: seq<SslCall>) { queued && NextCall(tape).outcome in {Closed, Fatal} }

  /** What SSLRead tells the caller of the call of SSL_read it makes for `len` bytes. */
  predicate Answers(call: SslCall, len: nat, status: Status, n: nat) {
    && (status == Blocked <==> call.outcome == WantIo)
    && (status == ClosedGraceful <==> call.outcome == Closed)
    && (status == ClosedAbort <==> call.outcome == Fatal)
    && (status == Ok <==> call.outcome == Took)
    && (status != Ok ==> n == 0)
    && (status == Ok ==> n in {len, 65536, call.more + 1} && n <= len && n <= 65536 && n <= call.more + 1)
  }

  // ---- What the transport and the queue saw ----

  datatype Event =
    | Entry                     // the caller entered the engine
    | Asked(blocked: bool)      // the caller's write callback was asked, and whether it reported would-block
    | Held(queued: nat)         // bytes were put on the queue, on top of this many

  /** A would-block has been reported since the last entry. */
  ghost predicate Latched(log: seq<Event>) {
    log != [] &&
    match log[|log| - 1]
    case Entry => false
    case Asked(blocked) => blocked || Latched(log[..|log| - 1])
    case Held(_) => Latched(log[..|log| - 1])
  }

  /** The callback is never asked again in an entry in which it has reported would-block, and bytes are only ever
      put on an empty queue. */
  ghost predicate Polite(log: seq<Event>) {
    forall i | 0 <= i < |log| ::
      && (log[i].Asked? ==> !Latched(log[..i]))
      && (log[i].Held? ==> log[i].queued == 0)
  }

  lemma PoliteAppend(log: seq<Event>, e: Event)
    requires Polite(log) && (e.Asked? ==> !Latched(log)) && (e.Held? ==> e.queued == 0)
    ensures Polite(log + [e])
    ensures Latched(log + [e]) == match e
                                  case Entry => false
                                  case Asked(b) => b || Latched(log)
                                  case Held(_) => Latched(log)
  {
    var longer := log + [e];
    assert longer[..|log|] == log;
    forall i | 0 <= i < |log|
      ensures longer[..i] == log[..i] && longer[i] == log[i]
    {
    }
  }

  lemma RestIsHeld(start: Bytes, data: Bytes, off: nat, take: nat)
    requires off + take <= |data|
    ensures [] + data[off..] == data[off..] && data[off..off + take] <= data[off..]
    ensures (start + data[..off]) + data[off..] == start + data
  {
    assert data[off..off + take] == data[off..][..take];
    assert data == data[..off] + data[off..];
  }

  lemma NextRun(data: Bytes, off: nat)
    requires off < |data|
    ensures var n := Run(data[off..]); data[off..][..n] == data[off..off + n] && data[off..][n..] == data[off + n..]
  {
  }

  lemma RunIsTaken(start: Bytes, data: Bytes, off: nat, take: nat)
    requires off + take <= |data|
    ensures (start + data[..off]) + data[off..off + take] == start + data[..off + take]
  {
  }

  // ---- What the calls do to a connection ----

  datatype Status = Ok | Blocked | ClosedAbort | ClosedGraceful | Native

  /** A connection: the queue, OpenSSL's side (the write it blocked on, the plaintext it has taken, whether it has
      failed), the plaintext the caller was told was processed, and what the transport and the queue saw. */
  datatype Conn = Conn(
    connected: bool, wpend: Option<Bytes>, offer: Option<Bytes>, taken: Bytes, dead: bool, reported: Bytes,
    log: seq<Event>) {
    ghost function Queue(): Bytes { if wpend.Some? then wpend.value else [] }
  }

  const FRESH := Conn(true, None, None, [], false, [], [])

  /** The callback is asked for each write until it says would-block. */
  ghost function AskedAll(log: seq<Event>, asks: seq<Ask>): seq<Event>
    decreases |asks|
  {
    if asks == [] then log
    else AskedAll(if Latched(log) then log else log + [Asked(asks[0].os == WouldBlock)], asks[1..])
  }

  ghost function SslWrote(c: Conn, data: Bytes, call: SslCall): (Conn, SslOutcome) {
    var log := AskedAll(c.log, call.asks);
    match call.outcome
    case Took => (c.(taken := c.taken + data, offer := None, log := log), Took)
    case WantIo => (c.(offer := Some(data), log := log), WantIo)
    case _ => (c.(dead := true, log := log), Fatal)
  }

  /** The queue is offered, whole. */
  ghost function Flushed(c: Conn, tape: seq<SslCall>): (Conn, int, seq<SslCall>) {
    if c.wpend.None? then (c, 1, tape)
    else
      var (c', outcome) := SslWrote(c, c.wpend.value, NextCall(tape));
      match outcome
      case Took => (c'.(wpend := None), 1, Later(tape))
      case WantIo => (c', 0, Later(tape))
      case _ => (c', -1, Later(tape))
  }

  ghost function Hold(c: Conn, data: Bytes): Conn {
    c.(wpend := Some(c.Queue() + data), log := c.log + [Held(|c.Queue()|)])
  }

  function Run(data: Bytes): (n: nat)
    ensures n <= |data| && (data != [] ==> n > 0)
  {
    if |data| > IO_RUN_MAX then IO_RUN_MAX else |data|
  }

  /** Runs of at most 65536 bytes; on the first that blocks, all that is left is held. */
  ghost function RunsWritten(c: Conn, data: Bytes, tape: seq<SslCall>): (Conn, Status)
    decreases |data|
  {
    if data == [] then (c, Ok)
    else
      var (c', outcome) := SslWrote(c, data[..Run(data)], NextCall(tape));
      match outcome
      case Took => RunsWritten(c', data[Run(data)..], Later(tape))
      case WantIo => (Hold(c', data), Blocked)
      case _ => (c', ClosedAbort)
  }

  lemma NoRuns(c: Conn, data: Bytes, tape: seq<SslCall>)
    ensures data == [] ==> RunsWritten(c, data, tape) == (c, Ok)
  {
  }

  lemma RunsStep(c: Conn, data: Bytes, tape: seq<SslCall>)
    requires data != []
    ensures RunsWritten(c, data, tape) ==
            var (c', outcome) := SslWrote(c, data[..Run(data)], NextCall(tape));
            match outcome
            case Took => RunsWritten(c', data[Run(data)..], Later(tape))
            case WantIo => (Hold(c', data), Blocked)
            case _ => (c', ClosedAbort)
  {
  }

  ghost function Entered(c: Conn): Conn { c.(log := c.log + [Entry]) }

  ghost function Wrote(c: Conn, data: Bytes, tape: seq<SslCall>): (r: (Conn, Status, nat))
    ensures r.2 == 0 || r.2 == |data|
  {
    if !c.connected then (c, Native, 0)
    else
      var (c', f, rest) := Flushed(Entered(c), tape);
      if f < 0 then (c', ClosedAbort, 0)
      else if f == 0 then (c', Blocked, 0)
      else if data == [] then (c', Ok, 0)
      else
        var (c'', status) := RunsWritten(c', data, rest);
        if status == ClosedAbort then (c'', status, 0) else (c''.(reported := c''.reported + data), status, |data|)
  }

  ghost function ReadOne(c: Conn, len: nat, tape: seq<SslCall>): (Conn, Status, nat) {
    if !c.connected then (c, Native, 0)
    else
      var (c', f, rest) := Flushed(Entered(c), tape);
      if f < 0 then (c', ClosedAbort, 0)
      else if len == 0 then (c', Ok, 0)
      else Record(c', len, NextCall(rest))
  }

  ghost function Record(c: Conn, len: nat, call: SslCall): (Conn, Status, nat) {
    var want := if len > IO_RUN_MAX then IO_RUN_MAX else len;
    var asked := c.(log := AskedAll(c.log, call.asks));
    match call.outcome
    case Took => (asked, Ok, if call.more < want then call.more + 1 else want)
    case WantIo => (asked, Blocked, 0)
    case Closed => (asked, ClosedGraceful, 0)
    case Fatal => (asked.(dead := true), ClosedAbort, 0)
  }

  ghost function Closing(c: Conn, tape: seq<SslCall>): Conn {
    if !c.connected then c
    else
      var (c', f, rest) := Flushed(Entered(c), tape);
      c'.(log := AskedAll(c'.log, NextCall(rest).asks))
  }

  // ---- A connection ----

  class Shadow {
    var connected: bool
    var wpend: Option<Bytes>      // accepted from the caller, not yet taken by OpenSSL
    var wblocked: bool            // the callback has reported would-block in this entry

    // OpenSSL's side.
    var offer: Option<Bytes>      // the write it blocked on, and expects to see again
    ghost var taken: Bytes        // the plaintext it has taken, in order
    ghost var dead: bool          // it has reported a fatal error

    ghost var reported: Bytes     // the plaintext the caller was told was processed, in order
    ghost var log: seq<Event>

    ghost function Value(): Conn
      reads this
    {
      Conn(connected, wpend, offer, taken, dead, reported, log)
    }

    ghost function Queue(): Bytes
      reads this
    {
      Value().Queue()
    }

    /** Until a fatal error, what OpenSSL took and what is queued is what was reported, in order; a blocked write
        is the beginning of the queue, and nothing else is queued. */
    ghost predicate Valid()
      reads this
    {
      && (wpend.Some? ==> wpend.value != [])
      && Polite(log) && wblocked == Latched(log)
      && (!dead ==> && taken + Queue() == reported
                    && (offer.Some? <==> wpend.Some?)
                    && (offer.Some? ==> offer.value <= wpend.value))
    }

    constructor ()
      ensures Valid() && Value() == FRESH
    {
      connected, wpend, wblocked := true, None, false;
      offer, taken, dead, reported, log := None, [], false, [], [];
    }

    /** One write through the BIO: ask the callback, unless it has already said no in this entry. */
    method BioWrite(ask: Ask) returns (r: int)
      requires Polite(log) && wblocked == Latched(log)
      modifies this`wblocked, this`log
      ensures Polite(log) && wblocked == Latched(log)
      ensures wblocked == (old(wblocked) || ask.os == WouldBlock)
      ensures log == if old(wblocked) then old(log) else old(log) + [Asked(ask.os == WouldBlock)]
      ensures r == if !old(wblocked) && ask.n > 0 then ask.n else -1
    {
      if wblocked {
        return -1;
      }
      PoliteAppend(log, Asked(ask.os == WouldBlock));
      log := log + [Asked(ask.os == WouldBlock)];
      if ask.os == WouldBlock {
        wblocked := true;
      }
      if ask.n > 0 {
        return ask.n;
      }
      return -1;
    }

    /** OpenSSL's record layer writes as often as it likes. */
    method BioWrites(asks: seq<Ask>)
      requires Polite(log) && wblocked == Latched(log)
      modifies this`wblocked, this`log
      ensures Polite(log) && wblocked == Latched(log) && log == AskedAll(old(log), asks)
    {
      var i := 0;
      while i < |asks|
        invariant 0 <= i <= |asks| && Polite(log) && wblocked == Latched(log)
        invariant AskedAll(log, asks[i..]) == AskedAll(old(log), asks)
      {
        assert asks[i..][1..] == asks[i + 1..];
        var r := BioWrite(asks[i]);
        i := i + 1;
      }
    }

    /** SSL_write without partial writes: it takes the whole buffer or none of it. The buffer must not be empty,
        and after a block the next write must begin with what was offered then. */
    method SslWrite(data: Bytes, call: SslCall) returns (outcome: SslOutcome)
      requires data != [] && (!dead && offer.Some? ==> offer.value <= data)
      requires Polite(log) && wblocked == Latched(log)
      modifies this`wblocked, this`log, this`offer, this`taken, this`dead
      ensures Polite(log) && wblocked == Latched(log)
      ensures outcome == if call.outcome == Closed then Fatal else call.outcome
      ensures (Value(), outcome) == SslWrote(old(Value()), data, call)
      ensures outcome == Took ==> taken == old(taken) + data && offer == None && dead == old(dead)
      ensures outcome == WantIo ==> taken == old(taken) && offer == Some(data) && dead == old(dead)
      ensures outcome == Fatal ==> taken == old(taken) && dead
    {
      BioWrites(call.asks);
      match call.outcome
      case Took => taken := taken + data; offer := None; outcome := Took;
      case WantIo => offer := Some(data); outcome := WantIo;
      case _ => dead := true; outcome := Fatal;
    }

    method UnblockWrite()
      requires Valid()
      modifies this`wblocked, this`log
      ensures Valid() && !wblocked && log == old(log) + [Entry]
    {
      PoliteAppend(log, Entry);
      wblocked := false;
      log := log + [Entry];
    }

    /** 1 when the queue is empty, 0 when it still is not taken, -1 on a fatal error. */
    method FlushWrite(tape: seq<SslCall>) returns (r: int, rest: seq<SslCall>)
      requires Valid()
      modifies this`wblocked, this`log, this`offer, this`taken, this`dead, this`wpend
      ensures Valid() && r in {1, 0, -1} && (Value(), r, rest) == Flushed(old(Value()), tape)
      ensures r == 1 ==> wpend == None && dead == old(dead) && taken == old(taken) + old(Queue())
      ensures r == 0 ==> wpend.Some? && wpend == old(wpend) && dead == old(dead) && taken == old(taken)
      ensures r == -1 ==> dead
      ensures r == -1 <==> FlushFails(old(wpend).Some?, tape)
      ensures r == 0 <==> old(wpend).Some? && NextCall(tape).outcome == WantIo
      ensures rest == PastFlush(old(wpend).Some?, tape)
    {
      if wpend.None? {
        return 1, tape;
      }
      var outcome := SslWrite(wpend.value, NextCall(tape));
      rest := Later(tape);
      match outcome
      case Took => wpend := None; r := 1;
      case WantIo => r := 0;
      case _ => r := -1;
    }

    /** Appends to the queue. */
    method HoldWrite(data: Bytes) returns (ok: bool)
      modifies this`wpend, this`log
      ensures ok <==> data != []
      ensures Value() == if ok then Hold(old(Value()), data) else old(Value())
    {
      if data == [] {
        return false;
      }
      log := log + [Held(|Queue()|)];
      wpend := Some((if wpend.Some? then wpend.value else []) + data);
      return true;
    }

    /** The runs of an SSLWrite on an empty queue: on the first that blocks, the rest is held. */
    method WriteRuns(data: Bytes, tape: seq<SslCall>) returns (status: Status)
      requires data != [] && wpend == None && (!dead ==> offer == None)
      requires Polite(log) && wblocked == Latched(log)
      modifies this`wblocked, this`log, this`offer, this`taken, this`dead, this`wpend
      ensures Polite(log) && wblocked == Latched(log) && (Value(), status) == RunsWritten(old(Value()), data, tape)
      ensures status in {Ok, Blocked, ClosedAbort} && dead == (old(dead) || status == ClosedAbort)
      ensures status == Ok ==> taken == old(taken) + data && wpend == None && (!dead ==> offer == None)
      ensures status == Blocked ==> && wpend.Some? && 0 < |wpend.value| <= |data|
                                    && taken + wpend.value == old(taken) + data
                                    && offer.Some? && offer.value <= wpend.value
      ensures status == ClosedAbort ==> wpend == None
    {
      hide Polite, Latched, RunsWritten, SslWrote;
      var rest, off := tape, 0;
      while off < |data|
        invariant 0 <= off <= |data|
        invariant Polite(log) && wblocked == Latched(log) && wpend == None && dead == old(dead)
        invariant taken == old(taken) + data[..off]
        invariant !dead ==> offer == None
        invariant RunsWritten(Value(), data[off..], rest) == RunsWritten(old(Value()), data, tape)
        decreases |data| - off
      {
        NextRun(data, off);
        RunsStep(Value(), data[off..], rest);
        var take := |data| - off;
        if take > IO_RUN_MAX {
          take := IO_RUN_MAX;
        }
        var outcome := SslWrite(data[off..off + take], NextCall(rest));
        rest := Later(rest);
        if outcome == Took {
          RunIsTaken(old(taken), data, off, take);
          off := off + take;
          continue;
        }
        if outcome != WantIo {
          return ClosedAbort;
        }
        PoliteAppend(log, Held(0));
        RestIsHeld(old(taken), data, off, take);
        var held := HoldWrite(data[off..]);
        return Blocked;
      }
      assert data[..off] == data && data[off..] == [];
      NoRuns(Value(), data[off..], rest);
      return Ok;
    }

    /** SSLWrite. The caller is told how much of its data was processed, in the four ways Secure Transport does. */
    method Write(data: Bytes, tape: seq<SslCall>) returns (status: Status, processed: nat)
      requires Valid()
      modifies this
      ensures Valid() && connected == old(connected) && (old(dead) ==> dead)
      ensures (Value(), status, processed) == Wrote(old(Value()), data, tape)
      // Conservation: exactly the bytes reported as processed are added to what was taken or is queued.
      ensures (processed == 0 || processed == |data|) && reported == old(reported) + data[..processed]
      ensures old(dead) || (dead <==> status == ClosedAbort)
      ensures if old(connected) then status in {Ok, Blocked, ClosedAbort} else status == Native && wpend == old(wpend)
      // Everything was taken.
      ensures status == Ok ==> processed == |data| && wpend == None && taken == old(taken) + old(Queue()) + data
      // Blocked on the old queue: nothing new is accepted, and the queue is as it was.
      ensures status == Blocked && processed == 0 ==> old(wpend).Some? && wpend == old(wpend) && taken == old(taken)
      // Blocked on the new data: all of it is reported, and what OpenSSL did not take is held.
      ensures status == Blocked && processed > 0 ==>
                0 < |Queue()| <= |data| && taken + Queue() == old(taken) + old(Queue()) + data
    {
      hide Polite, Latched;
      if !connected {
        return Native, 0;
      }
      UnblockWrite();
      var f, rest := FlushWrite(tape);
      if f < 0 {
        return ClosedAbort, 0;
      }
      if f == 0 {
        return Blocked, 0;
      }
      if data == [] {
        return Ok, 0;
      }
      status := WriteRuns(data, rest);
      if status == ClosedAbort {
        return ClosedAbort, 0;
      }
      assert data[..|data|] == data;
      reported := reported + data;
      return status, |data|;
    }

    /** SSLRead: one attempt to flush the queue, then at most one record. */
    method Read(len: nat, tape: seq<SslCall>) returns (status: Status, processed: nat)
      requires Valid()
      modifies this
      ensures Valid() && connected == old(connected) && reported == old(reported) && processed <= len
      ensures (Value(), status, processed) == ReadOne(old(Value()), len, tape)
      ensures !old(dead) && dead ==> status == ClosedAbort
      ensures !dead ==> taken + Queue() == old(taken) + old(Queue())
      ensures !dead ==> wpend == None || wpend == old(wpend)
      ensures status == Ok <==> old(connected) && (processed > 0 || (len == 0 && status != ClosedAbort))
      // Every answer, from the tape.
      ensures !connected ==> (status, processed) == (Native, 0)
      ensures connected && FlushFails(old(wpend).Some?, tape) ==> (status, processed) == (ClosedAbort, 0)
      ensures connected && !FlushFails(old(wpend).Some?, tape) && len == 0 ==> (status, processed) == (Ok, 0)
      ensures connected && !FlushFails(old(wpend).Some?, tape) && len > 0 ==>
                Answers(NextCall(PastFlush(old(wpend).Some?, tape)), len, status, processed)
    {
      hide Polite, Latched, AskedAll, Flushed, Record;
      if !connected {
        return Native, 0;
      }
      UnblockWrite();
      var f, rest := FlushWrite(tape);
      if f < 0 {
        return ClosedAbort, 0;
      }
      if len == 0 {
        return Ok, 0;
      }
      hide FlushFails, PastFlush;
      status, processed := ReadRecord(len, NextCall(rest));
    }

    /** One call of SSL_read, and what its outcome means to the caller. */
    method ReadRecord(len: nat, call: SslCall) returns (status: Status, processed: nat)
      requires len > 0 && Polite(log) && wblocked == Latched(log)
      modifies this`wblocked, this`log, this`dead
      ensures Polite(log) && wblocked == Latched(log)
      ensures Answers(call, len, status, processed) && dead == (old(dead) || call.outcome == Fatal)
      ensures (Value(), status, processed) == Record(old(Value()), len, call)
    {
      hide Polite, Latched, AskedAll;
      var want := if len > IO_RUN_MAX then IO_RUN_MAX else len;
      BioWrites(call.asks);
      match call.outcome
      case Took => return Ok, if call.more < want then call.more + 1 else want;
      case WantIo => return Blocked, 0;
      case Closed => return ClosedGraceful, 0;
      case Fatal => dead := true; return ClosedAbort, 0;
    }

    /** The engine's part of SSLClose: a last attempt to flush, then the close alert. */
    method Close(tape: seq<SslCall>)
      requires Valid()
      modifies this
      ensures Valid() && reported == old(reported) && connected == old(connected)
              && Value() == Closing(old(Value()), tape)
      ensures !dead ==> taken + Queue() == old(taken) + old(Queue()) && (wpend == None || wpend == old(wpend))
    {
      if connected {
        UnblockWrite();
        var f, rest := FlushWrite(tape);
        BioWrites(NextCall(rest).asks);
      }
    }
  }

  // ---- Whole connections ----

  /** A call by the application, with the way OpenSSL and the transport will behave during it. */
  datatype Call =
    | CallWrite(data: Bytes, tape: seq<SslCall>)
    | CallRead(len: nat, tape: seq<SslCall>)
    | CallClose(tape: seq<SslCall>)

  /** What a sequence of calls on a fresh connection leaves, what each returned, and the bytes reported as accepted. */
  datatype Tally = Tally(conn: Conn, results: seq<(Status, nat)>, accepted: Bytes)

  ghost function Called(t: Tally, call: Call): Tally {
    match call
    case CallWrite(data, tape) =>
      var (c, status, n) := Wrote(t.conn, data, tape);
      Tally(c, t.results + [(status, n)], t.accepted + data[..n])
    case CallRead(len, tape) =>
      var (c, status, n) := ReadOne(t.conn, len, tape);
      Tally(c, t.results + [(status, n)], t.accepted)
    case CallClose(tape) => Tally(Closing(t.conn, tape), t.results + [(Ok, 0)], t.accepted)
  }

  ghost function AfterCalls(calls: seq<Call>): Tally {
    if calls == [] then Tally(FRESH, [], []) else Called(AfterCalls(calls[..|calls| - 1]), calls[|calls| - 1])
  }

  /** Any calls in any order on a fresh connection, against any blocking pattern: each returns what the calls before
      it determine; until a fatal error, what OpenSSL took plus what is queued is exactly the accepted bytes, in
      order; and throughout, the callback is never asked after a would-block in one entry and bytes are only ever
      held on an empty queue. */
  method Drive(calls: seq<Call>) returns (s: Shadow, results: seq<(Status, nat)>, accepted: Bytes)
    ensures fresh(s) && s.Valid() && Tally(s.Value(), results, accepted) == AfterCalls(calls)
    ensures !s.dead ==> s.taken + s.Queue() == accepted
    ensures Polite(s.log)
  {
    hide Wrote, ReadOne, Closing, Polite, Latched;
    s := new Shadow();
    results, accepted := [], [];
    var i := 0;
    while i < |calls|
      invariant 0 <= i <= |calls| && fresh(s) && s.Valid() && s.reported == accepted
      invariant Tally(s.Value(), results, accepted) == AfterCalls(calls[..i])
    {
      assert calls[..i + 1][..i] == calls[..i];
      match calls[i] {
        case CallWrite(data, tape) =>
          var status, n := s.Write(data, tape);
          results, accepted := results + [(status, n)], accepted + data[..n];
        case CallRead(len, tape) =>
          var status, n := s.Read(len, tape);
          results := results + [(status, n)];
        case CallClose(tape) =>
          s.Close(tape);
          results := results + [(Ok, 0)];
      }
      i := i + 1;
    }
    assert calls[..i] == calls;
  }

  lemma {:induction false} ResultsOf(calls: seq<Call>, i: nat)
    requires i < |calls|
    ensures |AfterCalls(calls).results| == |calls|
    ensures var before := AfterCalls(calls[..i]);
            && AfterCalls(calls).results[i] == Called(before, calls[i]).results[|before.results|]
            && |before.results| == i && before.conn.connected
    decreases |calls|
  {
    hide Wrote, ReadOne, Closing;
    var n := |calls| - 1;
    StaysConnected(calls[..i]);
    if i < n {
      ResultsOf(calls[..n], i);
      assert calls[..n][..i] == calls[..i];
    }
  }

  lemma {:induction false} StaysConnected(calls: seq<Call>)
    ensures AfterCalls(calls).conn.connected && |AfterCalls(calls).results| == |calls|
  {
    if calls != [] {
      var n := |calls| - 1;
      StaysConnected(calls[..n]);
      CallKeepsConnected(AfterCalls(calls[..n]), calls[n]);
      hide Wrote, ReadOne, Closing;
    }
  }

  lemma CallKeepsConnected(t: Tally, call: Call)
    ensures Called(t, call).conn.connected == t.conn.connected
  {
    hide AskedAll, RunsWritten;
    if call.CallWrite? && t.conn.connected {
      var (c, f, rest) := Flushed(Entered(t.conn), call.tape);
      RunsKeepConnected(c, call.data, rest);
    }
  }

  lemma {:induction false} RunsKeepConnected(c: Conn, data: Bytes, tape: seq<SslCall>)
    ensures RunsWritten(c, data, tape).0.connected == c.connected
    decreases |data|
  {
    hide AskedAll;
    if data != [] && NextCall(tape).outcome == Took {
      RunsKeepConnected(SslWrote(c, data[..Run(data)], NextCall(tape)).0, data[Run(data)..], Later(tape));
    }
  }

  /** In any run, what the read at position `i` is told: what the call of SSL_read was, after the flush of what the
      calls before have left in the queue. So it is told of the end of the stream exactly if that call found the peer's
      close. */
  lemma ReadIsAnswered(calls: seq<Call>, i: nat)
    requires i < |calls| && calls[i].CallRead? && calls[i].len > 0
    ensures |AfterCalls(calls).results| == |calls|
    ensures var (status, n) := AfterCalls(calls).results[i];
            var queued, tape := AfterCalls(calls[..i]).conn.wpend.Some?, calls[i].tape;
            if FlushFails(queued, tape) then (status, n) == (ClosedAbort, 0)
            else Answers(NextCall(PastFlush(queued, tape)), calls[i].len, status, n)
  {
    ResultsOf(calls, i);
    ReadAnswers(AfterCalls(calls[..i]).conn, calls[i].len, calls[i].tape);
    hide ReadOne, AfterCalls, Answers;
  }

  lemma ReadAnswers(c: Conn, len: nat, tape: seq<SslCall>)
    requires c.connected && len > 0
    ensures var (c', status, n) := ReadOne(c, len, tape);
            if FlushFails(c.wpend.Some?, tape) then (status, n) == (ClosedAbort, 0)
            else Answers(NextCall(PastFlush(c.wpend.Some?, tape)), len, status, n)
  {
    hide AskedAll;
  }

  /** A connection that is only read from: each read is told what its own call of SSL_read was. The end of the stream is
      reported if and only if one of them found the peer's close. */
  lemma {:induction false} ReadsReportTheEnd(calls: seq<Call>)
    requires forall call <- calls :: call.CallRead? && call.len > 0
    ensures var results := AfterCalls(calls).results;
            && |results| == |calls|
            && (forall i | 0 <= i < |calls| ::
                  Answers(NextCall(calls[i].tape), calls[i].len, results[i].0, results[i].1))
            && ((exists i | 0 <= i < |calls| :: results[i].0 == ClosedGraceful) <==>
                (exists i | 0 <= i < |calls| :: NextCall(calls[i].tape).outcome == Closed))
  {
    StaysConnected(calls);
    forall i | 0 <= i < |calls|
      ensures var results := AfterCalls(calls).results;
              Answers(NextCall(calls[i].tape), calls[i].len, results[i].0, results[i].1)
    {
      ReadIsAnswered(calls, i);
      ReadsQueueNothing(calls[..i]);
    }
    hide AfterCalls;
  }

  lemma {:induction false} ReadsQueueNothing(calls: seq<Call>)
    requires forall call <- calls :: call.CallRead?
    ensures AfterCalls(calls).conn.wpend == None
  {
    if calls != [] {
      var n := |calls| - 1;
      assert forall call <- calls[..n] :: call in calls;
      ReadsQueueNothing(calls[..n]);
      ReadQueuesNothing(AfterCalls(calls[..n]), calls[n]);
      hide Called;
    }
  }

  lemma ReadQueuesNothing(t: Tally, call: Call)
    requires t.conn.wpend == None && call.CallRead?
    ensures Called(t, call).conn.wpend == None
  {
    hide AskedAll;
  }

  /** The transport takes what is queued, and then no call fails. */
  predicate LetsThrough(tape: seq<SslCall>) {
    tape != [] && tape[0].outcome == Took && NeverFails(tape)
  }

  predicate NeverFails(tape: seq<SslCall>) { forall call <- tape :: call.outcome in {Took, WantIo} }

  lemma {:induction false} RunsNeverAbort(c: Conn, data: Bytes, tape: seq<SslCall>)
    requires NeverFails(tape)
    ensures RunsWritten(c, data, tape).1 != ClosedAbort
    decreases |data|
  {
    if data != [] {
      assert NextCall(tape).outcome in {Took, WantIo};
      var (c', outcome) := SslWrote(c, data[..Run(data)], NextCall(tape));
      if outcome == Took { RunsNeverAbort(c', data[Run(data)..], Later(tape)); }
    }
  }

  /** Such a transport gets all of a write processed, whatever was queued. */
  lemma WriteGoesThrough(c: Conn, data: Bytes, tape: seq<SslCall>)
    requires c.connected && LetsThrough(tape)
    ensures Wrote(c, data, tape).2 == |data|
  {
    hide AskedAll, RunsWritten;
    var (c', f, rest) := Flushed(Entered(c), tape);
    assert f == 1 && NeverFails(rest);
    RunsNeverAbort(c', data, rest);
  }

  /** An application that offers again what has not been processed yet, in one call for each tape. */
  ghost function SentAfter(c: Conn, data: Bytes, sent: nat, tapes: seq<seq<SslCall>>): (Conn, nat)
    requires sent <= |data|
    decreases |tapes|
  {
    if tapes == [] then (c, sent)
    else
      var (c', status, n) := Wrote(c, data[sent..], tapes[0]);
      SentAfter(c', data, sent + n, tapes[1..])
  }

  /** Its data goes to OpenSSL and the queue unchanged and in order, however it is cut up, and all of it has been
      processed as soon as the transport once lets a call through. */
  method SendAll(s: Shadow, data: Bytes, tapes: seq<seq<SslCall>>) returns (sent: nat)
    requires s.Valid() && s.connected
    modifies s
    ensures s.Valid() && sent <= |data| && (s.Value(), sent) == SentAfter(old(s.Value()), data, 0, tapes)
    ensures !s.dead ==> s.taken + s.Queue() == old(s.taken) + old(s.Queue()) + data[..sent]
    ensures (exists tape <- tapes :: LetsThrough(tape)) ==> sent == |data|
  {
    hide Wrote, Polite, Latched, LetsThrough;
    sent := 0;
    var i := 0;
    while i < |tapes|
      invariant 0 <= i <= |tapes| && sent <= |data| && s.Valid() && s.connected
      invariant s.reported == old(s.reported) + data[..sent] && (old(s.dead) ==> s.dead)
      invariant SentAfter(s.Value(), data, sent, tapes[i..]) == SentAfter(old(s.Value()), data, 0, tapes)
      invariant (exists j | 0 <= j < i :: LetsThrough(tapes[j])) ==> sent == |data|
    {
      assert tapes[i..][1..] == tapes[i + 1..];
      if LetsThrough(tapes[i]) { WriteGoesThrough(s.Value(), data[sent..], tapes[i]); }
      var status, n := s.Write(data[sent..], tapes[i]);
      assert data[..sent] + data[sent..][..n] == data[..sent + n];
      sent := sent + n;
      i := i + 1;
    }
  }

  // ---- Two limits that comments in the code claim and the code does not keep ----

  /** Where the first run starts that is not taken. */
  function TakenRuns(data: Bytes, tape: seq<SslCall>): (off: nat)
    ensures off <= |data|
    decreases |data|
  {
    if data == [] || NextCall(tape).outcome != Took then 0 else Run(data) + TakenRuns(data[Run(data)..], Later(tape))
  }

  /** A write that blocks leaves all of its data from the blocked run on in the queue, and so more than one run of
      65536 bytes exactly if more than that was left. */
  lemma {:induction false} QueueIsRest(c: Conn, data: Bytes, tape: seq<SslCall>)
    requires c.wpend == None && RunsWritten(c, data, tape).1 == Blocked
    ensures var q := RunsWritten(c, data, tape).0.Queue();
            && q == data[TakenRuns(data, tape)..]
            && (|q| > IO_RUN_MAX <==> |data| - TakenRuns(data, tape) > IO_RUN_MAX)
    decreases |data|
  {
    hide AskedAll, RunsWritten;
    NoRuns(c, data, tape);
    RunsStep(c, data, tape);
    var n, call := Run(data), NextCall(tape);
    if call.outcome == Took {
      QueueIsRest(SslWrote(c, data[..n], call).0, data[n..], Later(tape));
      assert data[n..][TakenRuns(data[n..], Later(tape))..] == data[TakenRuns(data, tape)..];
    } else {
      assert [] + data == data;
    }
  }

  /** So a first write of more than 65536 bytes to a transport that blocks at once queues all of it. */
  lemma QueueExceedsRun(data: Bytes)
    requires |data| > IO_RUN_MAX
    ensures var (c, status, n) := Wrote(FRESH, data, []);
            status == Blocked && n == |data| && |c.Queue()| == |data| > IO_RUN_MAX
  {
    QueueIsRest(Entered(FRESH), data, []);
  }

  /** How many of these asks reach the callback: all up to the first that blocks. */
  function Reaching(asks: seq<Ask>): (n: nat)
    ensures n <= |asks|
  {
    if asks == [] then 0 else if asks[0].os == WouldBlock then 1 else 1 + Reaching(asks[1..])
  }

  /** The calls of the callback that these asks make. */
  ghost function Calls(asks: seq<Ask>): seq<Event> {
    seq(Reaching(asks), i requires 0 <= i < Reaching(asks) => Asked(asks[i].os == WouldBlock))
  }

  /** Without a would-block so far, the callback is asked once for each up to the first that blocks. */
  lemma {:induction false} AskedAllIs(log: seq<Event>, asks: seq<Ask>)
    requires !Latched(log)
    ensures AskedAll(log, asks) == log + Calls(asks)
    decreases |asks|
  {
    if asks != [] {
      var e := Asked(asks[0].os == WouldBlock);
      assert (log + [e])[..|log|] == log;
      if asks[0].os == WouldBlock {
        LatchedAsks(log + [e], asks[1..]);
      } else {
        AskedAllIs(log + [e], asks[1..]);
      }
    }
  }

  lemma {:induction false} LatchedAsks(log: seq<Event>, asks: seq<Ask>)
    requires Latched(log)
    ensures AskedAll(log, asks) == log
    decreases |asks|
  {
    if asks != [] { LatchedAsks(log, asks[1..]); }
  }

  lemma {:induction false} AskedConcat(log: seq<Event>, a: seq<Ask>, b: seq<Ask>)
    ensures AskedAll(log, a + b) == AskedAll(AskedAll(log, a), b)
    decreases |a|
  {
    if a == [] {
      assert a + b == b;
    } else {
      assert (a + b)[1..] == a[1..] + b;
      AskedConcat(if Latched(log) then log else log + [Asked(a[0].os == WouldBlock)], a[1..], b);
    }
  }

  /** The asks of the runs, up to and with the first that is not taken. */
  ghost function RunAsks(data: Bytes, tape: seq<SslCall>): seq<Ask>
    decreases |data|
  {
    if data == [] then []
    else NextCall(tape).asks
         + if NextCall(tape).outcome == Took then RunAsks(data[Run(data)..], Later(tape)) else []
  }

  lemma {:induction false} RunsLog(c: Conn, data: Bytes, tape: seq<SslCall>)
    requires c.wpend == None
    ensures var (c', status) := RunsWritten(c, data, tape);
            c'.log == AskedAll(c.log, RunAsks(data, tape)) + (if status == Blocked then [Held(0)] else [])
    decreases |data|
  {
    if data != [] {
      var call := NextCall(tape);
      AskedConcat(c.log, call.asks, if call.outcome == Took then RunAsks(data[Run(data)..], Later(tape)) else []);
      if call.outcome == Took { RunsLog(SslWrote(c, data[..Run(data)], call).0, data[Run(data)..], Later(tape)); }
    }
  }

  /** All the writes that OpenSSL attempts in an entry: those of the flush, if anything is queued, and then those of
      the runs, of the record read, or of the close alert. */
  ghost function EntryAsks(c: Conn, call: Call): seq<Ask> {
    var (c', f, rest) := Flushed(Entered(c), call.tape);
    (if c.wpend.Some? then NextCall(call.tape).asks else []) +
    match call
    case CallWrite(data, _) => if f == 1 then RunAsks(data, rest) else []
    case CallRead(len, _) => if f >= 0 && len > 0 then NextCall(rest).asks else []
    case CallClose(_) => NextCall(rest).asks
  }

  lemma EntryLog(t: Tally, call: Call)
    requires t.conn.connected
    ensures var t' := Called(t, call);
            t'.conn.log == AskedAll(t.conn.log + [Entry], EntryAsks(t.conn, call))
              + HeldIn(call, t'.results[|t.results|])
  {
    hide AskedAll, RunsWritten;
    var c := Entered(t.conn);
    var (c', f, rest) := Flushed(c, call.tape);
    var flush := if t.conn.wpend.Some? then NextCall(call.tape).asks else [];
    NoAsks(c.log);
    AskedConcat(c.log, flush, EntryAsks(t.conn, call)[|flush|..]);
    assert EntryAsks(t.conn, call) == flush + EntryAsks(t.conn, call)[|flush|..];
    NoAsks(c'.log);
    if call.CallWrite? && f == 1 {
      RunsLog(c', call.data, rest);
      NoRuns(c', call.data, rest);
    }
  }

  /** What a call puts on the queue: a write that blocks on its own data, once, on an empty queue. */
  ghost function HeldIn(call: Call, result: (Status, nat)): seq<Event> {
    if call.CallWrite? && result.0 == Blocked && result.1 > 0 then [Held(0)] else []
  }

  lemma NoAsks(log: seq<Event>)
    ensures AskedAll(log, []) == log
  {
  }

  /** In any entry the callback is asked once for each write that OpenSSL attempts, up to the first that blocks, and so
      a second time exactly if a second write is attempted and the first did not block. */
  lemma AskedUntilBlocked(t: Tally, call: Call)
    requires t.conn.connected
    ensures var t', asks := Called(t, call), EntryAsks(t.conn, call);
            && t'.conn.log == t.conn.log + [Entry] + Calls(asks) + HeldIn(call, t'.results[|t.results|])
            && (|Calls(asks)| >= 2 <==> |asks| >= 2 && asks[0].os != WouldBlock)
  {
    EntryLog(t, call);
    hide Called, EntryAsks, HeldIn;
    AskedAllIs(t.conn.log + [Entry], EntryAsks(t.conn, call));
    TwoReach(EntryAsks(t.conn, call));
  }

  lemma TwoReach(asks: seq<Ask>)
    ensures Reaching(asks) >= 2 <==> |asks| >= 2 && asks[0].os != WouldBlock
  {
    if |asks| >= 2 { assert asks[1..] != []; }
  }

  /** Two short writes in one SSLWrite: the callback is asked twice in one entry. */
  lemma AskedTwiceInOneEntry()
    ensures var tape := [SslCall([Ask(NoErr, 1), Ask(NoErr, 1)], Took, 0)];
            Wrote(FRESH, [7], tape).0.log == [Entry, Asked(false), Asked(false)]
  {
    var asks := [Ask(NoErr, 1), Ask(NoErr, 1)];
    var tape := [SslCall(asks, Took, 0)];
    var c := Entered(FRESH);
    AskedAllIs(c.log, asks);
    assert asks[1..] == [Ask(NoErr, 1)] && Reaching(asks[1..]) == 1;
    assert AskedAll(c.log, asks) == [Entry, Asked(false), Asked(false)];
    assert [7][Run([7])..] == [];
    var c' := SslWrote(c, [7][..Run([7])], tape[0]).0;
    assert RunsWritten(c', [], Later(tape)) == (c', Ok);
  }
}
