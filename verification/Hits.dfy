/** Which lookups of the two caches are hits, told from the calls alone: by how many other keys have been used since. */
module Hits {
  import opened Machine
  import opened Wrappers
  import opened Recency
  import opened Ahead
  import opened Caches
  import opened Sets

  // ---- Sessions ----

  type SessionOp = Op<Bytes, Session>

  /** The operation makes its key the most recent: a store under a key of 1 to 256 bytes, or a lookup that hits. */
  ghost predicate Touches(before: seq<SessionOp>, op: SessionOp)
    decreases |before|, 2
  {
    match op
    case Store(k, session) => 1 <= |k| <= 256
    case Use(k) => k != [] && Kept(before, k)
  }

  /** Operation `j` is the last with this key. */
  ghost predicate LastWith(ops: seq<SessionOp>, k: Bytes, j: nat) {
    j < |ops| && ops[j].key == k && forall i | j < i < |ops| :: ops[i].key != k
  }

  /** The keys made the most recent after operation `j`. */
  ghost function TouchedSince(ops: seq<SessionOp>, j: nat): set<Bytes>
    decreases |ops|, 0
  {
    set i | j < i < |ops| && Touches(ops[..i], ops[i]) :: ops[i].key
  }

  /** The last operation with this key made it the most recent, and fewer than 32 others have been that since. */
  ghost predicate Kept(ops: seq<SessionOp>, k: Bytes)
    decreases |ops|, 1
  {
    exists j: nat :: LastWith(ops, k, j) && Touches(ops[..j], ops[j]) && |TouchedSince(ops, j)| < 32
  }

  lemma {:induction false} BadKeyNotKept(ops: seq<SessionOp>, k: Bytes)
    requires !(1 <= |k| <= 256)
    ensures !Kept(ops, k)
    decreases |ops|
  {
    if Kept(ops, k) {
      var j: nat :| LastWith(ops, k, j) && Touches(ops[..j], ops[j]) && |TouchedSince(ops, j)| < 32;
      BadKeyNotKept(ops[..j], k);
      assert false;
    }
  }

  lemma AtMost32(ops: seq<SessionOp>)
    ensures DistinctKeys(Cached(ops)) && |Cached(ops)| <= 32
  {
    CacheIsMostRecent(ops);
    CutDistinct(History(ops));
  }

  /** What one operation with another key adds to the keys used since `j`. */
  lemma TouchedSinceNext(ops: seq<SessionOp>, j: nat)
    requires j + 1 < |ops|
    ensures var before, op := ops[..|ops| - 1], ops[|ops| - 1];
            TouchedSince(ops, j) == TouchedSince(before, j) + (if Touches(before, op) then {op.key} else {})
  {
    var n := |ops| - 1;
    assert forall i | 0 <= i < n :: ops[..n][..i] == ops[..i];
    hide Touches;
  }

  lemma LastWithOther(ops: seq<SessionOp>, k: Bytes, j: nat)
    requires ops != [] && ops[|ops| - 1].key != k
    ensures LastWith(ops, k, j) <==> LastWith(ops[..|ops| - 1], k, j)
  {
  }

  /** The key is listed by the list `l` exactly if it is kept, and then behind the keys used since. */
  ghost predicate Told(l: Lru<Bytes, Session>, ops: seq<SessionOp>, k: Bytes) {
    && (Find(l, k).Some? <==> Kept(ops, k))
    && (Find(l, k).Some? ==> forall j: nat | LastWith(ops, k, j) :: Front(l, k) == TouchedSince(ops, j))
  }

  lemma {:induction false} KeptIsCached(ops: seq<SessionOp>, k: Bytes)
    ensures Told(Cached(Effective(ops)), ops, k)
    decreases |ops|
  {
    if ops == [] {
    } else {
      var n := |ops| - 1;
      var before, op := ops[..n], ops[n];
      var l := Cached(Effective(before));
      KeptIsCached(before, k);
      KeptIsCached(before, op.key);
      AtMost32(Effective(before));
      AtMost32(Effective(ops));
      EffectiveStep(ops, n);
      assert ops[..n + 1] == ops;
      hide Cached, Effective;
      if op.key == k { ToldItself(l, ops); } else { ToldOther(l, ops, k); }
    }
  }

  lemma ToldItself(l: Lru<Bytes, Session>, ops: seq<SessionOp>)
    requires ops != [] && DistinctKeys(l)
    requires Told(l, ops[..|ops| - 1], ops[|ops| - 1].key)
    ensures var op := ops[|ops| - 1]; Told(if Ineffective(op) then l else Applied(l, op), ops, op.key)
  {
    var n := |ops| - 1;
    var before, op := ops[..n], ops[n];
    var k := op.key;
    assert forall j: nat :: LastWith(ops, k, j) <==> j == n;
    assert TouchedSince(ops, n) == {};
    hide Find, Used, Stored, DistinctKeys, TouchedSince, Front;
    if Touches(before, op) {
      assert Kept(ops, k);
      if op.Use? { UsedFirst(l, k); } else { StoredFirst(l, k, op.value); }
    } else {
      assert !Kept(ops, k);
      if op.Store? || k == [] {
        BadKeyNotKept(before, k);
      } else {
        NoUse(l, k);
      }
    }
  }

  lemma NoUse(l: Lru<Bytes, Session>, k: Bytes)
    requires Find(l, k) == None
    ensures Used(l, k) == l
  {
  }

  lemma ToldOther(l: Lru<Bytes, Session>, ops: seq<SessionOp>, k: Bytes)
    requires ops != [] && ops[|ops| - 1].key != k && DistinctKeys(l)
    requires Told(l, ops[..|ops| - 1], k) && Told(l, ops[..|ops| - 1], ops[|ops| - 1].key)
    requires var op := ops[|ops| - 1];
             var l' := if Ineffective(op) then l else Applied(l, op); DistinctKeys(l') && |l'| <= 32
    ensures var op := ops[|ops| - 1]; Told(if Ineffective(op) then l else Applied(l, op), ops, k)
  {
    var n := |ops| - 1;
    var before, op := ops[..n], ops[n];
    var l' := if Ineffective(op) then l else Applied(l, op);
    forall j: nat
      ensures LastWith(ops, k, j) <==> LastWith(before, k, j)
    {
      LastWithOther(ops, k, j);
    }
    if !Touches(before, op) {
      if op.Use? && op.key != [] { NoUse(l, op.key); }
      assert l' == l;
    } else if op.Use? {
      FrontUsed(l, op.key, k);
      if Find(l', k).Some? { FrontSize(l', k); }
    } else {
      FrontStored(l, op.key, op.value, k);
      if Find(l', k).Some? { FrontSize(l', k); }
    }
    ToldNext(l, l', ops, k);
  }

  /** Front and fate of a key after an operation with another key. */
  lemma ToldNext(l: Lru<Bytes, Session>, l': Lru<Bytes, Session>, ops: seq<SessionOp>, k: Bytes)
    requires ops != [] && ops[|ops| - 1].key != k && Told(l, ops[..|ops| - 1], k)
    requires forall j: nat :: LastWith(ops, k, j) <==> LastWith(ops[..|ops| - 1], k, j)
    requires var added := if Touches(ops[..|ops| - 1], ops[|ops| - 1]) then {ops[|ops| - 1].key} else {};
             && (Find(l', k).Some? ==> Find(l, k).Some? && Front(l', k) == Front(l, k) + added && |Front(l', k)| < 32)
             && (Find(l, k).Some? && |Front(l, k) + added| < 32 ==> Find(l', k).Some?)
    ensures Told(l', ops, k)
  {
    hide Touches, Find, Front;
    var n := |ops| - 1;
    var before := ops[..n];
    if j: nat :| LastWith(before, k, j) {
      assert ops[..j] == before[..j] && ops[j] == before[j];
      assert forall i: nat | LastWith(before, k, i) :: i == j;
      TouchedSinceNext(ops, j);
      hide TouchedSince;
      if |TouchedSince(ops, j)| < 32 { Fewer(TouchedSince(before, j), TouchedSince(ops, j)); }
    }
  }

  /** The last store under this key, operation `j`, is of this session. */
  ghost predicate LastStoreAt(ops: seq<SessionOp>, k: Bytes, j: nat, session: Session) {
    && j < |ops| && ops[j] == Store(k, session)
    && forall i | j < i < |ops| && ops[i].Store? :: ops[i].key != k
  }

  lemma {:induction false} LastStoredIs(ops: seq<SessionOp>, k: Bytes)
    requires 1 <= |k| <= 256 && LastStored(Effective(ops), k).Some?
    ensures exists j: nat :: LastStoreAt(ops, k, j, LastStored(Effective(ops), k).value)
    decreases |ops|
  {
    var n := |ops| - 1;
    assert ops != [];
    var before, op := ops[..n], ops[n];
    var e := Effective(before);
    assert (e + [op])[..|e|] == e;
    if op.Store? && op.key == k {
      assert LastStoreAt(ops, k, n, op.value);
    } else {
      LastStoredIs(before, k);
      var j: nat :| LastStoreAt(before, k, j, LastStored(e, k).value);
      assert LastStoreAt(ops, k, j, LastStored(e, k).value);
    }
  }

  /** A lookup is a hit if and only if the last operation with its key made that key the most recent and fewer than 32
      other keys have been that since; it finds the session of the last store under the key. */
  lemma SessionHits(ops: seq<SessionOp>, op: SessionOp)
    ensures var hit := SessionHit(Cached(Effective(ops)), op);
            && (hit.Some? <==> op.Use? && op.key != [] && Kept(ops, op.key))
            && (hit.Some? ==> exists j: nat :: LastStoreAt(ops, op.key, j, hit.value))
  {
    var l := Cached(Effective(ops));
    KeptIsCached(ops, op.key);
    if SessionHit(l, op).Some? {
      UsedHit(Effective(ops), op.key);
      if !(1 <= |op.key| <= 256) { BadKeyNotKept(ops, op.key); }
      LastStoredIs(ops, op.key);
    }
  }

  /** Over any sequence of lookups and stores, each lookup is such a hit or none. */
  method AnswerSessions(ops: seq<SessionOp>) returns (hits: seq<Option<Session>>)
    ensures |hits| == |ops|
    ensures forall i | 0 <= i < |ops| ::
              hits[i].Some? <==> ops[i].Use? && ops[i].key != [] && Kept(ops[..i], ops[i].key)
    ensures forall i | 0 <= i < |ops| && hits[i].Some? ::
              exists j: nat :: LastStoreAt(ops[..i], ops[i].key, j, hits[i].value)
  {
    hide Kept, LastStoreAt, SessionHit, Cached, Effective;
    var cache, freed;
    cache, hits, freed := DriveSessions(ops);
    forall i | 0 <= i < |ops|
      ensures hits[i].Some? <==> ops[i].Use? && ops[i].key != [] && Kept(ops[..i], ops[i].key)
      ensures hits[i].Some? ==> exists j: nat :: LastStoreAt(ops[..i], ops[i].key, j, hits[i].value)
    {
      SessionHits(ops[..i], ops[i]);
    }
  }

  // ---- Verified chains ----

  /** The call makes its digest the most recent: a store, or a lookup that hits. */
  ghost predicate Keeps(before: seq<ChainCall>, call: ChainCall)
    decreases |before|, 4
  {
    match call
    case ChainPut(d, now) => true
    case ChainGet(d, now) => Fresh(before, d, now)
  }

  ghost predicate LastFor(calls: seq<ChainCall>, d: Bytes, j: nat) {
    j < |calls| && calls[j].digest == d && forall i | j < i < |calls| :: calls[i].digest != d
  }

  /** The digests stored or found after call `j`, without those looked up since and not found. */
  ghost function Since(calls: seq<ChainCall>, j: nat): set<Bytes>
    decreases |calls|, 0
  {
    if |calls| <= j + 1 then {}
    else
      var before, call := calls[..|calls| - 1], calls[|calls| - 1];
      if Keeps(before, call) then Since(before, j) + {call.digest} else Since(before, j) - {call.digest}
  }

  /** At no time since call `j` have there been 32 of them. */
  ghost predicate Roomy(calls: seq<ChainCall>, j: nat)
    decreases |calls|, 1
  {
    forall i | j < i <= |calls| :: |Since(calls[..i], j)| < 32
  }

  /** The last call with this digest stored or found it, and at no time since have there been 32 others. */
  ghost predicate Held(calls: seq<ChainCall>, d: Bytes)
    decreases |calls|, 2
  {
    exists j: nat :: LastFor(calls, d, j) && Keeps(calls[..j], calls[j]) && Roomy(calls, j)
  }

  /** The digest is held and was last stored at most 600 seconds ago. */
  ghost predicate Fresh(calls: seq<ChainCall>, d: Bytes, now: int)
    decreases |calls|, 3
  {
    Held(calls, d) && LastPut(calls, d).Some? && now - LastPut(calls, d).value <= 600
  }

  ghost predicate ChainTold(l: Lru<Bytes, int>, calls: seq<ChainCall>, d: Bytes) {
    && (Find(l, d).Some? <==> Held(calls, d))
    && (Find(l, d).Some? ==> forall j: nat | LastFor(calls, d, j) :: Front(l, d) == Since(calls, j))
  }

  lemma {:induction false} HeldIsListed(calls: seq<ChainCall>, d: Bytes)
    ensures ChainTold(AfterChainCalls(calls), calls, d) && |AfterChainCalls(calls)| <= 32
    decreases |calls|
  {
    if calls == [] {
    } else {
      var n := |calls| - 1;
      var before, call := calls[..n], calls[n];
      var l := AfterChainCalls(before);
      HeldIsListed(before, d);
      HeldIsListed(before, call.digest);
      ChainsAreDated(calls, n);
      ChainsAreDated(calls, n + 1);
      assert calls[..n + 1] == calls;
      hide AfterChainCalls;
      HitIsFresh(l, before, call);
      ChainLength(l, call);
      if call.digest == d { ChainToldItself(l, calls); } else { ChainToldOther(l, calls, d); }
    }
  }

  lemma ChainLength(l: Lru<Bytes, int>, call: ChainCall)
    requires |l| <= 32
    ensures |AfterCall(l, call)| <= 32
  {
  }

  /** Found in a list that tells what is held: exactly if fresh. */
  lemma HitIsFresh(l: Lru<Bytes, int>, calls: seq<ChainCall>, call: ChainCall)
    requires Dated(l, calls) && ChainTold(l, calls, call.digest)
    ensures ChainHit(l, call) <==> call.ChainGet? && Fresh(calls, call.digest, call.now)
  {
    hide Held, Since, LastPut;
    if Find(l, call.digest).Some? { assert l[Find(l, call.digest).value] in l; }
  }

  lemma ChainToldItself(l: Lru<Bytes, int>, calls: seq<ChainCall>)
    requires calls != [] && DistinctKeys(l)
    requires var call := calls[|calls| - 1];
             ChainHit(l, call) <==> call.ChainGet? && Keeps(calls[..|calls| - 1], call)
    ensures var call := calls[|calls| - 1]; ChainTold(AfterCall(l, call), calls, call.digest)
  {
    var n := |calls| - 1;
    var call := calls[n];
    var d := call.digest;
    assert forall j: nat :: LastFor(calls, d, j) <==> j == n;
    assert calls[..n + 1] == calls && Since(calls, n) == {};
    assert Roomy(calls, n);
    hide Find, Used, Stored, Removed, DistinctKeys, Since, Front, Keeps;
    if call.ChainPut? {
      assert Keeps(calls[..n], call) by { PutKeeps(calls[..n], call); }
      StoredFirst(l, d, call.now);
    } else if ChainHit(l, call) {
      UsedFirst(l, d);
    } else {
      NotInRemoved(l, d);
    }
  }

  lemma PutKeeps(before: seq<ChainCall>, call: ChainCall)
    requires call.ChainPut?
    ensures Keeps(before, call)
  {
  }

  lemma NotInRemoved(l: Lru<Bytes, int>, d: Bytes)
    requires DistinctKeys(l)
    ensures Find(Removed(l, d), d) == None
  {
    RemovedKeepsDistinct(l, d);
  }

  lemma ChainToldOther(l: Lru<Bytes, int>, calls: seq<ChainCall>, d: Bytes)
    requires calls != [] && calls[|calls| - 1].digest != d && DistinctKeys(l)
    requires ChainTold(l, calls[..|calls| - 1], d)
    requires var call := calls[|calls| - 1];
             && (ChainHit(l, call) <==> call.ChainGet? && Keeps(calls[..|calls| - 1], call))
             && DistinctKeys(AfterCall(l, call)) && |AfterCall(l, call)| <= 32
    ensures ChainTold(AfterCall(l, calls[|calls| - 1]), calls, d)
  {
    var n := |calls| - 1;
    var before, call := calls[..n], calls[n];
    var l', x := AfterCall(l, call), call.digest;
    if call.ChainPut? {
      PutKeeps(before, call);
      FrontStored(l, x, call.now, d);
    } else if ChainHit(l, call) {
      FrontUsed(l, x, d);
    } else {
      FrontRemoved(l, x, d);
    }
    if Find(l', d).Some? { FrontSize(l', d); }
    hide Keeps, Since, Held, ChainHit, Used, Stored, Removed, Find, Front;
    ChainToldNext(l, l', calls, d);
  }

  lemma ChainToldNext(l: Lru<Bytes, int>, l': Lru<Bytes, int>, calls: seq<ChainCall>, d: Bytes)
    requires calls != [] && calls[|calls| - 1].digest != d && ChainTold(l, calls[..|calls| - 1], d)
    requires var call := calls[|calls| - 1];
             var keeps := Keeps(calls[..|calls| - 1], call);
             && (Find(l', d).Some? ==>
                   && Find(l, d).Some? && |Front(l', d)| < 32
                   && Front(l', d) == if keeps then Front(l, d) + {call.digest} else Front(l, d) - {call.digest})
             && (Find(l, d).Some? && (!keeps || |Front(l, d) + {call.digest}| < 32) ==> Find(l', d).Some?)
    ensures ChainTold(l', calls, d)
  {
    var n := |calls| - 1;
    var before := calls[..n];
    assert forall j: nat :: LastFor(calls, d, j) <==> LastFor(before, d, j);
    if j: nat :| LastFor(before, d, j) {
      HeldNext(calls, d, j);
      assert forall i: nat | LastFor(before, d, i) :: i == j;
      hide Keeps, Find, Front, Since, Held, LastFor;
    }
  }

  /** A call with another digest. */
  lemma HeldNext(calls: seq<ChainCall>, d: Bytes, j: nat)
    requires calls != [] && calls[|calls| - 1].digest != d && LastFor(calls[..|calls| - 1], d, j)
    ensures Held(calls, d) <==> Held(calls[..|calls| - 1], d) && |Since(calls, j)| < 32
    ensures var before, call := calls[..|calls| - 1], calls[|calls| - 1];
            Since(calls, j) ==
            if Keeps(before, call) then Since(before, j) + {call.digest} else Since(before, j) - {call.digest}
  {
    var n := |calls| - 1;
    var before := calls[..n];
    assert LastFor(calls, d, j) && calls[..j] == before[..j] && calls[j] == before[j];
    assert forall i: nat | LastFor(before, d, i) || LastFor(calls, d, i) :: i == j;
    RoomyNext(calls, j);
    hide Keeps, Roomy, LastFor;
  }

  lemma RoomyNext(calls: seq<ChainCall>, j: nat)
    requires j + 1 < |calls|
    ensures Roomy(calls, j) <==> Roomy(calls[..|calls| - 1], j) && |Since(calls, j)| < 32
  {
    hide Since;
    var n := |calls| - 1;
    assert calls[..n + 1] == calls;
    assert forall i | j < i <= n :: calls[..i] == calls[..n][..i];
  }

  /** A lookup is a hit if and only if its digest was stored or found by the last call with it, fewer than 32 others
      have been since, not counting those that were dropped, and its last store is at most 600 seconds old. */
  lemma ChainHits(calls: seq<ChainCall>, call: ChainCall)
    ensures ChainHit(AfterChainCalls(calls), call) <==> call.ChainGet? && Fresh(calls, call.digest, call.now)
  {
    HeldIsListed(calls, call.digest);
    ChainsAreDated(calls, |calls|);
    assert calls[..|calls|] == calls;
    HitIsFresh(AfterChainCalls(calls), calls, call);
  }

  /** Over any calls, whatever the clock does, each lookup is such a hit or none. */
  method AnswerChains(calls: seq<ChainCall>) returns (hits: seq<bool>)
    ensures |hits| == |calls|
    ensures forall i | 0 <= i < |calls| ::
              hits[i] <==> calls[i].ChainGet? && Fresh(calls[..i], calls[i].digest, calls[i].now)
  {
    hide Fresh, ChainHit, AfterChainCalls;
    var cache;
    cache, hits := DriveChains(calls);
    forall i | 0 <= i < |calls|
      ensures hits[i] <==> calls[i].ChainGet? && Fresh(calls[..i], calls[i].digest, calls[i].now)
    {
      ChainHits(calls[..i], calls[i]);
    }
  }
}
