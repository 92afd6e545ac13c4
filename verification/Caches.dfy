/** The TLS session cache and the cache of verified certificate chains, each a table of 32 stamped slots. */
module Caches {
  import opened Recency
  import opened Machine
  import opened Wrappers

  /** What a store displaces: the key's old value, or the value of the least recently used key of a full table. */
  function Displaced<K(==), V>(l: Lru<K, V>, k: K): Option<V> {
    match Find(l, k)
    case Some(i) => Some(l[i].1)
    case None => if |l| < 32 then None else Some(l[|l| - 1].1)
  }

  /** The slots both caches are made of, with their clock. */
  class Table<K(==), V> {
    var slots: array<Slot<K, V>>
    var clock: nat
    ghost var lru: Lru<K, V>       // the list the slots stand for
    ghost var order: seq<nat>      // the slot of each position of the list

    ghost predicate Valid()
      reads this, slots
    {
      slots.Length == 32 && Represents(slots[..], clock, lru, order) && |lru| <= 32
    }

    constructor (key: K)
      ensures Valid() && fresh(slots) && lru == []
    {
      slots := new Slot<K, V>[32](_ => Slot(key, None, 0));
      clock, lru, order := 0, [], [];
    }

    /** The slot of a key that is cached. */
    method SlotFor(key: K) returns (slot: Option<nat>)
      requires Valid()
      ensures slot.Some? <==> Find(lru, key).Some?
      ensures slot.Some? ==> && slot.value < 32 && slots[slot.value].key == key && slots[slot.value].value.Some?
                             && slot.value == order[Find(lru, key).value]
                             && slots[slot.value].value.value == lru[Find(lru, key).value].1
    {
      var i := 0;
      while i < 32
        invariant 0 <= i <= 32
        invariant forall s | 0 <= s < i :: !(slots[s].value.Some? && slots[s].key == key)
      {
        if slots[i].value.Some? && slots[i].key == key {
          SlotOfKey(slots[..], clock, lru, order, i);
          return Some(i);
        }
        i := i + 1;
      }
      NoSlotForKey(slots[..], clock, lru, order, key);
      return None;
    }

    /** Stamps the slot of a cached key with the next tick of the clock. */
    method Touch(slot: nat, key: K)
      requires Valid() && Find(lru, key).Some? && slot == order[Find(lru, key).value]
      modifies this, slots
      ensures Valid() && slots == old(slots) && lru == Used(old(lru), key)
    {
      ghost var i := Find(lru, key).value;
      Renew(slots[..], clock, lru, order, i, key, lru[i].1);
      clock := clock + 1;
      slots[slot] := slots[slot].(lastUse := clock);
      lru, order := [lru[i]] + Without(lru, i), [order[i]] + Without(order, i);
    }

    /** Frees the slot of a cached key. */
    method Drop(slot: nat, key: K)
      requires Valid() && Find(lru, key).Some? && slot == order[Find(lru, key).value]
      modifies this, slots
      ensures Valid() && slots == old(slots) && lru == Removed(old(lru), key)
    {
      ghost var i := Find(lru, key).value;
      Forget(slots[..], clock, lru, order, i);
      slots[slot] := slots[slot].(value := None);
      lru, order := Without(lru, i), Without(order, i);
    }

    /** The slot with the least stamp. */
    method Oldest() returns (slot: nat)
      requires slots.Length == 32
      ensures slot < 32 && forall x | 0 <= x < 32 :: slots[slot].lastUse <= slots[x].lastUse
    {
      slot := 0;
      var i := 1;
      while i < 32
        invariant 1 <= i <= 32 && slot < 32
        invariant forall x | 0 <= x < i :: slots[slot].lastUse <= slots[x].lastUse
      {
        if slots[i].lastUse < slots[slot].lastUse {
          slot := i;
        }
        i := i + 1;
      }
    }

    /** Where a key is to be stored: its own slot, else the first free one, else the least recently used one. */
    method SlotToStore(key: K) returns (slot: nat)
      requires Valid()
      ensures GoodSlot(slots[..], lru, order, slot, key)
    {
      var free: Option<nat> := None;
      var i := 0;
      while i < 32
        invariant 0 <= i <= 32
        invariant forall s | 0 <= s < i :: !(slots[s].value.Some? && slots[s].key == key)
        invariant free.Some? ==> free.value < i && slots[free.value].value.None?
        invariant free.None? ==> forall s | 0 <= s < i :: slots[s].value.Some?
      {
        if slots[i].value.Some? && slots[i].key == key {
          SlotOfKey(slots[..], clock, lru, order, i);
          return i;
        }
        if slots[i].value.None? && free.None? {
          free := Some(i);
        }
        i := i + 1;
      }
      NoSlotForKey(slots[..], clock, lru, order, key);
      if free.Some? {
        NotFull(slots[..], clock, lru, order, free.value);
        return free.value;
      }
      slot := Oldest();
      LeastIsLast(slots[..], clock, lru, order, slot);
    }

    /** Stores a value under a key, as the most recent; returns what it displaced. */
    method Store(key: K, value: V) returns (displaced: Option<V>)
      requires Valid()
      modifies this, slots
      ensures Valid() && slots == old(slots)
      ensures lru == Stored(old(lru), key, value) && displaced == Displaced(old(lru), key)
    {
      hide Represents, Stored, Displaced, GoodSlot, Find;
      var slot := SlotToStore(key);
      ghost var t, l := slots[..], lru;
      GoodSlotInTable(t, l, order, slot, key);
      displaced := slots[slot].value;
      DisplacedValue(t, clock, l, order, slot, key);
      ghost var order' := StoreRepresents(t, clock, l, order, slot, key, value);
      StoredLength(l, key, value);
      clock := clock + 1;
      slots[slot] := Slot(key, Some(value), clock);
      assert slots[..] == t[slot := Slot(key, Some(value), clock)];
      lru, order := Stored(l, key, value), order';
    }
  }

  lemma StoredLength<K, V>(l: Lru<K, V>, k: K, v: V)
    ensures |Stored(l, k, v)| <= 32
  {
  }

  lemma GoodSlotInTable<K, V>(t: seq<Slot<K, V>>, l: Lru<K, V>, order: seq<nat>, s: nat, k: K)
    requires GoodSlot(t, l, order, s, k)
    ensures s < |t|
  {
  }

  /** The slot found for a store: the key's own, a free one, or that of the last of a full list. */
  ghost predicate GoodSlot<K, V>(t: seq<Slot<K, V>>, l: Lru<K, V>, order: seq<nat>, s: nat, k: K) {
    && s < |t| && |l| == |order|
    && match Find(l, k)
       case Some(i) => s == order[i]
       case None => if |l| < 32 then t[s].value.None? else |l| == 32 && s == order[31]
  }

  lemma DisplacedValue<K, V>(t: seq<Slot<K, V>>, clock: nat, l: Lru<K, V>, order: seq<nat>, s: nat, k: K)
    requires Represents(t, clock, l, order) && GoodSlot(t, l, order, s, k)
    ensures t[s].value == Displaced(l, k)
  {
  }

  /** Storing under a key that is there, in a full list, or otherwise. */
  lemma StoredCases<K, V>(l: Lru<K, V>, k: K, v: V)
    requires DistinctKeys(l) && |l| <= 32
    ensures match Find(l, k)
            case Some(i) =>
              && Stored(l, k, v) == [(k, v)] + Without(l, i)
              && forall j | 0 <= j < |l| && j != i :: l[j].0 != k
            case None => Stored(l, k, v) == [(k, v)] + (if |l| == 32 then Without(l, 31) else l)
  {
  }

  lemma StoreRepresents<K, V>(t: seq<Slot<K, V>>, clock: nat, l: Lru<K, V>, order: seq<nat>, s: nat, k: K, v: V)
    returns (order': seq<nat>)
    requires Represents(t, clock, l, order) && |l| <= 32 && GoodSlot(t, l, order, s, k)
    ensures Represents(t[s := Slot(k, Some(v), clock + 1)], clock + 1, Stored(l, k, v), order')
  {
    assert DistinctKeys(l);
    hide Represents, DistinctKeys, Stored;
    StoredCases(l, k, v);
    var r := Find(l, k);
    if r.Some? || |l| == 32 {
      var i := if r.Some? then r.value else 31;
      Renew(t, clock, l, order, i, k, v);
      order' := [order[i]] + Without(order, i);
    } else {
      Insert(t, clock, l, order, s, k, v);
      order' := [s] + order;
    }
  }

  // ---- Sessions ----

  /** An OpenSSL session object, by identity. */
  type Session = nat

  /** The references to sessions that the cache owns. */
  ghost function Owned(l: Lru<Bytes, Session>): multiset<Session> {
    if l == [] then multiset{} else multiset{l[0].1} + Owned(l[1..])
  }

  lemma {:induction false} OwnedConcat(a: Lru<Bytes, Session>, b: Lru<Bytes, Session>)
    ensures Owned(a + b) == Owned(a) + Owned(b)
  {
    if a == [] {
      assert a + b == b;
    } else {
      assert (a + b)[1..] == a[1..] + b;
      OwnedConcat(a[1..], b);
    }
  }

  lemma OwnedOne(e: (Bytes, Session))
    ensures Owned([e]) == multiset{e.1}
  {
    assert Owned([e][1..]) == multiset{};
  }

  lemma OwnedWithout(l: Lru<Bytes, Session>, i: nat)
    requires i < |l|
    ensures Owned(l) == Owned(Without(l, i)) + multiset{l[i].1}
  {
    hide Owned;
    OwnedConcat(l[..i], [l[i]] + l[i + 1..]);
    OwnedConcat([l[i]], l[i + 1..]);
    OwnedConcat(l[..i], l[i + 1..]);
    OwnedOne(l[i]);
    assert l == l[..i] + ([l[i]] + l[i + 1..]);
  }

  lemma OwnedFront(e: (Bytes, Session), l: Lru<Bytes, Session>)
    ensures Owned([e] + l) == multiset{e.1} + Owned(l)
  {
    OwnedConcat([e], l);
    OwnedOne(e);
  }

  /** A store takes over one reference and gives up exactly the one it displaces. */
  lemma StoreConserves(l: Lru<Bytes, Session>, k: Bytes, s: Session)
    requires |l| <= 32
    ensures var gone := Displaced(l, k);
            Owned(Stored(l, k, s)) + (if gone.Some? then multiset{gone.value} else multiset{}) == Owned(l) + multiset{s}
  {
    hide Owned;
    match Find(l, k)
    case Some(i) =>
      OwnedWithout(l, i);
      OwnedFront((k, s), Without(l, i));
    case None =>
      var longer := [(k, s)] + l;
      OwnedFront((k, s), l);
      if |l| == 32 {
        OwnedWithout(longer, 32);
        assert Without(longer, 32) == longer[..32];
      }
  }

  class SessionCache {
    const table: Table<Bytes, Session>

    ghost predicate Valid()
      reads this, table, table.slots
    {
      table.Valid()
    }

    constructor ()
      ensures Valid() && fresh(table) && fresh(table.slots) && table.lru == []
    {
      table := new Table<Bytes, Session>([]);
    }

    /** A hit counts as a use, and hands the caller a reference of its own; the cache keeps its own. */
    method Get(key: Bytes) returns (session: Option<Session>)
      requires Valid()
      modifies table, table.slots
      ensures Valid() && table.slots == old(table.slots)
      ensures table.lru == if key == [] then old(table.lru) else Used(old(table.lru), key)
      ensures Owned(table.lru) == Owned(old(table.lru))
      ensures session == if key == [] then None else
                         match Find(old(table.lru), key) case None => None case Some(i) => Some(old(table.lru)[i].1)
    {
      if key == [] {
        return None;
      }
      var slot := table.SlotFor(key);
      if slot.None? {
        return None;
      }
      session := table.slots[slot.value].value;
      ghost var l, i := table.lru, Find(table.lru, key).value;
      table.Touch(slot.value, key);
      OwnedWithout(l, i);
      OwnedFront(l[i], Without(l, i));
    }

    /** Takes over the caller's reference; returns the references it frees. A key that is empty or longer than 256
        bytes is not cached. */
    method Put(key: Bytes, session: Session) returns (freed: seq<Session>)
      requires Valid()
      modifies table, table.slots
      ensures Valid() && table.slots == old(table.slots)
      ensures 0 < |key| <= 256 ==> table.lru == Stored(old(table.lru), key, session)
      ensures !(0 < |key| <= 256) ==> table.lru == old(table.lru) && freed == [session]
      ensures Owned(table.lru) + multiset(freed) == Owned(old(table.lru)) + multiset{session}
    {
      if |key| == 0 || |key| > 256 {
        return [session];
      }
      StoreConserves(table.lru, key, session);
      var displaced := table.Store(key, session);
      freed := if displaced.Some? then [displaced.value] else [];
    }
  }

  /** The operations that reach the table: lookups with a key, and stores under a key of 1 to 256 bytes. */
  function Effective(ops: seq<Op<Bytes, Session>>): seq<Op<Bytes, Session>> {
    if ops == [] then []
    else
      var op, before := ops[|ops| - 1], Effective(ops[..|ops| - 1]);
      if Ineffective(op) then before else before + [op]
  }

  /** The references handed to the cache. */
  function Given(ops: seq<Op<Bytes, Session>>): seq<Session> {
    if ops == [] then []
    else
      var op := ops[|ops| - 1];
      Given(ops[..|ops| - 1]) + if op.Store? then [op.value] else []
  }

  /** The operation does not reach the table. */
  predicate Ineffective(op: Op<Bytes, Session>) {
    op.key == [] || (op.Store? && |op.key| > 256)
  }

  /** What a lookup with a nonempty key finds listed; a store finds nothing. */
  function SessionHit(l: Lru<Bytes, Session>, op: Op<Bytes, Session>): Option<Session> {
    if op.Store? || op.key == [] then None
    else match Find(l, op.key) case None => None case Some(i) => Some(l[i].1)
  }

  /** One lookup or store. */
  method Perform(cache: SessionCache, op: Op<Bytes, Session>) returns (hit: Option<Session>, gone: seq<Session>)
    requires cache.Valid()
    modifies cache.table, cache.table.slots
    ensures cache.Valid() && cache.table.slots == old(cache.table.slots)
    ensures cache.table.lru == if Ineffective(op) then old(cache.table.lru) else Applied(old(cache.table.lru), op)
    ensures Owned(cache.table.lru) + multiset(gone) ==
            Owned(old(cache.table.lru)) + (if op.Store? then multiset{op.value} else multiset{})
    ensures hit == SessionHit(old(cache.table.lru), op)
  {
    hide Owned, Stored, Used, Find;
    match op
    case Use(key) =>
      hit := cache.Get(key);
      gone := [];
    case Store(key, session) =>
      gone := cache.Put(key, session);
      hit := None;
  }

  /** Each operation so far was answered from the list that the operations before it make. */
  ghost predicate HitsAre(ops: seq<Op<Bytes, Session>>, hits: seq<Option<Session>>) {
    |hits| <= |ops| && forall i | 0 <= i < |hits| :: hits[i] == SessionHit(Cached(Effective(ops[..i])), ops[i])
  }

  lemma NothingYet(ops: seq<Op<Bytes, Session>>)
    ensures HitsAre(ops, []) && Cached(Effective(ops[..0])) == []
    ensures Owned([]) == multiset(Given(ops[..0])) == multiset{}
  {
  }

  lemma HitsMean(ops: seq<Op<Bytes, Session>>, hits: seq<Option<Session>>)
    requires HitsAre(ops, hits) && |hits| == |ops|
    ensures forall i | 0 <= i < |ops| :: hits[i] == SessionHit(Cached(Effective(ops[..i])), ops[i])
  {
  }

  lemma HitsAppend(ops: seq<Op<Bytes, Session>>, hits: seq<Option<Session>>, hit: Option<Session>)
    requires HitsAre(ops, hits) && |hits| < |ops|
    requires hit == SessionHit(Cached(Effective(ops[..|hits|])), ops[|hits|])
    ensures HitsAre(ops, hits + [hit])
  {
    hide SessionHit, Cached, Effective;
  }

  /** A lookup is a hit if and only if its key is among the 32 most recently used of all the keys ever stored, and it
      then finds the session last stored under that key. */
  lemma HitExactly(ops: seq<Op<Bytes, Session>>, op: Op<Bytes, Session>)
    ensures var h, hit := History(Effective(ops)), SessionHit(Cached(Effective(ops)), op);
            && (hit.Some? <==> op.Use? && op.key != [] && Find(h, op.key).Some? && Find(h, op.key).value < 32)
            && (hit.Some? ==> hit == LastStored(Effective(ops), op.key))
  {
    CacheIsMostRecent(Effective(ops));
    CutFind(History(Effective(ops)), op.key);
    UsedHit(Effective(ops), op.key);
  }

  lemma Conserve(a: multiset<Session>, b: multiset<Session>, freed: seq<Session>, gone: seq<Session>,
                 given: seq<Session>, more: seq<Session>)
    requires a + multiset(freed) == multiset(given) && b + multiset(gone) == a + multiset(more)
    ensures b + multiset(freed + gone) == multiset(given + more)
  {
    var f, g, n := multiset(freed), multiset(gone), multiset(more);
    assert multiset(freed + gone) == f + g && multiset(given + more) == multiset(given) + n;
    assert b + (f + g) == (b + g) + f;
    assert (a + n) + f == (a + f) + n;
  }

  /** Over any sequence of lookups and stores: the cache is the LRU list of the operations that reach it, each lookup
      is answered from that list, and every reference handed over is either owned or freed, once. */
  method DriveSessions(ops: seq<Op<Bytes, Session>>)
    returns (cache: SessionCache, hits: seq<Option<Session>>, freed: seq<Session>)
    ensures fresh(cache) && cache.Valid() && cache.table.lru == Cached(Effective(ops))
    ensures Owned(cache.table.lru) + multiset(freed) == multiset(Given(ops))
    ensures |hits| == |ops|
    ensures forall i | 0 <= i < |ops| :: hits[i] == SessionHit(Cached(Effective(ops[..i])), ops[i])
  {
    cache := new SessionCache();
    hits, freed := [], [];
    NothingYet(ops);
    hide Owned, Applied, Find, Effective, Given, Cached, HitsAre, SessionHit, Table.Valid;
    var i := 0;
    while i < |ops|
      invariant 0 <= i <= |ops| && |hits| == i
      invariant fresh(cache) && fresh(cache.table) && fresh(cache.table.slots) && cache.Valid()
      invariant cache.table.lru == Cached(Effective(ops[..i]))
      invariant Owned(cache.table.lru) + multiset(freed) == multiset(Given(ops[..i]))
      invariant HitsAre(ops, hits)
    {
      EffectiveStep(ops, i);
      ghost var before := Owned(cache.table.lru);
      var hit, gone := Perform(cache, ops[i]);
      Conserve(before, Owned(cache.table.lru), freed, gone, Given(ops[..i]),
               if ops[i].Store? then [ops[i].value] else []);
      HitsAppend(ops, hits, hit);
      hits := hits + [hit];
      freed := freed + gone;
      i := i + 1;
    }
    assert ops[..i] == ops;
    HitsMean(ops, hits);
  }

  lemma UsedHit(ops: seq<Op<Bytes, Session>>, key: Bytes)
    ensures match Find(Cached(ops), key)
            case None => true
            case Some(i) => LastStored(ops, key) == Some(Cached(ops)[i].1)
  {
    CacheHoldsLastStored(ops);
  }

  lemma EffectiveStep(ops: seq<Op<Bytes, Session>>, i: nat)
    requires i < |ops|
    ensures var op, before := ops[i], Effective(ops[..i]);
            && Cached(Effective(ops[..i + 1])) ==
               (if Ineffective(op) then Cached(before) else Applied(Cached(before), op))
            && Given(ops[..i + 1]) == Given(ops[..i]) + (if op.Store? then [op.value] else [])
  {
    var longer := ops[..i + 1];
    assert longer[..i] == ops[..i] && longer[i] == ops[i];
    hide Used, Stored;
    CachedAppend(Effective(ops[..i]), ops[i]);
  }

  lemma CachedAppend(ops: seq<Op<Bytes, Session>>, op: Op<Bytes, Session>)
    ensures Cached(ops + [op]) == Applied(Cached(ops), op)
  {
    assert (ops + [op])[..|ops|] == ops;
  }

  // ---- Verified chains ----

  class ChainCache {
    const table: Table<Bytes, int>    // by digest, the time of the last successful verification

    ghost predicate Valid()
      reads this, table, table.slots
    {
      table.Valid()
    }

    constructor ()
      ensures Valid() && fresh(table) && fresh(table.slots) && table.lru == []
    {
      table := new Table<Bytes, int>([]);
    }

    /** A digest is a hit while its last store is at most 600 seconds old; an older one is dropped. */
    method Get(digest: Bytes, now: int) returns (hit: bool)
      requires Valid()
      modifies table, table.slots
      ensures Valid() && table.slots == old(table.slots)
      ensures hit <==> match Find(old(table.lru), digest)
                       case None => false
                       case Some(i) => now - old(table.lru)[i].1 <= 600
      ensures table.lru == if hit then Used(old(table.lru), digest) else Removed(old(table.lru), digest)
    {
      var slot := table.SlotFor(digest);
      if slot.None? {
        return false;
      }
      if now - table.slots[slot.value].value.value <= 600 {
        table.Touch(slot.value, digest);
        return true;
      }
      table.Drop(slot.value, digest);
      return false;
    }

    method Put(digest: Bytes, now: int)
      requires Valid()
      modifies table, table.slots
      ensures Valid() && table.slots == old(table.slots)
      ensures table.lru == Stored(old(table.lru), digest, now)
    {
      var displaced := table.Store(digest, now);
    }
  }

  datatype ChainCall = ChainGet(digest: Bytes, now: int) | ChainPut(digest: Bytes, now: int)

  /** A lookup is a hit if the digest is listed with a store at most 600 seconds old; storing is none. */
  function ChainHit(l: Lru<Bytes, int>, call: ChainCall): bool {
    call.ChainGet? &&
    match Find(l, call.digest)
    case None => false
    case Some(i) => call.now - l[i].1 <= 600
  }

  function AfterCall(l: Lru<Bytes, int>, call: ChainCall): Lru<Bytes, int> {
    match call
    case ChainGet(digest, now) => if ChainHit(l, call) then Used(l, digest) else Removed(l, digest)
    case ChainPut(digest, now) => Stored(l, digest, now)
  }

  function AfterChainCalls(calls: seq<ChainCall>): Lru<Bytes, int> {
    if calls == [] then [] else AfterCall(AfterChainCalls(calls[..|calls| - 1]), calls[|calls| - 1])
  }

  /** Any call of the cache. */
  method Call(cache: ChainCache, call: ChainCall) returns (hit: bool)
    requires cache.Valid()
    modifies cache.table, cache.table.slots
    ensures cache.Valid() && cache.table.slots == old(cache.table.slots)
    ensures cache.table.lru == AfterCall(old(cache.table.lru), call) && hit == ChainHit(old(cache.table.lru), call)
  {
    hide Used, Removed, Stored, Find, Table.Valid;
    match call {
      case ChainGet(digest, now) =>
        hit := cache.Get(digest, now);
      case ChainPut(digest, now) =>
        cache.Put(digest, now);
        hit := false;
    }
  }

  /** When the chain with this digest was last stored. */
  function LastPut(calls: seq<ChainCall>, digest: Bytes): Option<int> {
    if calls == [] then None
    else
      var call := calls[|calls| - 1];
      if call.ChainPut? && call.digest == digest then Some(call.now) else LastPut(calls[..|calls| - 1], digest)
  }

  /** Whatever the list holds, it holds with the time of its last store. */
  ghost predicate Dated(l: Lru<Bytes, int>, calls: seq<ChainCall>) {
    DistinctKeys(l) && forall e <- l :: LastPut(calls, e.0) == Some(e.1)
  }

  lemma DatedAfter(l: Lru<Bytes, int>, calls: seq<ChainCall>, i: nat)
    requires i < |calls| && Dated(l, calls[..i])
    ensures Dated(AfterCall(l, calls[i]), calls[..i + 1])
  {
    var longer, d := calls[..i + 1], calls[i].digest;
    assert longer[..i] == calls[..i] && longer[i] == calls[i];
    assert forall x :: LastPut(longer, x) ==
                       if calls[i].ChainPut? && x == d then Some(calls[i].now) else LastPut(calls[..i], x);
    hide LastPut, Used, Removed, Stored, DistinctKeys, ChainHit;
    UsedMembers(l, d);
    RemovedMembers(l, d);
    StoredMembers(l, d, calls[i].now);
  }

  /** Whatever is called, whatever the clock does, no digest is listed twice, and each is listed with the time at which
      it was last stored. */
  lemma {:induction false} ChainsAreDated(calls: seq<ChainCall>, i: nat)
    requires i <= |calls|
    ensures Dated(AfterChainCalls(calls[..i]), calls[..i])
    decreases i
  {
    hide AfterCall, Dated, LastPut;
    if i == 0 {
      NoCalls(calls);
    } else {
      ChainsAreDated(calls, i - 1);
      DatedAfter(AfterChainCalls(calls[..i - 1]), calls, i - 1);
      assert calls[..i][..i - 1] == calls[..i - 1];
    }
  }

  /** So a hit means that this very digest was last stored, as the chain of a successful verification, at most 600
      seconds before. */
  lemma HitMeansFresh(calls: seq<ChainCall>, i: nat)
    requires i < |calls| && ChainHit(AfterChainCalls(calls[..i]), calls[i])
    ensures var put := LastPut(calls[..i], calls[i].digest); put.Some? && calls[i].now - put.value <= 600
  {
    ChainsAreDated(calls, i);
    hide AfterChainCalls, LastPut;
  }

  lemma NoCalls(calls: seq<ChainCall>)
    ensures AfterChainCalls(calls[..0]) == [] && Dated([], calls[..0])
  {
  }

  /** Over any sequence of calls the cache is the list that the calls make, and each lookup is answered from it: a hit
      if and only if its digest is listed with a store at most 600 seconds old. */
  method DriveChains(calls: seq<ChainCall>) returns (cache: ChainCache, hits: seq<bool>)
    ensures fresh(cache) && cache.Valid() && cache.table.lru == AfterChainCalls(calls)
    ensures |hits| == |calls|
    ensures forall i | 0 <= i < |hits| :: hits[i] == ChainHit(AfterChainCalls(calls[..i]), calls[i])
  {
    hide AfterCall, ChainHit, ChainCache.Valid;
    cache := new ChainCache();
    hits := [];
    var i := 0;
    while i < |calls|
      invariant 0 <= i <= |calls| && |hits| == i
      invariant fresh(cache) && fresh(cache.table) && fresh(cache.table.slots) && cache.Valid()
      invariant cache.table.lru == AfterChainCalls(calls[..i])
      invariant forall j | 0 <= j < i :: hits[j] == ChainHit(AfterChainCalls(calls[..j]), calls[j])
    {
      assert calls[..i + 1][..i] == calls[..i];
      var hit := Call(cache, calls[i]);
      hits := hits + [hit];
      i := i + 1;
    }
    assert calls[..i] == calls;
  }
}
