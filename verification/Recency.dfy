/** Least-recently-used caches: the abstract list, and the table of stamped slots that implements it. */
module Recency {
  import opened Sets
  import opened Wrappers

  /** A cache as a list of keys and values, most recently used first. */
  type Lru<K, V> = seq<(K, V)>

  ghost predicate DistinctKeys<K, V>(l: Lru<K, V>) {
    forall i, j | 0 <= i < j < |l| :: l[i].0 != l[j].0
  }

  /** The list without position `i`. */
  function Without<T>(l: seq<T>, i: nat): (r: seq<T>)
    requires i < |l|
  {
    l[..i] + l[i + 1..]
  }

  /** Where a key is, if it is there. */
  function Find<K(==), V>(l: Lru<K, V>, k: K): (r: Option<nat>)
    ensures r.Some? ==> r.value < |l| && l[r.value].0 == k
    ensures r.None? ==> forall i | 0 <= i < |l| :: l[i].0 != k
  {
    if l == [] then None
    else if l[0].0 == k then Some(0)
    else
      var r := Find(l[1..], k);
      assert forall i | 1 <= i < |l| :: l[i] == l[1..][i - 1];
      if r.None? then None else Some(r.value + 1)
  }

  /** A use: a key that is present moves to the front. */
  function Used<K(==), V>(l: Lru<K, V>, k: K): Lru<K, V> {
    match Find(l, k)
    case None => l
    case Some(i) => [l[i]] + Without(l, i)
  }

  /** The list without a key. */
  function Removed<K(==), V>(l: Lru<K, V>, k: K): Lru<K, V> {
    match Find(l, k)
    case None => l
    case Some(i) => Without(l, i)
  }

  /** A store: the key comes first with its new value, and a list that has grown too long loses its last. */
  function Stored<K(==), V>(l: Lru<K, V>, k: K, v: V): Lru<K, V> {
    Cut([(k, v)] + Removed(l, k))
  }

  function Cut<K, V>(l: Lru<K, V>): Lru<K, V> {
    if |l| > 32 then l[..32] else l
  }

  // ---- Slots ----

  /** A slot of the table; one without a value is free. */
  datatype Slot<K, V> = Slot(key: K, value: Option<V>, lastUse: nat)

  /** Each position of the list is in the slot that `order` gives for it. */
  ghost predicate Filled<K, V>(t: seq<Slot<K, V>>, l: Lru<K, V>, order: seq<nat>) {
    && |l| == |order|
    && forall i | 0 <= i < |order| :: order[i] < |t| && t[order[i]].key == l[i].0 && t[order[i]].value == Some(l[i].1)
  }

  /** Slots are not repeated, and stamps decrease along the list, from the clock or below. */
  ghost predicate Stamped<K, V>(t: seq<Slot<K, V>>, clock: nat, order: seq<nat>) {
    && (forall i | 0 <= i < |order| :: order[i] < |t| && t[order[i]].lastUse <= clock)
    && (forall i, j | 0 <= i < j < |order| :: order[i] != order[j] && t[order[i]].lastUse > t[order[j]].lastUse)
  }

  /** Every slot in use is listed. */
  ghost predicate Covered<K, V>(t: seq<Slot<K, V>>, order: seq<nat>) {
    forall s | 0 <= s < |t| && t[s].value.Some? :: s in order
  }

  /** The table stands for the list `l`. */
  ghost predicate Represents<K, V>(t: seq<Slot<K, V>>, clock: nat, l: Lru<K, V>, order: seq<nat>) {
    DistinctKeys(l) && Filled(t, l, order) && Stamped(t, clock, order) && Covered(t, order)
  }

  lemma InsertStamped<K, V>(t: seq<Slot<K, V>>, clock: nat, order: seq<nat>, s: nat, e: Slot<K, V>)
    requires Stamped(t, clock, order) && s < |t| && s !in order && e.lastUse == clock + 1
    ensures Stamped(t[s := e], clock + 1, [s] + order)
  {
    var t', order' := t[s := e], [s] + order;
    forall i | 0 <= i < |order'|
      ensures order'[i] < |t'| && t'[order'[i]].lastUse <= (if i == 0 then clock + 1 else clock)
    {
      if i > 0 { assert order'[i] == order[i - 1]; }
    }
    forall i, j | 0 <= i < j < |order'|
      ensures order'[i] != order'[j] && t'[order'[i]].lastUse > t'[order'[j]].lastUse
    {
      assert order'[j] == order[j - 1];
      if i > 0 { assert order'[i] == order[i - 1]; }
    }
  }

  lemma InsertCovered<K, V>(t: seq<Slot<K, V>>, order: seq<nat>, s: nat, e: Slot<K, V>)
    requires Covered(t, order) && s < |t|
    ensures Covered(t[s := e], [s] + order)
  {
  }

  lemma InsertFilled<K, V>(t: seq<Slot<K, V>>, l: Lru<K, V>, order: seq<nat>, s: nat, k: K, v: V, stamp: nat)
    requires Filled(t, l, order) && s < |t| && s !in order
    ensures Filled(t[s := Slot(k, Some(v), stamp)], [(k, v)] + l, [s] + order)
  {
    forall i | 0 <= i < |order|
      ensures order[i] != s
    {
    }
  }

  /** Writing a free slot with a new key and the next stamp puts it in front. */
  lemma Insert<K, V>(t: seq<Slot<K, V>>, clock: nat, l: Lru<K, V>, order: seq<nat>, s: nat, k: K, v: V)
    requires Represents(t, clock, l, order) && s < |t| && t[s].value.None? && forall j | 0 <= j < |l| :: l[j].0 != k
    ensures Represents(t[s := Slot(k, Some(v), clock + 1)], clock + 1, [(k, v)] + l, [s] + order)
  {
    assert s !in order;
    hide Stamped, Covered;
    InsertStamped(t, clock, order, s, Slot(k, Some(v), clock + 1));
    InsertCovered(t, order, s, Slot(k, Some(v), clock + 1));
    InsertFilled(t, l, order, s, k, v, clock + 1);
  }

  lemma ForgetCovered<K, V>(t: seq<Slot<K, V>>, order: seq<nat>, i: nat, e: Slot<K, V>)
    requires Covered(t, order) && i < |order| && order[i] < |t| && e.value.None?
    ensures Covered(t[order[i] := e], Without(order, i))
  {
    var t', order' := t[order[i] := e], Without(order, i);
    forall x | 0 <= x < |t'| && t'[x].value.Some?
      ensures x in order'
    {
      assert t[x].value.Some?;
      var j :| 0 <= j < |order| && order[j] == x;
      assert order'[if j < i then j else j - 1] == x;
    }
  }

  lemma ForgetStamped<K, V>(t: seq<Slot<K, V>>, clock: nat, order: seq<nat>, i: nat, e: Slot<K, V>)
    requires Stamped(t, clock, order) && i < |order|
    ensures Stamped(t[order[i] := e], clock, Without(order, i))
  {
    var t', order' := t[order[i] := e], Without(order, i);
    forall j | 0 <= j < |order'|
      ensures order'[j] == order[if j < i then j else j + 1] && order'[j] != order[i] && t'[order'[j]] == t[order'[j]]
    {
    }
  }

  lemma ForgetFilled<K, V>(t: seq<Slot<K, V>>, l: Lru<K, V>, order: seq<nat>, i: nat, e: Slot<K, V>)
    requires Filled(t, l, order) && i < |order| && forall j | 0 <= j < |order| && j != i :: order[j] != order[i]
    ensures Filled(t[order[i] := e], Without(l, i), Without(order, i))
  {
    var t', l', order' := t[order[i] := e], Without(l, i), Without(order, i);
    forall j | 0 <= j < |order'|
      ensures order'[j] == order[if j < i then j else j + 1] && l'[j] == l[if j < i then j else j + 1]
    {
    }
  }

  lemma WithoutDistinct<K, V>(l: Lru<K, V>, i: nat)
    requires DistinctKeys(l) && i < |l|
    ensures DistinctKeys(Without(l, i))
  {
    var r := Without(l, i);
    forall j | 0 <= j < |r|
      ensures r[j] == l[if j < i then j else j + 1]
    {
    }
  }

  /** Freeing position `i`'s slot removes it from the list. */
  lemma Forget<K, V>(t: seq<Slot<K, V>>, clock: nat, l: Lru<K, V>, order: seq<nat>, i: nat)
    requires Represents(t, clock, l, order) && i < |l|
    ensures Represents(t[order[i] := t[order[i]].(value := None)], clock, Without(l, i), Without(order, i))
  {
    assert forall j | 0 <= j < |order| && j != i :: order[j] != order[i];
    var e := t[order[i]].(value := None);
    hide Covered, DistinctKeys, Without;
    WithoutDistinct(l, i);
    ForgetCovered(t, order, i, e);
    ForgetStamped(t, clock, order, i, e);
    ForgetFilled(t, l, order, i, e);
  }

  /** Writing position `i`'s slot with a key found nowhere else and the next stamp brings it to the front. */
  lemma Renew<K, V>(t: seq<Slot<K, V>>, clock: nat, l: Lru<K, V>, order: seq<nat>, i: nat, k: K, v: V)
    requires Represents(t, clock, l, order) && i < |l| && forall j | 0 <= j < |l| && j != i :: l[j].0 != k
    ensures Represents(t[order[i] := Slot(k, Some(v), clock + 1)], clock + 1,
                       [(k, v)] + Without(l, i), [order[i]] + Without(order, i))
  {
    var s := order[i];
    var freed := t[s := t[s].(value := None)];
    Forget(t, clock, l, order, i);
    hide Represents, DistinctKeys, Stamped, Covered;
    Insert(freed, clock, Without(l, i), Without(order, i), s, k, v);
    assert freed[s := Slot(k, Some(v), clock + 1)] == t[s := Slot(k, Some(v), clock + 1)];
  }

  /** A used slot with this key holds the position where the list has it. */
  lemma SlotOfKey<K, V>(t: seq<Slot<K, V>>, clock: nat, l: Lru<K, V>, order: seq<nat>, s: nat)
    requires Represents(t, clock, l, order) && s < |t| && t[s].value.Some?
    ensures Find(l, t[s].key).Some? && order[Find(l, t[s].key).value] == s
            && l[Find(l, t[s].key).value].1 == t[s].value.value
  {
    var j :| 0 <= j < |order| && order[j] == s;
    assert l[j].0 == t[s].key;
  }

  /** The slot of an entry of the list. */
  lemma EntrySlot<K, V>(t: seq<Slot<K, V>>, clock: nat, l: Lru<K, V>, order: seq<nat>, i: nat)
    requires Represents(t, clock, l, order) && i < |l|
    ensures i < |order| && order[i] < |t| && t[order[i]].value.Some? && t[order[i]].key == l[i].0
  {
  }

  /** Without a used slot for the key, the list does not have it. */
  lemma NoSlotForKey<K, V>(t: seq<Slot<K, V>>, clock: nat, l: Lru<K, V>, order: seq<nat>, k: K)
    requires Represents(t, clock, l, order) && forall s | 0 <= s < |t| :: !(t[s].value.Some? && t[s].key == k)
    ensures Find(l, k) == None
  {
    var r := Find(l, k);
    if r.Some? {
      EntrySlot(t, clock, l, order, r.value);
    }
  }

  /** A table in which every slot is used stands for a list as long as the table. */
  lemma FullTable<K, V>(t: seq<Slot<K, V>>, clock: nat, l: Lru<K, V>, order: seq<nat>)
    requires Represents(t, clock, l, order) && forall s | 0 <= s < |t| :: t[s].value.Some?
    ensures |l| == |t|
  {
    assert Filled(t, l, order) && Stamped(t, clock, order) && Covered(t, order);
    hide Represents, Filled, DistinctKeys;
    assert Range(|t|) == Members(order);
  }

  /** A table with a free slot stands for a shorter list. */
  lemma NotFull<K, V>(t: seq<Slot<K, V>>, clock: nat, l: Lru<K, V>, order: seq<nat>, s: nat)
    requires Represents(t, clock, l, order) && s < |t| && t[s].value.None?
    ensures |l| < |t|
  {
    assert s !in order;
    var all, used := Range(|t|), Members(order);
    assert used <= all - {s};
    Fewer(used, all - {s});
  }

  ghost function Range(n: nat): (r: set<nat>)
    ensures |r| == n && forall x :: x in r <==> 0 <= x < n
  {
    if n == 0 then {} else Range(n - 1) + {n - 1}
  }

  ghost function Members(order: seq<nat>): (r: set<nat>)
    requires forall i, j | 0 <= i < j < |order| :: order[i] != order[j]
    ensures |r| == |order| && forall x :: x in r <==> x in order
  {
    if order == [] then {} else Members(order[1..]) + {order[0]}
  }

  /** In a full table the slot with the least stamp is the last of the list: the least recently used. */
  lemma LeastIsLast<K, V>(t: seq<Slot<K, V>>, clock: nat, l: Lru<K, V>, order: seq<nat>, s: nat)
    requires Represents(t, clock, l, order) && (forall x | 0 <= x < |t| :: t[x].value.Some?) && s < |t|
    requires forall x | 0 <= x < |t| :: t[s].lastUse <= t[x].lastUse
    ensures |l| == |t| && order[|l| - 1] == s
  {
    FullTable(t, clock, l, order);
    var j :| 0 <= j < |order| && order[j] == s;
    assert t[s].lastUse <= t[order[|l| - 1]].lastUse;
  }

  // ---- Whole histories ----

  datatype Op<K, V> = Use(key: K) | Store(key: K, value: V)

  /** The effect of one operation. */
  function Applied<K(==), V>(l: Lru<K, V>, op: Op<K, V>): Lru<K, V> {
    match op
    case Use(k) => Used(l, k)
    case Store(k, v) => Stored(l, k, v)
  }

  /** The cache after these operations. */
  function Cached<K(==), V>(ops: seq<Op<K, V>>): Lru<K, V> {
    if ops == [] then [] else Applied(Cached(ops[..|ops| - 1]), ops[|ops| - 1])
  }

  /** Every key ever stored, by its last store or successful use, most recent first. */
  function History<K(==), V>(ops: seq<Op<K, V>>): Lru<K, V> {
    if ops == [] then []
    else
      var before := ops[..|ops| - 1];
      var h := History(before);
      match ops[|ops| - 1]
      case Use(k) => if Find(Cached(before), k).Some? then Used(h, k) else h
      case Store(k, v) => [(k, v)] + Removed(h, k)
  }

  lemma RemovedKeepsDistinct<K, V>(l: Lru<K, V>, k: K)
    requires DistinctKeys(l)
    ensures DistinctKeys(Removed(l, k)) && forall i | 0 <= i < |Removed(l, k)| :: Removed(l, k)[i].0 != k
  {
  }

  /** A use keeps the entries, a removal all but the key's, and a store adds the new one. */
  lemma UsedMembers<K, V>(l: Lru<K, V>, k: K)
    requires DistinctKeys(l)
    ensures DistinctKeys(Used(l, k)) && forall e <- Used(l, k) :: e in l
  {
    WithoutMembers(l);
    var r := Find(l, k);
    if r.Some? { WithoutDistinct(l, r.value); }
  }

  lemma RemovedMembers<K, V>(l: Lru<K, V>, k: K)
    requires DistinctKeys(l)
    ensures DistinctKeys(Removed(l, k)) && forall e <- Removed(l, k) :: e in l && e.0 != k
  {
    RemovedKeepsDistinct(l, k);
    WithoutMembers(l);
  }

  lemma StoredMembers<K, V>(l: Lru<K, V>, k: K, v: V)
    requires DistinctKeys(l)
    ensures DistinctKeys(Stored(l, k, v)) && forall e <- Stored(l, k, v) :: e == (k, v) || (e in l && e.0 != k)
  {
    var r := Removed(l, k);
    RemovedMembers(l, k);
    hide Removed;
    assert DistinctKeys([(k, v)] + r);
    assert forall e <- Cut([(k, v)] + r) :: e in [(k, v)] + r;
  }

  lemma WithoutMembers<T>(l: seq<T>)
    ensures forall i: nat, e | i < |l| && e in Without(l, i) :: e in l
  {
  }

  lemma CutDistinct<K, V>(l: Lru<K, V>)
    requires DistinctKeys(l)
    ensures DistinctKeys(Cut(l))
  {
  }

  /** Moving to the front in a long list, seen through its first 32. */
  lemma CutFind<K, V>(h: Lru<K, V>, k: K)
    requires DistinctKeys(h)
    ensures Find(Cut(h), k) == if Find(h, k).Some? && Find(h, k).value < 32 then Find(h, k) else None
  {
    var r := Find(h, k);
    var c := Find(Cut(h), k);
    if c.Some? { assert h[c.value].0 == k; }
    if r.Some? && r.value < 32 { assert Cut(h)[r.value].0 == k; }
  }

  lemma CutUsed<K, V>(h: Lru<K, V>, k: K)
    requires DistinctKeys(h)
    ensures Used(Cut(h), k) == if Find(Cut(h), k).Some? then Cut(Used(h, k)) else Cut(h)
  {
    CutFind(h, k);
    var r := Find(Cut(h), k);
    if r.Some? {
      assert Cut(h)[r.value] == h[r.value];
      hide DistinctKeys, Find;
      CutWithout(h[r.value], h, r.value);
    }
  }

  lemma CutStored<K, V>(h: Lru<K, V>, k: K, v: V)
    requires DistinctKeys(h)
    ensures Stored(Cut(h), k, v) == Cut([(k, v)] + Removed(h, k))
  {
    CutFind(h, k);
    hide DistinctKeys, Find, Cut, Without;
    CutFront((k, v), h);
    var r := Find(h, k);
    if r.Some? { CutWithout((k, v), h, r.value); }
  }

  /** Behind a new first, what is cut off twice is cut off once, with or without some position. */
  lemma CutFront<K, V>(e: (K, V), h: Lru<K, V>)
    ensures Cut([e] + Cut(h)) == Cut([e] + h)
  {
    if |h| >= 32 { assert ([e] + h)[..32] == [e] + h[..31] == ([e] + Cut(h))[..32]; }
  }

  lemma CutWithout<K, V>(e: (K, V), h: Lru<K, V>, i: nat)
    requires i < |h|
    ensures Cut([e] + Without(h, i)) == if i < 32 then Cut([e] + Without(Cut(h), i)) else Cut([e] + h)
  {
    if i >= 32 {
      assert ([e] + Without(h, i))[..32] == [e] + h[..31] == ([e] + h)[..32];
    } else if |h| > 32 {
      var a, b := [e] + Without(h, i), [e] + Without(h[..32], i);
      assert |a| >= 32 == |b|;
      forall j | 0 <= j < 32
        ensures a[j] == b[j]
      {
        if j > 0 { WithoutAt(h, i, j - 1); WithoutAt(h[..32], i, j - 1); }
      }
      assert a[..32] == b;
    }
  }

  lemma WithoutAt<T>(l: seq<T>, i: nat, j: nat)
    requires i < |l| && j < |l| - 1
    ensures |Without(l, i)| == |l| - 1 && Without(l, i)[j] == l[if j < i then j else j + 1]
  {
  }

  lemma FrontDistinct<K, V>(k: K, v: V, l: Lru<K, V>)
    requires DistinctKeys(l) && forall i | 0 <= i < |l| :: l[i].0 != k
    ensures DistinctKeys([(k, v)] + l)
  {
  }

  /** The cache holds exactly the 32 most recently used keys of the whole history, in that order. */
  lemma {:induction false} CacheIsMostRecent<K, V>(ops: seq<Op<K, V>>)
    ensures DistinctKeys(History(ops)) && Cached(ops) == Cut(History(ops))
    decreases |ops|
  {
    if ops != [] {
      var before, op := ops[..|ops| - 1], ops[|ops| - 1];
      CacheIsMostRecent(before);
      var h := History(before);
      hide Find, Used, Removed, Stored, Cut, DistinctKeys;
      match op
      case Use(k) =>
        CutUsed(h, k);
        UsedMembers(h, k);
      case Store(k, v) =>
        CutStored(h, k, v);
        RemovedKeepsDistinct(h, k);
        FrontDistinct(k, v, Removed(h, k));
    }
  }

  /** The value last stored under a key. */
  function LastStored<K(==), V>(ops: seq<Op<K, V>>, k: K): Option<V> {
    if ops == [] then None
    else
      var op := ops[|ops| - 1];
      if op.Store? && op.key == k then Some(op.value) else LastStored(ops[..|ops| - 1], k)
  }

  /** Whatever the cache holds for a key is what was last stored under it. */
  lemma {:induction false} CacheHoldsLastStored<K, V>(ops: seq<Op<K, V>>)
    ensures forall e <- Cached(ops) :: LastStored(ops, e.0) == Some(e.1)
    decreases |ops|
  {
    if ops != [] {
      var before, op := ops[..|ops| - 1], ops[|ops| - 1];
      CacheHoldsLastStored(before);
      CacheIsMostRecent(before);
      var l := Cached(before);
      CutDistinct(History(before));
      match op
      case Use(k) => UsedMembers(l, k);
      case Store(k, v) => StoredMembers(l, k, v);
    }
  }
}
