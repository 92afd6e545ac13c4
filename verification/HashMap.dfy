/** The open-addressing hash map under the peer table: windows of 8 probes, and rehashing into a table twice the
    size when a window or half the table is full. */
module HashMap {
  import opened Sets
  import opened Wrappers

  datatype Status = Ok | OutOfMemory | Missing

  datatype Slot<K, V> = Free | Used(key: K, data: V)

  // ---- Tables ----

  /** No key is stored twice. */
  ghost predicate Distinct<K, V>(t: seq<Slot<K, V>>) {
    forall i, j | 0 <= i < j < |t| && t[i].Used? && t[j].Used? :: t[i].key != t[j].key
  }

  /** The slot reached from hash value `h` by `d` probes in a table of `n` slots. */
  function Probe(h: nat, d: nat, n: nat): (i: nat)
    requires n > 0
    ensures i < n
  {
    if d == 0 then h % n else (Probe(h, d - 1, n) + 1) % n
  }

  /** Slot `i` is among the 8 slots probed for hash value `h`. */
  ghost predicate InWindow(h: nat, i: nat, n: nat)
    requires n > 0
  {
    exists d: nat | d < 8 :: i == Probe(h, d, n)
  }

  /** The first slot of the window, from probe `d` on, that is free or holds the key. */
  function First<K(==), V>(t: seq<Slot<K, V>>, h: nat, key: K, d: nat): (i: Option<nat>)
    requires |t| > 0 && d <= 8
    ensures i.Some? ==> i.value < |t| && (t[i.value].Free? || t[i.value].key == key)
    decreases 8 - d
  {
    if d == 8 then None
    else
      var s := t[Probe(h, d, |t|)];
      if s.Free? || s.key == key then Some(Probe(h, d, |t|)) else First(t, h, key, d + 1)
  }

  /** Every key lies in its own window. */
  ghost predicate Placed<K, V>(t: seq<Slot<K, V>>, hash: K -> nat) {
    forall i | 0 <= i < |t| && t[i].Used? :: InWindow(hash(t[i].key), i, |t|)
  }

  ghost function Count<K, V>(t: seq<Slot<K, V>>): nat {
    if t == [] then 0 else Count(t[..|t| - 1]) + (if t[|t| - 1].Used? then 1 else 0)
  }

  /** The finite map that a table stands for. */
  ghost function Contents<K, V>(t: seq<Slot<K, V>>): map<K, V>
    requires Distinct(t)
  {
    map i | 0 <= i < |t| && t[i].Used? :: t[i].key := t[i].data
  }

  ghost predicate Submap<K, V>(a: map<K, V>, b: map<K, V>) {
    forall k :: k in a ==> k in b && a[k] == b[k]
  }

  /** The keys in a table. */
  ghost function KeySet<K, V>(t: seq<Slot<K, V>>): set<K> {
    set i | 0 <= i < |t| && t[i].Used? :: t[i].key
  }

  /** What every table of the map satisfies. */
  ghost predicate Good<K, V>(t: seq<Slot<K, V>>, hash: K -> nat) {
    |t| >= 256 && Distinct(t) && Placed(t, hash)
  }

  lemma {:induction false} CountUpdate<K, V>(t: seq<Slot<K, V>>, i: nat, s: Slot<K, V>)
    requires i < |t|
    ensures Count(t[i := s]) == Count(t) - (if t[i].Used? then 1 else 0) + (if s.Used? then 1 else 0)
    decreases |t|
  {
    var n := |t| - 1;
    if i < n {
      assert t[i := s][..n] == t[..n][i := s];
      CountUpdate(t[..n], i, s);
    } else {
      assert t[i := s][..n] == t[..n];
    }
  }

  lemma {:induction false} CountFree<K, V>(t: seq<Slot<K, V>>)
    requires forall i | 0 <= i < |t| :: t[i].Free?
    ensures Count(t) == 0
    decreases |t|
  {
    if t != [] { CountFree(t[..|t| - 1]); }
  }

  /** Storing an absent key in a free slot adds it to the map. */
  lemma InsertAt<K, V>(t: seq<Slot<K, V>>, i: nat, k: K, v: V)
    requires Distinct(t) && i < |t| && t[i].Free? && k !in Contents(t)
    ensures Distinct(t[i := Used(k, v)]) && Contents(t[i := Used(k, v)]) == Contents(t)[k := v]
  {
    var u := t[i := Used(k, v)];
    assert forall j | 0 <= j < |t| && t[j].Used? :: t[j].key in Contents(t);
    forall j | 0 <= j < |u| && u[j].Used?
      ensures u[j].key in Contents(t)[k := v] && Contents(t)[k := v][u[j].key] == u[j].data
    {
      if j != i { assert t[j].key in Contents(t); }
    }
    forall x | x in Contents(t)[k := v]
      ensures x in Contents(u)
    {
      if x == k {
        assert u[i].key == x;
      } else {
        var j :| 0 <= j < |t| && t[j].Used? && t[j].key == x;
        assert u[j].key == x;
      }
    }
  }

  /** Blanking a slot removes its key, and no other: removal never hides another key. */
  lemma RemoveAt<K, V>(t: seq<Slot<K, V>>, i: nat)
    requires Distinct(t) && i < |t| && t[i].Used?
    ensures Distinct(t[i := Free]) && Contents(t[i := Free]) == Contents(t) - {t[i].key}
  {
    var u := t[i := Free];
    forall x | x in Contents(t) - {t[i].key}
      ensures x in Contents(u)
    {
      var j :| 0 <= j < |t| && t[j].Used? && t[j].key == x;
      assert u[j].key == x;
    }
  }

  lemma ContentsAt<K, V>(t: seq<Slot<K, V>>, i: nat)
    requires Distinct(t) && i < |t| && t[i].Used?
    ensures t[i].key in Contents(t) && Contents(t)[t[i].key] == t[i].data
  {
  }

  lemma FreeTable<K, V>(t: seq<Slot<K, V>>, hash: K -> nat)
    requires forall i | 0 <= i < |t| :: t[i].Free?
    ensures Distinct(t) && Placed(t, hash) && Contents(t) == map[] && Count(t) == 0 && (t != [] ==> Snug(t, hash))
  {
    CountFree(t);
  }

  lemma DistinctPrefix<K, V>(t: seq<Slot<K, V>>, i: nat)
    requires Distinct(t) && i <= |t|
    ensures Distinct(t[..i])
  {
  }

  /** A free slot at the end adds nothing. */
  lemma AppendFree<K, V>(t: seq<Slot<K, V>>)
    requires Distinct(t)
    ensures Distinct(t + [Free]) && Contents(t + [Free]) == Contents(t)
  {
    var u := t + [Free];
    forall j | 0 <= j < |t| && t[j].Used?
      ensures t[j].key in Contents(u)
    {
      assert u[j] == t[j];
    }
  }

  /** One more slot of a table: what it adds to the map of the slots before it. */
  lemma ContentsPrefix<K, V>(t: seq<Slot<K, V>>, i: nat)
    requires Distinct(t) && i < |t|
    ensures Distinct(t[..i]) && Distinct(t[..i + 1])
    ensures t[i].Free? ==> Contents(t[..i + 1]) == Contents(t[..i])
    ensures t[i].Used? ==> && t[i].key !in Contents(t[..i])
                           && Contents(t[..i + 1]) == Contents(t[..i])[t[i].key := t[i].data]
  {
    DistinctPrefix(t, i);
    DistinctPrefix(t, i + 1);
    AppendFree(t[..i]);
    var u := t[..i] + [Free];
    if t[i].Free? {
      assert t[..i + 1] == u;
    } else {
      hide Contents;
      AbsentBefore(t, i);
      InsertAt(u, i, t[i].key, t[i].data);
      assert t[..i + 1] == u[i := Used(t[i].key, t[i].data)];
    }
  }

  lemma AbsentAt<K, V>(t: seq<Slot<K, V>>, i: nat, key: K)
    requires Distinct(t) && key !in Contents(t) && i < |t|
    ensures t[i].Used? ==> t[i].key != key
  {
  }

  lemma AbsentBefore<K, V>(t: seq<Slot<K, V>>, i: nat)
    requires Distinct(t) && i < |t| && t[i].Used? && Distinct(t[..i])
    ensures t[i].key !in Contents(t[..i])
  {
  }

  lemma {:induction false} FirstInWindow<K, V>(t: seq<Slot<K, V>>, h: nat, key: K, d: nat)
    requires |t| > 0 && d <= 8
    ensures var i := First(t, h, key, d); i.Some? ==> InWindow(h, i.value, |t|)
    decreases 8 - d
  {
    if d < 8 { FirstInWindow(t, h, key, d + 1); }
  }

  /** The slot at probe `e` is of no use for the key. */
  ghost predicate Taken<K, V>(t: seq<Slot<K, V>>, h: nat, key: K, e: nat)
    requires |t| > 0
  {
    var s := t[Probe(h, e, |t|)]; s.Used? && s.key != key
  }

  lemma {:induction false} NoFirst<K, V>(t: seq<Slot<K, V>>, h: nat, key: K, d: nat)
    requires |t| > 0 && d <= 8
    ensures First(t, h, key, d).None? <==> forall e: nat | d <= e < 8 :: Taken(t, h, key, e)
    decreases 8 - d
  {
    if d < 8 {
      NoFirst(t, h, key, d + 1);
      assert First(t, h, key, d).None? <==> Taken(t, h, key, d) && First(t, h, key, d + 1).None?;
      hide Taken, First;
      if First(t, h, key, d).None? {
        forall e: nat | d <= e < 8
          ensures Taken(t, h, key, e)
        {
          if e > d { assert d + 1 <= e; }
        }
      }
    }
  }

  lemma LastKey<K, V>(t: seq<Slot<K, V>>)
    requires t != []
    ensures var n := |t| - 1; KeySet(t) == KeySet(t[..n]) + (if t[n].Used? then {t[n].key} else {})
  {
    var n := |t| - 1;
    forall k | k in KeySet(t[..n])
      ensures k in KeySet(t)
    {
      var i :| 0 <= i < n && t[..n][i].Used? && t[..n][i].key == k;
      assert t[i].key == k;
    }
    forall k | k in KeySet(t)
      ensures k in KeySet(t[..n]) + (if t[n].Used? then {t[n].key} else {})
    {
      var i :| 0 <= i <= n && t[i].Used? && t[i].key == k;
      if i < n { assert t[..n][i].key == k; }
    }
  }

  lemma ContentsKeys<K, V>(t: seq<Slot<K, V>>)
    requires Distinct(t)
    ensures Contents(t).Keys == KeySet(t)
  {
  }

  /** A table has as many used slots as keys. */
  lemma {:induction false} KeyCount<K, V>(t: seq<Slot<K, V>>)
    requires Distinct(t)
    ensures |KeySet(t)| == Count(t) && Contents(t).Keys == KeySet(t)
    decreases |t|
  {
    ContentsKeys(t);
    if t != [] {
      var n := |t| - 1;
      DistinctPrefix(t, n);
      if t[n].Used? { AbsentBefore(t, n); }
      hide Distinct, Contents, KeySet;
      KeyCount(t[..n]);
      LastKey(t);
    } else {
      assert KeySet(t) == {};
    }
  }

  // ---- Windows that do not overflow ----

  ghost predicate Overlap(h: nat, g: nat, n: nat)
    requires n > 0
  {
    exists d: nat, e: nat | d < 8 && e < 8 :: Probe(h, d, n) == Probe(g, e, n)
  }

  /** The keys whose windows share a slot with that of `key`. */
  ghost function Rivals<K>(keys: set<K>, hash: K -> nat, key: K, n: nat): set<K>
    requires n > 0
  {
    set k | k in keys && Overlap(hash(key), hash(k), n)
  }

  /** In a table of `n` slots no window of these keys can overflow, and they fill half of it at most. */
  ghost predicate Spread<K>(keys: set<K>, hash: K -> nat, n: nat) {
    n >= 256 && |keys| <= n / 2 && forall k <- keys :: |Rivals(keys, hash, k, n)| <= 8
  }

  /** Doubling `a` often enough yields `n`. */
  ghost predicate Doubles(a: nat, n: nat)
    decreases if a <= n then n - a else 0
  {
    a == n || (0 < a < n && Doubles(2 * a, n))
  }

  /** Rehashing a table of `a` slots can reach one of `n` slots in which the keys are spread. */
  ghost predicate Fits<K>(a: nat, n: nat, keys: set<K>, hash: K -> nat, budget: nat) {
    n <= budget && Doubles(a, n) && Spread(keys, hash, n)
  }

  lemma FitsBudget<K>(a: nat, keys: set<K>, hash: K -> nat, budget: nat)
    ensures forall n: nat | Fits(a, n, keys, hash, budget) :: a <= n <= budget && Doubles(a, n)
  {
  }

  lemma SpreadFewer<K>(keys: set<K>, fewer: set<K>, hash: K -> nat, n: nat)
    requires Spread(keys, hash, n) && fewer <= keys
    ensures Spread(fewer, hash, n)
  {
    Fewer(fewer, keys);
    forall k | k in fewer
      ensures |Rivals(fewer, hash, k, n)| <= 8
    {
      Fewer(Rivals(fewer, hash, k, n), Rivals(keys, hash, k, n));
    }
  }

  lemma FitsFewer<K>(a: nat, keys: set<K>, b: nat, fewer: set<K>, hash: K -> nat, budget: nat)
    requires fewer <= keys && forall n: nat | Fits(a, n, keys, hash, budget) :: Doubles(b, n)
    ensures forall n: nat | Fits(a, n, keys, hash, budget) :: Fits(b, n, fewer, hash, budget)
  {
    forall n: nat | Fits(a, n, keys, hash, budget)
      ensures Fits(b, n, fewer, hash, budget)
    {
      SpreadFewer(keys, fewer, hash, n);
    }
  }

  lemma Successor(i: nat, n: nat)
    requires i < n
    ensures (i + 1) % n == if i + 1 < n then i + 1 else 0
  {
    if i + 1 < n { assert (i + 1) / n == 0; }
  }

  lemma {:induction false} LaterProbe(h: nat, d: nat, e: nat, n: nat)
    requires d <= e < d + n
    ensures var i := Probe(h, d, n) + (e - d); Probe(h, e, n) == if i < n then i else i - n
    decreases e
  {
    if e > d {
      LaterProbe(h, d, e - 1, n);
      Successor(Probe(h, e - 1, n), n);
    }
  }

  /** The keys in the first `d` slots of a window. */
  ghost function WindowKeys<K, V>(t: seq<Slot<K, V>>, h: nat, d: nat): set<K>
    requires |t| > 0
  {
    if d == 0 then {}
    else
      var s := t[Probe(h, d - 1, |t|)];
      WindowKeys(t, h, d - 1) + (if s.Used? then {s.key} else {})
  }

  lemma ProbesDiffer(h: nat, d: nat, e: nat, n: nat)
    requires n >= 256 && d < e < 8
    ensures Probe(h, d, n) != Probe(h, e, n)
  {
    LaterProbe(h, d, e, n);
  }

  ghost predicate AtProbe<K, V>(t: seq<Slot<K, V>>, h: nat, k: K, e: nat)
    requires |t| > 0
  {
    var s := t[Probe(h, e, |t|)]; s.Used? && s.key == k
  }

  lemma {:induction false} WindowKeysAre<K, V>(t: seq<Slot<K, V>>, h: nat, d: nat)
    requires |t| >= 256 && Distinct(t) && d <= 8
    requires forall e: nat | e < d :: t[Probe(h, e, |t|)].Used?
    ensures |WindowKeys(t, h, d)| == d
    ensures forall k <- WindowKeys(t, h, d) :: exists e: nat :: e < d && AtProbe(t, h, k, e)
  {
    hide Probe;
    if d > 0 {
      WindowKeysAre(t, h, d - 1);
      var w, k := WindowKeys(t, h, d - 1), t[Probe(h, d - 1, |t|)].key;
      if k in w {
        var e: nat :| e < d - 1 && AtProbe(t, h, k, e);
        ProbesDiffer(h, e, d - 1, |t|);
        assert false;
      }
      assert AtProbe(t, h, k, d - 1);
    }
  }

  /** Where the keys are spread, a new key finds a slot. */
  lemma WindowOpen<K, V>(t: seq<Slot<K, V>>, hash: K -> nat, key: K)
    requires Good(t, hash) && key !in KeySet(t) && Spread(KeySet(t) + {key}, hash, |t|)
    ensures First(t, hash(key), key, 0).Some?
  {
    var keys, h := KeySet(t) + {key}, hash(key);
    NoFirst(t, h, key, 0);
    if First(t, h, key, 0).None? {
      FullWindow(t, hash, key);
      Fewer(WindowKeys(t, h, 8) + {key}, Rivals(keys, hash, key, |t|));
      assert false;
    }
  }

  /** The keys of a window without a slot for the new key, and that key itself, are nine rivals. */
  lemma FullWindow<K, V>(t: seq<Slot<K, V>>, hash: K -> nat, key: K)
    requires Good(t, hash) && key !in KeySet(t) && forall e: nat | e < 8 :: Taken(t, hash(key), key, e)
    ensures var rivals := WindowKeys(t, hash(key), 8) + {key};
            |rivals| == 9 && rivals <= Rivals(KeySet(t) + {key}, hash, key, |t|)
  {
    var h, w := hash(key), WindowKeys(t, hash(key), 8);
    assert |t| >= 256 && Distinct(t);
    hide *;
    AllUsed(t, h, key);
    WindowKeysAre(t, h, 8);
    OverlapsItself(h, |t|);
    Neighbours(t, hash, h, w);
    assert key !in w;
    RivalsHave(KeySet(t) + {key}, hash, key, |t|, w + {key});
  }

  lemma RivalsHave<K>(keys: set<K>, hash: K -> nat, key: K, n: nat, some: set<K>)
    requires n > 0 && some <= keys && forall k <- some :: Overlap(hash(key), hash(k), n)
    ensures some <= Rivals(keys, hash, key, n)
  {
    hide Overlap;
  }

  /** Keys found in the window of `h` have windows that overlap it. */
  lemma Neighbours<K, V>(t: seq<Slot<K, V>>, hash: K -> nat, h: nat, w: set<K>)
    requires Good(t, hash) && forall k <- w :: exists e: nat :: e < 8 && AtProbe(t, h, k, e)
    ensures w <= KeySet(t) && forall k <- w :: Overlap(h, hash(k), |t|)
  {
    hide KeySet, Overlap, AtProbe;
    forall k | k in w
      ensures k in KeySet(t) && Overlap(h, hash(k), |t|)
    {
      var e: nat :| e < 8 && AtProbe(t, h, k, e);
      InOwnWindow(t, hash, k, h, e);
    }
  }

  lemma AllUsed<K, V>(t: seq<Slot<K, V>>, h: nat, key: K)
    requires |t| > 0 && forall e: nat | e < 8 :: Taken(t, h, key, e)
    ensures forall e: nat | e < 8 :: t[Probe(h, e, |t|)].Used?
  {
    hide Probe;
    forall e: nat | e < 8
      ensures t[Probe(h, e, |t|)].Used?
    {
      assert Taken(t, h, key, e);
    }
  }

  lemma OverlapsItself(h: nat, n: nat)
    requires n > 0
    ensures Overlap(h, h, n)
  {
    var d: nat, e: nat := 0, 0;
    assert d < 8 && e < 8 && Probe(h, d, n) == Probe(h, e, n);
  }

  lemma InOwnWindow<K, V>(t: seq<Slot<K, V>>, hash: K -> nat, k: K, h: nat, e: nat)
    requires Good(t, hash) && e < 8 && AtProbe(t, h, k, e)
    ensures k in KeySet(t) && Overlap(h, hash(k), |t|)
  {
    var i := Probe(h, e, |t|);
    assert t[i].Used? && t[i].key == k;
    assert InWindow(hash(k), i, |t|);
  }

  /** A table that must grow before a new key goes in has not reached a size in which the keys are spread. */
  lemma MustGrow<K, V>(t: seq<Slot<K, V>>, a: nat, keys: set<K>, hash: K -> nat, budget: nat, key: K)
    requires Good(t, hash) && key !in KeySet(t) && keys == KeySet(t) + {key}
    requires Count(t) >= |t| / 2 || First(t, hash(key), key, 0).None?
    requires forall n: nat | Fits(a, n, keys, hash, budget) :: Doubles(|t|, n)
    ensures forall n: nat | Fits(a, n, keys, hash, budget) :: Fits(2 * |t|, n, KeySet(t), hash, budget)
  {
    forall n: nat | Fits(a, n, keys, hash, budget)
      ensures Fits(2 * |t|, n, KeySet(t), hash, budget)
    {
      SpreadFewer(keys, KeySet(t), hash, n);
      if n == |t| {
        KeyCount(t);
        WindowOpen(t, hash, key);
        assert false;
      }
    }
  }

  /** Less than half the table is in use, and the window of the key has a slot that is free or its own. */
  ghost predicate HasSlot<K, V>(t: seq<Slot<K, V>>, size: nat, hash: K -> nat, key: K)
    requires |t| > 0
  {
    size < |t| / 2 && First(t, hash(key), key, 0).Some?
  }

  /** And the first such slot is a free one. */
  ghost predicate Masked<K, V>(t: seq<Slot<K, V>>, size: nat, hash: K -> nat, key: K)
    requires |t| > 0
  {
    HasSlot(t, size, hash, key) && t[First(t, hash(key), key, 0).value].Free?
  }

  // ---- The map ----

  class Map<K(==), V> {
    var data: array<Slot<K, V>>
    var size: nat
    ghost var entries: map<K, V>    // the finite map it stands for
    const hash: K -> nat    // the keyed hash of the key's bytes
    const budget: nat       // the largest table for which memory can be had

    ghost predicate Valid()
      reads this, data
      ensures Valid() ==> Sound()
    {
      Sound() && size == Count(data[..])
    }

    /** The same up to `size`, which a put of a key that is there already increments as well. */
    ghost predicate Sound()
      reads this, data
    {
      && data.Length >= 256
      && Distinct(data[..]) && Placed(data[..], hash)
      && Count(data[..]) <= size <= data.Length / 2
      && entries == Contents(data[..])
    }

    ghost function Room(): nat
      reads this
    {
      if data.Length <= budget then budget - data.Length else 0
    }

    constructor (hash: K -> nat, budget: nat)
      ensures Valid() && fresh(data) && entries == map[] && data.Length == 256
      ensures size == 0 && forall i | 0 <= i < 256 :: data[i].Free?
      ensures this.hash == hash && this.budget == budget
    {
      this.hash := hash;
      this.budget := budget;
      data := new Slot<K, V>[256](_ => Free);
      size := 0;
      entries := map[];
      new;
      FreeTable(data[..], hash);
    }

    /** The slot for a key: the first of its window that is free or already holds it. None when half the table is
        in use, or the window is full of other keys. */
    method Hash(key: K) returns (index: Option<nat>)
      requires data.Length > 0
      ensures index == if size >= data.Length / 2 then None else First(data[..], hash(key), key, 0)
    {
      var n := data.Length;
      if size >= n / 2 {
        return None;
      }
      var curr := hash(key) % n;
      var i := 0;
      while i < 8
        invariant 0 <= i <= 8 && curr == Probe(hash(key), i, n)
        invariant First(data[..], hash(key), key, 0) == First(data[..], hash(key), key, i)
      {
        if data[curr].Free? {
          return Some(curr);
        }
        if data[curr].key == key {
          return Some(curr);
        }
        assert (curr + 1) % n == Probe(hash(key), i + 1, n);
        curr := (curr + 1) % n;
        i := i + 1;
      }
      return None;
    }

    /** Moves everything to a table twice the size, or a larger one if some window overflows there too. */
    method Rehash() returns (status: Status)
      requires Sound()
      modifies this, data
      ensures Sound() && (old(Valid()) ==> Valid()) && status != Missing
      ensures data == old(data) || fresh(data)
      ensures status == Ok ==> && entries == old(entries) && Valid() && Snug(data[..], hash)
                               && data.Length >= 2 * old(data.Length) && 2 * old(data.Length) <= budget
      ensures status == OutOfMemory ==> Submap(entries, old(entries)) && 2 * data.Length > budget
      ensures status == OutOfMemory && 2 * old(data.Length) > budget ==> data == old(data) && entries == old(entries)
      // Enough memory for a table in which no window of these keys overflows is enough.
      ensures forall n: nat | Fits(2 * old(data.Length), n, old(entries.Keys), hash, budget) ::
                status == Ok && Doubles(data.Length, n)
      decreases Room(), 0
    {
      hide Contents, Distinct, Count, Placed, Spread, Doubles, Good, First, Snug;
      ghost var first, keys := 2 * data.Length, entries.Keys;
      FitsBudget(first, keys, hash, budget);
      if 2 * data.Length > budget {
        return OutOfMemory;
      }
      var curr := data;
      ghost var was := curr[..];
      data := new Slot<K, V>[2 * curr.Length](_ => Free);
      size := 0;
      entries := map[];
      FreeTable(data[..], hash);
      var i := 0;
      FreeTable(was[..0], hash);
      while i < curr.Length
        invariant 0 <= i <= curr.Length && curr[..] == was && Distinct(was)
        invariant Valid() && fresh(data) && data != curr && data.Length >= 2 * curr.Length
        invariant Distinct(was[..i]) && entries == Contents(was[..i]) && Contents(was).Keys == keys
        invariant forall n: nat | Fits(first, n, keys, hash, budget) :: Doubles(data.Length, n)
        invariant Snug(data[..], hash)
      {
        ContentsPrefix(was, i);
        assert curr[i] == was[i];
        if curr[i].Used? {
          KeysSoFar(was, i);
          FitsFewer(first, keys, data.Length, entries.Keys + {was[i].key}, hash, budget);
          ghost var before;
          status, before := Put(curr[i].key, curr[i].data);
          if status != Ok {
            PrefixIsSubmap(was, i);
            return status;
          }
          SnugInsert(before, hash, curr[i].key, curr[i].data);
        }
        i := i + 1;
      }
      assert was[..curr.Length] == was;
      return Ok;
    }

    /** The loop of `hashmap_put`: rehashes until there is a slot for the key, or memory runs out. */
    method Choose(key: K) returns (index: Option<nat>)
      requires Sound()
      modifies this, data
      ensures Sound() && (old(Valid()) ==> Valid()) && (data == old(data) || fresh(data))
      ensures data.Length >= old(data.Length)
      ensures index.Some? ==> && entries == old(entries) && size < data.Length / 2
                              && index == First(data[..], hash(key), key, 0)
      ensures index.Some? && data == old(data) ==> data[..] == old(data[..]) && size == old(size)
      ensures index.Some? && data != old(data) ==> Valid() && Snug(data[..], hash)
      ensures index.None? ==> Submap(entries, old(entries)) && 2 * data.Length > budget
      ensures index.None? && 2 * old(data.Length) > budget ==> data == old(data) && entries == old(entries)
      ensures HasSlot(old(data[..]), old(size), hash, key) <==> index.Some? && data == old(data)
      ensures key !in old(entries) && old(Valid()) ==>
                forall n: nat | Fits(old(data.Length), n, old(entries.Keys) + {key}, hash, budget) ::
                  index.Some? && Doubles(data.Length, n)
      decreases Room(), 1
    {
      hide Contents, Distinct, Placed, Count, InWindow, First, Spread, Doubles, Snug;
      ghost var first, keys := data.Length, entries.Keys + {key};
      FitsBudget(first, keys, hash, budget);
      index := Hash(key);
      while index.None?
        invariant Sound() && (old(Valid()) ==> Valid()) && entries == old(entries) && data.Length >= old(data.Length)
        invariant data == old(data) || (fresh(data) && Room() < old(Room()) && 2 * old(data.Length) <= budget)
        invariant index == if size >= data.Length / 2 then None else First(data[..], hash(key), key, 0)
        invariant key !in entries && old(Valid()) ==>
                    forall n: nat | Fits(first, n, keys, hash, budget) :: Doubles(data.Length, n)
        invariant data == old(data) ==> data[..] == old(data[..]) && size == old(size)
        invariant data != old(data) ==> Valid() && Snug(data[..], hash) && !HasSlot(old(data[..]), old(size), hash, key)
        decreases Room()
      {
        KeyCount(data[..]);
        if key !in entries && old(Valid()) { MustGrow(data[..], first, keys, hash, budget, key); }
        var status := Rehash();
        if status == OutOfMemory {
          return None;
        }
        index := Hash(key);
      }
    }

    /** `hashmap_put`. The slot is chosen in the table `before`, which is the present one, or the one it has been
        rehashed into. The key is bound to the value, unless it was there already and goes in a second time, into a
        free slot that comes before its own: this is so exactly if less than half the table is in use and the first
        slot of the window that is free or the key's own is free. Rehashing leaves no such slot. */
    method Put(key: K, value: V) returns (status: Status, ghost before: seq<Slot<K, V>>)
      requires Sound()
      modifies this, data
      ensures status != Missing && (data == old(data) || fresh(data)) && data.Length >= old(data.Length)
      ensures status == Ok ==> && Good(before, hash) && Contents(before) == old(entries) && Count(before) < |before| / 2
                               && (var i := First(before, hash(key), key, 0);
                                   i.Some? && data[..] == before[i.value := Used(key, value)])
                               && size == (if data == old(data) then old(size) else Count(before)) + 1
      ensures status == Ok ==> if data == old(data) then before == old(data[..]) else Snug(before, hash)
      ensures status == Ok && key in old(entries) ==>
                (StoredTwice(data[..], key) <==> Masked(old(data[..]), old(size), hash, key))
      ensures status == Ok && (key in old(entries) ==> !Masked(old(data[..]), old(size), hash, key)) ==>
                Sound() && entries == old(entries)[key := value]
      ensures status == Ok && key !in old(entries) && old(Valid()) ==> Valid()
      ensures status == OutOfMemory ==> Sound() && Submap(entries, old(entries)) && 2 * data.Length > budget
      ensures status == OutOfMemory && old(Valid()) ==> Valid()
      ensures status == OutOfMemory && 2 * old(data.Length) > budget ==> data == old(data) && entries == old(entries)
      // With a slot to use there is no need of memory.
      ensures HasSlot(old(data[..]), old(size), hash, key) <==> status == Ok && data == old(data)
      // Enough memory for a table in which no window of the keys overflows is enough.
      ensures key !in old(entries) && old(Valid()) ==>
                forall n: nat | Fits(old(data.Length), n, old(entries.Keys) + {key}, hash, budget) ::
                  status == Ok && Doubles(data.Length, n)
      decreases Room(), 2
    {
      hide Contents, Distinct, Placed, Count, First, Snug, StoredTwice, Fits, Doubles, Submap;
      var index := Choose(key);
      if index.None? {
        return OutOfMemory, [];
      }
      before := data[..];
      if key in entries { PresentKeyPut(before, hash, key, value); }
      Insert(index.value, key, value);
      return Ok, before;
    }

    /** Fills the slot found for the key. */
    method Insert(i: nat, key: K, value: V)
      requires Sound() && size < data.Length / 2 && First(data[..], hash(key), key, 0) == Some(i)
      modifies this`size, this`entries, data
      ensures data[..] == old(data[..])[i := Used(key, value)] && size == old(size) + 1
      ensures key !in old(entries) || old(data[..])[i].Used? ==> Sound() && entries == old(entries)[key := value]
      ensures key !in old(entries) && old(Valid()) ==> Valid()
    {
      ghost var t := data[..];
      CountUpdate(t, i, Used(key, value));
      if key !in entries {
        FirstInWindow(t, hash(key), key, 0);
        AbsentAt(t, i, key);
        InsertAt(t, i, key, value);
      } else if t[i].Used? {
        ReplaceAt(t, i, key, value);
      }
      data[i] := Used(key, value);
      assert data[..] == t[i := Used(key, value)];
      size := size + 1;
      entries := entries[key := value];
    }

    /** Frees a slot. */
    method Blank(i: nat)
      requires Sound() && i < data.Length && data[i].Used?
      modifies this`size, this`entries, data
      ensures Sound() && (old(Valid()) ==> Valid())
      ensures data[..] == old(data[..])[i := Free] && size == old(size) - 1
      ensures entries == old(entries) - {old(data[i].key)}
    {
      ghost var t := data[..];
      RemoveAt(t, i);
      CountUpdate(t, i, Free);
      entries := entries - {data[i].key};
      data[i] := Free;
      assert data[..] == t[i := Free];
      size := size - 1;
    }

    /** Looks a key up, and removes it if asked to. */
    method Get(key: K, remove: bool) returns (status: Status, value: Option<V>)
      requires Sound()
      modifies this`size, this`entries, data
      ensures Sound() && (old(Valid()) ==> Valid()) && data == old(data)
      ensures key in old(entries) ==> status == Ok && value == Some(old(entries)[key])
      ensures key !in old(entries) ==> status == Missing && value == None
      ensures entries == if remove then old(entries) - {key} else old(entries)
      ensures !remove ==> unchanged(this) && unchanged(data)
      ensures size == old(size) - (if remove && key in old(entries) then 1 else 0)
      ensures forall i | 0 <= i < data.Length ::
                var s := old(data[..])[i]; data[i] == if remove && s.Used? && s.key == key then Free else s
    {
      var n := data.Length;
      ghost var t := data[..];
      var curr := hash(key) % n;
      var i := 0;
      while i < 8
        invariant 0 <= i <= 8 && curr == Probe(hash(key), i, n)
        invariant data[..] == t && size == old(size)
        invariant forall d: nat | d < i :: !AtProbe(t, hash(key), key, d)
      {
        if data[curr].Used? && data[curr].key == key {
          value := Some(data[curr].data);
          ContentsAt(t, curr);
          if remove { Blank(curr); }
          return Ok, value;
        }
        assert (curr + 1) % n == Probe(hash(key), i + 1, n);
        curr := (curr + 1) % n;
        i := i + 1;
      }
      NotInWindow(t, hash, key);
      return Missing, None;
    }
  }

  // ---- Keys that are there already ----

  /** A search for any key in the table ends at that key: no slot of its window before its own is free. */
  ghost predicate Snug<K, V>(t: seq<Slot<K, V>>, hash: K -> nat) {
    |t| > 0 && forall i | 0 <= i < |t| && t[i].Used? :: First(t, hash(t[i].key), t[i].key, 0) == Some(i)
  }

  /** Storing where a search ends does not change where the other searches end. */
  lemma {:induction false} FirstKept<K, V>(t: seq<Slot<K, V>>, h: nat, key: K, d: nat, i: nat, s: Slot<K, V>)
    requires |t| > 0 && d <= 8 && i < |t| && s.Used? && (t[i].Used? ==> t[i].key == s.key)
    requires var f := First(t, h, key, d); f.Some? && (f.value == i ==> s.key == key)
    ensures First(t[i := s], h, key, d) == First(t, h, key, d)
    decreases 8 - d
  {
    if First(t, h, key, d) != Some(Probe(h, d, |t|)) { FirstKept(t, h, key, d + 1, i, s); }
  }

  /** A put without removals before it: every key remains what a search for it finds. */
  lemma SnugInsert<K, V>(t: seq<Slot<K, V>>, hash: K -> nat, key: K, value: V)
    requires Snug(t, hash) && First(t, hash(key), key, 0).Some?
    ensures Snug(t[First(t, hash(key), key, 0).value := Used(key, value)], hash)
  {
    var i, s := First(t, hash(key), key, 0).value, Used(key, value);
    var u := t[i := s];
    FirstKept(t, hash(key), key, 0, i, s);
    forall j | 0 <= j < |u| && u[j].Used?
      ensures First(u, hash(u[j].key), u[j].key, 0) == Some(j)
    {
      if j != i { FirstKept(t, hash(t[j].key), t[j].key, 0, i, s); }
    }
  }

  ghost predicate StoredTwice<K, V>(t: seq<Slot<K, V>>, key: K) {
    exists i, j | 0 <= i < j < |t| :: t[i].Used? && t[j].Used? && t[i].key == key == t[j].key
  }

  /** For a key that is there, the window holds a slot to choose. The key is stored a second time exactly if that slot
      is free: if some slot of its window before its own is. Otherwise the data is replaced. No search finds a free
      slot first where every key is what a search for it finds. */
  lemma PresentKeyPut<K, V>(t: seq<Slot<K, V>>, hash: K -> nat, key: K, value: V)
    requires Good(t, hash) && key in Contents(t)
    ensures var i := First(t, hash(key), key, 0);
            && i.Some?
            && (var u := t[i.value := Used(key, value)];
                && (StoredTwice(u, key) <==> t[i.value].Free?)
                && (t[i.value].Used? ==> Distinct(u) && Contents(u) == Contents(t)[key := value])
                && KeySet(u) == KeySet(t) && |KeySet(u)| == Count(t))
            && (Snug(t, hash) ==> t[i.value].Used?)
  {
    PresentFound(t, hash, key);
    KeyCount(t);
    hide First, Placed;
    var i := First(t, hash(key), key, 0).value;
    var u := t[i := Used(key, value)];
    var own :| 0 <= own < |t| && t[own].Used? && t[own].key == key;
    KeysAfter(t, i, own, key, value);
    if t[i].Free? {
      assert u[i].key == u[own].key == key;
    } else {
      ReplaceAt(t, i, key, value);
    }
  }

  lemma PresentFound<K, V>(t: seq<Slot<K, V>>, hash: K -> nat, key: K)
    requires Good(t, hash) && key in Contents(t)
    ensures First(t, hash(key), key, 0).Some?
  {
    KeyInWindow(t, hash, key);
    NoFirst(t, hash(key), key, 0);
    hide First, Probe;
    var d: nat :| d < 8 && AtProbe(t, hash(key), key, d);
    assert !Taken(t, hash(key), key, d);
  }

  lemma KeysAfter<K, V>(t: seq<Slot<K, V>>, i: nat, own: nat, key: K, value: V)
    requires i < |t| && own < |t| && t[own].Used? && t[own].key == key && (t[i].Used? ==> t[i].key == key)
    ensures KeySet(t[i := Used(key, value)]) == KeySet(t)
  {
    var u := t[i := Used(key, value)];
    forall k | k in KeySet(t)
      ensures k in KeySet(u)
    {
      var j :| 0 <= j < |t| && t[j].Used? && t[j].key == k;
      assert u[j].key == k;
    }
    forall k | k in KeySet(u)
      ensures k in KeySet(t)
    {
      var j :| 0 <= j < |u| && u[j].Used? && u[j].key == k;
      if j == i { assert t[own].key == k; } else { assert t[j].key == k; }
    }
  }

  lemma ReplaceAt<K, V>(t: seq<Slot<K, V>>, i: nat, key: K, value: V)
    requires Distinct(t) && i < |t| && t[i].Used? && t[i].key == key
    ensures var u := t[i := Used(key, value)];
            Distinct(u) && !StoredTwice(u, key) && Contents(u) == Contents(t)[key := value]
  {
    var u := t[i := Used(key, value)];
    RemoveAt(t, i);
    ContentsAt(t, i);
    InsertAt(t[i := Free], i, key, value);
    assert t[i := Free][i := Used(key, value)] == u;
    assert (Contents(t) - {key})[key := value] == Contents(t)[key := value];
  }

  /** Put, put, remove, put: the key 2 ends up in two slots, and the size is 2 with one key left. */
  method PutTwice() returns (m: Map<nat, nat>)
    ensures m.size == 2 && KeySet(m.data[..]) == {2} && StoredTwice(m.data[..], 2)
    ensures m.data.Length == 256 && m.data[0] == Used(2, 21) && m.data[1] == Used(2, 20)
  {
    hide Contents, Distinct, Placed, Count, First, KeySet, StoredTwice, Snug, Good, Fits, Doubles, Submap;
    m := new Map<nat, nat>(_ => 0, 256);
    ghost var t := m.data[..];
    assert t[0].Free? && m.hash(1) == m.hash(2) == 0;
    FirstAtStart(t, 1);
    var status, before := m.Put(1, 10);
    t := m.data[..];
    assert t[0] == Used(1, 10) && t[1].Free?;
    FirstAtStart(t, 2);
    status, before := m.Put(2, 20);
    t := m.data[..];
    assert t[0] == Used(1, 10) && t[1] == Used(2, 20);
    var got, value := m.Get(1, true);
    t := m.data[..];
    assert t[0].Free? && t[1] == Used(2, 20) && forall i | 2 <= i < 256 :: t[i].Free?;
    FirstAtStart(t, 2);
    status, before := m.Put(2, 21);
    t := m.data[..];
    assert t[0] == Used(2, 21) && t[1] == Used(2, 20) && forall i | 2 <= i < 256 :: t[i].Free?;
    TwoCopies(t);
  }

  lemma TwoCopies(t: seq<Slot<nat, nat>>)
    requires |t| == 256 && t[0].Used? && t[1].Used? && t[0].key == t[1].key == 2
    requires forall i | 2 <= i < 256 :: t[i].Free?
    ensures KeySet(t) == {2} && StoredTwice(t, 2)
  {
    assert forall i | 0 <= i < 256 && t[i].Used? :: t[i].key == 2;
  }

  /** For hash value 0 the window starts at slot 0. */
  lemma FirstAtStart<V>(t: seq<Slot<nat, V>>, key: nat)
    requires |t| == 256 && (t[0].Free? || t[0].key == key || t[1].Free?)
    ensures First(t, 0, key, 0) == Some(if t[0].Free? || t[0].key == key then 0 else 1)
  {
    assert Probe(0, 1, 256) == 1;
    assert First(t, 0, key, 1) == if t[1].Free? || t[1].key == key then Some(1) else First(t, 0, key, 2);
  }

  lemma KeysSoFar<K, V>(t: seq<Slot<K, V>>, i: nat)
    requires Distinct(t) && i < |t| && t[i].Used? && Distinct(t[..i])
    ensures Contents(t[..i]).Keys + {t[i].key} <= Contents(t).Keys
  {
    PrefixIsSubmap(t, i);
  }

  lemma PrefixIsSubmap<K, V>(t: seq<Slot<K, V>>, i: nat)
    requires Distinct(t) && i <= |t| && Distinct(t[..i])
    ensures Submap(Contents(t[..i]), Contents(t))
  {
    forall k | k in Contents(t[..i])
      ensures k in Contents(t) && Contents(t[..i])[k] == Contents(t)[k]
    {
      var j :| 0 <= j < i && t[..i][j].Used? && t[..i][j].key == k;
      assert t[j] == t[..i][j];
    }
  }

  /** A key that is not in its window is not in the map. */
  lemma NotInWindow<K, V>(t: seq<Slot<K, V>>, hash: K -> nat, key: K)
    requires |t| > 0 && Distinct(t) && Placed(t, hash)
    requires forall d: nat | d < 8 :: !AtProbe(t, hash(key), key, d)
    ensures key !in Contents(t)
  {
    if key in Contents(t) {
      KeyInWindow(t, hash, key);
    }
  }

  lemma KeyInWindow<K, V>(t: seq<Slot<K, V>>, hash: K -> nat, key: K)
    requires |t| > 0 && Distinct(t) && Placed(t, hash) && key in Contents(t)
    ensures exists d: nat :: d < 8 && AtProbe(t, hash(key), key, d)
  {
    var i :| 0 <= i < |t| && t[i].Used? && t[i].key == key;
    assert InWindow(hash(key), i, |t|);
    var d: nat :| d < 8 && i == Probe(hash(key), d, |t|);
    assert AtProbe(t, hash(key), key, d);
  }

  // ---- Iteration ----

  /** The entries in slots `i` and later, in slot order. */
  ghost function EntriesFrom<K, V>(t: seq<Slot<K, V>>, i: nat): seq<(K, V)>
    decreases |t| - i
  {
    if i >= |t| then []
    else (if t[i].Used? then [(t[i].key, t[i].data)] else []) + EntriesFrom(t, i + 1)
  }

  class Iterator<K(==), V> {
    const table: Map<K, V>
    var i: int

    ghost predicate Valid()
      reads this, table, table.data
    {
      table.Valid() && -1 <= i <= table.data.Length
    }

    /** What is still to come. */
    ghost function Rest(): seq<(K, V)>
      reads this, table, table.data
      requires -1 <= i
    {
      EntriesFrom(table.data[..], i + 1)
    }

    constructor (table: Map<K, V>)
      requires table.Valid()
      ensures this.table == table && Valid() && i == -1 && Rest() == EntriesFrom(table.data[..], 0)
    {
      this.table := table;
      i := -1;
    }

    method Next() returns (status: Status, entry: Option<(K, V)>)
      requires Valid()
      modifies this
      ensures Valid()
      ensures old(Rest()) == [] ==> status == Missing && entry == None && i == table.data.Length
      ensures old(Rest()) != [] ==> && status == Ok && entry == Some(old(Rest())[0]) && Rest() == old(Rest())[1..]
                                    && old(i) < i < table.data.Length
                                    && table.data[i] == Used(entry.value.0, entry.value.1)
    {
      ghost var rest := Rest();
      var n := table.data.Length;
      if i == n {
        return Missing, None;
      }
      i := i + 1;
      while i < n
        invariant old(i) < i <= n && EntriesFrom(table.data[..], i) == rest
        decreases n - i
      {
        if table.data[i].Used? {
          return Ok, Some((table.data[i].key, table.data[i].data));
        }
        i := i + 1;
      }
      return Missing, None;
    }

    /** Removes the current entry; the entries still to come are not disturbed. */
    method Remove() returns (status: Status)
      requires Valid()
      modifies table`size, table`entries, table.data
      ensures Valid() && table.data == old(table.data)
      ensures status == Ok <==> 0 <= i < table.data.Length && old(table.data[..])[i].Used?
      ensures status == Ok ==> table.entries == old(table.entries) - {old(table.data[..])[i].key}
      ensures status != Ok ==> status == Missing && table.entries == old(table.entries)
      ensures Rest() == old(Rest())
    {
      if i < 0 || i >= table.data.Length {
        return Missing;
      }
      if table.data[i].Free? {
        return Missing;
      }
      LaterEntries(table.data[..], i, Free, i + 1);
      table.Blank(i);
      return Ok;
    }
  }

  lemma {:induction false} LaterEntries<K, V>(t: seq<Slot<K, V>>, i: nat, s: Slot<K, V>, j: nat)
    requires i < |t| && i < j
    ensures EntriesFrom(t[i := s], j) == EntriesFrom(t, j)
    decreases |t| - j
  {
    if j < |t| { LaterEntries(t, i, s, j + 1); }
  }

  /** Slot `i` or a later one holds the entry. */
  ghost predicate HeldFrom<K, V>(t: seq<Slot<K, V>>, i: nat, k: K, v: V) {
    exists j | i <= j < |t| :: t[j] == Used(k, v)
  }

  lemma {:induction false} EntryHeld<K, V>(t: seq<Slot<K, V>>, i: nat, k: K, v: V)
    ensures (k, v) in EntriesFrom(t, i) <==> HeldFrom(t, i, k, v)
    decreases |t| - i
  {
    if i < |t| {
      EntryHeld(t, i + 1, k, v);
      assert HeldFrom(t, i, k, v) <==> t[i] == Used(k, v) || HeldFrom(t, i + 1, k, v);
    }
  }

  /** A full iteration visits no key twice. */
  lemma {:induction false} IterationVisitsOnce<K, V>(t: seq<Slot<K, V>>, i: nat)
    requires Distinct(t)
    ensures var es := EntriesFrom(t, i); forall a, b | 0 <= a < b < |es| :: es[a].0 != es[b].0
    decreases |t| - i
  {
    if i < |t| {
      IterationVisitsOnce(t, i + 1);
      var es := EntriesFrom(t, i + 1);
      forall b | 0 <= b < |es|
        ensures t[i].Used? ==> es[b].0 != t[i].key
      {
        EntryHeld(t, i + 1, es[b].0, es[b].1);
      }
    }
  }

  /** And it visits exactly the entries of the map. */
  lemma IterationIsContents<K, V>(t: seq<Slot<K, V>>, k: K, v: V)
    requires Distinct(t)
    ensures (k, v) in EntriesFrom(t, 0) <==> k in Contents(t) && Contents(t)[k] == v
  {
    EntryHeld(t, 0, k, v);
    if HeldFrom(t, 0, k, v) {
      var j :| 0 <= j < |t| && t[j] == Used(k, v);
      ContentsAt(t, j);
    }
    if k in Contents(t) {
      var j :| 0 <= j < |t| && t[j].Used? && t[j].key == k;
      ContentsAt(t, j);
    }
  }

  /** `es` lists the entries of the map, each once. */
  ghost predicate Lists<K, V>(es: seq<(K, V)>, all: map<K, V>) {
    && (forall i | 0 <= i < |es| :: es[i].0 in all && all[es[i].0] == es[i].1)
    && (forall a :: a in all ==> exists i :: 0 <= i < |es| && es[i].0 == a)
    && (forall i, j | 0 <= i < j < |es| :: es[i].0 != es[j].0)
  }

  /** What is left of the map once the first `k` listed entries have been examined. */
  ghost function Survivors<K, V>(all: map<K, V>, stale: set<K>, es: seq<(K, V)>, k: nat): map<K, V>
    requires k <= |es|
  {
    all - (set i | 0 <= i < k && es[i].0 in stale :: es[i].0)
  }

  lemma SurvivorsStart<K, V>(all: map<K, V>, stale: set<K>, es: seq<(K, V)>)
    ensures Survivors(all, stale, es, 0) == all
  {
  }

  lemma StillListed<K, V>(all: map<K, V>, stale: set<K>, es: seq<(K, V)>, k: nat)
    requires Lists(es, all) && k < |es|
    ensures var a := es[k].0; a in Survivors(all, stale, es, k) && Survivors(all, stale, es, k)[a] == es[k].1
    ensures Survivors(all, stale, es, k + 1) ==
            Survivors(all, stale, es, k) - (if es[k].0 in stale then {es[k].0} else {})
    ensures es[k].0 in all && all[es[k].0] == es[k].1
  {
  }

  lemma SurvivorsAreFresh<K, V>(all: map<K, V>, stale: set<K>, es: seq<(K, V)>)
    requires Lists(es, all) && stale <= all.Keys
    ensures Survivors(all, stale, es, |es|) == all - stale
  {
    var struck := set i | 0 <= i < |es| && es[i].0 in stale :: es[i].0;
    forall k | k in stale
      ensures k in struck
    {
      assert k in all;
      var i :| 0 <= i < |es| && es[i].0 == k;
    }
    assert struck == stale;
  }

  /** The iteration lists exactly the entries of the map, each once. */
  lemma AllListed<K, V>(table: Map<K, V>)
    requires table.Valid()
    ensures Lists(EntriesFrom(table.data[..], 0), table.entries)
  {
    var t := table.data[..];
    var es := EntriesFrom(t, 0);
    IterationVisitsOnce(t, 0);
    forall i | 0 <= i < |es|
      ensures es[i].0 in table.entries && table.entries[es[i].0] == es[i].1
    {
      IterationIsContents(t, es[i].0, es[i].1);
    }
    forall a | a in table.entries
      ensures exists i :: 0 <= i < |es| && es[i].0 == a
    {
      IterationIsContents(t, a, table.entries[a]);
      var i :| 0 <= i < |es| && es[i] == (a, table.entries[a]);
    }
  }

  /** The entries that the predicate does not hold of. */
  function Kept<K, V>(m: map<K, V>, gone: (K, V) -> bool): map<K, V> { map k | k in m && !gone(k, m[k]) :: m[k] }

  ghost function Going<K, V>(m: map<K, V>, gone: (K, V) -> bool): (r: set<K>)
    ensures r <= m.Keys
  {
    set k | k in m && gone(k, m[k])
  }

  lemma KeptStay<K, V>(m: map<K, V>, gone: (K, V) -> bool)
    ensures m - Going(m, gone) == Kept(m, gone)
  {
  }

  lemma GoingAt<K, V>(m: map<K, V>, gone: (K, V) -> bool, k: K)
    requires k in m
    ensures k in Going(m, gone) <==> gone(k, m[k])
  {
  }

  /** The iterator has just yielded entry `k` of the list, or there are no more. */
  ghost predicate Yields<K, V>(it: Iterator<K, V>, m: Map<K, V>, es: seq<(K, V)>, k: nat, got: Status,
                               entry: Option<(K, V)>)
    reads m, m.data, it
  {
    && it.table == m && it.Valid() && k <= |es|
    && (got == Ok ==> && k < |es| && entry == Some(es[k]) && it.Rest() == es[k + 1..]
                      && 0 <= it.i < m.data.Length && m.data[it.i] == Used(es[k].0, es[k].1))
    && (got != Ok ==> k == |es|)
  }

  lemma YieldsListed<K, V>(it: Iterator<K, V>, m: Map<K, V>, es: seq<(K, V)>, k: nat, entry: Option<(K, V)>,
                           all: map<K, V>)
    requires Yields(it, m, es, k, Ok, entry) && Lists(es, all)
    ensures k < |es| && entry == Some(es[k]) && es[k].0 in all && all[es[k].0] == es[k].1
    ensures Yields(it, m, es, k, Ok, Some((es[k].0, es[k].1)))
  {
  }

  lemma YieldsEnd<K, V>(it: Iterator<K, V>, m: Map<K, V>, es: seq<(K, V)>, k: nat, got: Status,
                        entry: Option<(K, V)>)
    requires Yields(it, m, es, k, got, entry) && got != Ok
    ensures k == |es|
  {
  }

  method Start<K(==), V>(m: Map<K, V>, ghost es: seq<(K, V)>)
      returns (it: Iterator<K, V>, got: Status, entry: Option<(K, V)>)
    requires m.Valid() && es == EntriesFrom(m.data[..], 0)
    ensures fresh(it) && Yields(it, m, es, 0, got, entry)
  {
    hide Map.Valid, Map.Sound, EntriesFrom;
    it := new Iterator<K, V>(m);
    got, entry := it.Next();
  }

  /** One round of a loop over an iterator that removes what the predicate holds of. */
  method SweepNext<K(==), V>(it: Iterator<K, V>, m: Map<K, V>, gone: (K, V) -> bool, key: K, data: V,
                             ghost all: map<K, V>, ghost es: seq<(K, V)>, ghost k: nat)
      returns (got: Status, entry: Option<(K, V)>)
    requires m.Valid() && k < |es| && Yields(it, m, es, k, Ok, Some((key, data))) && Lists(es, all)
    requires m.entries == Survivors(all, Going(all, gone), es, k)
    modifies m`size, m`entries, m.data, it
    ensures m.Valid() && m.data == old(m.data) && Yields(it, m, es, k + 1, got, entry)
    ensures m.entries == Survivors(all, Going(all, gone), es, k + 1)
  {
    hide Map.Valid, Map.Sound, EntriesFrom, Iterator.Rest, Lists, Survivors, Going;
    StillListed(all, Going(all, gone), es, k);
    GoingAt(all, gone, key);
    if gone(key, data) {
      var removed := it.Remove();
    }
    got, entry := it.Next();
  }

  /** Iterates over the map and removes, on the way, the entries that the predicate holds of. */
  method Sweep<K(==), V>(m: Map<K, V>, gone: (K, V) -> bool)
    requires m.Valid()
    modifies m`size, m`entries, m.data
    ensures m.Valid() && m.data == old(m.data) && m.entries == Kept(old(m.entries), gone)
  {
    hide Map.Valid, Map.Sound, EntriesFrom, Lists, Survivors, Kept, Going, Yields;
    ghost var all, es := m.entries, EntriesFrom(m.data[..], 0);
    AllListed(m);
    SurvivorsStart(all, Going(all, gone), es);
    ghost var k := 0;
    var it, got, entry := Start(m, es);
    while got == Ok
      invariant m.Valid() && m.data == old(m.data) && fresh(it) && k <= |es| && Yields(it, m, es, k, got, entry)
      invariant m.entries == Survivors(all, Going(all, gone), es, k)
      decreases |es| - k
    {
      YieldsListed(it, m, es, k, entry, all);
      got, entry := SweepNext(it, m, gone, entry.value.0, entry.value.1, all, es, k);
      k := k + 1;
    }
    YieldsEnd(it, m, es, k, got, entry);
    SurvivorsAreFresh(all, Going(all, gone), es);
    KeptStay(all, gone);
  }

  // ---- Any run ----

  /** What the callers do: put a key they have just found missing, look one up, look one up and remove it, or remove
      entries while iterating. */
  datatype Op<!K, !V> =
    | PutIfAbsent(key: K, value: V)
    | Lookup(key: K)
    | Remove(key: K)
    | RemoveWhere(gone: (K, V) -> bool)

  /** The finite map after these operations. */
  function AfterOps<K, V>(ops: seq<Op<K, V>>): map<K, V> {
    if ops == [] then map[] else AfterOp(AfterOps(ops[..|ops| - 1]), ops[|ops| - 1])
  }

  function AfterOp<K, V>(m: map<K, V>, op: Op<K, V>): map<K, V> {
    match op
    case PutIfAbsent(k, v) => if k in m then m else m[k := v]
    case Lookup(k) => m
    case Remove(k) => m - {k}
    case RemoveWhere(gone) => Kept(m, gone)
  }

  /** What an operation finds under its key, if it has one. */
  function Found<K, V>(m: map<K, V>, op: Op<K, V>): Option<V> {
    if !op.RemoveWhere? && op.key in m then Some(m[op.key]) else None
  }

  ghost function OpKeys<K, V>(ops: seq<Op<K, V>>): set<K> { set op | op in ops && !op.RemoveWhere? :: op.key }

  lemma {:induction false} AfterKeys<K, V>(ops: seq<Op<K, V>>, i: nat)
    requires i <= |ops|
    ensures AfterOps(ops[..i]).Keys <= OpKeys(ops)
  {
    if i > 0 {
      AfterKeys(ops, i - 1);
      assert ops[..i][..i - 1] == ops[..i - 1];
      assert ops[i - 1] in ops;
    }
  }

  /** One operation, as `hashmap_put` after `hashmap_get`, `hashmap_get`, `hashmap_remove`, or a loop over an
      iterator. */
  method Perform<K(==), V>(m: Map<K, V>, op: Op<K, V>) returns (found: Option<V>, status: Status)
    requires m.Valid()
    modifies m, m.data
    ensures m.Valid() && (m.data == old(m.data) || fresh(m.data)) && found == Found(old(m.entries), op)
    ensures status == Ok ==> m.entries == AfterOp(old(m.entries), op)
    ensures status != Ok ==> 2 * m.data.Length > m.budget
    ensures forall n: nat | Fits(old(m.data.Length), n, old(m.entries.Keys) + OpKeys([op]), m.hash, m.budget) ::
              status == Ok && Doubles(m.data.Length, n)
  {
    hide Map.Valid, Map.Sound, Fits, Doubles, Kept, Good, Contents, Count, First;
    FitsBudget(m.data.Length, m.entries.Keys + OpKeys([op]), m.hash, m.budget);
    if op.RemoveWhere? {
      Sweep(m, op.gone);
      return None, Ok;
    }
    OwnKey(op);
    var got, value := m.Get(op.key, op.Remove?);
    found, status := value, Ok;
    if op.PutIfAbsent? && got == Missing {
      ghost var before;
      status, before := m.Put(op.key, op.value);
    }
  }

  lemma OwnKey<K, V>(op: Op<K, V>)
    requires !op.RemoveWhere?
    ensures OpKeys([op]) == {op.key}
  {
    assert op in [op];
  }

  /** Over any run the table is the finite map of the operations, and every lookup answers from it, unless memory runs
      out; and it does not if there is enough for a table in which no window of the keys overflows. */
  method Drive<K(==), V>(hash: K -> nat, budget: nat, ops: seq<Op<K, V>>)
      returns (m: Map<K, V>, found: seq<Option<V>>, lasted: bool)
    ensures m.Valid() && (lasted ==> m.entries == AfterOps(ops) && |found| == |ops|)
    ensures |found| <= |ops| && forall i | 0 <= i < |found| :: found[i] == Found(AfterOps(ops[..i]), ops[i])
    ensures !lasted ==> 2 * m.data.Length > budget
    ensures (exists n: nat :: Fits(256, n, OpKeys(ops), hash, budget)) ==> lasted
  {
    hide Map.Valid, Map.Sound, OpKeys, Fits, AfterOps, AfterOp, Found;
    m := new Map<K, V>(hash, budget);
    found, lasted := [], true;
    NoOps(ops);
    FitsBudget(256, OpKeys(ops), hash, budget);
    var i := 0;
    while i < |ops|
      invariant 0 <= i <= |ops| && |found| == i && fresh(m) && fresh(m.data) && m.hash == hash && m.budget == budget
      invariant m.Valid() && m.entries == AfterOps(ops[..i])
      invariant forall j | 0 <= j < i :: found[j] == Found(AfterOps(ops[..j]), ops[j])
      invariant forall n: nat | Fits(256, n, OpKeys(ops), hash, budget) :: Doubles(m.data.Length, n)
    {
      OneMore(ops, i);
      FitsFewer(256, OpKeys(ops), m.data.Length, m.entries.Keys + OpKeys([ops[i]]), hash, budget);
      var value, status := Perform(m, ops[i]);
      if status != Ok {
        return m, found, false;
      }
      found := found + [value];
      i := i + 1;
    }
    assert ops[..i] == ops;
  }

  lemma NoOps<K, V>(ops: seq<Op<K, V>>)
    ensures AfterOps(ops[..0]) == map[]
  {
  }

  lemma OneMore<K, V>(ops: seq<Op<K, V>>, i: nat)
    requires i < |ops|
    ensures AfterOps(ops[..i]).Keys + OpKeys([ops[i]]) <= OpKeys(ops)
    ensures AfterOps(ops[..i + 1]) == AfterOp(AfterOps(ops[..i]), ops[i])
  {
    AfterKeys(ops, i);
    assert ops[..i + 1][..i] == ops[..i];
    assert ops[i] in ops;
  }

  // ---- Runs without removals ----

  /** The finite map after these puts. */
  function AfterPuts<K, V>(puts: seq<(K, V)>): map<K, V> {
    if puts == [] then map[]
    else
      var (k, v) := puts[|puts| - 1];
      AfterPuts(puts[..|puts| - 1])[k := v]
  }

  /** From a map into which things are only put, whatever keys are put again, every key is found where a search for it
      ends: none is stored twice, and the map is the one that the puts make. */
  method DrivePuts<K(==), V>(hash: K -> nat, budget: nat, puts: seq<(K, V)>) returns (m: Map<K, V>, lasted: bool)
    ensures lasted ==> m.Sound() && m.entries == AfterPuts(puts) && Snug(m.data[..], hash)
    ensures lasted ==> forall k <- m.entries.Keys :: !StoredTwice(m.data[..], k)
    ensures !lasted ==> 2 * m.data.Length > budget
  {
    hide Snug, Contents, Count, First, StoredTwice, Distinct, Placed;
    m := new Map<K, V>(hash, budget);
    FreeTable(m.data[..], hash);
    lasted := true;
    var i := 0;
    while i < |puts|
      invariant 0 <= i <= |puts| && fresh(m) && fresh(m.data) && m.hash == hash && m.budget == budget
      invariant m.Sound() && m.entries == AfterPuts(puts[..i]) && Snug(m.data[..], hash)
    {
      assert puts[..i + 1][..i] == puts[..i];
      ghost var t := m.data[..];
      if puts[i].0 in m.entries { PresentKeyPut(t, hash, puts[i].0, puts[i].1); }
      var status, before := m.Put(puts[i].0, puts[i].1);
      if status == OutOfMemory {
        return m, false;
      }
      SnugInsert(before, hash, puts[i].0, puts[i].1);
      i := i + 1;
    }
    assert puts[..i] == puts;
    forall k | k in m.entries
      ensures !StoredTwice(m.data[..], k)
    {
      OnlyOnce(m.data[..], k);
    }
  }

  lemma OnlyOnce<K, V>(t: seq<Slot<K, V>>, key: K)
    requires Distinct(t)
    ensures !StoredTwice(t, key)
  {
  }
}
