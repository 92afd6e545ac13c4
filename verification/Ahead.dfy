/** Which keys are ahead of a key in a least-recently-used list, and when it drops off the end. */
module Ahead {
  import opened Recency
  import opened Wrappers

  /** The keys of the first `p` positions. */
  ghost function KeysBefore<K, V>(l: Lru<K, V>, p: nat): set<K>
    requires p <= |l|
  {
    set i | 0 <= i < p :: l[i].0
  }

  /** The keys before this one in the list. */
  ghost function Front<K, V>(l: Lru<K, V>, k: K): set<K>
    requires Find(l, k).Some?
  {
    KeysBefore(l, Find(l, k).value)
  }

  lemma {:induction false} KeysCount<K, V>(l: Lru<K, V>, p: nat)
    requires DistinctKeys(l) && p <= |l|
    ensures |KeysBefore(l, p)| == p
    decreases p
  {
    if p > 0 {
      KeysCount(l, p - 1);
      assert KeysBefore(l, p) == KeysBefore(l, p - 1) + {l[p - 1].0};
      assert l[p - 1].0 !in KeysBefore(l, p - 1);
    }
  }

  lemma FindIs<K, V>(l: Lru<K, V>, k: K, i: nat)
    requires DistinctKeys(l) && i < |l| && l[i].0 == k
    ensures Find(l, k) == Some(i)
  {
  }

  /** `r` is `l` without position `q`. */
  ghost predicate Skips<K, V>(l: Lru<K, V>, r: Lru<K, V>, q: nat) {
    q < |l| == |r| + 1 && forall j | 0 <= j < |r| :: r[j] == l[if j < q then j else j + 1]
  }

  lemma BeforeSkipped<K, V>(l: Lru<K, V>, r: Lru<K, V>, q: nat, p: nat)
    requires Skips(l, r, q) && DistinctKeys(l) && p < |l| && p != q
    ensures var p' := if q < p then p - 1 else p; KeysBefore(r, p') == KeysBefore(l, p) - {l[q].0} && r[p'] == l[p]
  {
    var p' := if q < p then p - 1 else p;
    assert r[p'] == l[p];
    var a, b := KeysBefore(r, p'), KeysBefore(l, p) - {l[q].0};
    forall x <- a
      ensures x in b
    {
      var i :| 0 <= i < p' && r[i].0 == x;
      var j := if i < q then i else i + 1;
      assert r[i] == l[j];
    }
    forall x <- b
      ensures x in a
    {
      var i :| 0 <= i < p && l[i].0 == x;
      var j := if i < q then i else i - 1;
      assert r[j] == l[i];
    }
  }

  /** Taking out another key takes that one from what is ahead. */
  lemma FrontRemoved<K, V>(l: Lru<K, V>, x: K, k: K)
    requires DistinctKeys(l) && x != k
    ensures DistinctKeys(Removed(l, x)) && (Find(Removed(l, x), k).Some? <==> Find(l, k).Some?)
    ensures Find(l, k).Some? ==> Front(Removed(l, x), k) == Front(l, k) - {x}
  {
    RemovedKeepsDistinct(l, x);
    var f, r := Find(l, x), Removed(l, x);
    if f.Some? {
      var q := f.value;
      assert Skips(l, r, q);
      hide Removed;
      if Find(l, k).Some? {
        var p := Find(l, k).value;
        BeforeSkipped(l, r, q, p);
        FindIs(r, k, if q < p then p - 1 else p);
      }
    }
  }

  /** Behind a new first, a key has that one ahead of it too. */
  lemma FrontBehind<K, V>(e: (K, V), l: Lru<K, V>, k: K)
    requires DistinctKeys([e] + l) && e.0 != k
    ensures Find([e] + l, k).Some? <==> Find(l, k).Some?
    ensures Find(l, k).Some? ==> Front([e] + l, k) == Front(l, k) + {e.0}
  {
    var longer := [e] + l;
    assert longer[1..] == l;
    if Find(l, k).Some? {
      var p := Find(l, k).value;
      var a, b := KeysBefore(longer, p + 1), KeysBefore(l, p) + {e.0};
      forall x <- a
        ensures x in b
      {
        var i :| 0 <= i < p + 1 && longer[i].0 == x;
        if i > 0 { assert l[i - 1].0 == x; }
      }
      forall x <- b
        ensures x in a
      {
        if x == e.0 {
          assert longer[0].0 == x;
        } else {
          var i :| 0 <= i < p && l[i].0 == x;
          assert longer[i + 1].0 == x;
        }
      }
    }
  }

  /** A use of a key brings it to the front, ahead of every other. */
  lemma FrontUsed<K, V>(l: Lru<K, V>, x: K, k: K)
    requires DistinctKeys(l) && Find(l, x).Some? && x != k
    ensures Find(Used(l, x), k).Some? <==> Find(l, k).Some?
    ensures Find(l, k).Some? ==> Front(Used(l, x), k) == Front(l, k) + {x}
  {
    UsedMembers(l, x);
    var e, r := l[Find(l, x).value], Removed(l, x);
    assert Used(l, x) == [e] + r;
    FrontRemoved(l, x, k);
    hide *;
    FrontBehind(e, r, k);
    if Find(l, k).Some? { assert Front(l, k) - {x} + {x} == Front(l, k) + {x}; }
  }

  lemma UsedFirst<K, V>(l: Lru<K, V>, k: K)
    requires DistinctKeys(l) && Find(l, k).Some?
    ensures Find(Used(l, k), k) == Some(0) && Front(Used(l, k), k) == {}
  {
    UsedMembers(l, k);
    FindIs(Used(l, k), k, 0);
  }

  lemma StoredFirst<K, V>(l: Lru<K, V>, k: K, v: V)
    requires DistinctKeys(l)
    ensures Find(Stored(l, k, v), k) == Some(0) && Front(Stored(l, k, v), k) == {}
  {
    StoredMembers(l, k, v);
    assert Stored(l, k, v)[0] == (k, v);
    FindIs(Stored(l, k, v), k, 0);
  }

  /** So does a store under it, and then a key with 32 others ahead of it drops off. */
  lemma FrontStored<K, V>(l: Lru<K, V>, x: K, v: V, k: K)
    requires DistinctKeys(l) && x != k
    ensures Find(Stored(l, x, v), k).Some? <==> Find(l, k).Some? && |Front(l, k) + {x}| < 32
    ensures Find(Stored(l, x, v), k).Some? ==> Front(Stored(l, x, v), k) == Front(l, k) + {x}
  {
    var r := Removed(l, x);
    var full := [(x, v)] + r;
    RemovedKeepsDistinct(l, x);
    FrontDistinct(x, v, r);
    assert Stored(l, x, v) == Cut(full);
    FrontRemoved(l, x, k);
    hide *;
    FrontBehind((x, v), r, k);
    FrontCut(full, k);
    if Find(l, k).Some? { assert Front(l, k) - {x} + {x} == Front(l, k) + {x}; }
  }

  lemma FrontCut<K, V>(l: Lru<K, V>, k: K)
    requires DistinctKeys(l)
    ensures Find(Cut(l), k).Some? <==> Find(l, k).Some? && |Front(l, k)| < 32
    ensures Find(Cut(l), k).Some? ==> Front(Cut(l), k) == Front(l, k)
  {
    CutFind(l, k);
    if Find(l, k).Some? { KeysCount(l, Find(l, k).value); }
  }

  /** Where a key is, as many others are ahead of it. */
  lemma FrontSize<K, V>(l: Lru<K, V>, k: K)
    requires DistinctKeys(l) && Find(l, k).Some?
    ensures |Front(l, k)| == Find(l, k).value < |l|
  {
    KeysCount(l, Find(l, k).value);
  }
}
