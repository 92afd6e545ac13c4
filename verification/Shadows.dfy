/** Shadows of TLS contexts: shared, reference-counted records in a table of 256 slots. Every method below is one
    section under the table's lock, or the release of memory after it, so any interleaving of threads is a
    sequence of calls. */
module Shadows {
  import opened Wrappers
  import Recency

  /** A shadow's address, and a context's. */
  type Id = nat
  type Ctx = nat

  datatype Shadow = Shadow(ctx: Ctx, lastUse: nat, refcount: nat)

  type Slots = seq<Option<Id>>

  /** The memory of all shadows not freed yet. */
  type Heap = map<Id, Shadow>

  predicate Listed(t: Slots, s: Id) { Some(s) in t }

  /** No shadow has two entries, no entry is of a freed shadow, and no context has two entries. */
  ghost predicate TableOk(t: Slots, heap: Heap) {
    && (forall i | 0 <= i < |t| && t[i].Some? :: t[i].value in heap)
    && (forall i, j | 0 <= i < j < |t| && t[i].Some? && t[j].Some? :: heap[t[i].value].ctx != heap[t[j].value].ctx)
  }

  /** A shadow's count is the number of its holders, plus one for its entry if it has one. It is zero exactly
      while the thread that brought it to zero has yet to free it. */
  ghost predicate CountsOk(t: Slots, heap: Heap, held: multiset<Id>, dying: set<Id>) {
    && (forall s :: s in heap ==> heap[s].refcount == held[s] + (if Listed(t, s) then 1 else 0))
    && (forall s :: s in heap ==> (heap[s].refcount == 0 <==> s in dying))
    && (forall s :: s in held ==> s in heap)
    && (forall s :: s in dying ==> s in heap)
  }

  /** The entries with their stamps. */
  ghost function View(t: Slots, heap: Heap): (v: seq<Recency.Slot<Ctx, Id>>)
    ensures |v| == |t|
  {
    seq(|t|, i requires 0 <= i < |t| =>
      if t[i].Some? && t[i].value in heap then Recency.Slot(heap[t[i].value].ctx, t[i], heap[t[i].value].lastUse)
      else Recency.Slot(0, None, 0))
  }

  /** The listed contexts with their shadows, most recently used first. */
  type Lru = Recency.Lru<Ctx, Id>

  /** The table stands for the list. */
  ghost predicate LruOk(t: Slots, heap: Heap, clock: nat, lru: Lru, order: seq<nat>) {
    Recency.Represents(View(t, heap), clock, lru, order)
  }

  /** The context and the stamp are the same; the count may differ. */
  ghost predicate SameButCount(a: Shadow, b: Shadow) { b == a.(refcount := b.refcount) }

  /** Shadow `s` carries the latest stamp, and every other is what it was but for its count. */
  ghost predicate MostRecent(before: Heap, after: Heap, s: Id, stamp: nat) {
    && s in after && after[s].lastUse == stamp
    && forall x :: x in before && x != s ==> x in after && SameButCount(before[x], after[x])
  }

  ghost predicate OneWritten(before: Slots, after: Slots, i: nat, e: Option<Id>) {
    i < |before| && after == before[i := e]
  }

  ghost predicate NoDuplicates(log: seq<Id>) {
    forall i, j | 0 <= i < j < |log| :: log[i] != log[j]
  }

  // ---- What the threads see ----

  /** One step of some thread. */
  datatype Step = DoGet(c: Ctx) | DoCreate(c: Ctx, memory: bool) | DoRelease(s: Id) | DoFree(c: Ctx) | DoDestroy(s: Id)

  /** Room for one more entry among 256. */
  function Shortened(l: Lru): Lru { if |l| >= 256 then l[..255] else l }

  /** What the threads see: the listed contexts with their shadows, most recently used first; the references held;
      the live shadows; those destroyed, in order; and how many have been made. */
  datatype Sharing = Sharing(lru: Lru, held: multiset<Id>, live: set<Id>, freed: seq<Id>, next: nat)

  /** A step that no thread may take does nothing: releasing what is not held, or destroying what is needed. */
  ghost function Stepped(w: Sharing, step: Step): Sharing {
    match step
    case DoGet(c) =>
      (match Recency.Find(w.lru, c)
       case None => w
       case Some(i) => w.(lru := Recency.Used(w.lru, c), held := w.held + multiset{w.lru[i].1}))
    case DoCreate(c, memory) =>
      (match Recency.Find(w.lru, c)
       case Some(i) => w.(lru := Recency.Used(w.lru, c), held := w.held + multiset{w.lru[i].1})
       case None =>
         if memory then
           Sharing([(c, w.next)] + Shortened(w.lru), w.held + multiset{w.next}, w.live + {w.next}, w.freed, w.next + 1)
         else w)
    case DoRelease(s) => if s in w.held then w.(held := w.held - multiset{s}) else w
    case DoFree(c) => w.(lru := Recency.Removed(w.lru, c))
    case DoDestroy(s) =>
      if s in w.live && s !in w.held && !InList(w.lru, s) then w.(live := w.live - {s}, freed := w.freed + [s]) else w
  }

  ghost predicate InList(lru: Lru, s: Id) { exists e <- lru :: e.1 == s }

  class Table {
    var slots: array<Option<Id>>
    var clock: nat
    var heap: Heap
    var next: Id                     // the allocator never hands out the address of a live or freed shadow again
    ghost var held: multiset<Id>     // the references held by threads
    ghost var dying: set<Id>         // shadows at count zero, still to be freed by one thread
    ghost var freed: seq<Id>         // every call of the destructor so far
    ghost var lru: Lru               // the list that the table stands for
    ghost var order: seq<nat>        // the slot of each entry of the list

    ghost predicate Valid()
      reads this, slots
    {
      && slots.Length == 256
      && TableOk(slots[..], heap) && CountsOk(slots[..], heap, held, dying) && LruOk(slots[..], heap, clock, lru, order)
      && (forall s :: s in heap ==> s < next && heap[s].lastUse <= clock)
      && (forall s <- freed :: s < next && s !in heap) && NoDuplicates(freed)
      && (forall s | 0 <= s < next :: s in heap || s in freed)
    }

    ghost function Value(): Sharing
      reads this
    {
      Sharing(lru, held, heap.Keys, freed, next)
    }

    constructor ()
      ensures Valid() && fresh(slots) && heap == map[] && held == multiset{} && dying == {} && freed == []
      ensures next == 0 && lru == []
      ensures forall i | 0 <= i < 256 :: slots[i] == None
    {
      slots := new Option<Id>[256](_ => None);
      clock, heap, next := 0, map[], 0;
      held, dying, freed, lru, order := multiset{}, {}, [], [], [];
    }

    /** The slot of a context's entry. */
    method Find(c: Ctx) returns (slot: Option<nat>)
      requires Valid()
      ensures slot.Some? ==> slot.value < 256 && slots[slot.value].Some? && heap[slots[slot.value].value].ctx == c
      ensures slot.None? ==> forall i | 0 <= i < 256 && slots[i].Some? :: heap[slots[i].value].ctx != c
      ensures slot.Some? <==> Recency.Find(lru, c).Some?
      ensures slot.Some? ==> slots[slot.value] == Some(lru[Recency.Find(lru, c).value].1)
    {
      hide CountsOk, LruOk;
      var i := 0;
      while i < 256
        invariant 0 <= i <= 256
        invariant forall j | 0 <= j < i && slots[j].Some? :: heap[slots[j].value].ctx != c
      {
        if slots[i].Some? && heap[slots[i].value].ctx == c {
          EntryOf(slots[..], heap, clock, lru, order, i);
          return Some(i);
        }
        i := i + 1;
      }
      NoEntryOf(slots[..], heap, clock, lru, order, c);
      return None;
    }

    /** Another reference to a listed shadow. */
    method Acquire(slot: nat) returns (s: Id)
      requires Valid() && slot < 256 && slots[slot].Some?
      modifies this`clock, this`heap, this`held, this`lru, this`order
      ensures Valid() && Some(s) == slots[slot] && held == old(held) + multiset{s}
      ensures clock == old(clock) + 1 && s in old(heap) && heap == Taken(old(heap), s, clock)
      ensures lru == Recency.Used(old(lru), old(heap)[s].ctx)
    {
      hide Listed, LruOk, CountsOk, TableOk, Recency.Used;
      s := slots[slot].value;
      ListedCounts(slots[..], heap, held, dying, slot);
      CountsAcquire(slots[..], heap, held, dying, slot, clock + 1);
      order := LruTouch(slots[..], heap, clock, lru, order, slot);
      lru := Recency.Used(lru, heap[s].ctx);
      clock := clock + 1;
      heap := heap[s := heap[s].(lastUse := clock, refcount := heap[s].refcount + 1)];
      held := held + multiset{s};
    }

    /** `sh_get`. */
    method Get(c: Ctx) returns (r: Option<Id>)
      requires Valid()
      modifies this`clock, this`heap, this`held, this`lru, this`order
      ensures Valid() && Value() == Stepped(old(Value()), DoGet(c))
      ensures r == match Recency.Find(old(lru), c) case None => None case Some(i) => Some(old(lru)[i].1)
      ensures r.Some? ==> && Listed(slots[..], r.value) && r.value in heap && heap[r.value].ctx == c
                          && held == old(held) + multiset{r.value}
      ensures r.Some? ==> && heap.Keys == old(heap.Keys) && MostRecent(old(heap), heap, r.value, clock)
                          && clock == old(clock) + 1
      ensures r.None? ==> && lru == old(lru) && held == old(held) && heap == old(heap)
                          && forall i | 0 <= i < 256 && slots[i].Some? :: heap[slots[i].value].ctx != c
    {
      var slot := Find(c);
      if slot.None? {
        return None;
      }
      var s := Acquire(slot.value);
      return Some(s);
    }

    /** Drops one reference; true if that was the last. */
    method Unref(s: Id) returns (dead: bool)
      requires s in heap && heap[s].refcount > 0
      modifies this`heap, this`dying
      ensures dead <==> old(heap)[s].refcount == 1
      ensures heap == Dropped(old(heap), s)
      ensures dying == if dead then old(dying) + {s} else old(dying)
    {
      heap := heap[s := heap[s].(refcount := heap[s].refcount - 1)];
      dead := heap[s].refcount == 0;
      if dead {
        dying := dying + {s};
      }
    }

    /** `sh_release`, by a thread that holds a reference. */
    method Release(s: Id) returns (dead: bool)
      requires Valid() && s in held
      modifies this`heap, this`held, this`dying
      ensures Valid() && Value() == Stepped(old(Value()), DoRelease(s))
      ensures held == old(held) - multiset{s}
      ensures s in old(heap) && old(heap)[s].refcount > 0 && heap == Dropped(old(heap), s)
      ensures dead <==> !Listed(slots[..], s) && s !in held
      ensures dying == if dead then old(dying) + {s} else old(dying)
    {
      hide CountsOk, TableOk;
      HeldCounts(slots[..], heap, held, dying, s);
      CountsRelease(slots[..], heap, held, dying, s);
      TableDropped(slots[..], heap, s);
      LruDropped(slots[..], heap, clock, lru, order, s);
      dead := Unref(s);
      held := held - multiset{s};
    }

    /** Takes the entry in a slot out of the table. */
    method Unlist(slot: nat) returns (dead: Option<Id>)
      requires Valid() && slot < 256 && slots[slot].Some?
      modifies slots, this`heap, this`dying, this`lru, this`order
      ensures Valid() && slots[..] == old(slots[..])[slot := None]
      ensures lru == Recency.Removed(old(lru), old(heap[slots[slot].value].ctx))
      ensures var s := old(slots[slot]).value;
              heap == Dropped(old(heap), s) && dead == (if s in held then None else Some(s))
      ensures dying == if dead.Some? then old(dying) + {dead.value} else old(dying)
    {
      hide CountsOk, TableOk, Listed, LruOk;
      ghost var t := slots[..];
      var s := slots[slot].value;
      ListedCounts(t, heap, held, dying, slot);
      CountsUnlist(t, heap, held, dying, slot);
      TableUnlist(t, heap, slot);
      order := LruClear(t, heap, clock, lru, order, slot);
      lru := Recency.Removed(lru, heap[s].ctx);
      slots[slot] := None;
      assert slots[..] == t[slot := None];
      var last := Unref(s);
      dead := if last then Some(s) else None;
    }

    /** `sh_free`: the context's entry goes, and its shadow with it unless some thread still holds it. */
    method Free(c: Ctx) returns (dead: Option<Id>)
      requires Valid()
      modifies slots, this`heap, this`dying, this`lru, this`order
      ensures Valid() && Value() == Stepped(old(Value()), DoFree(c))
      ensures forall i | 0 <= i < 256 && slots[i].Some? :: heap[slots[i].value].ctx != c
      ensures forall i | 0 <= i < 256 ::
                slots[i] == if old(slots[i].Some? && heap[slots[i].value].ctx == c) then None else old(slots[i])
      ensures dead.Some? ==> dead.value !in held && dying == old(dying) + {dead.value}
      ensures dead.None? ==> dying == old(dying)
      ensures heap.Keys == old(heap.Keys) && forall s :: s in heap ==> SameButCount(old(heap)[s], heap[s])
    {
      hide CountsOk, Listed;
      var slot := Find(c);
      if slot.None? {
        return None;
      }
      dead := Unlist(slot.value);
    }

    /** The slot used least recently. */
    method Oldest() returns (slot: nat)
      requires Valid() && forall i | 0 <= i < 256 :: slots[i].Some?
      ensures slot < 256 && forall i | 0 <= i < 256 :: heap[slots[slot].value].lastUse <= heap[slots[i].value].lastUse
      ensures |lru| == 256 && heap[slots[slot].value].ctx == lru[255].0
    {
      hide CountsOk, Listed, LruOk;
      slot := 0;
      var i := 1;
      while i < 256
        invariant 1 <= i <= 256 && slot < 256
        invariant forall j | 0 <= j < i :: heap[slots[slot].value].lastUse <= heap[slots[j].value].lastUse
      {
        if heap[slots[i].value].lastUse < heap[slots[slot].value].lastUse {
          slot := i;
        }
        i := i + 1;
      }
      OldestIsLast(slots[..], heap, clock, lru, order, slot);
    }

    /** A new shadow in a free slot, held by its entry and by the caller. */
    method Place(slot: nat, c: Ctx) returns (s: Id)
      requires Valid() && slot < 256 && slots[slot] == None
      requires forall i | 0 <= i < 256 && slots[i].Some? :: heap[slots[i].value].ctx != c
      modifies slots, this`heap, this`held, this`next, this`clock, this`lru, this`order
      ensures Valid() && lru == [(c, s)] + old(lru)
      ensures s == old(next) && slots[..] == old(slots[..])[slot := Some(s)]
      ensures heap == old(heap)[s := Shadow(c, clock, 2)] && held == old(held) + multiset{s}
      ensures clock == old(clock) + 1 && next == old(next) + 1
    {
      hide CountsOk, TableOk, Listed, LruOk;
      ghost var t := slots[..];
      s := next;
      LruPlace(t, heap, clock, lru, order, slot, s, c);
      lru, order := [(c, s)] + lru, [slot] + order;
      next := next + 1;
      clock := clock + 1;
      CountsPlace(t, heap, held, dying, slot, s, c, clock);
      TablePlace(t, heap, slot, s, c, clock);
      heap := heap[s := Shadow(c, clock, 2)];
      slots[slot] := Some(s);
      assert slots[..] == t[slot := Some(s)];
      held := held + multiset{s};
    }

    /** The first free slot. */
    method FreeSlot() returns (slot: Option<nat>)
      requires slots.Length == 256
      ensures slot.Some? ==> slot.value < 256 && slots[slot.value] == None
      ensures slot.None? ==> forall i | 0 <= i < 256 :: slots[i].Some?
    {
      var i := 0;
      while i < 256
        invariant 0 <= i <= 256 && forall j | 0 <= j < i :: slots[j].Some?
      {
        if slots[i].None? {
          return Some(i);
        }
        i := i + 1;
      }
      return None;
    }

    /** A slot for a new entry, which the least recently used one gives up if there is no other. */
    method MakeRoom() returns (slot: nat, dead: Option<Id>)
      requires Valid()
      modifies slots, this`heap, this`dying, this`lru, this`order
      ensures Valid() && slot < 256 && slots[..] == old(slots[..])[slot := None]
      ensures |old(lru)| <= 256 && lru == if |old(lru)| == 256 then old(lru)[..255] else old(lru)
      ensures heap.Keys == old(heap.Keys) && forall s :: s in heap ==> SameButCount(old(heap)[s], heap[s])
      ensures dead.Some? ==> dead.value !in held && dying == old(dying) + {dead.value}
      ensures dead.None? ==> dying == old(dying)
      ensures old(slots[slot].Some?) ==>
                forall j | 0 <= j < 256 ::
                  old(slots[j].Some?) && old(heap[slots[slot].value].lastUse) <= old(heap[slots[j].value].lastUse)
    {
      hide CountsOk, Listed, LruOk;
      var free := FreeSlot();
      if free.Some? {
        FreeSlotMeans(slots[..], heap, clock, lru, order, free.value);
        assert slots[..] == slots[..][free.value := None];
        return free.value, None;
      }
      slot := Oldest();
      LastRemoved(slots[..], heap, clock, lru, order);
      dead := Unlist(slot);
    }

    /** `sh_create`: the context's shadow, new if it has none and memory can be had. A full table gives up its
        least recently used entry; that shadow itself dies only if no thread holds it. */
    method Create(c: Ctx, memory: bool) returns (r: Option<Id>, dead: Option<Id>)
      requires Valid()
      modifies slots, this`heap, this`held, this`next, this`clock, this`dying, this`lru, this`order
      ensures Valid() && Value() == Stepped(old(Value()), DoCreate(c, memory))
      ensures r.Some? == (memory || Recency.Find(old(lru), c).Some?)
      ensures r == match Recency.Find(old(lru), c)
                   case Some(i) => Some(old(lru)[i].1)
                   case None => if memory then Some(old(next)) else None
      ensures r.Some? ==> && Listed(slots[..], r.value) && r.value in heap && heap[r.value].ctx == c
                          && held == old(held) + multiset{r.value}
      ensures r.None? ==> && !memory && dead == None && held == old(held) && heap == old(heap)
                          && slots[..] == old(slots[..])
      ensures dead.Some? ==> dead.value !in old(held) && dying == old(dying) + {dead.value}
      ensures dead.None? ==> dying == old(dying)
      // The shadow becomes the most recent, and the others stay what they were.
      ensures r.Some? ==> clock == old(clock) + 1 && MostRecent(old(heap), heap, r.value, clock)
      ensures r.Some? ==> if r.value in old(heap) then heap.Keys == old(heap.Keys) && slots[..] == old(slots[..])
                          else r.value == old(next) && heap.Keys == old(heap.Keys) + {r.value}
      // One slot is written at most.
      ensures slots[..] == old(slots[..]) || exists i: nat :: OneWritten(old(slots[..]), slots[..], i, r)
      // At most one entry goes, only from a full table that had none for the context, and it is the oldest.
      ensures forall i | 0 <= i < 256 && old(slots[i].Some?) && slots[i] != old(slots[i]) ::
                && (forall j | 0 <= j < 256 :: old(slots[j].Some? && heap[slots[j].value].ctx != c))
                && (forall j | 0 <= j < 256 :: old(heap[slots[i].value].lastUse) <= old(heap[slots[j].value].lastUse))
    {
      hide CountsOk, TableOk, Listed, LruOk, Recency.Find, Recency.Used, MostRecent;
      dead := None;
      var slot := Find(c);
      if slot.Some? {
        ListedSlot(slots[..], slot.value);
        var s := Acquire(slot.value);
        TakenMostRecent(old(heap), s, clock);
        return Some(s), None;
      }
      if !memory {
        return None, None;
      }
      var s;
      s, dead := CreateNew(c);
      r := Some(s);
    }

    /** A new shadow for a context that has none. */
    method CreateNew(c: Ctx) returns (s: Id, dead: Option<Id>)
      requires Valid() && Recency.Find(lru, c).None?
      requires forall i | 0 <= i < 256 && slots[i].Some? :: heap[slots[i].value].ctx != c
      modifies slots, this`heap, this`held, this`next, this`clock, this`dying, this`lru, this`order
      ensures Valid() && s == old(next) && next == old(next) + 1 && clock == old(clock) + 1
      ensures lru == [(c, s)] + Shortened(old(lru))
      ensures Listed(slots[..], s) && s in heap && heap[s].ctx == c && held == old(held) + multiset{s}
      ensures s !in old(heap) && heap.Keys == old(heap.Keys) + {s} && MostRecent(old(heap), heap, s, clock)
      ensures dead.Some? ==> dead.value !in old(held) && dying == old(dying) + {dead.value}
      ensures dead.None? ==> dying == old(dying)
      ensures exists i: nat :: OneWritten(old(slots[..]), slots[..], i, Some(s))
      ensures forall i | 0 <= i < 256 && old(slots[i].Some?) && slots[i] != old(slots[i]) ::
                forall j | 0 <= j < 256 ::
                  old(slots[j].Some?) && old(heap[slots[i].value].lastUse) <= old(heap[slots[j].value].lastUse)
    {
      hide CountsOk, Listed, LruOk, Recency.Find;
      var target: nat;
      target, dead := MakeRoom();
      s := Place(target, c);
      ListedSlot(slots[..], target);
      assert OneWritten(old(slots[..]), slots[..], target, Some(s));
    }

    /** The destructor, run once by the thread that brought the count to zero. */
    method Destroy(s: Id)
      requires Valid() && s in dying
      modifies this`heap, this`dying, this`freed
      ensures Valid() && Value() == Stepped(old(Value()), DoDestroy(s))
      ensures dying == old(dying) - {s} && freed == old(freed) + [s] && heap == old(heap) - {s}
      ensures s !in held && !Listed(slots[..], s) && s !in old(freed)
    {
      hide LruOk, InList, Listed, CountsOk, TableOk, NoDuplicates;
      DyingIsUnneeded(this, s);
      FreedOnce(freed, s);
      CountsDestroyed(slots[..], heap, held, dying, s);
      LruDestroyed(slots[..], heap, clock, lru, order, s);
      heap := heap - {s};
      dying := dying - {s};
      freed := freed + [s];
    }
  }

  // ---- What each step does to the list ----

  lemma TakenMostRecent(heap: Heap, s: Id, stamp: nat)
    requires s in heap
    ensures MostRecent(heap, Taken(heap, s, stamp), s, stamp) && Taken(heap, s, stamp)[s].ctx == heap[s].ctx
  {
  }

  lemma EntryOf(t: Slots, heap: Heap, clock: nat, lru: Lru, order: seq<nat>, slot: nat)
    requires TableOk(t, heap) && LruOk(t, heap, clock, lru, order) && slot < |t| && t[slot].Some?
    ensures var s := t[slot].value; var i := Recency.Find(lru, heap[s].ctx);
            i.Some? && i.value < |order| && order[i.value] == slot && lru[i.value].1 == s
  {
    Recency.SlotOfKey(View(t, heap), clock, lru, order, slot);
  }

  lemma NoEntryOf(t: Slots, heap: Heap, clock: nat, lru: Lru, order: seq<nat>, c: Ctx)
    requires TableOk(t, heap) && LruOk(t, heap, clock, lru, order)
    requires forall i | 0 <= i < |t| && t[i].Some? :: heap[t[i].value].ctx != c
    ensures Recency.Find(lru, c) == None
  {
    Recency.NoSlotForKey(View(t, heap), clock, lru, order, c);
  }

  /** A slot stamped with the next tick brings its entry to the front. */
  lemma LruTouch(t: Slots, heap: Heap, clock: nat, lru: Lru, order: seq<nat>, slot: nat) returns (order': seq<nat>)
    requires TableOk(t, heap) && LruOk(t, heap, clock, lru, order) && slot < |t| && t[slot].Some?
    ensures var s := t[slot].value;
            LruOk(t, Taken(heap, s, clock + 1), clock + 1, Recency.Used(lru, heap[s].ctx), order')
  {
    var s := t[slot].value;
    var c, v := heap[s].ctx, View(t, heap);
    EntryOf(t, heap, clock, lru, order, slot);
    var i := Recency.Find(lru, c).value;
    KeysElsewhere(lru, c, i, v, clock, order);
    Recency.Renew(v, clock, lru, order, i, c, s);
    order' := [order[i]] + Recency.Without(order, i);
    assert View(t, Taken(heap, s, clock + 1)) == v[slot := Recency.Slot(c, Some(s), clock + 1)];
  }

  lemma KeysElsewhere(lru: Lru, c: Ctx, i: nat, v: seq<Recency.Slot<Ctx, Id>>, clock: nat, order: seq<nat>)
    requires Recency.Represents(v, clock, lru, order) && i < |lru| && lru[i].0 == c
    ensures forall j | 0 <= j < |lru| && j != i :: lru[j].0 != c
  {
  }

  lemma LruDropped(t: Slots, heap: Heap, clock: nat, lru: Lru, order: seq<nat>, s: Id)
    requires LruOk(t, heap, clock, lru, order) && s in heap && heap[s].refcount > 0
    ensures LruOk(t, Dropped(heap, s), clock, lru, order)
  {
    assert View(t, Dropped(heap, s)) == View(t, heap);
  }

  lemma LruDestroyed(t: Slots, heap: Heap, clock: nat, lru: Lru, order: seq<nat>, s: Id)
    requires LruOk(t, heap, clock, lru, order) && !Listed(t, s)
    ensures LruOk(t, heap - {s}, clock, lru, order)
  {
    assert View(t, heap - {s}) == View(t, heap);
  }

  /** Slots that are not in use do not matter. */
  lemma SameUsed<K, V>(t: seq<Recency.Slot<K, V>>, u: seq<Recency.Slot<K, V>>, clock: nat,
                       l: Recency.Lru<K, V>, order: seq<nat>)
    requires Recency.Represents(t, clock, l, order) && |u| == |t|
    requires forall i | 0 <= i < |t| :: if t[i].value.Some? then u[i] == t[i] else u[i].value.None?
    ensures Recency.Represents(u, clock, l, order)
  {
  }

  lemma LruClear(t: Slots, heap: Heap, clock: nat, lru: Lru, order: seq<nat>, slot: nat) returns (order': seq<nat>)
    requires TableOk(t, heap) && LruOk(t, heap, clock, lru, order) && slot < |t| && t[slot].Some?
             && heap[t[slot].value].refcount > 0
    ensures var s := t[slot].value;
            LruOk(t[slot := None], Dropped(heap, s), clock, Recency.Removed(lru, heap[s].ctx), order')
  {
    var s, v := t[slot].value, View(t, heap);
    EntryOf(t, heap, clock, lru, order, slot);
    var i := Recency.Find(lru, heap[s].ctx).value;
    Recency.Forget(v, clock, lru, order, i);
    order' := Recency.Without(order, i);
    SameUsed(v[slot := v[slot].(value := None)], View(t[slot := None], Dropped(heap, s)), clock,
             Recency.Without(lru, i), order');
  }

  lemma LruPlace(t: Slots, heap: Heap, clock: nat, lru: Lru, order: seq<nat>, slot: nat, s: Id, c: Ctx)
    requires TableOk(t, heap) && LruOk(t, heap, clock, lru, order) && slot < |t| && t[slot].None? && s !in heap
    requires forall i | 0 <= i < |t| && t[i].Some? :: heap[t[i].value].ctx != c
    ensures LruOk(t[slot := Some(s)], heap[s := Shadow(c, clock + 1, 2)], clock + 1, [(c, s)] + lru, [slot] + order)
  {
    NoEntryOf(t, heap, clock, lru, order, c);
    Recency.Insert(View(t, heap), clock, lru, order, slot, c, s);
    assert View(t[slot := Some(s)], heap[s := Shadow(c, clock + 1, 2)]) ==
           View(t, heap)[slot := Recency.Slot(c, Some(s), clock + 1)];
  }

  lemma OldestIsLast(t: Slots, heap: Heap, clock: nat, lru: Lru, order: seq<nat>, slot: nat)
    requires TableOk(t, heap) && LruOk(t, heap, clock, lru, order) && |t| == 256 && slot < 256
    requires forall i | 0 <= i < 256 :: t[i].Some?
    requires forall i | 0 <= i < 256 :: heap[t[slot].value].lastUse <= heap[t[i].value].lastUse
    ensures |lru| == 256 && heap[t[slot].value].ctx == lru[255].0
  {
    Recency.LeastIsLast(View(t, heap), clock, lru, order, slot);
  }

  lemma FreeSlotMeans(t: Slots, heap: Heap, clock: nat, lru: Lru, order: seq<nat>, slot: nat)
    requires LruOk(t, heap, clock, lru, order) && slot < |t| && t[slot].None?
    ensures |lru| < |t|
  {
    Recency.NotFull(View(t, heap), clock, lru, order, slot);
  }

  lemma LastRemoved(t: Slots, heap: Heap, clock: nat, lru: Lru, order: seq<nat>)
    requires LruOk(t, heap, clock, lru, order) && |lru| == 256
    ensures Recency.Removed(lru, lru[255].0) == lru[..255]
  {
    KeysElsewhere(lru, lru[255].0, 255, View(t, heap), clock, order);
    var i := Recency.Find(lru, lru[255].0).value;
    assert i == 255;
  }

  // ---- What each step does to the counts ----

  /** One more reference, with a stamp. */
  ghost function Taken(heap: Heap, s: Id, stamp: nat): Heap
    requires s in heap
  {
    heap[s := heap[s].(lastUse := stamp, refcount := heap[s].refcount + 1)]
  }

  lemma CountsAcquire(t: Slots, heap: Heap, held: multiset<Id>, dying: set<Id>, i: nat, stamp: nat)
    requires TableOk(t, heap) && CountsOk(t, heap, held, dying) && i < |t| && t[i].Some?
    ensures var s := t[i].value;
            CountsOk(t, Taken(heap, s, stamp), held + multiset{s}, dying) && TableOk(t, Taken(heap, s, stamp))
  {
    ListedSlot(t, i);
    hide Listed;
  }

  ghost function Dropped(heap: Heap, s: Id): Heap
    requires s in heap && heap[s].refcount > 0
  {
    heap[s := heap[s].(refcount := heap[s].refcount - 1)]
  }

  lemma ListedSlot(t: Slots, i: nat)
    requires i < |t| && t[i].Some?
    ensures Listed(t, t[i].value)
  {
  }

  lemma HeldCounts(t: Slots, heap: Heap, held: multiset<Id>, dying: set<Id>, s: Id)
    requires CountsOk(t, heap, held, dying) && s in held
    ensures s in heap && heap[s].refcount == held[s] + (if Listed(t, s) then 1 else 0) > 0
  {
  }

  lemma ListedCounts(t: Slots, heap: Heap, held: multiset<Id>, dying: set<Id>, i: nat)
    requires TableOk(t, heap) && CountsOk(t, heap, held, dying) && i < |t| && t[i].Some?
    ensures var s := t[i].value; s in heap && heap[s].refcount == held[s] + 1
  {
    ListedSlot(t, i);
  }

  lemma CountsRelease(t: Slots, heap: Heap, held: multiset<Id>, dying: set<Id>, s: Id)
    requires CountsOk(t, heap, held, dying) && s in held && s in heap && heap[s].refcount > 0
    ensures CountsOk(t, Dropped(heap, s), held - multiset{s}, if heap[s].refcount == 1 then dying + {s} else dying)
  {
    hide Listed;
  }

  lemma FreedOnce(freed: seq<Id>, s: Id)
    requires NoDuplicates(freed) && s !in freed
    ensures NoDuplicates(freed + [s])
  {
  }

  lemma CountsDestroyed(t: Slots, heap: Heap, held: multiset<Id>, dying: set<Id>, s: Id)
    requires TableOk(t, heap) && CountsOk(t, heap, held, dying) && s in dying
    ensures s in heap && s !in held && !Listed(t, s) && TableOk(t, heap - {s})
            && CountsOk(t, heap - {s}, held, dying - {s})
  {
    assert held[s] == 0;
    forall i | 0 <= i < |t| && t[i].Some?
      ensures t[i].value != s
    {
      ListedSlot(t, i);
    }
    hide Listed;
  }

  lemma TableDropped(t: Slots, heap: Heap, s: Id)
    requires TableOk(t, heap) && s in heap && heap[s].refcount > 0
    ensures TableOk(t, Dropped(heap, s))
  {
  }

  lemma CountsUnlist(t: Slots, heap: Heap, held: multiset<Id>, dying: set<Id>, i: nat)
    requires TableOk(t, heap) && CountsOk(t, heap, held, dying) && i < |t| && t[i].Some?
    requires t[i].value in heap && heap[t[i].value].refcount > 0
    ensures var s := t[i].value;
            CountsOk(t[i := None], Dropped(heap, s), held, if heap[s].refcount == 1 then dying + {s} else dying)
  {
    ListedSlot(t, i);
    ListedAfter(t, i, None, heap);
    hide Listed;
  }

  lemma TableUnlist(t: Slots, heap: Heap, i: nat)
    requires TableOk(t, heap) && i < |t| && t[i].Some? && t[i].value in heap && heap[t[i].value].refcount > 0
    ensures TableOk(t[i := None], Dropped(heap, t[i].value))
  {
  }

  lemma CountsPlace(t: Slots, heap: Heap, held: multiset<Id>, dying: set<Id>, i: nat, s: Id, c: Ctx, stamp: nat)
    requires TableOk(t, heap) && CountsOk(t, heap, held, dying) && i < |t| && t[i].None? && s !in heap
    ensures CountsOk(t[i := Some(s)], heap[s := Shadow(c, stamp, 2)], held + multiset{s}, dying)
  {
    var u := t[i := Some(s)];
    ListedSlot(u, i);
    forall x | x != s
      ensures Listed(u, x) <==> Listed(t, x)
    {
      if j :| 0 <= j < |t| && t[j] == Some(x) { assert u[j] == Some(x); }
      if j :| 0 <= j < |u| && u[j] == Some(x) { assert t[j] == Some(x); }
    }
    hide Listed;
  }

  lemma TablePlace(t: Slots, heap: Heap, i: nat, s: Id, c: Ctx, stamp: nat)
    requires TableOk(t, heap) && i < |t| && t[i].None? && s !in heap
    requires forall j | 0 <= j < |t| && t[j].Some? :: heap[t[j].value].ctx != c
    ensures TableOk(t[i := Some(s)], heap[s := Shadow(c, stamp, 2)])
  {
  }

  /** Overwriting a shadow's only entry takes it out of the table, and leaves every other in. */
  lemma ListedAfter(t: Slots, i: nat, e: Option<Id>, heap: Heap)
    requires TableOk(t, heap) && i < |t| && t[i].Some? && (e.Some? ==> !Listed(t, e.value))
    ensures !Listed(t[i := e], t[i].value)
    ensures forall s :: s != t[i].value && Some(s) != e ==> (Listed(t[i := e], s) <==> Listed(t, s))
  {
    var u := t[i := e];
    forall s | s != t[i].value && Some(s) != e
      ensures Listed(u, s) <==> Listed(t, s)
    {
      if j :| 0 <= j < |t| && t[j] == Some(s) { assert u[j] == Some(s); }
      if j :| 0 <= j < |u| && u[j] == Some(s) { assert t[j] == Some(s); }
    }
  }

  // ---- Any interleaving ----

  ghost function AfterSteps(steps: seq<Step>): Sharing {
    if steps == [] then Sharing([], multiset{}, {}, [], 0)
    else Stepped(AfterSteps(steps[..|steps| - 1]), steps[|steps| - 1])
  }

  /** What may be destroyed is exactly what is live and needed by nobody. */
  lemma DyingIsUnneeded(table: Table, s: Id)
    requires table.Valid()
    ensures s in table.dying <==> s in table.heap && s !in table.held && !InList(table.lru, s)
  {
    var t := table.slots[..];
    ListedInList(t, table.heap, table.clock, table.lru, table.order, s);
    hide LruOk, Listed, InList;
    if s in table.held { assert table.held[s] > 0; }
  }

  lemma ListedInList(t: Slots, heap: Heap, clock: nat, lru: Lru, order: seq<nat>, s: Id)
    requires TableOk(t, heap) && LruOk(t, heap, clock, lru, order)
    ensures Listed(t, s) <==> InList(lru, s)
  {
    if Listed(t, s) {
      var i :| 0 <= i < |t| && t[i] == Some(s);
      EntryOf(t, heap, clock, lru, order, i);
      assert lru[Recency.Find(lru, heap[s].ctx).value] in lru;
    }
    if InList(lru, s) {
      var e :| e in lru && e.1 == s;
      var i :| 0 <= i < |lru| && lru[i] == e;
      assert View(t, heap)[order[i]].value == Some(s);
      assert t[order[i]] == Some(s);
    }
  }

  /** One step; `mine` are the references held and `doomed` the shadows that some thread is to destroy. */
  method Perform(table: Table, step: Step, mine: multiset<Id>, doomed: set<Id>)
      returns (mine': multiset<Id>, doomed': set<Id>)
    requires table.Valid() && mine == table.held && doomed == table.dying
    modifies table, table.slots
    ensures table.Valid() && table.slots == old(table.slots) && mine' == table.held && doomed' == table.dying
    ensures table.Value() == Stepped(old(table.Value()), step)
  {
    hide Table.Valid, Table.Value, Stepped, Listed, MostRecent, OneWritten, Recency.Find, Recency.Used, Recency.Removed;
    mine', doomed' := mine, doomed;
    match step {
      case DoGet(c) =>
        var r := table.Get(c);
        mine' := mine + References(r);
      case DoCreate(c, memory) =>
        var r, dead := table.Create(c, memory);
        mine' := mine + References(r);
        doomed' := doomed + Dead(dead);
      case DoRelease(s) =>
        mine', doomed' := ReleaseIfHeld(table, s, mine, doomed);
      case DoFree(c) =>
        var dead := table.Free(c);
        doomed' := doomed + Dead(dead);
      case DoDestroy(s) =>
        doomed' := DestroyIfDoomed(table, s, doomed);
    }
  }

  method ReleaseIfHeld(table: Table, s: Id, mine: multiset<Id>, doomed: set<Id>)
      returns (mine': multiset<Id>, doomed': set<Id>)
    requires table.Valid() && mine == table.held && doomed == table.dying
    modifies table, table.slots
    ensures table.Valid() && table.slots == old(table.slots) && mine' == table.held && doomed' == table.dying
    ensures table.Value() == Stepped(old(table.Value()), DoRelease(s))
  {
    hide Table.Valid, Table.Value, Stepped, Listed, MostRecent, OneWritten, Recency.Find, Recency.Used, Recency.Removed;
    NotHeld(table, s);
    if s !in mine { return mine, doomed; }
    var dead := table.Release(s);
    return mine - multiset{s}, doomed + if dead then {s} else {};
  }

  method DestroyIfDoomed(table: Table, s: Id, doomed: set<Id>) returns (doomed': set<Id>)
    requires table.Valid() && doomed == table.dying
    modifies table, table.slots
    ensures table.Valid() && table.slots == old(table.slots) && doomed' == table.dying
    ensures table.held == old(table.held) && table.Value() == Stepped(old(table.Value()), DoDestroy(s))
  {
    hide Table.Valid, Table.Value, Stepped, Listed, MostRecent, OneWritten, Recency.Find, Recency.Used, Recency.Removed;
    NotDoomed(table, s);
    if s !in doomed { return doomed; }
    table.Destroy(s);
    return doomed - {s};
  }

  /** What may not be done does nothing. */
  lemma NotDoomed(table: Table, s: Id)
    requires table.Valid()
    ensures s !in table.dying ==> Stepped(table.Value(), DoDestroy(s)) == table.Value()
  {
    DyingIsUnneeded(table, s);
  }

  lemma NotHeld(table: Table, s: Id)
    ensures s !in table.held ==> Stepped(table.Value(), DoRelease(s)) == table.Value()
  {
  }

  /** Any steps in any order, where a thread releases only what it holds and destroys only what it brought to zero:
      the table holds exactly what the steps make of it; the counts are right throughout, every shadow handed out is
      live or was destroyed exactly once, and nothing listed or held is ever destroyed or about to be. */
  method Interleave(steps: seq<Step>) returns (table: Table)
    ensures fresh(table) && table.Valid() && table.Value() == AfterSteps(steps)
    ensures forall s :: s in table.held || InList(table.lru, s) ==>
              s in table.heap && s !in table.freed && s !in table.dying
    ensures forall s :: 0 <= s < table.next ==> (s in table.heap <==> s !in table.freed)
    ensures NoDuplicates(table.freed)
  {
    hide CountsOk, TableOk, Listed, LruOk, NoDuplicates, InList, AfterSteps, Stepped;
    table := new Table();
    NoSteps(steps);
    var mine: multiset<Id> := multiset{};
    var doomed: set<Id> := {};
    var i := 0;
    while i < |steps|
      invariant 0 <= i <= |steps| && fresh(table) && fresh(table.slots) && table.Valid()
      invariant mine == table.held && doomed == table.dying && table.Value() == AfterSteps(steps[..i])
    {
      OneMoreStep(steps, i);
      mine, doomed := Perform(table, steps[i], mine, doomed);
      i := i + 1;
    }
    assert steps[..i] == steps;
    NothingNeededDies(table);
  }

  lemma NoSteps(steps: seq<Step>)
    ensures AfterSteps(steps[..0]) == Sharing([], multiset{}, {}, [], 0)
  {
  }

  lemma OneMoreStep(steps: seq<Step>, i: nat)
    requires i < |steps|
    ensures AfterSteps(steps[..i + 1]) == Stepped(AfterSteps(steps[..i]), steps[i])
  {
    assert steps[..i + 1][..i] == steps[..i];
  }

  function References(r: Option<Id>): multiset<Id> { if r.Some? then multiset{r.value} else multiset{} }

  function Dead(d: Option<Id>): set<Id> { if d.Some? then {d.value} else {} }

  /** What is listed or held is live and not at count zero. */
  lemma NothingNeededDies(table: Table)
    requires table.Valid()
    ensures forall s :: s in table.held || InList(table.lru, s) ==>
              s in table.heap && s !in table.freed && s !in table.dying
  {
    forall s | s in table.held || InList(table.lru, s)
      ensures s in table.heap && s !in table.freed && s !in table.dying
    {
      ListedInList(table.slots[..], table.heap, table.clock, table.lru, table.order, s);
      DyingIsUnneeded(table, s);
    }
  }
}
