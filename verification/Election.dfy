/** AWDL master election: one run of `awdl_election_run`, and networks of nodes running it in rounds. */
module Election {
  import opened Machine

  const TREE_MAX_HEIGHT: nat := 10
  const MAX_U32: nat := 0xffff_ffff

  /** `struct awdl_election_state`: what a node believes, and what it advertises. */
  datatype State = State(
    masterAddr: Addr, syncAddr: Addr, selfAddr: Addr, height: U32,
    masterMetric: U32, selfMetric: U32, masterCounter: U32, selfCounter: U32)

  /** An entry of the peer table, as far as the election looks at it. */
  datatype Candidate = Candidate(election: State, isValid: bool)

  /** The state of a node that follows nobody. */
  function ResetSelf(s: State): State {
    s.(height := 0, masterAddr := s.selfAddr, syncAddr := s.selfAddr,
       masterMetric := s.selfMetric, masterCounter := s.selfCounter)
  }

  /** The state of node `s` once it has taken `parent` as its sync master. */
  function Adopt(s: State, parent: State): State {
    s.(masterAddr := parent.masterAddr, syncAddr := parent.selfAddr,
       masterMetric := parent.masterMetric, masterCounter := parent.masterCounter,
       height := Wrap32(parent.height + 1))
  }

  /** Whether a peer may become the parent of node `self`: valid, not too deep, not our own child. */
  predicate Eligible(self: Addr, p: Candidate) {
    && p.isValid
    && Wrap32(p.election.height + 1) <= TREE_MAX_HEIGHT
    && p.election.syncAddr != self
  }

  /** Strict order on candidates: counter, then metric, then smaller height, then larger address. */
  predicate Better(a: State, b: State) {
    || a.masterCounter > b.masterCounter
    || (a.masterCounter == b.masterCounter &&
        (|| a.masterMetric > b.masterMetric
         || (a.masterMetric == b.masterMetric &&
             (|| a.height < b.height
              || (a.height == b.height && a.selfAddr > b.selfAddr)))))
  }

  /** The candidate left after the peers have been considered in this order. */
  function BestFrom(self: Addr, best: State, peers: seq<Candidate>): State
    decreases |peers|
  {
    if peers == [] then best
    else
      var p := peers[0];
      BestFrom(self, if Eligible(self, p) && Better(p.election, best) then p.election else best, peers[1..])
  }

  /** The state after one election. */
  function Elect(s: State, peers: seq<Candidate>): State {
    var me := ResetSelf(s);
    var best := BestFrom(s.selfAddr, me, peers);
    if best == me then me else Adopt(me, best)
  }

  /** The election state held by a node, updated in place. */
  class Node {
    var masterAddr: Addr
    var syncAddr: Addr
    var selfAddr: Addr
    var height: U32
    var masterMetric: U32
    var selfMetric: U32
    var masterCounter: U32
    var selfCounter: U32

    function Value(): State
      reads this
    {
      State(masterAddr, syncAddr, selfAddr, height, masterMetric, selfMetric, masterCounter, selfCounter)
    }

    /** A new node is its own master, with metric 60 and counter 0. */
    constructor (self: Addr)
      ensures Value() == State(self, self, self, 0, 60, 60, 0, 0)
      ensures Value() == ResetSelf(Value())
    {
      selfAddr := self;
      selfCounter, selfMetric := 0, 60;
      height, masterAddr, syncAddr, masterMetric, masterCounter := 0, self, self, 60, 0;
    }

    method ResetSelfInPlace()
      modifies this
      ensures Value() == ResetSelf(old(Value()))
    {
      height := 0;
      masterAddr := selfAddr;
      syncAddr := selfAddr;
      masterMetric := selfMetric;
      masterCounter := selfCounter;
    }

    /** One election over the peers, in the order the table's iterator yields them. */
    method Run(peers: seq<Candidate>)
      modifies this
      ensures Value() == Elect(old(Value()), peers)
    {
      ResetSelfInPlace();
      var best := Value();
      var adopted := false;
      var i := 0;
      while i < |peers|
        invariant 0 <= i <= |peers|
        invariant Value() == ResetSelf(old(Value()))
        invariant BestFrom(selfAddr, Value(), peers) == BestFrom(selfAddr, best, peers[i..])
        invariant if adopted then Better(best, Value()) else best == Value()
      {
        var peer := peers[i];
        var cand := peer.election;
        i := i + 1;
        assert peers[i-1..][1..] == peers[i..];
        if !peer.isValid {
          continue;
        }
        if Wrap32(cand.height + 1) > TREE_MAX_HEIGHT {
          continue;
        }
        if cand.syncAddr == selfAddr {
          continue;
        }
        var cmp := CompareMaster(cand, best);
        if cmp < 0 {
          continue;
        } else if cmp == 0 {
          if cand.height > best.height {
            continue;
          } else if cand.height == best.height {
            if cand.selfAddr <= best.selfAddr {
              continue;
            }
          }
        }
        best, adopted := cand, true;
      }
      if adopted {
        masterAddr := best.masterAddr;
        syncAddr := best.selfAddr;
        masterMetric := best.masterMetric;
        masterCounter := best.masterCounter;
        height := Wrap32(best.height + 1);
      }
    }
  }

  /** Negative, zero or positive as `a`'s master ranks below, with or above `b`'s. */
  function CompareMaster(a: State, b: State): (r: int)
    ensures r > 0 <==> Rank(a) > Rank(b)
    ensures r == 0 <==> Rank(a) == Rank(b)
  {
    var c := Compare(a.masterCounter, b.masterCounter);
    if c != 0 then c else Compare(a.masterMetric, b.masterMetric)
  }

  function Compare(a: U32, b: U32): int {
    if a < b then -1 else if a > b then 1 else 0
  }

  // ---- One run ----

  /** Counter and metric of the master a node advertises, as one number. */
  function Rank(s: State): nat { s.masterCounter * 0x1_0000_0000 + s.masterMetric }

  /** Counter and metric of the node itself, as one number. */
  function SelfRank(s: State): nat { s.selfCounter * 0x1_0000_0000 + s.selfMetric }

  lemma BetterByRank(a: State, b: State)
    ensures Better(a, b) <==> Rank(a) > Rank(b) || (Rank(a) == Rank(b) &&
                              (a.height < b.height || (a.height == b.height && a.selfAddr > b.selfAddr)))
    ensures Rank(a) == Rank(b) <==> a.masterCounter == b.masterCounter && a.masterMetric == b.masterMetric
  {
  }

  /** `best` is not beaten by any eligible peer, and is `start` or an eligible peer that beats it. */
  ghost predicate IsBest(self: Addr, start: State, peers: seq<Candidate>, best: State) {
    && (forall p <- peers :: Eligible(self, p) ==> !Better(p.election, best))
    && (best == start || (Better(best, start) && exists p <- peers :: Eligible(self, p) && p.election == best))
  }

  lemma {:induction false} BestFromIsBest(self: Addr, start: State, peers: seq<Candidate>)
    ensures IsBest(self, start, peers, BestFrom(self, start, peers))
    decreases |peers|
  {
    if peers != [] {
      var p := peers[0];
      var next := if Eligible(self, p) && Better(p.election, start) then p.election else start;
      BestFromIsBest(self, next, peers[1..]);
      var best := BestFrom(self, next, peers[1..]);
      forall q | q in peers && Eligible(self, q)
        ensures !Better(q.election, best)
      {
        assert q == p || q in peers[1..];
      }
      assert forall q <- peers[1..] :: q in peers;
    }
  }

  /** One run picks the maximum of the node itself and its eligible peers; the tree stays at most 10 high
      and the chosen parent is not the node's own child. */
  lemma ElectPicksMaximum(s: State, peers: seq<Candidate>)
    ensures var me, r := ResetSelf(s), Elect(s, peers);
            && r.height <= TREE_MAX_HEIGHT
            && ((r == me && forall q <- peers :: Eligible(s.selfAddr, q) ==> !Better(q.election, me))
                || exists p <- peers ::
                     && Eligible(s.selfAddr, p) && Better(p.election, me) && r == Adopt(me, p.election)
                     && forall q <- peers :: Eligible(s.selfAddr, q) ==> !Better(q.election, p.election))
  {
    var me := ResetSelf(s);
    BestFromIsBest(s.selfAddr, me, peers);
    var best := BestFrom(s.selfAddr, me, peers);
    if best != me {
      var p :| p in peers && Eligible(s.selfAddr, p) && p.election == best;
    }
  }

  /** The outcome does not depend on the order in which the table's iterator yields the peers. */
  lemma ElectIgnoresOrder(s: State, ps: seq<Candidate>, qs: seq<Candidate>)
    requires forall p :: p in ps <==> p in qs
    requires forall p, q | p in ps && q in ps :: p.election.selfAddr == q.election.selfAddr ==> p == q
    ensures Elect(s, ps) == Elect(s, qs)
  {
    var me := ResetSelf(s);
    BestFromIsBest(s.selfAddr, me, ps);
    BestFromIsBest(s.selfAddr, me, qs);
    var a, b := BestFrom(s.selfAddr, me, ps), BestFrom(s.selfAddr, me, qs);
    if a != me {
      var p :| p in ps && Eligible(s.selfAddr, p) && p.election == a;
      if b != me {
        var q :| q in qs && Eligible(s.selfAddr, q) && q.election == b;
      }
    }
  }

  /** A follower shows height 0, as if it were a root, exactly when some valid peer that is not its own child
      advertises the largest 32-bit height, whose successor wraps to 0 and slips under the cap, and beats the node
      while no eligible peer beats it. */
  lemma WrappedHeight(s: State, peers: seq<Candidate>)
    ensures var me, r := ResetSelf(s), Elect(s, peers);
            r != me && r.height == 0 <==>
            exists p <- peers ::
              && p.isValid && p.election.syncAddr != s.selfAddr && p.election.height == MAX_U32
              && Better(p.election, me)
              && forall q <- peers :: Eligible(s.selfAddr, q) ==> !Better(q.election, p.election)
  {
    var me := ResetSelf(s);
    BestFromIsBest(s.selfAddr, me, peers);
    var best := BestFrom(s.selfAddr, me, peers);
    if best != me {
      // The parent outranks us, since its height does not: so the master values differ.
      BetterByRank(best, me);
      if best.height == MAX_U32 { assert Adopt(me, best) != me; }
    }
    forall p | p in peers && p.isValid && p.election.syncAddr != s.selfAddr && p.election.height == MAX_U32
               && Better(p.election, me)
               && forall q <- peers :: Eligible(s.selfAddr, q) ==> !Better(q.election, p.election)
      ensures best != me && best.height == MAX_U32
    {
      assert Eligible(s.selfAddr, p);
      BetterByRank(p.election, best);
      BetterByRank(best, p.election);
    }
  }

  /** Such a parent: it wins on its metric although it claims to be 2^32 - 1 hops from its master. */
  lemma WrappedHeightHappens()
    ensures exists s: State, p: Candidate :: Elect(s, [p]).height == 0 && Elect(s, [p]).syncAddr != s.selfAddr
  {
    var s := State(1, 1, 1, 0, 60, 60, 0, 0);
    var p := Candidate(State(3, 3, 2, MAX_U32, 70, 60, 0, 0), true);
    assert BestFrom(1, ResetSelf(s), [p]) == p.election by {
      assert [p][1..] == [];
    }
    assert Elect(s, [p]).height == 0;
  }

  // ---- The same in plain numbers ----

  /** Counter, metric, nearness and address as one number: whoever has the greater is preferred. */
  function Order(counter: nat, metric: nat, height: nat, addr: nat): int {
    ((counter * 0x1_0000_0000 + metric) * 0x1_0000_0000 - height) * 0x1_0000_0000_0000 + addr
  }

  function OrderOf(s: State): int { Order(s.masterCounter, s.masterMetric, s.height, s.selfAddr) }

  lemma BetterIsOrder(a: State, b: State)
    ensures Better(a, b) <==> OrderOf(a) > OrderOf(b)
  {
    BetterByRank(a, b);
    var ra, rb := Rank(a) * 0x1_0000_0000 - a.height, Rank(b) * 0x1_0000_0000 - b.height;
    assert ra > rb ==> Rank(a) >= Rank(b);
    assert OrderOf(a) == ra * 0x1_0000_0000_0000 + a.selfAddr && OrderOf(b) == rb * 0x1_0000_0000_0000 + b.selfAddr;
  }

  /** A valid peer at height 9 at most, or at 2^32 - 1, whose own parent is not this node. */
  ghost predicate MayLead(p: Candidate, self: Addr) {
    p.isValid && (p.election.height <= 9 || p.election.height == 0xffff_ffff) && p.election.syncAddr != self
  }

  /** The peer precedes whoever advertises this counter and metric at this height and address. */
  ghost predicate Precedes(p: Candidate, counter: nat, metric: nat, height: nat, addr: nat) {
    Order(p.election.masterCounter, p.election.masterMetric, p.election.height, p.election.selfAddr)
      > Order(counter, metric, height, addr)
  }

  /** No peer that may lead comes first, and the node is its own master. */
  ghost predicate Leads(s: State, peers: seq<Candidate>, r: State) {
    && r == State(s.selfAddr, s.selfAddr, s.selfAddr, 0, s.selfMetric, s.selfMetric, s.selfCounter, s.selfCounter)
    && forall q <- peers :: MayLead(q, s.selfAddr) ==> !Precedes(q, s.selfCounter, s.selfMetric, 0, s.selfAddr)
  }

  /** The peer comes before the node and no other that may lead before the peer; the node takes over the master the
      peer advertises, one hop farther away. */
  ghost predicate Follows(s: State, peers: seq<Candidate>, p: Candidate, r: State) {
    var e := p.election;
    && MayLead(p, s.selfAddr) && Precedes(p, s.selfCounter, s.selfMetric, 0, s.selfAddr)
    && r == State(e.masterAddr, e.selfAddr, s.selfAddr, (e.height + 1) % 0x1_0000_0000,
                  e.masterMetric, s.selfMetric, e.masterCounter, s.selfCounter)
    && forall q <- peers ::
         MayLead(q, s.selfAddr) ==> !Precedes(q, e.masterCounter, e.masterMetric, e.height, e.selfAddr)
  }

  lemma ElectExactly(s: State, peers: seq<Candidate>)
    ensures var r := Elect(s, peers); Leads(s, peers, r) || exists p <- peers :: Follows(s, peers, p, r)
  {
    var me, r := ResetSelf(s), Elect(s, peers);
    ElectPicksMaximum(s, peers);
    forall p | p in peers
      ensures Eligible(s.selfAddr, p) <==> MayLead(p, s.selfAddr)
      ensures Better(p.election, me) <==> Precedes(p, s.selfCounter, s.selfMetric, 0, s.selfAddr)
    {
      BetterIsOrder(p.election, me);
    }
    hide Better, Elect, Order;
    if p :| p in peers && Eligible(s.selfAddr, p) && Better(p.election, me) && r == Adopt(me, p.election)
            && forall q <- peers :: Eligible(s.selfAddr, q) ==> !Better(q.election, p.election)
    {
      forall q | q in peers
        ensures var e := p.election;
                Better(q.election, e) <==> Precedes(q, e.masterCounter, e.masterMetric, e.height, e.selfAddr)
      {
        BetterIsOrder(q.election, p.election);
      }
      assert Follows(s, peers, p, r);
    }
  }
}
