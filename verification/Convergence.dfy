/** Networks of AWDL nodes whose elections run in synchronous rounds on accurate views of each other. */
module Convergence {
  import opened Machine
  import opened Election

  /** The state of every node, by address. */
  type Net = map<Addr, State>

  /** Whom each node hears, in the order its peer table yields them. */
  type Graph = map<Addr, seq<Addr>>

  predicate Hears(g: Graph, a: Addr, b: Addr) {
    a in g && b in g[a]
  }

  ghost predicate WellFormed(g: Graph, net: Net) {
    && net.Keys == g.Keys
    && (forall a :: a in net ==> net[a].selfAddr == a)
    && forall a, b | Hears(g, a, b) :: b in g && b != a
  }

  /** What a node finds in its peer table: the advertised state of everyone it hears. */
  ghost function Views(net: Net, heard: seq<Addr>): (ps: seq<Candidate>)
    requires forall b :: b in heard ==> b in net
    ensures |ps| == |heard| && forall i | 0 <= i < |ps| :: ps[i] == Candidate(net[heard[i]], true)
  {
    seq(|heard|, i requires 0 <= i < |heard| => Candidate(net[heard[i]], true))
  }

  /** What node `a` computes from the states of the previous round. */
  ghost function ElectAt(g: Graph, net: Net, a: Addr): State
    requires WellFormed(g, net) && a in net
  {
    assert forall b :: b in g[a] ==> Hears(g, a, b);
    Elect(net[a], Views(net, g[a]))
  }

  // ---- What one round does to one node ----

  ghost predicate Parent(net: Net, a: Addr, b: Addr)
    requires b in net
  {
    Eligible(a, Candidate(net[b], true))
  }

  /** The node is its own master after the round: no neighbour it may follow beats it. */
  ghost predicate StoodAlone(g: Graph, net: Net, a: Addr, r: State)
    requires WellFormed(g, net) && a in net
  {
    && r == ResetSelf(net[a])
    && forall b | Hears(g, a, b) :: !(Parent(net, a, b) && Better(net[b], ResetSelf(net[a])))
  }

  /** The node follows the best neighbour `b` after the round. */
  ghost predicate Followed(g: Graph, net: Net, a: Addr, b: Addr, r: State)
    requires WellFormed(g, net) && a in net
  {
    && Hears(g, a, b) && Parent(net, a, b) && Better(net[b], ResetSelf(net[a]))
    && r == Adopt(ResetSelf(net[a]), net[b])
    && forall c | Hears(g, a, c) :: !(Parent(net, a, c) && Better(net[c], net[b]))
  }

  ghost predicate NodeStep(g: Graph, net: Net, a: Addr, r: State)
    requires WellFormed(g, net) && a in net
  {
    StoodAlone(g, net, a, r) || exists b :: Followed(g, net, a, b, r)
  }

  lemma ElectionIsNodeStep(g: Graph, net: Net, a: Addr)
    requires WellFormed(g, net) && a in net
    ensures NodeStep(g, net, a, ElectAt(g, net, a))
  {
    hide Better, Adopt, ResetSelf, Elect, Eligible;
    assert forall b :: b in g[a] ==> Hears(g, a, b);
    var ps, r := Views(net, g[a]), ElectAt(g, net, a);
    ElectPicksMaximum(net[a], ps);
    assert Heard: forall b :: Hears(g, a, b) ==> Candidate(net[b], true) in ps by {
      forall b | Hears(g, a, b)
        ensures Candidate(net[b], true) in ps
      {
        var i :| 0 <= i < |g[a]| && g[a][i] == b;
        assert ps[i] == Candidate(net[b], true);
      }
    }
    if p :| p in ps && Eligible(a, p) && Better(p.election, ResetSelf(net[a]))
            && r == Adopt(ResetSelf(net[a]), p.election)
            && forall q <- ps :: Eligible(a, q) ==> !Better(q.election, p.election)
    {
      var i :| 0 <= i < |ps| && ps[i] == p;
      assert Hears(g, a, g[a][i]);
      assert Followed(g, net, a, g[a][i], r);
    } else {
      assert StoodAlone(g, net, a, r);
    }
  }

  /** What standing alone says of a neighbour that could have been followed. */
  lemma AloneMeans(g: Graph, net: Net, a: Addr, c: Addr, r: State)
    requires WellFormed(g, net) && a in net && StoodAlone(g, net, a, r) && Hears(g, a, c) && Parent(net, a, c)
    ensures Rank(net[c]) <= SelfRank(net[a])
    ensures Rank(net[c]) == SelfRank(net[a]) ==> net[c].height > 0 || c < a
  {
    BetterByRank(net[c], ResetSelf(net[a]));
  }

  /** What following `b` says of the node and of `b`. */
  lemma FollowedMeans(g: Graph, net: Net, a: Addr, b: Addr, r: State)
    requires WellFormed(g, net) && a in net && Followed(g, net, a, b, r)
    ensures Hears(g, a, b) && b in g && b != a && Parent(net, a, b) && net[b].syncAddr != a
    ensures r.selfAddr == a && r.syncAddr == b && r.masterAddr == net[b].masterAddr && Rank(r) == Rank(net[b])
    ensures r.masterMetric == net[b].masterMetric && r.masterCounter == net[b].masterCounter
    ensures r == Adopt(ResetSelf(net[a]), net[b])
    ensures net[b].height < MAX_U32 ==> 0 < r.height == net[b].height + 1 <= TREE_MAX_HEIGHT
    ensures Rank(net[b]) >= SelfRank(net[a])
    ensures Rank(net[b]) == SelfRank(net[a]) ==> net[b].height == 0 && b > a
  {
    BetterByRank(net[b], ResetSelf(net[a]));
  }

  /** No neighbour that could have been followed beats the one that was. */
  lemma FollowedIsBest(g: Graph, net: Net, a: Addr, b: Addr, c: Addr, r: State)
    requires WellFormed(g, net) && a in net && Followed(g, net, a, b, r) && Hears(g, a, c) && Parent(net, a, c)
    ensures Rank(net[c]) <= Rank(net[b])
    ensures Rank(net[c]) == Rank(net[b]) ==> net[b].height < net[c].height || (net[b].height == net[c].height && b >= c)
  {
    BetterByRank(net[c], net[b]);
  }

  /** A round keeps the node's own fields and caps its height. */
  lemma StepKeeps(g: Graph, net: Net, a: Addr, r: State)
    requires WellFormed(g, net) && a in net && NodeStep(g, net, a, r)
    ensures ResetSelf(r) == ResetSelf(net[a]) && SelfRank(r) == SelfRank(net[a]) && r.height <= TREE_MAX_HEIGHT
  {
  }

  lemma Live(g: Graph, net: Net, a: Addr)
    requires WellFormed(g, net)
    ensures a in net <==> a in g
    ensures forall b | Hears(g, a, b) :: b in g
  {
  }

  // ---- Histories ----

  ghost predicate RoundStep(g: Graph, before: Net, after: Net) {
    && WellFormed(g, before) && WellFormed(g, after)
    && forall a :: a in g ==> NodeStep(g, before, a, after[a])
  }

  ghost predicate StepAt(g: Graph, h: seq<Net>, k: nat)
    requires k + 1 < |h|
  {
    RoundStep(g, h[k], h[k + 1])
  }

  /** `h[k]` is the network after `k` rounds, in each of which every node ran one election. */
  ghost predicate IsHistory(g: Graph, h: seq<Net>) {
    && |h| > 1
    && forall k: nat | k < |h| - 1 :: StepAt(g, h, k)
  }

  /** One election at every node. */
  ghost function Round(g: Graph, net: Net): (r: Net)
    requires WellFormed(g, net)
    ensures RoundStep(g, net, r)
  {
    assert forall a :: a in g ==> NodeStep(g, net, a, ElectAt(g, net, a)) by {
      forall a | a in g
        ensures NodeStep(g, net, a, ElectAt(g, net, a))
      {
        ElectionIsNodeStep(g, net, a);
      }
    }
    map a | a in net.Keys :: ElectAt(g, net, a)
  }

  lemma ExtendHistory(g: Graph, h: seq<Net>, next: Net)
    requires |h| > 0 && (|h| > 1 ==> IsHistory(g, h)) && RoundStep(g, h[|h| - 1], next)
    ensures IsHistory(g, h + [next])
  {
    hide RoundStep;
    var longer := h + [next];
    forall k: nat | k < |longer| - 1
      ensures StepAt(g, longer, k)
    {
      if k < |h| - 1 {
        assert StepAt(g, h, k);
      }
    }
  }

  /** The networks after 0, 1, ..., `n` rounds of the election that every node runs: a history, so what holds
      of all histories holds of it. */
  ghost function Rounds(g: Graph, net: Net, n: nat): (h: seq<Net>)
    requires WellFormed(g, net)
    ensures |h| == n + 1 && h[0] == net && WellFormed(g, h[n])
    ensures n > 0 ==> IsHistory(g, h)
  {
    if n == 0 then [net]
    else
      var h := Rounds(g, net, n - 1);
      var next := Round(g, h[n - 1]);
      ExtendHistory(g, h, next);
      h + [next]
  }

  /** What node `a` did in round `k + 1`. */
  lemma CaseOf(g: Graph, h: seq<Net>, k: nat, a: Addr) returns (alone: bool, b: Addr)
    requires IsHistory(g, h) && k + 1 < |h| && a in g
    ensures WellFormed(g, h[k]) && WellFormed(g, h[k + 1])
    ensures alone ==> StoodAlone(g, h[k], a, h[k + 1][a])
    ensures !alone ==> Followed(g, h[k], a, b, h[k + 1][a])
  {
    assert StepAt(g, h, k);
    var before, r := h[k], h[k + 1][a];
    assert NodeStep(g, before, a, r);
    alone, b := StoodAlone(g, before, a, r), a;
    if !alone {
      b :| Followed(g, before, a, b, r);
    }
  }

  // ---- Metrics of masters that no longer exist ----

  /** No live node's own counter and metric exceed `top`. */
  ghost predicate Bounded(net: Net, top: nat) {
    forall a :: a in net ==> SelfRank(net[a]) <= top
  }

  /** No advertised height is the one whose successor wraps to zero. */
  ghost predicate NoWrap(net: Net) {
    forall a :: a in net ==> net[a].height < MAX_U32
  }

  /** A node's own fields never change, and heights stay at most 10 from round 1 on. */
  lemma {:induction false} OwnFieldsKept(g: Graph, h: seq<Net>, k: nat, a: Addr)
    requires IsHistory(g, h) && k < |h| && a in g
    ensures WellFormed(g, h[0]) && WellFormed(g, h[k])
    ensures ResetSelf(h[k][a]) == ResetSelf(h[0][a]) && SelfRank(h[k][a]) == SelfRank(h[0][a])
    ensures k > 0 ==> h[k][a].height <= TREE_MAX_HEIGHT
    ensures k > 0 || NoWrap(h[0]) ==> h[k][a].height < MAX_U32
  {
    assert StepAt(g, h, 0);
    if k > 0 {
      OwnFieldsKept(g, h, k - 1, a);
      assert StepAt(g, h, k - 1);
      hide ResetSelf, SelfRank, NodeStep;
      StepKeeps(g, h[k - 1], a, h[k][a]);
    }
  }

  /** A metric above every live node's own can only be hearsay, and after `k` rounds it is at least `k` hops old. */
  lemma {:induction false} HearsayAges(g: Graph, h: seq<Net>, top: nat, k: nat, a: Addr)
    requires IsHistory(g, h) && k < |h| && Bounded(h[0], top) && NoWrap(h[0]) && a in g
    ensures a in h[k] && (Rank(h[k][a]) > top ==> h[k][a].height >= k)
  {
    OwnFieldsKept(g, h, k, a);
    if k > 0 && Rank(h[k][a]) > top {
      OwnFieldsKept(g, h, k - 1, a);
      var alone, b := CaseOf(g, h, k - 1, a);
      if !alone {
        FollowedMeans(g, h[k - 1], a, b, h[k][a]);
        HearsayAges(g, h, top, k - 1, b);
        OwnFieldsKept(g, h, k - 1, b);
      }
    }
  }

  /** The height cap stops it: from round 10 on nobody may follow such a metric, from round 11 on nobody has it. */
  lemma HearsayDies(g: Graph, h: seq<Net>, top: nat, k: nat, b: Addr)
    requires IsHistory(g, h) && k < |h| && Bounded(h[0], top) && NoWrap(h[0]) && b in g && k >= TREE_MAX_HEIGHT
    ensures b in h[k] && forall a :: Parent(h[k], a, b) ==> Rank(h[k][b]) <= top
    ensures k > TREE_MAX_HEIGHT ==> Rank(h[k][b]) <= top
  {
    HearsayAges(g, h, top, k, b);
    OwnFieldsKept(g, h, k, b);
  }

  /** Height zero means the node stands alone. */
  lemma ZeroStandsAlone(g: Graph, h: seq<Net>, k: nat, a: Addr)
    requires IsHistory(g, h) && k < |h| && NoWrap(h[0]) && k > 0 && a in g
    ensures a in h[0] && a in h[k]
    ensures h[k][a].height == 0 ==> h[k][a] == ResetSelf(h[0][a]) && Rank(h[k][a]) == SelfRank(h[0][a])
  {
    OwnFieldsKept(g, h, k, a);
    OwnFieldsKept(g, h, k - 1, a);
    var alone, b := CaseOf(g, h, k - 1, a);
    if !alone {
      FollowedMeans(g, h[k - 1], a, b, h[k][a]);
      OwnFieldsKept(g, h, k - 1, b);
    }
  }

  // ---- The top node ----

  /** `t` has the greatest (counter, metric, address) among the live nodes. */
  ghost predicate IsTop(net: Net, t: Addr) {
    t in net && forall a :: a in net && a != t ==>
      SelfRank(net[a]) < SelfRank(net[t]) || (SelfRank(net[a]) == SelfRank(net[t]) && a < t)
  }

  lemma TopIsBound(net: Net, t: Addr)
    requires IsTop(net, t)
    ensures Bounded(net, SelfRank(net[t]))
  {
  }

  lemma TopBeats(net: Net, t: Addr, a: Addr)
    requires IsTop(net, t) && a in net && a != t
    ensures SelfRank(net[a]) < SelfRank(net[t]) || (SelfRank(net[a]) == SelfRank(net[t]) && a < t)
  {
  }

  /** After 11 rounds the top node is its own master, for good, whatever it and the others believed at first. */
  lemma TopStandsAlone(g: Graph, h: seq<Net>, t: Addr, k: nat)
    requires IsHistory(g, h) && k < |h| && NoWrap(h[0]) && IsTop(h[0], t) && k > TREE_MAX_HEIGHT && t in g
    ensures t in h[0] && t in h[k] && h[k][t] == ResetSelf(h[0][t])
  {
    OwnFieldsKept(g, h, 0, t);
    hide StoodAlone, Followed, IsHistory, IsTop, Bounded, NoWrap, ElectAt, Rank, SelfRank, ResetSelf, Parent, Adopt,
         Hears;
    OwnFieldsKept(g, h, k, t);
    OwnFieldsKept(g, h, k - 1, t);
    var top, prev := SelfRank(h[0][t]), h[k - 1];
    TopIsBound(h[0], t);
    var alone, b := CaseOf(g, h, k - 1, t);
    if alone {
      AloneIsReset(g, prev, t, h[k][t]);
    } else {
      FollowedMeans(g, prev, t, b, h[k][t]);
      HearsayDies(g, h, top, k - 1, b);
      ZeroStandsAlone(g, h, k - 1, b);
      TopBeats(h[0], t, b);
      assert false;
    }
  }

  lemma AloneIsReset(g: Graph, net: Net, a: Addr, r: State)
    requires WellFormed(g, net) && a in net && StoodAlone(g, net, a, r)
    ensures r == ResetSelf(net[a])
  {
  }

  // ---- A full mesh ----

  ghost predicate FullMesh(g: Graph) {
    forall a, b | a in g && b in g && a != b :: Hears(g, a, b)
  }

  /** Everyone agrees on `t`: it is the root, and everyone else follows it directly. */
  ghost predicate Agreed(net: Net, r: Net, t: Addr)
    requires t in net
  {
    r.Keys == net.Keys &&
    forall a :: a in net ==>
      r[a] == if a == t then ResetSelf(net[t]) else Adopt(ResetSelf(net[a]), ResetSelf(net[t]))
  }

  lemma AgreedMeans(net: Net, r: Net, t: Addr, a: Addr)
    requires t in net && net[t].selfAddr == t && a in net && Agreed(net, r, t)
    ensures r[a].masterAddr == t && r[a].syncAddr == (if a == t then net[a].selfAddr else t)
    ensures r[a].height == (if a == t then 0 else 1)
    ensures r[a].masterMetric == net[t].selfMetric && r[a].masterCounter == net[t].selfCounter
  {
  }

  lemma ResetIsParent(net: Net, a: Addr, t: Addr, own: State)
    requires t in net && net[t] == ResetSelf(own)
    ensures own.selfAddr != a ==> Parent(net, a, t)
    ensures Rank(net[t]) == SelfRank(own) && net[t].height == 0
  {
  }

  /** Whoever a node of the mesh follows after 12 rounds is the top node. */
  lemma MeshParentIsTop(g: Graph, h: seq<Net>, t: Addr, k: nat, a: Addr, b: Addr, top: nat)
    requires IsHistory(g, h) && k + 1 < |h| && IsTop(h[0], t) && NoWrap(h[0]) && top == SelfRank(h[0][t])
    requires k > TREE_MAX_HEIGHT && a in g && t in g && Hears(g, a, t) && WellFormed(g, h[k]) && WellFormed(g, h[k + 1])
    requires h[k][t] == ResetSelf(h[0][t]) && Parent(h[k], a, t) && Rank(h[k][t]) == top
    requires Followed(g, h[k], a, b, h[k + 1][a])
    ensures b == t
  {
    hide StoodAlone, Followed, IsHistory, Bounded, NoWrap, ElectAt, Adopt, ResetSelf, Better, Parent, Rank, SelfRank,
         Hears;
    var start: Net := h[0];
    FollowedMeans(g, h[k], a, b, h[k + 1][a]);
    FollowedIsBest(g, h[k], a, b, t, h[k + 1][a]);
    TopIsBound(start, t);
    HearsayDies(g, h, top, k, b);
    ZeroStandsAlone(g, h, k, b);
    ResetIsParent(h[k], a, t, start[t]);
    if b != t { TopBeats(start, t, b); }
  }

  lemma MeshFollower(g: Graph, h: seq<Net>, t: Addr, k: nat, a: Addr)
    requires IsHistory(g, h) && k < |h| && FullMesh(g) && IsTop(h[0], t) && NoWrap(h[0])
    requires k >= TREE_MAX_HEIGHT + 2 && a in g && t in g && a != t
    ensures a in h[k] && a in h[0] && t in h[0] && h[k][a] == Adopt(ResetSelf(h[0][a]), ResetSelf(h[0][t]))
  {
    hide StoodAlone, Followed, IsHistory, IsTop, Bounded, NoWrap, ElectAt, Adopt, ResetSelf, Better, Parent, Rank,
         SelfRank, Hears;
    var prev := h[k - 1];
    TopStandsAlone(g, h, t, k - 1);
    OwnFieldsKept(g, h, k, a);
    OwnFieldsKept(g, h, k - 1, a);
    ResetIsParent(prev, a, t, h[0][t]);
    assert Hears(g, a, t);
    var alone, b := CaseOf(g, h, k - 1, a);
    if alone {
      AloneMeans(g, prev, a, t, h[k][a]);
      TopBeats(h[0], t, a);
      assert false;
    } else {
      MeshParentIsTop(g, h, t, k - 1, a, b, SelfRank(h[0][t]));
      FollowedMeans(g, prev, a, b, h[k][a]);
    }
  }

  /** In a full mesh everyone agrees on the top node from round 12 on, from any initial states in which no
      advertised height wraps: even when the metric of a vanished master is still circulating. */
  lemma MeshAgrees(g: Graph, h: seq<Net>, t: Addr, k: nat)
    requires IsHistory(g, h) && k < |h| && FullMesh(g) && IsTop(h[0], t) && NoWrap(h[0])
    requires k >= TREE_MAX_HEIGHT + 2
    ensures Agreed(h[0], h[k], t)
  {
    assert StepAt(g, h, 0) && StepAt(g, h, k - 1);
    TopStandsAlone(g, h, t, k);
    forall a | a in g && a != t
      ensures h[k][a] == Adopt(ResetSelf(h[0][a]), ResetSelf(h[0][t]))
    {
      MeshFollower(g, h, t, k, a);
    }
  }

  /** With heights that may wrap, one more round is enough: after the first, every height is at most 10. */
  lemma MeshAgreesFromAnything(g: Graph, h: seq<Net>, t: Addr, k: nat)
    requires IsHistory(g, h) && k < |h| && FullMesh(g) && IsTop(h[0], t)
    requires k >= TREE_MAX_HEIGHT + 3
    ensures Agreed(h[0], h[k], t)
  {
    hide RoundStep, IsHistory, StepAt, Adopt, ResetSelf, WellFormed, SelfRank;
    var later := h[1..];
    LaterIsHistory(g, h);
    FirstRoundKeeps(g, h);
    MeshAgrees(g, later, t, k - 1);
  }

  lemma FirstRoundKeeps(g: Graph, h: seq<Net>)
    requires IsHistory(g, h)
    ensures h[0].Keys == g.Keys && h[1].Keys == g.Keys && NoWrap(h[1])
    ensures forall a :: a in h[0] ==> SelfRank(h[1][a]) == SelfRank(h[0][a]) && ResetSelf(h[1][a]) == ResetSelf(h[0][a])
    ensures forall a, t :: a in h[0] && t in h[0] ==>
              Adopt(ResetSelf(h[1][a]), ResetSelf(h[1][t])) == Adopt(ResetSelf(h[0][a]), ResetSelf(h[0][t]))
  {
    assert StepAt(g, h, 0);
    hide Adopt, ResetSelf, NodeStep;
    forall a | a in g
      ensures a in h[0] && a in h[1] && SelfRank(h[1][a]) == SelfRank(h[0][a])
      ensures ResetSelf(h[1][a]) == ResetSelf(h[0][a]) && h[1][a].height < MAX_U32
    {
      OwnFieldsKept(g, h, 1, a);
    }
  }

  lemma LaterIsHistory(g: Graph, h: seq<Net>)
    requires IsHistory(g, h) && |h| > 2
    ensures IsHistory(g, h[1..])
  {
    hide RoundStep;
    forall j: nat | j < |h| - 2
      ensures StepAt(g, h[1..], j)
    {
      assert StepAt(g, h, j + 1);
    }
  }

  // ---- Any graph ----

  /** A chain of at most `k` "hears" steps leads from `a` to `t`. */
  ghost predicate Within(g: Graph, t: Addr, a: Addr, k: nat)
    decreases k
  {
    if k == 0 then a == t
    else Within(g, t, a, k - 1) || exists b :: Hears(g, a, b) && Within(g, t, b, k - 1)
  }

  /** The distance of `a` from `t` is `e`. */
  ghost predicate AtDistance(g: Graph, t: Addr, a: Addr, e: nat) {
    Within(g, t, a, e) && (e > 0 ==> !Within(g, t, a, e - 1))
  }

  lemma {:induction false} WithinGrows(g: Graph, t: Addr, a: Addr, j: nat, k: nat)
    requires Within(g, t, a, j) && j <= k
    ensures Within(g, t, a, k)
    decreases k
  {
    if j < k { WithinGrows(g, t, a, j, k - 1); }
  }

  /** `t` alone has the greatest (counter, metric). */
  ghost predicate IsSoleTop(net: Net, t: Addr) {
    t in net && forall a :: a in net && a != t ==> SelfRank(net[a]) < SelfRank(net[t])
  }

  /** A node that claims the top metric at height `h` either really is within `h` hops of the top node,
      or repeats hearsay that is at least `k` hops old. */
  lemma {:induction false} ClaimIsHonestOrOld(g: Graph, h: seq<Net>, t: Addr, k: nat, a: Addr)
    requires IsHistory(g, h) && k < |h| && NoWrap(h[0]) && IsSoleTop(h[0], t) && a in g
    ensures a in h[k] && (Rank(h[k][a]) == SelfRank(h[0][t]) ==>
                            h[k][a].height >= k || Within(g, t, a, h[k][a].height))
  {
    hide *;
    OwnFieldsKept(g, h, k, a);
    Live(g, h[k], a);
    if k > 0 {
      OwnFieldsKept(g, h, k - 1, a);
      Live(g, h[0], a);
      Live(g, h[k - 1], a);
      var alone, b := CaseOf(g, h, k - 1, a);
      if alone {
        AloneIsTop(g, h[0], h[k - 1], t, a, h[k][a]);
      } else {
        FollowedMeans(g, h[k - 1], a, b, h[k][a]);
        Live(g, h[k - 1], b);
        ClaimIsHonestOrOld(g, h, t, k - 1, b);
        OwnFieldsKept(g, h, k - 1, b);
        WithinStep(g, t, a, b, h[k - 1][b].height);
      }
    }
  }

  /** A node that stands alone with the top metric is the top node. */
  lemma AloneIsTop(g: Graph, start: Net, prev: Net, t: Addr, a: Addr, r: State)
    requires IsSoleTop(start, t) && a in start && WellFormed(g, prev) && a in prev && StoodAlone(g, prev, a, r)
    requires SelfRank(prev[a]) == SelfRank(start[a])
    ensures t in start && (Rank(r) == SelfRank(start[t]) ==> Within(g, t, a, r.height))
  {
    hide StoodAlone, SelfRank, Rank, ResetSelf, WellFormed;
    AloneIsReset(g, prev, a, r);
    ResetHeight(prev[a]);
    if a != t { SoleTopBeats(start, t, a); }
    WithinStart(g, t);
  }

  lemma ResetHeight(own: State)
    ensures Rank(ResetSelf(own)) == SelfRank(own) && ResetSelf(own).height == 0
  {
  }

  lemma WithinStart(g: Graph, t: Addr)
    ensures Within(g, t, t, 0)
  {
  }

  lemma WithinStep(g: Graph, t: Addr, a: Addr, b: Addr, n: nat)
    requires Hears(g, a, b)
    ensures Within(g, t, b, n) ==> Within(g, t, a, n + 1)
  {
  }

  /** A node at distance `e` that has settled: it knows the top node and follows someone one hop closer. */
  ghost predicate Settled(g: Graph, net: Net, t: Addr, a: Addr, e: nat, r: State)
    requires t in net
  {
    && r.masterAddr == t && r.masterMetric == net[t].selfMetric && r.masterCounter == net[t].selfCounter
    && r.height == e
    && (if e == 0 then r.syncAddr == t else Hears(g, a, r.syncAddr) && AtDistance(g, t, r.syncAddr, e - 1))
  }

  /** Every node at distance `e` has settled. */
  ghost predicate RingSettled(g: Graph, net: Net, t: Addr, e: nat, now: Net)
    requires t in net
  {
    forall b | b in g && AtDistance(g, t, b, e) :: b in now && Settled(g, net, t, b, e, now[b])
  }

  lemma RingMember(g: Graph, net: Net, t: Addr, e: nat, now: Net, b: Addr)
    requires t in net && RingSettled(g, net, t, e, now) && b in g && AtDistance(g, t, b, e)
    ensures b in now && Settled(g, net, t, b, e, now[b])
  {
  }

  /** A settled node can be followed by a node one hop farther away: it does not follow that one itself. */
  lemma SettledIsParent(g: Graph, net: Net, t: Addr, a: Addr, b: Addr, e: nat, now: Net)
    requires t in net && 0 < e <= TREE_MAX_HEIGHT && AtDistance(g, t, a, e)
    requires b in now && Settled(g, net, t, b, e - 1, now[b])
    ensures a != t && Parent(now, a, b) && Rank(now[b]) == SelfRank(net[t]) && now[b].height == e - 1
  {
    WithinGrows(g, t, t, 0, e - 1);
  }

  lemma SoleTopBeats(net: Net, t: Addr, a: Addr)
    requires IsSoleTop(net, t) && a in net && a != t
    ensures SelfRank(net[a]) < SelfRank(net[t]) && IsTop(net, t)
  {
  }

  /** A node with a settled neighbour `b` one hop closer follows somebody at that distance with the top metric. */
  lemma NextHop(g: Graph, first: Net, prev: Net, t: Addr, a: Addr, e: nat, b: Addr, p: Addr, r: State)
    requires WellFormed(g, prev) && a in prev && t in first
    requires 0 < e <= TREE_MAX_HEIGHT && AtDistance(g, t, a, e) && AtDistance(g, t, b, e - 1)
    requires Hears(g, a, b) && b in prev && Settled(g, first, t, b, e - 1, prev[b]) && Followed(g, prev, a, p, r)
    requires p in prev && prev[p].height < MAX_U32 && (Parent(prev, a, p) ==> Rank(prev[p]) <= SelfRank(first[t]))
    requires Rank(prev[p]) == SelfRank(first[t]) ==> prev[p].height > TREE_MAX_HEIGHT || Within(g, t, p, prev[p].height)
    ensures AtDistance(g, t, p, e - 1)
    ensures Settled(g, first, t, p, e - 1, prev[p]) ==> Settled(g, first, t, a, e, r)
  {
    hide Followed, WellFormed, Within, AtDistance, Better, Rank, SelfRank;
    SettledIsParent(g, first, t, a, b, e, prev);
    FollowedMeans(g, prev, a, p, r);
    FollowedIsBest(g, prev, a, p, b, r);
    ParentDistance(g, t, a, p, e, prev[p].height);
  }

  /** A node with a settled neighbour one hop closer does not stand alone. */
  lemma NextHopFollows(g: Graph, h: seq<Net>, t: Addr, a: Addr, e: nat, k: nat, b: Addr) returns (p: Addr)
    requires IsHistory(g, h) && k + 1 < |h| && WellFormed(g, h[k]) && WellFormed(g, h[k + 1])
    requires t in h[0] && a in g && SelfRank(h[k][a]) < SelfRank(h[0][t])
    requires b in g && Hears(g, a, b) && Parent(h[k], a, b) && Rank(h[k][b]) == SelfRank(h[0][t])
    ensures Followed(g, h[k], a, p, h[k + 1][a])
  {
    var alone: bool;
    alone, p := CaseOf(g, h, k, a);
    if alone {
      AloneMeans(g, h[k], a, b, h[k + 1][a]);
      assert false;
    }
  }

  /** The induction step of `GraphSettles`: the neighbours one hop closer have settled. */
  lemma NextHopSettles(g: Graph, h: seq<Net>, t: Addr, a: Addr, e: nat, k: nat)
    requires IsHistory(g, h) && k < |h| && NoWrap(h[0]) && IsSoleTop(h[0], t) && a in g
    requires AtDistance(g, t, a, e) && 0 < e <= TREE_MAX_HEIGHT && k > TREE_MAX_HEIGHT + 1
    requires RingSettled(g, h[0], t, e - 1, h[k - 1])
    ensures a in h[k] && Settled(g, h[0], t, a, e, h[k][a])
  {
    hide StoodAlone, Followed, IsHistory, Bounded, NoWrap, ElectAt, Adopt, ResetSelf, Better, Parent;
    hide Rank, SelfRank, AtDistance, Within, Settled, RingSettled, Hears, RoundStep, IsTop;
    OwnFieldsKept(g, h, k - 1, a);
    OwnFieldsKept(g, h, k, a);
    var first: Net, prev: Net, r := h[0], h[k - 1], h[k][a];
    assert t in first;
    hide IsSoleTop, WellFormed;
    Live(g, prev, a);
    Live(g, first, a);
    var b := CloserNeighbour(g, t, a, e);
    RingMember(g, first, t, e - 1, prev, b);
    SettledIsParent(g, first, t, a, b, e, prev);
    SoleTopBeats(first, t, a);
    var p := NextHopFollows(g, h, t, a, e, k - 1, b);
    HearsayAndClaims(g, h, t, a, p, k - 1, r);
    NextHop(g, first, prev, t, a, e, b, p, r);
    RingMember(g, first, t, e - 1, prev, p);
  }

  /** What a followed node can still claim once hearsay has died. */
  lemma HearsayAndClaims(g: Graph, h: seq<Net>, t: Addr, a: Addr, p: Addr, k: nat, r: State)
    requires IsHistory(g, h) && k < |h| && NoWrap(h[0]) && IsSoleTop(h[0], t) && k > TREE_MAX_HEIGHT
    requires WellFormed(g, h[k]) && a in h[k] && Followed(g, h[k], a, p, r)
    ensures p in g && p in h[k] && h[k][p].height < MAX_U32
    ensures Parent(h[k], a, p) ==> Rank(h[k][p]) <= SelfRank(h[0][t])
    ensures Rank(h[k][p]) == SelfRank(h[0][t]) ==> h[k][p].height > TREE_MAX_HEIGHT || Within(g, t, p, h[k][p].height)
  {
    hide Followed, IsHistory, NoWrap, Rank, SelfRank, Within;
    FollowedMeans(g, h[k], a, p, r);
    TopIsBound(h[0], t);
    HearsayDies(g, h, SelfRank(h[0][t]), k, p);
    ClaimIsHonestOrOld(g, h, t, k, p);
    OwnFieldsKept(g, h, k, p);
  }

  /** On any graph, heard symmetrically or not, with one node of greatest (counter, metric): every node at
      distance e <= 10 from it has settled by round 11 + e and stays so, whatever circulated at first. */
  lemma {:induction false} GraphSettles(g: Graph, h: seq<Net>, t: Addr, a: Addr, e: nat, k: nat)
    requires IsHistory(g, h) && k < |h| && NoWrap(h[0]) && IsSoleTop(h[0], t) && a in g
    requires AtDistance(g, t, a, e) && e <= TREE_MAX_HEIGHT && k >= TREE_MAX_HEIGHT + 1 + e
    ensures a in h[k] && Settled(g, h[0], t, a, e, h[k][a])
    decreases e
  {
    OwnFieldsKept(g, h, k, a);
    if e == 0 {
      TopStandsAlone(g, h, t, k);
    } else {
      forall b | b in g && AtDistance(g, t, b, e - 1)
        ensures b in h[k - 1] && Settled(g, h[0], t, b, e - 1, h[k - 1][b])
      {
        GraphSettles(g, h, t, b, e - 1, k - 1);
      }
      NextHopSettles(g, h, t, a, e, k);
    }
  }

  /** With heights that may wrap at first, one more round is enough. */
  lemma GraphSettlesFromAnything(g: Graph, h: seq<Net>, t: Addr, a: Addr, e: nat, k: nat)
    requires IsHistory(g, h) && k < |h| && IsSoleTop(h[0], t) && a in g
    requires AtDistance(g, t, a, e) && e <= TREE_MAX_HEIGHT && k >= TREE_MAX_HEIGHT + 2 + e
    ensures a in h[k] && Settled(g, h[0], t, a, e, h[k][a])
  {
    hide RoundStep, IsHistory, StepAt, Adopt, WellFormed, SelfRank, AtDistance, Hears;
    var later := h[1..];
    LaterIsHistory(g, h);
    FirstRoundKeeps(g, h);
    GraphSettles(g, later, t, a, e, k - 1);
    assert ResetSelf(h[1][t]) == ResetSelf(h[0][t]);
  }

  lemma CloserNeighbour(g: Graph, t: Addr, a: Addr, e: nat) returns (b: Addr)
    requires AtDistance(g, t, a, e) && e > 0
    ensures Hears(g, a, b) && AtDistance(g, t, b, e - 1)
  {
    b :| Hears(g, a, b) && Within(g, t, b, e - 1);
  }

  lemma ParentDistance(g: Graph, t: Addr, a: Addr, p: Addr, e: nat, n: nat)
    requires AtDistance(g, t, a, e) && e > 0 && Hears(g, a, p) && Within(g, t, p, n) && n <= e - 1
    ensures AtDistance(g, t, p, e - 1) && n == e - 1
  {
    if n < e - 1 {
      assert Within(g, t, a, n + 1);
      WithinGrows(g, t, a, n + 1, e - 1);
      assert false;
    }
  }

  // ---- Fixed points ----

  /** The node reached from `a` after `k` steps along sync addresses, staying put outside the network. */
  ghost function FollowSync(net: Net, a: Addr, k: nat): Addr
    decreases k
  {
    if k == 0 || a !in net then a else FollowSync(net, net[a].syncAddr, k - 1)
  }

  ghost predicate IsRoot(net: Net, a: Addr) {
    a in net && net[a] == ResetSelf(net[a])
  }

  /** A fixed point of the election on any graph is a forest: the sync addresses lead from each node to a root
      in exactly `height` steps, and that root is the master the node believes in. */
  lemma {:induction false} FixedPointIsForest(g: Graph, net: Net, a: Addr)
    requires RoundStep(g, net, net) && a in g
    ensures net[a].height <= TREE_MAX_HEIGHT
    ensures var r := FollowSync(net, a, net[a].height);
            && IsRoot(net, r) && net[a].masterAddr == r
            && net[a].masterMetric == net[r].selfMetric && net[a].masterCounter == net[r].selfCounter
    ensures forall j: nat | j < net[a].height :: !IsRoot(net, FollowSync(net, a, j))
    decreases if a in net then net[a].height else 0
  {
    assert NodeStep(g, net, a, net[a]);
    if !StoodAlone(g, net, a, net[a]) {
      var b :| Followed(g, net, a, b, net[a]);
      FixedPointHeight(g, net, b);
      FollowedMeans(g, net, a, b, net[a]);
      FixedPointIsForest(g, net, b);
      forall j: nat | j < net[a].height
        ensures !IsRoot(net, FollowSync(net, a, j))
      {
        if j > 0 {
          assert FollowSync(net, a, j) == FollowSync(net, b, j - 1);
        }
      }
    }
  }

  /** In particular, when one more election at every node changes nothing. */
  lemma StillRoundIsForest(g: Graph, net: Net, a: Addr)
    requires WellFormed(g, net) && Round(g, net) == net && a in g
    ensures net[a].height <= TREE_MAX_HEIGHT
    ensures var r := FollowSync(net, a, net[a].height);
            && IsRoot(net, r) && net[a].masterAddr == r
            && net[a].masterMetric == net[r].selfMetric && net[a].masterCounter == net[r].selfCounter
    ensures forall j: nat | j < net[a].height :: !IsRoot(net, FollowSync(net, a, j))
  {
    hide NodeStep, RoundStep;
    FixedPointIsForest(g, net, a);
  }

  lemma FixedPointHeight(g: Graph, net: Net, a: Addr)
    requires RoundStep(g, net, net) && a in g
    ensures net[a].height <= TREE_MAX_HEIGHT
  {
    hide ResetSelf, SelfRank, NodeStep;
    StepKeeps(g, net, a, net[a]);
  }

  // ---- Reaching a fixed point ----

  /** Whom a settled node follows: the settled neighbour one hop closer with the greatest address. */
  lemma GreatestHop(g: Graph, h: seq<Net>, t: Addr, a: Addr, e: nat, k: nat, c: Addr)
    requires IsHistory(g, h) && 0 < k < |h| && NoWrap(h[0]) && IsSoleTop(h[0], t) && a in g
    requires AtDistance(g, t, a, e) && 0 < e <= TREE_MAX_HEIGHT && k >= TREE_MAX_HEIGHT + 1 + e
    requires Hears(g, a, c) && c in g && AtDistance(g, t, c, e - 1)
    ensures a in h[k] && h[k][a].syncAddr >= c
  {
    hide StoodAlone, Followed, IsHistory, Bounded, NoWrap, ElectAt, Adopt, ResetSelf, Better, Parent;
    hide Rank, SelfRank, AtDistance, Within, RingSettled, RoundStep, IsTop;
    OwnFieldsKept(g, h, k - 1, a);
    OwnFieldsKept(g, h, k, a);
    var first: Net, prev: Net, r := h[0], h[k - 1], h[k][a];
    assert t in first;
    hide IsSoleTop, WellFormed;
    Live(g, prev, a);
    Live(g, first, a);
    GraphSettles(g, h, t, c, e - 1, k - 1);
    SettledIsParent(g, first, t, a, c, e, prev);
    SoleTopBeats(first, t, a);
    var p := NextHopFollows(g, h, t, a, e, k - 1, c);
    FollowedMeans(g, prev, a, p, r);
    GraphSettles(g, h, t, a, e, k);
    GraphSettles(g, h, t, p, e - 1, k - 1);
    SettledIsParent(g, first, t, a, p, e, prev);
    FollowedIsBest(g, prev, a, p, c, r);
  }

  lemma SettledStays(g: Graph, h: seq<Net>, t: Addr, a: Addr, e: nat, k: nat)
    requires IsHistory(g, h) && k + 1 < |h| && NoWrap(h[0]) && IsSoleTop(h[0], t) && a in g
    requires AtDistance(g, t, a, e) && e <= TREE_MAX_HEIGHT && k >= TREE_MAX_HEIGHT + 1 + e
    ensures a in h[k] && a in h[k + 1] && h[k + 1][a] == h[k][a]
  {
    OwnFieldsKept(g, h, k, a);
    OwnFieldsKept(g, h, k + 1, a);
    hide IsHistory, NoWrap, AtDistance, Hears, IsSoleTop, SelfRank;
    GraphSettles(g, h, t, a, e, k);
    GraphSettles(g, h, t, a, e, k + 1);
    if e > 0 {
      var p, q := h[k][a].syncAddr, h[k + 1][a].syncAddr;
      Live(g, h[k], a);
      GreatestHop(g, h, t, a, e, k, q);
      GreatestHop(g, h, t, a, e, k + 1, p);
    }
  }

  /** Every node is within 10 hops of `t`. */
  ghost predicate Reached(g: Graph, t: Addr) {
    forall a :: a in g ==> exists e: nat :: e <= TREE_MAX_HEIGHT && AtDistance(g, t, a, e)
  }

  /** If one node has the greatest (counter, metric) and every node is within 10 hops of it, then from round 21 on
      nothing changes any more, and sync addresses lead from every node to that one in exactly its distance. */
  lemma GraphReachesFixedPoint(g: Graph, h: seq<Net>, t: Addr, k: nat)
    requires IsHistory(g, h) && k + 1 < |h| && NoWrap(h[0]) && IsSoleTop(h[0], t) && Reached(g, t)
    requires k >= 2 * TREE_MAX_HEIGHT + 1
    ensures h[k + 1] == h[k]
    ensures forall a, e: nat :: a in g && AtDistance(g, t, a, e) ==>
              a in h[k] && h[k][a].height == e && FollowSync(h[k], a, e) == t
  {
    assert StepAt(g, h, k);
    hide IsHistory, NoWrap, AtDistance, NodeStep, IsSoleTop, FollowSync, SelfRank;
    forall a | a in g
      ensures a in h[k] && h[k + 1][a] == h[k][a]
    {
      var e: nat :| e <= TREE_MAX_HEIGHT && AtDistance(g, t, a, e);
      SettledStays(g, h, t, a, e, k);
    }
    assert h[k + 1] == h[k];
    forall a, e: nat | a in g && AtDistance(g, t, a, e)
      ensures a in h[k] && h[k][a].height == e && FollowSync(h[k], a, e) == t
    {
      LeadsToTop(g, h, t, a, e, k);
    }
  }

  lemma LeadsToTop(g: Graph, h: seq<Net>, t: Addr, a: Addr, e: nat, k: nat)
    requires IsHistory(g, h) && k < |h| && NoWrap(h[0]) && IsSoleTop(h[0], t) && Reached(g, t)
    requires RoundStep(g, h[k], h[k])
    requires k >= 2 * TREE_MAX_HEIGHT + 1 && a in g && AtDistance(g, t, a, e)
    ensures a in h[k] && h[k][a].height == e && FollowSync(h[k], a, e) == t
  {
    hide IsHistory, NoWrap, AtDistance, RoundStep, IsSoleTop, SelfRank;
    var d: nat :| d <= TREE_MAX_HEIGHT && AtDistance(g, t, a, d);
    OneDistance(g, t, a, d, e);
    GraphSettles(g, h, t, a, e, k);
    FixedPointIsForest(g, h[k], a);
  }

  /** From any state whatever, nothing changes any more from round 22 on. */
  lemma FixedPointFromAnything(g: Graph, h: seq<Net>, t: Addr, k: nat)
    requires IsHistory(g, h) && k + 1 < |h| && IsSoleTop(h[0], t) && Reached(g, t)
    requires k >= 2 * TREE_MAX_HEIGHT + 2
    ensures h[k + 1] == h[k]
  {
    hide RoundStep, IsHistory, StepAt, Adopt, WellFormed, SelfRank, Reached, AtDistance;
    LaterIsHistory(g, h);
    FirstRoundKeeps(g, h);
    GraphReachesFixedPoint(g, h[1..], t, k - 1);
  }

  lemma OneDistance(g: Graph, t: Addr, a: Addr, d: nat, e: nat)
    requires AtDistance(g, t, a, d) && AtDistance(g, t, a, e)
    ensures d == e
  {
    if d < e { WithinGrows(g, t, a, d, e - 1); }
    if e < d { WithinGrows(g, t, a, e, d - 1); }
  }
}
