/** Networks on any graph whose nodes elect on views of each other that may be out of date: whatever state they start
    from, they settle, and where they settle depends on the graph and the nodes' own fields alone. */
module Stabilization {
  import opened Machine
  import opened Election
  import opened Convergence

  // ---- Runs with delays ----

  /** Some state that node `b` had at most `d` steps before `h[k]`. */
  ghost predicate Recent(h: seq<Net>, k: nat, d: nat, b: Addr, s: State) {
    exists j: nat | j <= k <= j + d && j < |h| :: b in h[j] && s == h[j][b]
  }

  /** A picture of the network in which nothing is older than `d` steps. */
  ghost predicate Seen(g: Graph, h: seq<Net>, k: nat, d: nat, seen: Net) {
    WellFormed(g, seen) && forall b :: b in g ==> Recent(h, k, d, b, seen[b])
  }

  /** Node `a` shows in `h[k + 1]` what an election on such a picture, its own at every step, makes of it. */
  ghost predicate Elected(g: Graph, h: seq<Net>, k: nat, d: nat, a: Addr)
    requires k + 1 < |h| && a in h[k + 1] && a in g
  {
    exists seen: Net :: Seen(g, h, k, d, seen) && a in seen && NodeStep(g, seen, a, h[k + 1][a])
  }

  ghost predicate DelayedStep(g: Graph, h: seq<Net>, k: nat, d: nat)
    requires k + 1 < |h|
  {
    WellFormed(g, h[k]) && WellFormed(g, h[k + 1]) && forall a :: a in g ==> Elected(g, h, k, d, a)
  }

  /** Every node elects again and again, and each of its elections, when it still shows in a network, was run on views
      that are at most `d` steps old by then. */
  ghost predicate IsRun(g: Graph, h: seq<Net>, d: nat) {
    |h| > 1 && forall k: nat | k < |h| - 1 :: DelayedStep(g, h, k, d)
  }

  /** Synchronous rounds are runs without delay. */
  lemma HistoryIsRun(g: Graph, h: seq<Net>)
    requires IsHistory(g, h)
    ensures IsRun(g, h, 0)
  {
    forall k: nat | k < |h| - 1
      ensures DelayedStep(g, h, k, 0)
    {
      assert StepAt(g, h, k);
      hide NodeStep;
      forall a | a in g
        ensures Elected(g, h, k, 0, a)
      {
        assert forall b :: b in g ==> Recent(h, k, 0, b, h[k][b]);
        assert Seen(g, h, k, 0, h[k]);
      }
    }
  }

  /** Node `a` last elected in step `j`, on the network as it was, and has done nothing since. */
  ghost predicate LastElected(g: Graph, h: seq<Net>, k: nat, a: Addr, j: nat)
    requires j <= k < |h| - 1
  {
    WellFormed(g, h[j]) && a in h[j] && a in h[j + 1] && a in h[k + 1] &&
    NodeStep(g, h[j], a, h[j + 1][a]) && h[k + 1][a] == h[j + 1][a]
  }

  ghost predicate Pauses(g: Graph, h: seq<Net>, k: nat, d: nat, a: Addr)
    requires k < |h| - 1
  {
    exists j: nat | j <= k <= j + d :: LastElected(g, h, k, a, j)
  }

  /** So are elections at any times of each node's own, if none of them pauses for more than `d` steps. */
  lemma SparseElectionsAreRun(g: Graph, h: seq<Net>, d: nat)
    requires |h| > 1 && forall net <- h :: WellFormed(g, net)
    requires forall k: nat, a | k < |h| - 1 && a in g :: Pauses(g, h, k, d, a)
    ensures IsRun(g, h, d)
  {
    hide NodeStep, WellFormed;
    forall k: nat | k < |h| - 1
      ensures DelayedStep(g, h, k, d)
    {
      assert h[k] in h && h[k + 1] in h;
      forall a | a in g
        ensures a in h[k + 1] && Elected(g, h, k, d, a)
      {
        Live(g, h[k + 1], a);
        SparseElection(g, h, k, d, a);
      }
    }
  }

  lemma SparseElection(g: Graph, h: seq<Net>, k: nat, d: nat, a: Addr)
    requires k < |h| - 1 && a in g && a in h[k + 1] && Pauses(g, h, k, d, a)
    ensures Elected(g, h, k, d, a)
  {
    hide NodeStep, WellFormed;
    var j: nat :| j <= k <= j + d && LastElected(g, h, k, a, j);
    forall b | b in g
      ensures b in h[j] && Recent(h, k, d, b, h[j][b])
    {
      Live(g, h[j], b);
    }
    assert Seen(g, h, k, d, h[j]);
  }

  // ---- Where a network settles ----

  /** What every node shows on its own. */
  ghost function Own(net: Net): Net { map a | a in net :: ResetSelf(net[a]) }

  ghost function Among(heard: seq<Addr>, s: set<Addr>): (r: seq<Addr>)
    ensures forall b :: b in r <==> b in heard && b in s
  {
    if heard == [] then []
    else (if heard[0] in s then [heard[0]] else []) + Among(heard[1..], s)
  }

  /** The graph in which only the nodes of `s` are heard. */
  ghost function Toward(g: Graph, s: set<Addr>): Graph { map a | a in g :: Among(g[a], s) }

  /** States for some of the nodes. */
  ghost predicate Partial(g: Graph, own: Net, fixed: Net) {
    WellFormed(g, own) && fixed.Keys <= g.Keys && forall b :: b in fixed ==> fixed[b].selfAddr == b
  }

  lemma TowardWellFormed(g: Graph, own: Net, fixed: Net)
    requires Partial(g, own, fixed)
    ensures WellFormed(Toward(g, fixed.Keys), own + fixed)
  {
    var u := Toward(g, fixed.Keys);
    assert u.Keys == g.Keys;
    forall a, b | Hears(u, a, b)
      ensures b in u && b != a
    {
      assert Hears(g, a, b);
    }
  }

  /** What a node elects if it hears, of its neighbours, those with a fixed state. */
  ghost function Choice(g: Graph, own: Net, fixed: Net, a: Addr): State
    requires Partial(g, own, fixed) && a in g
  {
    TowardWellFormed(g, own, fixed);
    ElectAt(Toward(g, fixed.Keys), own + fixed, a)
  }

  /** Higher rank first, then lower height. */
  ghost function Level(s: State): nat {
    Rank(s) * 11 + if s.height <= 10 then 10 - s.height else 0
  }

  /** Node `a` does better with the fixed nodes than any other node that is left, or as well with a greater address. */
  ghost predicate IsNext(g: Graph, own: Net, fixed: Net, a: Addr)
    requires Partial(g, own, fixed)
  {
    && a in g && a !in fixed
    && forall b :: b in g && b !in fixed ==>
                     !Before(Level(Choice(g, own, fixed, a)), a, Level(Choice(g, own, fixed, b)), b)
  }

  predicate Before(m: nat, a: Addr, n: nat, b: Addr) { m < n || (m == n && a < b) }

  lemma {:induction false} GreatestExists(g: Graph, own: Net, fixed: Net, left: set<Addr>) returns (a: Addr)
    requires Partial(g, own, fixed) && left != {} && left <= g.Keys
    ensures a in left
    ensures forall b :: b in left ==> !Before(Level(Choice(g, own, fixed, a)), a, Level(Choice(g, own, fixed, b)), b)
    decreases |left|
  {
    hide Choice, Level, Partial;
    a :| a in left;
    if left != {a} {
      var b := GreatestExists(g, own, fixed, left - {a});
      if Before(Level(Choice(g, own, fixed, a)), a, Level(Choice(g, own, fixed, b)), b) { a := b; }
    }
  }

  ghost function Next(g: Graph, own: Net, fixed: Net): (a: Addr)
    requires Partial(g, own, fixed) && fixed.Keys != g.Keys
    ensures IsNext(g, own, fixed, a) && a in g && a !in fixed
  {
    NextExists(g, own, fixed);
    var a :| IsNext(g, own, fixed, a);
    a
  }

  lemma Unsettled(g: Graph, fixed: Net)
    requires fixed.Keys <= g.Keys && fixed.Keys != g.Keys
    ensures g.Keys - fixed.Keys != {}
  {
    if g.Keys - fixed.Keys == {} {
      forall b | b in g
        ensures b in fixed.Keys
      {
        assert b !in g.Keys - fixed.Keys;
      }
    }
  }

  lemma NextExists(g: Graph, own: Net, fixed: Net)
    requires Partial(g, own, fixed) && fixed.Keys != g.Keys
    ensures exists a :: IsNext(g, own, fixed, a)
  {
    Unsettled(g, fixed);
    hide Choice, Level, Before;
    var a := GreatestExists(g, own, fixed, g.Keys - fixed.Keys);
    assert IsNext(g, own, fixed, a);
  }

  /** One node after the other is given the state it elects on those before it. */
  ghost function Settle(g: Graph, own: Net, fixed: Net): (net: Net)
    requires Partial(g, own, fixed)
    ensures net.Keys == g.Keys
    decreases |g.Keys - fixed.Keys|
  {
    if fixed.Keys == g.Keys then fixed
    else
      OneMore(g, own, fixed);
      Settle(g, own, Extended(g, own, fixed))
  }

  /** With one more node settled. */
  ghost function Extended(g: Graph, own: Net, fixed: Net): Net
    requires Partial(g, own, fixed) && fixed.Keys != g.Keys
  {
    var a := Next(g, own, fixed);
    fixed[a := Choice(g, own, fixed, a)]
  }

  lemma OneMore(g: Graph, own: Net, fixed: Net)
    requires Partial(g, own, fixed) && fixed.Keys != g.Keys
    ensures var more := Extended(g, own, fixed);
            && Partial(g, own, more) && fixed.Keys < more.Keys
            && |g.Keys - more.Keys| == |g.Keys - fixed.Keys| - 1
  {
    hide IsNext, Choice, Next, Partial;
    var a := Next(g, own, fixed);
    ChoiceIsStep(g, own, fixed, a);
    Fixing(g, own, fixed, a, Choice(g, own, fixed, a));
  }

  lemma Fixing(g: Graph, own: Net, fixed: Net, a: Addr, s: State)
    requires Partial(g, own, fixed) && a in g && a !in fixed && s.selfAddr == a
    ensures var more := fixed[a := s];
            && Partial(g, own, more) && fixed.Keys < more.Keys
            && |g.Keys - more.Keys| == |g.Keys - fixed.Keys| - 1
  {
    hide WellFormed;
    OneLess(g.Keys, fixed.Keys, a);
    assert fixed[a := s].Keys == fixed.Keys + {a};
  }

  lemma OneLess(all: set<Addr>, some: set<Addr>, a: Addr)
    requires a in all && a !in some
    ensures |all - (some + {a})| == |all - some| - 1
  {
    assert all - (some + {a}) == (all - some) - {a};
  }

  /** Where the network settles: computed from the graph and the nodes' own fields. */
  ghost function Target(g: Graph, net: Net): Net
    requires WellFormed(g, net)
  {
    OwnWellFormed(g, net);
    Settle(g, Own(net), map[])
  }

  lemma OwnWellFormed(g: Graph, net: Net)
    requires WellFormed(g, net)
    ensures Partial(g, Own(net), map[])
  {
  }

  lemma ChoiceIsStep(g: Graph, own: Net, fixed: Net, a: Addr)
    requires Partial(g, own, fixed) && a in g
    ensures WellFormed(Toward(g, fixed.Keys), own + fixed) && a in own + fixed
    ensures NodeStep(Toward(g, fixed.Keys), own + fixed, a, Choice(g, own, fixed, a))
    ensures Choice(g, own, fixed, a).selfAddr == a
  {
    TowardWellFormed(g, own, fixed);
    ElectionIsNodeStep(Toward(g, fixed.Keys), own + fixed, a);
  }

  // ---- One step of one node ----

  /** A node has one way to go. */
  lemma StepIsUnique(g: Graph, net: Net, a: Addr, r: State, r': State)
    requires WellFormed(g, net) && a in net && NodeStep(g, net, a, r) && NodeStep(g, net, a, r')
    ensures r == r'
  {
    hide Better, Parent, Adopt, ResetSelf;
    if !StoodAlone(g, net, a, r) && !StoodAlone(g, net, a, r') {
      var b :| Followed(g, net, a, b, r);
      var b' :| Followed(g, net, a, b', r');
      BetterByRank(net[b], net[b']);
      BetterByRank(net[b'], net[b]);
      assert net[b].selfAddr == b && net[b'].selfAddr == b';
    }
  }

  /** What `a` sees of the settled nodes, and of itself, is what they settle at and what it is. */
  ghost predicate Agrees(own: Net, fixed: Net, seen: Net, a: Addr) {
    && a in seen && a in own && a !in fixed && ResetSelf(seen[a]) == ResetSelf(own[a])
    && forall b :: b in fixed ==> b in seen && seen[b] == fixed[b]
  }

  lemma Base(own: Net, fixed: Net, seen: Net, a: Addr)
    requires Agrees(own, fixed, seen, a)
    ensures a in own + fixed && (own + fixed)[a] == own[a] && ResetSelf((own + fixed)[a]) == ResetSelf(seen[a])
    ensures forall b :: b in fixed ==> b in seen && b in own + fixed && (own + fixed)[b] == seen[b]
  {
  }

  lemma HearsToward(g: Graph, s: set<Addr>, a: Addr, b: Addr)
    requires a in g
    ensures Hears(Toward(g, s), a, b) <==> Hears(g, a, b) && b in s
  {
  }

  lemma SameAlone(g: Graph, own: Net, fixed: Net, seen: Net, a: Addr, r: State)
    requires Partial(g, own, fixed) && WellFormed(g, seen) && Agrees(own, fixed, seen, a) && StoodAlone(g, seen, a, r)
    ensures r == Choice(g, own, fixed, a)
  {
    ChoiceIsStep(g, own, fixed, a);
    Live(g, seen, a);
    Base(own, fixed, seen, a);
    hide Choice, Better, Eligible, ResetSelf, NodeStep, WellFormed, Toward, Hears, Partial, Agrees;
    var u, net := Toward(g, fixed.Keys), own + fixed;
    forall b: Addr | Hears(u, a, b)
      ensures !(Parent(net, a, b) && Better(net[b], ResetSelf(net[a])))
    {
      HearsToward(g, fixed.Keys, a, b);
    }
    assert StoodAlone(u, net, a, r);
    StepIsUnique(u, net, a, r, Choice(g, own, fixed, a));
  }

  lemma SameFollowed(g: Graph, own: Net, fixed: Net, seen: Net, a: Addr, b: Addr, r: State)
    requires Partial(g, own, fixed) && WellFormed(g, seen) && Agrees(own, fixed, seen, a)
    requires b in fixed && Followed(g, seen, a, b, r)
    ensures r == Choice(g, own, fixed, a)
  {
    ChoiceIsStep(g, own, fixed, a);
    Live(g, seen, a);
    Base(own, fixed, seen, a);
    HearsToward(g, fixed.Keys, a, b);
    hide Choice, Better, Eligible, ResetSelf, Adopt, WellFormed, Toward, Hears, Partial, Agrees;
    var u, net := Toward(g, fixed.Keys), own + fixed;
    forall c: Addr | Hears(u, a, c)
      ensures !(Parent(net, a, c) && Better(net[c], net[b]))
    {
      HearsToward(g, fixed.Keys, a, c);
    }
    assert Followed(u, net, a, b, r);
    StepIsUnique(u, net, a, r, Choice(g, own, fixed, a));
  }

  /** A node that shows `r` because it follows `b`, unsettled, which it saw in state `s`. */
  ghost predicate Follows(g: Graph, own: Net, fixed: Net, a: Addr, b: Addr, s: State, r: State) {
    && b in g && b !in fixed && a in own && s.selfAddr == b && s.height < TREE_MAX_HEIGHT
    && r == Adopt(ResetSelf(own[a]), s) && Better(s, ResetSelf(own[a]))
    && forall c | c in fixed && Hears(g, a, c) && Eligible(a, Candidate(fixed[c], true)) :: !Better(fixed[c], s)
  }

  lemma FollowsUnsettled(g: Graph, own: Net, fixed: Net, seen: Net, a: Addr, b: Addr, r: State)
    requires Partial(g, own, fixed) && WellFormed(g, seen) && Agrees(own, fixed, seen, a)
    requires b in g && b !in fixed && Followed(g, seen, a, b, r) && seen[b].height <= TREE_MAX_HEIGHT
    ensures Follows(g, own, fixed, a, b, seen[b], r)
  {
    FollowedMeans(g, seen, a, b, r);
    hide Adopt, ResetSelf, Better;
    forall c | c in fixed && Hears(g, a, c) && Eligible(a, Candidate(fixed[c], true))
      ensures !Better(fixed[c], seen[b])
    {
      assert seen[c] == fixed[c] && Parent(seen, a, c);
    }
  }

  // ---- Runs ----

  /** The picture on which the state of node `a` in `h[k]` was elected. */
  lemma PictureOf(g: Graph, h: seq<Net>, d: nat, k: nat, a: Addr) returns (seen: Net)
    requires IsRun(g, h, d) && 0 < k < |h| && a in g
    ensures WellFormed(g, h[k]) && Seen(g, h, k - 1, d, seen) && WellFormed(g, seen) && a in seen && a in h[k]
    ensures NodeStep(g, seen, a, h[k][a])
  {
    hide IsRun, NodeStep, WellFormed, Recent;
    StepHolds(g, h, d, k - 1, a);
    seen :| Seen(g, h, k - 1, d, seen) && a in seen && NodeStep(g, seen, a, h[k][a]);
  }

  lemma StepHolds(g: Graph, h: seq<Net>, d: nat, k: nat, a: Addr)
    requires IsRun(g, h, d) && k + 1 < |h| && a in g
    ensures WellFormed(g, h[k + 1]) && a in h[k + 1] && Elected(g, h, k, d, a)
  {
    hide Elected, WellFormed;
    assert DelayedStep(g, h, k, d);
    Live(g, h[k + 1], a);
  }

  /** When it saw `b` like that. */
  lemma WhenSeen(g: Graph, h: seq<Net>, k: nat, d: nat, seen: Net, b: Addr) returns (j: nat)
    requires Seen(g, h, k, d, seen) && b in g
    ensures b in seen && j <= k <= j + d && j < |h| && b in h[j] && seen[b] == h[j][b]
  {
    Live(g, seen, b);
    hide WellFormed;
    assert Recent(h, k, d, b, seen[b]);
    j :| j <= k <= j + d && j < |h| && b in h[j] && seen[b] == h[j][b];
  }

  lemma RunStarts(g: Graph, h: seq<Net>, d: nat)
    requires IsRun(g, h, d)
    ensures WellFormed(g, h[0])
  {
    assert DelayedStep(g, h, 0, d);
  }

  /** Own fields never change, and heights are at most 10 from step 1 on. */
  lemma {:induction false} OwnKept(g: Graph, h: seq<Net>, d: nat, k: nat, a: Addr)
    requires IsRun(g, h, d) && k < |h| && a in g
    ensures WellFormed(g, h[0]) && WellFormed(g, h[k]) && a in h[0] && a in h[k]
    ensures ResetSelf(h[k][a]) == ResetSelf(h[0][a]) && (k > 0 ==> h[k][a].height <= TREE_MAX_HEIGHT)
    decreases k
  {
    hide *;
    RunStarts(g, h, d);
    Live(g, h[0], a);
    if k > 0 {
      var seen := PictureOf(g, h, d, k, a);
      Live(g, h[k], a);
      var j := WhenSeen(g, h, k - 1, d, seen, a);
      StepKeeps(g, seen, a, h[k][a]);
      OwnKept(g, h, d, j, a);
    }
  }

  /** From step `k0` on, these nodes show these states. */
  ghost predicate Stable(h: seq<Net>, fixed: Net, k0: nat) {
    forall k: nat, b | k0 <= k < |h| && b in fixed :: b in h[k] && h[k][b] == fixed[b]
  }

  /** What has been reached: some nodes are settled at states that depend on the graph and the own fields alone. */
  ghost predicate Progress(g: Graph, h: seq<Net>, d: nat, own: Net, fixed: Net, k0: nat) {
    && IsRun(g, h, d) && Partial(g, own, fixed) && Stable(h, fixed, k0) && k0 > 0
    && forall a :: a in g ==> a in h[0] && ResetSelf(own[a]) == ResetSelf(h[0][a])
  }

  /** What an unsettled node shows: its choice among the settled nodes, or it follows an unsettled one. */
  lemma Outcome(g: Graph, h: seq<Net>, d: nat, own: Net, fixed: Net, k0: nat, k: nat, a: Addr)
    returns (b: Addr, j: nat)
    requires Progress(g, h, d, own, fixed, k0) && k0 + d < k < |h| && a in g && a !in fixed
    ensures a in h[k] && (h[k][a] == Choice(g, own, fixed, a) || (
              && b in g && b !in fixed && j < k <= j + d + 1 && b in h[j]
              && Follows(g, own, fixed, a, b, h[j][b], h[k][a])))
  {
    hide *;
    b, j := a, 0;
    IsProgress(g, h, d, own, fixed, k0);
    OwnKept(g, h, d, k, a);
    var seen := PictureOf(g, h, d, k, a);
    SeenAgrees(g, h, d, own, fixed, k0, k, a, seen);
    Live(g, seen, a);
    var alone, p := StepCase(g, seen, a, h[k][a]);
    if alone {
      SameAlone(g, own, fixed, seen, a, h[k][a]);
    } else {
      FollowedMeans(g, seen, a, p, h[k][a]);
      if p in fixed {
        SameFollowed(g, own, fixed, seen, a, p, h[k][a]);
      } else {
        b := p;
        j := WhenSeen(g, h, k - 1, d, seen, p);
        OwnKept(g, h, d, j, p);
        FollowsUnsettled(g, own, fixed, seen, a, p, h[k][a]);
      }
    }
  }

  lemma IsProgress(g: Graph, h: seq<Net>, d: nat, own: Net, fixed: Net, k0: nat)
    requires Progress(g, h, d, own, fixed, k0)
    ensures IsRun(g, h, d) && Partial(g, own, fixed) && k0 > 0
  {
  }

  lemma StepCase(g: Graph, net: Net, a: Addr, r: State) returns (alone: bool, b: Addr)
    requires WellFormed(g, net) && a in net && NodeStep(g, net, a, r)
    ensures if alone then StoodAlone(g, net, a, r) else Followed(g, net, a, b, r)
  {
    alone, b := StoodAlone(g, net, a, r), a;
    if !alone { b :| Followed(g, net, a, b, r); }
  }

  lemma SeenAgrees(g: Graph, h: seq<Net>, d: nat, own: Net, fixed: Net, k0: nat, k: nat, a: Addr, seen: Net)
    requires Progress(g, h, d, own, fixed, k0) && k0 + d < k < |h| && a in g && a !in fixed
    requires Seen(g, h, k - 1, d, seen)
    ensures Agrees(own, fixed, seen, a)
  {
    hide ResetSelf, WellFormed, IsRun;
    var j := WhenSeen(g, h, k - 1, d, seen, a);
    OwnKept(g, h, d, j, a);
    Live(g, own, a);
    forall b | b in fixed
      ensures b in seen && seen[b] == fixed[b]
    {
      var i := WhenSeen(g, h, k - 1, d, seen, b);
    }
  }

  lemma AdoptLevel(own: State, s: State)
    requires s.height < TREE_MAX_HEIGHT
    ensures var r := Adopt(own, s); r.height == s.height + 1 && Rank(r) == Rank(s) && Level(r) + 1 == Level(s)
  {
  }

  /** What exceeds every choice is hearsay among the unsettled, and gets older. */
  lemma {:induction false} Ages(g: Graph, h: seq<Net>, d: nat, own: Net, fixed: Net, k0: nat, m: nat,
                                n: nat, k: nat, a: Addr)
    requires Progress(g, h, d, own, fixed, k0) && k < |h| && a in g && a !in fixed && k >= k0 + n * (d + 1)
    requires forall b :: b in g && b !in fixed ==> Level(Choice(g, own, fixed, b)) <= m
    ensures a in h[k] && (Level(h[k][a]) <= m || h[k][a].height >= n)
    decreases n
  {
    hide *;
    IsProgress(g, h, d, own, fixed, k0);
    OwnKept(g, h, d, k, a);
    if n > 0 {
      Steps(n, d);
      var b, j := Outcome(g, h, d, own, fixed, k0, k, a);
      if h[k][a] != Choice(g, own, fixed, a) {
        FollowsMeans(g, own, fixed, a, b, h[j][b], h[k][a]);
        Ages(g, h, d, own, fixed, k0, m, n - 1, j, b);
      }
    }
  }

  lemma FollowsMeans(g: Graph, own: Net, fixed: Net, a: Addr, b: Addr, s: State, r: State)
    requires Follows(g, own, fixed, a, b, s, r)
    ensures b in g && b !in fixed && s.selfAddr == b && a in own && Better(s, ResetSelf(own[a]))
    ensures r.height == s.height + 1 && Level(r) + 1 == Level(s)
  {
    AdoptLevel(ResetSelf(own[a]), s);
  }

  lemma Steps(n: nat, d: nat)
    requires n > 0
    ensures n * (d + 1) == (n - 1) * (d + 1) + d + 1 && (n - 1) * (d + 1) >= 0
  {
  }

  // ---- Settling ----

  lemma BetterLevel(x: State, s: State)
    requires Level(x) > Level(s) && x.height <= TREE_MAX_HEIGHT && s.height <= TREE_MAX_HEIGHT
    ensures Better(x, s)
  {
    BetterByRank(x, s);
  }

  /** Whoever beats a node that is as good on its own is a root of the same rank and a greater address. */
  lemma BeatsOwn(own: State, s: State)
    requires Better(s, ResetSelf(own)) && Level(s) <= Level(ResetSelf(own)) && s.height <= TREE_MAX_HEIGHT
    ensures s.height == 0 && Level(s) == Level(ResetSelf(own)) && s.selfAddr > own.selfAddr
  {
    BetterByRank(s, ResetSelf(own));
  }

  /** A choice is the node itself, or one level below the settled node that it follows. */
  lemma ChoiceCase(g: Graph, own: Net, fixed: Net, a: Addr) returns (alone: bool, b: Addr)
    requires Partial(g, own, fixed) && a in g && a !in fixed
    requires Low(fixed)
    ensures a in own && own[a].selfAddr == a
    ensures alone ==> Choice(g, own, fixed, a) == ResetSelf(own[a])
    ensures !alone ==> && b in fixed && Hears(g, a, b) && Eligible(a, Candidate(fixed[b], true))
                       && Level(fixed[b]) == Level(Choice(g, own, fixed, a)) + 1
    ensures Choice(g, own, fixed, a).height <= TREE_MAX_HEIGHT
  {
    ChoiceIsStep(g, own, fixed, a);
    Live(g, own, a);
    var u, net, r := Toward(g, fixed.Keys), own + fixed, Choice(g, own, fixed, a);
    hide Choice, Better, Level, Adopt, ResetSelf, Toward, Hears;
    alone, b := StepCase(u, net, a, r);
    StepKeeps(u, net, a, r);
    if !alone {
      HearsToward(g, fixed.Keys, a, b);
      FollowedMeans(u, net, a, b, r);
      AdoptLevel(ResetSelf(own[a]), fixed[b]);
    }
  }

  /** After 12 times the delay the next node shows its choice for good. */
  lemma NextSettles(g: Graph, h: seq<Net>, d: nat, own: Net, fixed: Net, k0: nat, k: nat, a: Addr)
    requires Progress(g, h, d, own, fixed, k0) && IsNext(g, own, fixed, a) && k0 + 12 * (d + 1) <= k < |h|
    requires Low(fixed)
    ensures a in h[k] && h[k][a] == Choice(g, own, fixed, a)
  {
    IsProgress(g, h, d, own, fixed, k0);
    NextBound(g, own, fixed, a);
    hide *;
    var b, j := Outcome(g, h, d, own, fixed, k0, k, a);
    var c := Choice(g, own, fixed, a);
    if h[k][a] != c {
      var s := h[j][b];
      FollowsMeans(g, own, fixed, a, b, s, h[k][a]);
      Ages(g, h, d, own, fixed, k0, Level(c), 11, j, b);
      OwnKept(g, h, d, j, b);
      Eleven();
      assert Level(s) <= Level(c);
      var alone, x := ChoiceCase(g, own, fixed, a);
      if alone {
        BeatsOwn(own[a], s);
        RootsChoice(g, h, d, own, fixed, k0, j, b);
        NextIsGreatest(g, own, fixed, a, b);
        assert false;
      } else {
        FixedLow(fixed, x);
        FollowedBeats(g, own, fixed, a, b, s, h[k][a], x);
        BetterLevel(fixed[x], s);
        assert false;
      }
    }
  }

  lemma Eleven()
    ensures TREE_MAX_HEIGHT < 11
  {
  }

  lemma FixedLow(fixed: Net, x: Addr)
    requires x in fixed && Low(fixed)
    ensures fixed[x].height <= TREE_MAX_HEIGHT
  {
  }

  lemma FollowedBeats(g: Graph, own: Net, fixed: Net, a: Addr, b: Addr, s: State, r: State, x: Addr)
    requires Follows(g, own, fixed, a, b, s, r) && x in fixed && Hears(g, a, x)
    requires Eligible(a, Candidate(fixed[x], true))
    ensures !Better(fixed[x], s)
  {
  }

  /** No choice that is left is better. */
  lemma NextBound(g: Graph, own: Net, fixed: Net, a: Addr)
    requires Partial(g, own, fixed) && IsNext(g, own, fixed, a)
    ensures a in g && a !in fixed
    ensures forall b :: b in g && b !in fixed ==> Level(Choice(g, own, fixed, b)) <= Level(Choice(g, own, fixed, a))
  {
    hide Choice, Level;
  }

  lemma NextIsGreatest(g: Graph, own: Net, fixed: Net, a: Addr, b: Addr)
    requires Partial(g, own, fixed) && IsNext(g, own, fixed, a) && b in g && b !in fixed
    ensures Level(Choice(g, own, fixed, b)) == Level(Choice(g, own, fixed, a)) ==> b <= a
  {
    hide Choice, Level;
  }

  /** An unsettled node that shows height 0 shows its choice. */
  lemma RootsChoice(g: Graph, h: seq<Net>, d: nat, own: Net, fixed: Net, k0: nat, j: nat, b: Addr)
    requires Progress(g, h, d, own, fixed, k0) && k0 + d < j < |h| && b in g && b !in fixed
    requires b in h[j] && h[j][b].height == 0
    ensures h[j][b] == Choice(g, own, fixed, b)
  {
    hide *;
    IsProgress(g, h, d, own, fixed, k0);
    var p, i := Outcome(g, h, d, own, fixed, k0, j, b);
    if h[j][b] != Choice(g, own, fixed, b) { FollowsMeans(g, own, fixed, b, p, h[i][p], h[j][b]); }
  }

  // ---- All nodes settle ----

  ghost predicate Low(fixed: Net) { forall c :: c in fixed ==> fixed[c].height <= TREE_MAX_HEIGHT }

  /** The steps it takes `n` nodes to settle one after the other. */
  ghost function Duration(d: nat, n: nat): nat { if n == 0 then 0 else 12 * (d + 1) + Duration(d, n - 1) }

  lemma {:induction false} DurationIs(d: nat, n: nat)
    ensures Duration(d, n) == 12 * (d + 1) * n
  {
    if n > 0 {
      DurationIs(d, n - 1);
      Distribute(12 * (d + 1), n);
    }
  }

  lemma Distribute(e: nat, n: nat)
    ensures e * n == e + e * (n - 1)
  {
  }

  lemma {:induction false} AllSettle(g: Graph, h: seq<Net>, d: nat, own: Net, fixed: Net, k0: nat, net: Net, end: nat)
    requires Partial(g, own, fixed) && Progress(g, h, d, own, fixed, k0) && Low(fixed)
    requires net == Settle(g, own, fixed) && end == k0 + Duration(d, |g.Keys - fixed.Keys|)
    ensures Stable(h, net, end)
    decreases |g.Keys - fixed.Keys|
  {
    hide *;
    SettleStep(g, own, fixed);
    if fixed.Keys == g.Keys {
      assert g.Keys - fixed.Keys == {};
      DurationStep(d, 0);
      ProgressIsStable(g, h, d, own, fixed, k0, net, end);
    } else {
      OneMore(g, own, fixed);
      var more, k1 := Extended(g, own, fixed), k0 + 12 * (d + 1);
      DurationStep(d, |g.Keys - fixed.Keys|);
      assert net == Settle(g, own, more);
      assert end == k1 + Duration(d, |g.Keys - more.Keys|);
      MoreProgress(g, h, d, own, fixed, k0, more, k1);
      AllSettle(g, h, d, own, more, k1, net, end);
    }
  }

  lemma SettleStep(g: Graph, own: Net, fixed: Net)
    requires Partial(g, own, fixed)
    ensures if fixed.Keys == g.Keys then Settle(g, own, fixed) == fixed
            else && Partial(g, own, Extended(g, own, fixed))
                 && Settle(g, own, fixed) == Settle(g, own, Extended(g, own, fixed))
  {
    hide Partial, Extended;
    if fixed.Keys != g.Keys { OneMore(g, own, fixed); }
  }

  lemma DurationStep(d: nat, n: nat)
    ensures Duration(d, 0) == 0 && (n > 0 ==> Duration(d, n) == 12 * (d + 1) + Duration(d, n - 1))
  {
  }

  lemma ProgressIsStable(g: Graph, h: seq<Net>, d: nat, own: Net, fixed: Net, k0: nat, net: Net, end: nat)
    requires Progress(g, h, d, own, fixed, k0) && net == fixed && end == k0
    ensures Stable(h, net, end)
  {
  }

  lemma MoreProgress(g: Graph, h: seq<Net>, d: nat, own: Net, fixed: Net, k0: nat, more: Net, k1: nat)
    requires Partial(g, own, fixed) && Progress(g, h, d, own, fixed, k0) && Low(fixed) && fixed.Keys != g.Keys
    requires more == Extended(g, own, fixed) && k1 == k0 + 12 * (d + 1)
    ensures Progress(g, h, d, own, more, k1) && Low(more)
  {
    hide *;
    var a := Next(g, own, fixed);
    var s := Choice(g, own, fixed, a);
    OneMore(g, own, fixed);
    ExtendedIs(g, own, fixed);
    var alone, b := ChoiceCase(g, own, fixed, a);
    LowToo(fixed, a, s);
    forall k: nat | k1 <= k < |h|
      ensures a in h[k] && h[k][a] == s
    {
      NextSettles(g, h, d, own, fixed, k0, k, a);
    }
    Gained(g, h, d, own, fixed, k0, a, s, k1);
  }

  lemma ExtendedIs(g: Graph, own: Net, fixed: Net)
    requires Partial(g, own, fixed) && fixed.Keys != g.Keys
    ensures var a := Next(g, own, fixed); Extended(g, own, fixed) == fixed[a := Choice(g, own, fixed, a)]
  {
    hide Partial, Next, Choice;
  }

  lemma LowToo(fixed: Net, a: Addr, s: State)
    requires Low(fixed) && s.height <= TREE_MAX_HEIGHT
    ensures Low(fixed[a := s])
  {
  }

  lemma Gained(g: Graph, h: seq<Net>, d: nat, own: Net, fixed: Net, k0: nat, a: Addr, s: State, k1: nat)
    requires Progress(g, h, d, own, fixed, k0) && k0 <= k1 && Partial(g, own, fixed[a := s])
    requires forall k: nat | k1 <= k < |h| :: a in h[k] && h[k][a] == s
    ensures Progress(g, h, d, own, fixed[a := s], k1)
  {
    hide IsRun, Partial, ResetSelf;
  }

  lemma NothingSettled(g: Graph, h: seq<Net>, d: nat)
    requires IsRun(g, h, d)
    ensures WellFormed(g, h[0]) && Partial(g, Own(h[0]), map[]) && Progress(g, h, d, Own(h[0]), map[], 1) && Low(map[])
  {
    RunStarts(g, h, d);
    OwnWellFormed(g, h[0]);
    hide IsRun, Partial, WellFormed;
    forall a | a in g
      ensures a in h[0]
    {
      Live(g, h[0], a);
    }
  }

  lemma SameKeys(g: Graph, h: seq<Net>, d: nat, k: nat)
    requires IsRun(g, h, d) && 0 < k < |h|
    ensures h[k].Keys == g.Keys
  {
    assert DelayedStep(g, h, k - 1, d);
    hide Elected, IsRun;
  }

  /** On any graph and from any state, with views and pauses of at most `d` steps: after 12 (d + 1) steps for each node
      the network is the one that the graph and the nodes' own fields determine, and stays so. */
  lemma EveryRunSettles(g: Graph, h: seq<Net>, d: nat, k: nat)
    requires IsRun(g, h, d) && k < |h| && k > 12 * (d + 1) * |g|
    ensures WellFormed(g, h[0]) && h[k] == Target(g, h[0])
  {
    hide *;
    NothingSettled(g, h, d);
    var own: Net, none: Net, net, end := Own(h[0]), map[], Target(g, h[0]), 1 + Duration(d, |g|);
    NoneLess(g, none);
    TargetIs(g, h[0]);
    AllSettle(g, h, d, own, none, 1, net, end);
    DurationIs(d, |g|);
    SameKeys(g, h, d, k);
    StableAt(h, net, end, k);
  }

  lemma NoneLess(g: Graph, none: Net)
    requires none == map[]
    ensures |g.Keys - none.Keys| == |g|
  {
    assert g.Keys - none.Keys == g.Keys;
  }

  lemma TargetIs(g: Graph, net: Net)
    requires WellFormed(g, net)
    ensures Partial(g, Own(net), map[]) && Target(g, net) == Settle(g, Own(net), map[]) && Target(g, net).Keys == g.Keys
  {
    OwnWellFormed(g, net);
    hide Partial, Settle;
  }

  lemma StableAt(h: seq<Net>, net: Net, k0: nat, k: nat)
    requires Stable(h, net, k0) && k0 <= k < |h| && h[k].Keys == net.Keys
    ensures h[k] == net
  {
  }

  // ---- The one fixed point ----

  /** Where the network settles nothing changes any more. */
  lemma TargetIsFixed(g: Graph, net: Net)
    requires WellFormed(g, net)
    ensures RoundStep(g, Target(g, net), Target(g, net))
  {
    hide *;
    var n := 12 * |g| + 2;
    var h := Rounds(g, net, n);
    HistoryIsRun(g, h);
    EveryRunSettles(g, h, 0, n - 1);
    EveryRunSettles(g, h, 0, n);
    RoundAt(g, h, n - 1);
  }

  lemma RoundAt(g: Graph, h: seq<Net>, k: nat)
    requires IsHistory(g, h) && k + 1 < |h|
    ensures RoundStep(g, h[k], h[k + 1])
  {
    hide RoundStep;
    assert StepAt(g, h, k);
  }

  /** And nowhere else: it is the only network with these own fields in which no election changes anything. */
  lemma OneFixedPoint(g: Graph, net: Net)
    requires RoundStep(g, net, net)
    ensures WellFormed(g, net) && net == Target(g, net)
  {
    assert WellFormed(g, net);
    hide RoundStep, Target, WellFormed, IsRun;
    var n := 12 * |g| + 2;
    var h := seq(n, _ => net);
    forall k: nat | k < |h| - 1
      ensures StepAt(g, h, k)
    {
    }
    HistoryIsRun(g, h);
    EveryRunSettles(g, h, 0, n - 1);
  }

  /** So from some step on, in every run on every graph, each node's sync addresses lead in exactly `height` steps to a
      root, and that root is the master the node believes in. */
  lemma EveryRunEndsInForest(g: Graph, h: seq<Net>, d: nat, k: nat, a: Addr)
    requires IsRun(g, h, d) && k < |h| && k > 12 * (d + 1) * |g| && a in g
    ensures a in h[k] && h[k][a].height <= TREE_MAX_HEIGHT
    ensures var r := FollowSync(h[k], a, h[k][a].height);
            && IsRoot(h[k], r) && h[k][a].masterAddr == r
            && h[k][a].masterMetric == h[k][r].selfMetric && h[k][a].masterCounter == h[k][r].selfCounter
    ensures forall j: nat | j < h[k][a].height :: !IsRoot(h[k], FollowSync(h[k], a, j))
  {
    hide *;
    EveryRunSettles(g, h, d, k);
    TargetIsFixed(g, h[0]);
    OwnKept(g, h, d, k, a);
    FixedPointIsForest(g, h[k], a);
  }

  /** Two runs of nodes with the same own fields end alike, whatever they start from and however they are delayed. */
  lemma RunsAgree(g: Graph, h: seq<Net>, d: nat, k: nat, h': seq<Net>, d': nat, k': nat)
    requires IsRun(g, h, d) && k < |h| && k > 12 * (d + 1) * |g|
    requires IsRun(g, h', d') && k' < |h'| && k' > 12 * (d' + 1) * |g|
    requires Own(h[0]) == Own(h'[0])
    ensures h[k] == h'[k']
  {
    hide *;
    EveryRunSettles(g, h, d, k);
    EveryRunSettles(g, h', d', k');
    TargetIs(g, h[0]);
    TargetIs(g, h'[0]);
  }
}
