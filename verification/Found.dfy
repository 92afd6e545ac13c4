/** Which lookups find a shadow, and which, told from the steps of the threads alone. */
module Found {
  import opened Wrappers
  import opened Shadows
  import opened Recency
  import opened Ahead

  /** The context a step looks up, makes a shadow for or drops; releasing and destroying are about none. */
  function About(step: Step): Option<Ctx> {
    match step
    case DoGet(c) => Some(c)
    case DoCreate(c, memory) => Some(c)
    case DoFree(c) => Some(c)
    case DoRelease(s) => None
    case DoDestroy(s) => None
  }

  /** The step hands out a reference to its context's shadow: one that it finds, or makes. */
  ghost predicate HandsOut(before: seq<Step>, step: Step)
    decreases |before|, 3
  {
    match step
    case DoGet(c) => Has(before, c)
    case DoCreate(c, memory) => memory || Has(before, c)
    case DoFree(c) => false
    case DoRelease(s) => false
    case DoDestroy(s) => false
  }

  ghost predicate LastAbout(steps: seq<Step>, c: Ctx, j: nat) {
    j < |steps| && About(steps[j]) == Some(c) && forall i | j < i < |steps| :: About(steps[i]) != Some(c)
  }

  /** The contexts whose shadows were handed out after step `j`, without those dropped since. */
  ghost function Since(steps: seq<Step>, j: nat): set<Ctx>
    decreases |steps|, 0
  {
    if |steps| <= j + 1 then {}
    else
      var before, step := steps[..|steps| - 1], steps[|steps| - 1];
      match About(step)
      case None => Since(before, j)
      case Some(c) => if HandsOut(before, step) then Since(before, j) + {c} else Since(before, j) - {c}
  }

  /** At no time since step `j` have there been 256 of them. */
  ghost predicate Roomy(steps: seq<Step>, j: nat)
    decreases |steps|, 1
  {
    forall i | j < i <= |steps| :: |Since(steps[..i], j)| < 256
  }

  /** The last step about this context handed out its shadow, and at no time since have there been 256 others. */
  ghost predicate Has(steps: seq<Step>, c: Ctx)
    decreases |steps|, 2
  {
    exists j: nat :: LastAbout(steps, c, j) && HandsOut(steps[..j], steps[j]) && Roomy(steps, j)
  }

  /** A shadow is made for a context that has none. */
  ghost predicate Makes(before: seq<Step>, step: Step) {
    step.DoCreate? && step.memory && !Has(before, step.c)
  }

  ghost function Made(steps: seq<Step>): nat {
    if steps == [] then 0
    else
      var n := |steps| - 1;
      Made(steps[..n]) + if Makes(steps[..n], steps[n]) then 1 else 0
  }

  ghost predicate LastMaking(steps: seq<Step>, c: Ctx, m: nat) {
    && m < |steps| && Makes(steps[..m], steps[m]) && About(steps[m]) == Some(c)
    && forall i | m < i < |steps| :: !(Makes(steps[..i], steps[i]) && About(steps[i]) == Some(c))
  }

  // ---- The list tells the same ----

  ghost predicate Told(l: Shadows.Lru, steps: seq<Step>, c: Ctx) {
    && (Find(l, c).Some? <==> Has(steps, c))
    && (Find(l, c).Some? ==> forall j: nat | LastAbout(steps, c, j) :: Front(l, c) == Since(steps, j))
  }

  /** A new first in a list of at most 256. */
  lemma FrontShortened(l: Shadows.Lru, x: Ctx, s: Id, c: Ctx)
    requires DistinctKeys(l) && |l| <= 256 && Find(l, x).None? && x != c
    ensures var l' := [(x, s)] + Shortened(l);
            && DistinctKeys(l') && |l'| <= 256
            && (Find(l', c).Some? <==> Find(l, c).Some? && |Front(l, c) + {x}| < 256)
            && (Find(l', c).Some? ==> Front(l', c) == Front(l, c) + {x})
  {
    var short := Shortened(l);
    assert DistinctKeys(short) && forall i | 0 <= i < |short| :: short[i].0 != x;
    ShortFront(l, c);
    if Find(l, c).Some? { NotAhead(l, x, c); }
    hide DistinctKeys, Find, Front, Shortened;
    FrontDistinct(x, s, short);
    FrontBehind((x, s), short, c);
  }

  /** In the list with room for one more. */
  lemma ShortFront(l: Shadows.Lru, c: Ctx)
    requires DistinctKeys(l) && |l| <= 256
    ensures Find(Shortened(l), c).Some? <==> Find(l, c).Some? && |Front(l, c)| < 255
    ensures Find(Shortened(l), c).Some? ==> Front(Shortened(l), c) == Front(l, c)
  {
    var short := Shortened(l);
    if Find(l, c).Some? {
      FrontSize(l, c);
      if Find(l, c).value < |short| { FindIs(short, c, Find(l, c).value); }
    }
    if Find(short, c).Some? { FindIs(l, c, Find(short, c).value); }
  }

  lemma NotAhead(l: Shadows.Lru, x: Ctx, c: Ctx)
    requires Find(l, x).None? && Find(l, c).Some?
    ensures x !in Front(l, c) && |Front(l, c) + {x}| == |Front(l, c)| + 1
  {
  }

  lemma {:induction false} ListTells(steps: seq<Step>, c: Ctx)
    ensures var l := AfterSteps(steps).lru; DistinctKeys(l) && |l| <= 256 && Told(l, steps, c)
    decreases |steps|
  {
    if steps == [] {
    } else {
      var n := |steps| - 1;
      var before, step := steps[..n], steps[n];
      ListTells(before, c);
      var w := AfterSteps(before);
      var w' := Stepped(w, step);
      assert AfterSteps(steps) == w';
      hide AfterSteps;
      match About(step)
      case None =>
        assert w'.lru == w.lru;
        UnaboutStep(w.lru, steps, c);
      case Some(x) =>
        ListTells(before, x);
        StepKeepsList(w, step);
        if x == c { ToldItself(w, steps, c); } else { ToldOther(w, steps, x, c); }
    }
  }

  lemma StepKeepsList(w: Sharing, step: Step)
    requires DistinctKeys(w.lru) && |w.lru| <= 256
    ensures DistinctKeys(Stepped(w, step).lru) && |Stepped(w, step).lru| <= 256
  {
    match step {
      case DoGet(c) => UsedMembers(w.lru, c);
      case DoCreate(c, memory) =>
        UsedMembers(w.lru, c);
        if Find(w.lru, c).None? { FrontShortened(w.lru, c, w.next, c + 1); }
      case DoFree(c) => RemovedKeepsDistinct(w.lru, c);
      case DoRelease(s) =>
      case DoDestroy(s) =>
    }
  }

  lemma SameLast(steps: seq<Step>, c: Ctx, j: nat)
    requires steps != [] && About(steps[|steps| - 1]) != Some(c)
    ensures LastAbout(steps, c, j) <==> LastAbout(steps[..|steps| - 1], c, j)
  {
  }

  lemma UnaboutStep(l: Shadows.Lru, steps: seq<Step>, c: Ctx)
    requires steps != [] && About(steps[|steps| - 1]) == None && DistinctKeys(l) && |l| <= 256
    requires Told(l, steps[..|steps| - 1], c)
    ensures Told(l, steps, c)
  {
    if Find(l, c).Some? { FrontSize(l, c); }
    ToldNext(l, l, steps, c);
  }

  lemma ToldItself(w: Sharing, steps: seq<Step>, c: Ctx)
    requires steps != [] && About(steps[|steps| - 1]) == Some(c) && DistinctKeys(w.lru) && |w.lru| <= 256
    requires Told(w.lru, steps[..|steps| - 1], c)
    ensures Told(Stepped(w, steps[|steps| - 1]).lru, steps, c)
  {
    var n := |steps| - 1;
    var l, step := w.lru, steps[n];
    var l' := Stepped(w, step).lru;
    HasAtOnce(steps, c);
    if HandsOut(steps[..n], step) {
      if Find(l, c).Some? {
        UsedFirst(l, c);
      } else {
        FrontShortened(l, c, w.next, c + 1);
        FindIs([(c, w.next)] + Shortened(l), c, 0);
      }
      assert Find(l', c) == Some(0);
    } else {
      RemovedKeepsDistinct(l, c);
      assert Find(l', c) == None;
    }
    hide HandsOut, Has, Stepped, Find;
  }

  /** The step just made is about this context. */
  lemma HasAtOnce(steps: seq<Step>, c: Ctx)
    requires steps != [] && About(steps[|steps| - 1]) == Some(c)
    ensures Has(steps, c) <==> HandsOut(steps[..|steps| - 1], steps[|steps| - 1])
    ensures forall j: nat | LastAbout(steps, c, j) :: Since(steps, j) == {}
  {
    var n := |steps| - 1;
    assert forall j: nat :: LastAbout(steps, c, j) <==> j == n;
    assert steps[..n + 1] == steps && Since(steps, n) == {};
    assert Roomy(steps, n);
    hide HandsOut, Since, Roomy;
  }

  lemma ToldOther(w: Sharing, steps: seq<Step>, x: Ctx, c: Ctx)
    requires steps != [] && About(steps[|steps| - 1]) == Some(x) && x != c && DistinctKeys(w.lru) && |w.lru| <= 256
    requires Told(w.lru, steps[..|steps| - 1], c) && Told(w.lru, steps[..|steps| - 1], x)
    requires var l' := Stepped(w, steps[|steps| - 1]).lru; DistinctKeys(l') && |l'| <= 256
    ensures Told(Stepped(w, steps[|steps| - 1]).lru, steps, c)
  {
    var n := |steps| - 1;
    var before, step, l := steps[..n], steps[n], w.lru;
    var l' := Stepped(w, step).lru;
    if !HandsOut(before, step) {
      FrontRemoved(l, x, c);
      assert l' == Removed(l, x);
    } else if Find(l, x).Some? {
      FrontUsed(l, x, c);
    } else {
      FrontShortened(l, x, w.next, c);
    }
    if Find(l', c).Some? { FrontSize(l', c); }
    hide HandsOut, Stepped, Find, Used, Removed, Front, Since, Has;
    ToldNext(l, l', steps, c);
  }

  lemma ToldNext(l: Shadows.Lru, l': Shadows.Lru, steps: seq<Step>, c: Ctx)
    requires steps != [] && About(steps[|steps| - 1]) != Some(c) && Told(l, steps[..|steps| - 1], c)
    requires var step := steps[|steps| - 1];
             var out, x := HandsOut(steps[..|steps| - 1], step), About(step);
             && (Find(l', c).Some? ==>
                   && Find(l, c).Some? && |Front(l', c)| < 256
                   && Front(l', c) == if x.None? then Front(l, c) else if out then Front(l, c) + {x.value}
                                      else Front(l, c) - {x.value})
             && (Find(l, c).Some? && (x.Some? && out ==> |Front(l, c) + {x.value}| < 256) ==> Find(l', c).Some?)
    ensures Told(l', steps, c)
  {
    var n := |steps| - 1;
    var before := steps[..n];
    forall j: nat
      ensures LastAbout(steps, c, j) <==> LastAbout(before, c, j)
    {
      SameLast(steps, c, j);
    }
    if j: nat :| LastAbout(before, c, j) {
      HasNext(steps, c, j);
      assert forall i: nat | LastAbout(before, c, i) :: i == j;
      hide HandsOut, Find, Front, Since, Has, LastAbout;
    }
  }

  /** A step about another context, or about none. */
  lemma HasNext(steps: seq<Step>, c: Ctx, j: nat)
    requires steps != [] && About(steps[|steps| - 1]) != Some(c) && LastAbout(steps[..|steps| - 1], c, j)
    ensures Has(steps, c) <==> Has(steps[..|steps| - 1], c) && |Since(steps, j)| < 256
    ensures var before, step := steps[..|steps| - 1], steps[|steps| - 1];
            Since(steps, j) ==
            match About(step) case None => Since(before, j)
            case Some(x) => if HandsOut(before, step) then Since(before, j) + {x} else Since(before, j) - {x}
  {
    var n := |steps| - 1;
    var before := steps[..n];
    SameLast(steps, c, j);
    assert steps[..j] == before[..j] && steps[j] == before[j];
    assert forall i: nat | LastAbout(before, c, i) || LastAbout(steps, c, i) :: i == j;
    RoomyNext(steps, j);
    hide HandsOut, Roomy, LastAbout;
  }

  lemma RoomyNext(steps: seq<Step>, j: nat)
    requires j + 1 < |steps|
    ensures Roomy(steps, j) <==> Roomy(steps[..|steps| - 1], j) && |Since(steps, j)| < 256
  {
    hide Since;
    var n := |steps| - 1;
    assert steps[..n + 1] == steps;
    assert forall i | j < i <= n :: steps[..i] == steps[..n][..i];
  }

  // ---- Which shadow ----

  lemma {:induction false} NextIsMade(steps: seq<Step>)
    ensures AfterSteps(steps).next == Made(steps)
    decreases |steps|
  {
    if steps != [] {
      var n := |steps| - 1;
      NextIsMade(steps[..n]);
      var c := if steps[n].DoCreate? then steps[n].c else 0;
      ListTells(steps[..n], c);
      hide Has, Since, Find;
    }
  }

  /** After any steps of any threads a context is found if and only if the last step about it handed out its shadow
      and at no time since have there been 256 others, not counting those dropped. It is then found with the shadow
      that was last made for it, shadows being numbered in the order in which they were made. */
  lemma {:induction false} FoundExactly(steps: seq<Step>, c: Ctx)
    ensures var found := Find(AfterSteps(steps).lru, c);
            && (found.Some? <==> Has(steps, c))
            && (found.Some? ==> exists m: nat :: LastMaking(steps, c, m)
                                                 && AfterSteps(steps).lru[found.value].1 == Made(steps[..m]))
    decreases |steps|
  {
    ListTells(steps, c);
    if Find(AfterSteps(steps).lru, c).Some? {
      var n := |steps| - 1;
      assert steps != [];
      var before, step := steps[..n], steps[n];
      var w := AfterSteps(before);
      ListTells(before, c);
      NextIsMade(before);
      FoundExactly(before, c);
      hide AfterSteps;
      var e := Stepped(w, step).lru[Find(Stepped(w, step).lru, c).value];
      assert Stepped(w, step) == AfterSteps(steps);
      hide Has, Since;
      EntryFrom(w, step, c, e);
      if Makes(before, step) && step.c == c {
        assert LastMaking(steps, c, n);
      } else {
        var m: nat :| LastMaking(before, c, m) && w.lru[Find(w.lru, c).value].1 == Made(before[..m]);
        assert steps[..m] == before[..m];
        StillLastMaking(steps, c, m);
      }
    }
  }

  lemma StillLastMaking(steps: seq<Step>, c: Ctx, m: nat)
    requires steps != [] && LastMaking(steps[..|steps| - 1], c, m)
    requires !(Makes(steps[..|steps| - 1], steps[|steps| - 1]) && About(steps[|steps| - 1]) == Some(c))
    ensures LastMaking(steps, c, m)
  {
    hide Makes;
    assert forall i | 0 <= i < |steps| :: steps[..|steps| - 1][..i] == steps[..i];
  }

  /** An entry is the one that was there before, or new. */
  lemma EntryFrom(w: Sharing, step: Step, c: Ctx, e: (Ctx, Id))
    requires DistinctKeys(w.lru) && |w.lru| <= 256 && e in Stepped(w, step).lru && e.0 == c
    ensures if step.DoCreate? && step.memory && step.c == c && Find(w.lru, c).None? then e == (c, w.next)
            else Find(w.lru, c).Some? && w.lru[Find(w.lru, c).value] == e
  {
    match step {
      case DoGet(x) => UsedMembers(w.lru, x);
      case DoCreate(x, memory) => UsedMembers(w.lru, x);
      case DoFree(x) => RemovedMembers(w.lru, x);
      case DoRelease(s) =>
      case DoDestroy(s) =>
    }
    hide Used, Removed;
    if !(step.DoCreate? && step.memory && step.c == c && Find(w.lru, c).None?) {
      assert e in w.lru;
      var i :| 0 <= i < |w.lru| && w.lru[i] == e;
      FindIs(w.lru, c, i);
    }
  }
}
